/**
 Levenshtein edit distance: the recurrence over prefixes, its metric
 properties, and the dynamic-programming table that
 `levenshteinDistance(s, t)` fills, rows indexed by `t` and columns by `s`.
 */
module EditDistance {

  function Max(a: int, b: int): int
  {
    if a >= b then a else b
  }

  function Min(a: int, b: int): int
  {
    if a <= b then a else b
  }

  /** `Math.min` of three values. */
  function Min3(a: int, b: int, c: int): int
  {
    Min(a, Min(b, c))
  }

  /** The substitution cost: nothing for equal characters, one otherwise. */
  function Cost(a: char, b: char): (n: nat)
    ensures n == 0 <==> a == b
    ensures n <= 1
  {
    if a == b then 0 else 1
  }

  /** A substitution through a middle character costs no less than a direct one. */
  lemma CostTriangle(a: char, b: char, c: char)
    ensures Cost(a, c) <= Cost(a, b) + Cost(b, c)
  {
  }

  /**
   The edit distance between the first `i` characters of `x` and the first
   `j` characters of `y`: the fewest single-character deletions, insertions
   and substitutions that turn one prefix into the other. An empty prefix is
   as far from the other as the other is long; otherwise see `Best`.
   */
  function Dist(x: string, y: string, i: nat, j: nat): nat
    requires i <= |x| && j <= |y|
    decreases i + j, 1
  {
    if i == 0 then j
    else if j == 0 then i
    else Best(x, y, i, j)
  }

  /**
   The recurrence on the last characters of two non-empty prefixes: the
   cheapest of deleting `x`'s last character, inserting `y`'s last character,
   and matching the two last characters (free when they are equal).
   */
  function Best(x: string, y: string, i: nat, j: nat): nat
    requires 0 < i <= |x| && 0 < j <= |y|
    decreases i + j, 0
  {
    Min3(Dist(x, y, i - 1, j) + 1,
         Dist(x, y, i, j - 1) + 1,
         Dist(x, y, i - 1, j - 1) + Cost(x[i - 1], y[j - 1]))
  }

  /** The distance between two prefixes is at most the larger length. */
  lemma {:induction false} DistUpper(x: string, y: string, i: nat, j: nat)
    requires i <= |x| && j <= |y|
    ensures Dist(x, y, i, j) <= Max(i, j)
    decreases i + j
  {
    if i > 0 && j > 0 {
      DistUpper(x, y, i - 1, j - 1);
      assert Dist(x, y, i, j) <= Dist(x, y, i - 1, j - 1) + Cost(x[i - 1], y[j - 1]);
    }
  }

  /** The distance between two prefixes is at least how much longer the first is. */
  lemma {:induction false} DistLowerFirst(x: string, y: string, i: nat, j: nat)
    requires i <= |x| && j <= |y|
    ensures i - j <= Dist(x, y, i, j)
    decreases i + j
  {
    if i > 0 && j > 0 {
      DistLowerFirst(x, y, i - 1, j);
      DistLowerFirst(x, y, i, j - 1);
      DistLowerFirst(x, y, i - 1, j - 1);
    }
  }

  /** The distance between two prefixes is at least how much longer the second is. */
  lemma {:induction false} DistLowerSecond(x: string, y: string, i: nat, j: nat)
    requires i <= |x| && j <= |y|
    ensures j - i <= Dist(x, y, i, j)
    decreases i + j
  {
    if i > 0 && j > 0 {
      DistLowerSecond(x, y, i - 1, j);
      DistLowerSecond(x, y, i, j - 1);
      DistLowerSecond(x, y, i - 1, j - 1);
    }
  }

  /**
   The distance between two prefixes is at least the difference of their
   lengths and at most the larger length.
   */
  lemma DistBounds(x: string, y: string, i: nat, j: nat)
    requires i <= |x| && j <= |y|
    ensures Dist(x, y, i, j) <= Max(i, j)
    ensures i - j <= Dist(x, y, i, j) && j - i <= Dist(x, y, i, j)
  {
    DistUpper(x, y, i, j);
    DistLowerFirst(x, y, i, j);
    DistLowerSecond(x, y, i, j);
  }

  /**
   The Levenshtein distance between two whole strings: at least the
   difference of their lengths and at most the larger length.
   */
  function Lev(x: string, y: string): (d: nat)
    ensures d <= Max(|x|, |y|)
    ensures |x| - |y| <= d && |y| - |x| <= d
  {
    DistBounds(x, y, |x|, |y|);
    Dist(x, y, |x|, |y|)
  }

  /** `Dist` reads nothing beyond the two prefixes it is given. */
  lemma {:induction false} DistSamePrefixes(x: string, y: string, x': string, y': string, i: nat, j: nat)
    requires i <= |x| && j <= |y| && i <= |x'| && j <= |y'|
    requires x[..i] == x'[..i] && y[..j] == y'[..j]
    ensures Dist(x, y, i, j) == Dist(x', y', i, j)
    decreases i + j
  {
    if i > 0 && j > 0 {
      assert x[i - 1] == x[..i][i - 1] == x'[i - 1];
      assert y[j - 1] == y[..j][j - 1] == y'[j - 1];
      assert x[..i - 1] == x[..i][..i - 1];
      assert x'[..i - 1] == x'[..i][..i - 1];
      assert y[..j - 1] == y[..j][..j - 1];
      assert y'[..j - 1] == y'[..j][..j - 1];
      DistSamePrefixes(x, y, x', y', i - 1, j);
      DistSamePrefixes(x, y, x', y', i, j - 1);
      DistSamePrefixes(x, y, x', y', i - 1, j - 1);
    }
  }

  /** Each cell of the recurrence is the Levenshtein distance of the two prefixes. */
  lemma DistIsLevOfPrefixes(x: string, y: string, i: nat, j: nat)
    requires i <= |x| && j <= |y|
    ensures Dist(x, y, i, j) == Lev(x[..i], y[..j])
  {
    DistSamePrefixes(x, y, x[..i], y[..j], i, j);
  }

  /** A prefix is at distance zero from itself. */
  lemma {:induction false} DistSelf(x: string, i: nat)
    requires i <= |x|
    ensures Dist(x, x, i, i) == 0
    decreases i
  {
    if i > 0 {
      DistSelf(x, i - 1);
    }
  }

  /** Distance zero between two prefixes means the prefixes are equal. */
  lemma {:induction false} DistZeroEqual(x: string, y: string, i: nat, j: nat)
    requires i <= |x| && j <= |y|
    requires Dist(x, y, i, j) == 0
    ensures x[..i] == y[..j]
    decreases i + j
  {
    if i > 0 && j > 0 {
      assert Dist(x, y, i - 1, j - 1) == 0 && x[i - 1] == y[j - 1];
      DistZeroEqual(x, y, i - 1, j - 1);
      assert x[..i] == x[..i - 1] + [x[i - 1]];
      assert y[..j] == y[..j - 1] + [y[j - 1]];
    }
  }

  /** The recurrence is the same read from either side. */
  lemma {:induction false} DistSymmetric(x: string, y: string, i: nat, j: nat)
    requires i <= |x| && j <= |y|
    ensures Dist(x, y, i, j) == Dist(y, x, j, i)
    decreases i + j
  {
    if i > 0 && j > 0 {
      DistSymmetric(x, y, i - 1, j);
      DistSymmetric(x, y, i, j - 1);
      DistSymmetric(x, y, i - 1, j - 1);
    }
  }

  /** Deleting the last character of the first prefix costs one edit. */
  lemma DeleteBound(x: string, y: string, i: nat, j: nat)
    requires 0 < i <= |x| && j <= |y|
    ensures Dist(x, y, i, j) <= Dist(x, y, i - 1, j) + 1
  {
    if j == 0 {
      DistBounds(x, y, i - 1, j);
    }
  }

  /** Inserting the last character of the second prefix costs one edit. */
  lemma InsertBound(x: string, y: string, i: nat, j: nat)
    requires i <= |x| && 0 < j <= |y|
    ensures Dist(x, y, i, j) <= Dist(x, y, i, j - 1) + 1
  {
    if i == 0 {
      DistBounds(x, y, i, j - 1);
    }
  }

  /** Matching the two last characters costs their substitution. */
  lemma SubstituteBound(x: string, y: string, i: nat, j: nat)
    requires 0 < i <= |x| && 0 < j <= |y|
    ensures Dist(x, y, i, j) <= Dist(x, y, i - 1, j - 1) + Cost(x[i - 1], y[j - 1])
  {
  }

  /** Every cell past the borders equals one of its three candidates. */
  lemma DistStep(x: string, y: string, i: nat, j: nat)
    requires 0 < i <= |x| && 0 < j <= |y|
    ensures || Dist(x, y, i, j) == Dist(x, y, i - 1, j) + 1
            || Dist(x, y, i, j) == Dist(x, y, i, j - 1) + 1
            || Dist(x, y, i, j) == Dist(x, y, i - 1, j - 1) + Cost(x[i - 1], y[j - 1])
  {
  }

  /** The triangle inequality, on prefixes. */
  lemma {:induction false} DistTriangle(a: string, b: string, c: string, i: nat, j: nat, k: nat)
    requires i <= |a| && j <= |b| && k <= |c|
    ensures Dist(a, c, i, k) <= Dist(a, b, i, j) + Dist(b, c, j, k)
    decreases i + j + k, 1
  {
    if i == 0 || j == 0 || k == 0 {
      // the length bounds settle every case with an empty prefix
      DistBounds(a, c, i, k);
      DistBounds(a, b, i, j);
      DistBounds(b, c, j, k);
    } else {
      // which of its three candidates each of the two cells takes
      DistStep(a, b, i, j);
      DistStep(b, c, j, k);
      if Dist(a, b, i, j) == Dist(a, b, i - 1, j) + 1 {
        TriangleDeleteFirst(a, b, c, i, j, k);
      } else if Dist(b, c, j, k) == Dist(b, c, j, k - 1) + 1 {
        TriangleInsertLast(a, b, c, i, j, k);
      } else if Dist(a, b, i, j) == Dist(a, b, i, j - 1) + 1 {
        if Dist(b, c, j, k) == Dist(b, c, j - 1, k) + 1 {
          TriangleInsertDelete(a, b, c, i, j, k);
        } else {
          TriangleInsertSubstitute(a, b, c, i, j, k);
        }
      } else if Dist(b, c, j, k) == Dist(b, c, j - 1, k) + 1 {
        TriangleSubstituteDelete(a, b, c, i, j, k);
      } else {
        TriangleSubstituteSubstitute(a, b, c, i, j, k);
      }
    }
  }

  /** Case: the way from `a` to `b` ends by deleting `a`'s last character. */
  lemma {:induction false} TriangleDeleteFirst(a: string, b: string, c: string, i: nat, j: nat, k: nat)
    requires 0 < i <= |a| && 0 < j <= |b| && 0 < k <= |c|
    requires Dist(a, b, i, j) == Dist(a, b, i - 1, j) + 1
    ensures Dist(a, c, i, k) <= Dist(a, b, i, j) + Dist(b, c, j, k)
    decreases i + j + k, 0
  {
    DistTriangle(a, b, c, i - 1, j, k);
    DeleteBound(a, c, i, k);
  }

  /** Case: the way from `b` to `c` ends by inserting `c`'s last character. */
  lemma {:induction false} TriangleInsertLast(a: string, b: string, c: string, i: nat, j: nat, k: nat)
    requires 0 < i <= |a| && 0 < j <= |b| && 0 < k <= |c|
    requires Dist(b, c, j, k) == Dist(b, c, j, k - 1) + 1
    ensures Dist(a, c, i, k) <= Dist(a, b, i, j) + Dist(b, c, j, k)
    decreases i + j + k, 0
  {
    DistTriangle(a, b, c, i, j, k - 1);
    InsertBound(a, c, i, k);
  }

  /** Case: `b`'s last character is inserted from `a` and deleted again towards `c`. */
  lemma {:induction false} TriangleInsertDelete(a: string, b: string, c: string, i: nat, j: nat, k: nat)
    requires 0 < i <= |a| && 0 < j <= |b| && 0 < k <= |c|
    requires Dist(a, b, i, j) == Dist(a, b, i, j - 1) + 1
    requires Dist(b, c, j, k) == Dist(b, c, j - 1, k) + 1
    ensures Dist(a, c, i, k) <= Dist(a, b, i, j) + Dist(b, c, j, k)
    decreases i + j + k, 0
  {
    DistTriangle(a, b, c, i, j - 1, k);
  }

  /** Case: `b`'s last character is inserted from `a` and substituted towards `c`. */
  lemma {:induction false} TriangleInsertSubstitute(a: string, b: string, c: string, i: nat, j: nat, k: nat)
    requires 0 < i <= |a| && 0 < j <= |b| && 0 < k <= |c|
    requires Dist(a, b, i, j) == Dist(a, b, i, j - 1) + 1
    requires Dist(b, c, j, k) == Dist(b, c, j - 1, k - 1) + Cost(b[j - 1], c[k - 1])
    ensures Dist(a, c, i, k) <= Dist(a, b, i, j) + Dist(b, c, j, k)
    decreases i + j + k, 0
  {
    DistTriangle(a, b, c, i, j - 1, k - 1);
    InsertBound(a, c, i, k);
  }

  /** Case: `b`'s last character is substituted from `a` and deleted towards `c`. */
  lemma {:induction false} TriangleSubstituteDelete(a: string, b: string, c: string, i: nat, j: nat, k: nat)
    requires 0 < i <= |a| && 0 < j <= |b| && 0 < k <= |c|
    requires Dist(a, b, i, j) == Dist(a, b, i - 1, j - 1) + Cost(a[i - 1], b[j - 1])
    requires Dist(b, c, j, k) == Dist(b, c, j - 1, k) + 1
    ensures Dist(a, c, i, k) <= Dist(a, b, i, j) + Dist(b, c, j, k)
    decreases i + j + k, 0
  {
    DeleteBound(a, c, i, k);
    DistTriangle(a, b, c, i - 1, j - 1, k);
    var ab, bc := Dist(a, b, i, j), Dist(b, c, j, k);
    assert ab >= Dist(a, b, i - 1, j - 1);
    assert bc == Dist(b, c, j - 1, k) + 1;
  }

  /** Case: `b`'s last character is substituted on both ways. */
  lemma {:induction false} TriangleSubstituteSubstitute(a: string, b: string, c: string, i: nat, j: nat, k: nat)
    requires 0 < i <= |a| && 0 < j <= |b| && 0 < k <= |c|
    requires Dist(a, b, i, j) == Dist(a, b, i - 1, j - 1) + Cost(a[i - 1], b[j - 1])
    requires Dist(b, c, j, k) == Dist(b, c, j - 1, k - 1) + Cost(b[j - 1], c[k - 1])
    ensures Dist(a, c, i, k) <= Dist(a, b, i, j) + Dist(b, c, j, k)
    decreases i + j + k, 0
  {
    DistTriangle(a, b, c, i - 1, j - 1, k - 1);
    SubstituteBound(a, c, i, k);
    CostTriangle(a[i - 1], b[j - 1], c[k - 1]);
  }

  /** An empty string is as far from another as the other is long. */
  lemma LevEmpty(x: string)
    ensures Lev([], x) == |x| && Lev(x, []) == |x|
  {
  }

  /** A string is at distance zero from itself. */
  lemma LevSelf(x: string)
    ensures Lev(x, x) == 0
  {
    DistSelf(x, |x|);
  }

  /** Distance zero exactly for equal strings. */
  lemma LevZeroIff(x: string, y: string)
    ensures Lev(x, y) == 0 <==> x == y
  {
    if Lev(x, y) == 0 {
      DistZeroEqual(x, y, |x|, |y|);
      assert x[..|x|] == x && y[..|y|] == y;
    } else if x == y {
      LevSelf(x);
    }
  }

  /** The distance does not depend on the order of its arguments. */
  lemma LevSymmetric(x: string, y: string)
    ensures Lev(x, y) == Lev(y, x)
  {
    DistSymmetric(x, y, |x|, |y|);
  }

  /** Going through a third string never shortens the way. */
  lemma LevTriangle(a: string, b: string, c: string)
    ensures Lev(a, c) <= Lev(a, b) + Lev(b, c)
  {
    DistTriangle(a, b, c, |a|, |b|, |c|);
  }

  /**
   `levenshteinDistance(s, t)`: the early returns for an empty argument, then
   the `(|t| + 1) x (|s| + 1)` table whose cell `[i, j]` holds the distance
   between the first `i` characters of `t` and the first `j` of `s`.
   */
  method LevenshteinDistance(s: string, t: string) returns (d: nat)
    ensures d == Lev(t, s)
  {
    if |s| == 0 {
      return |t|;
    }
    if |t| == 0 {
      return |s|;
    }
    var arr := new nat[|t| + 1, |s| + 1];
    var i := 0;
    while i <= |t|
      invariant 0 <= i <= |t| + 1
      invariant forall i', j' {:trigger arr[i', j']} :: 0 <= i' < i && 0 <= j' <= |s| ==> arr[i', j'] == Dist(t, s, i', j')
    {
      arr[i, 0] := i;
      var j := 1;
      while j <= |s|
        invariant 1 <= j <= |s| + 1
        invariant forall i', j' {:trigger arr[i', j']} :: 0 <= i' < i && 0 <= j' <= |s| ==> arr[i', j'] == Dist(t, s, i', j')
        invariant forall j' {:trigger arr[i, j']} :: 0 <= j' < j ==> arr[i, j'] == Dist(t, s, i, j')
      {
        arr[i, j] :=
          if i == 0 then j
          else Min3(arr[i - 1, j] + 1, arr[i, j - 1] + 1, arr[i - 1, j - 1] + Cost(s[j - 1], t[i - 1]));
        j := j + 1;
      }
      i := i + 1;
    }
    d := arr[|t|, |s|];
  }
}
