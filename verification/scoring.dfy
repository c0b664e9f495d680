/**
 The similarity score of `calculateSimilarity`: both texts are lower-cased
 and stripped to letters, digits and spaces, and the edit distance between
 them becomes a whole percentage of the longer one's length.
 */
module Scoring {
  import opened Text
  import opened EditDistance

  /**
   `Math.round(((L - d) / L) * 100)` in exact arithmetic: the whole number
   nearest to the percentage `100 * (L - d) / L`, halves rounding up. The
   distance never exceeds the longer length, hence `d <= L`.
   */
  function RoundedPercent(L: nat, d: nat): (r: int)
    requires 0 < L && d <= L
    ensures 200 * (L - d) - L < 2 * L * r <= 200 * (L - d) + L
    ensures 0 <= r <= 100
    ensures r == 100 <==> 200 * d <= L
    ensures r == 0 <==> 200 * (L - d) < L
  {
    RoundingFacts(L, d);
    (200 * (L - d) + L) / (2 * L)
  }

  /** The integer facts behind `RoundedPercent`, one product at a time. */
  lemma RoundingFacts(L: nat, d: nat)
    requires 0 < L && d <= L
    ensures var r := (200 * (L - d) + L) / (2 * L);
      && 200 * (L - d) - L < 2 * L * r <= 200 * (L - d) + L
      && 0 <= r <= 100
      && (r == 100 <==> 200 * d <= L)
      && (r == 0 <==> 200 * (L - d) < L)
  {
    var m, n := 2 * L, 200 * (L - d) + L;
    var r := n / m;
    assert n == m * r + n % m && 0 <= n % m < m;
    if r < 0 {
      MulMonotone(m, r, -1);
      assert false;
    }
    if r > 100 {
      MulMonotone(m, 101, r);
      assert false;
    }
    if r < 100 {
      MulMonotone(m, r, 99);
    }
    if r > 0 {
      MulMonotone(m, 1, r);
    }
  }

  lemma MulMonotone(a: nat, b: int, c: int)
    requires b <= c
    ensures a * b <= a * c
  {
  }

  /**
   The score of two normalised texts: call the longer one `longer` (the
   first on a tie), score two empty texts 100, and otherwise round the share
   of `longer` that the edit distance leaves intact.
   */
  function Score(a: string, b: string): (r: int)
    ensures 0 <= r <= 100
    ensures a == [] && b == [] ==> r == 100
    ensures (a == []) != (b == []) ==> r == 0
  {
    var longer := if |a| < |b| then b else a;
    var shorter := if |a| < |b| then a else b;
    if |longer| == 0 then 100
    else RoundedPercent(|longer|, Lev(shorter, longer))
  }

  /** `calculateSimilarity(s1, s2)`: the score of the two texts normalised keeping digits. */
  function Similarity(s1: string, s2: string): (r: int)
    ensures 0 <= r <= 100
    ensures Normalize(s1, true) == [] && Normalize(s2, true) == [] ==> r == 100
    ensures (Normalize(s1, true) == []) != (Normalize(s2, true) == []) ==> r == 0
  {
    Score(Normalize(s1, true), Normalize(s2, true))
  }

  /**
   The score read without the swap: the rounded share of the longer text
   left intact by the distance between the two.
   */
  lemma ScoreUnswapped(a: string, b: string)
    requires a != [] || b != []
    ensures Score(a, b) == RoundedPercent(Max(|a|, |b|), Lev(a, b))
  {
    if |a| >= |b| {
      LevSymmetric(b, a);
    }
  }

  /** The score does not depend on which text is the target. */
  lemma SimilaritySymmetric(s1: string, s2: string)
    ensures Similarity(s1, s2) == Similarity(s2, s1)
  {
    var a, b := Normalize(s1, true), Normalize(s2, true);
    if a != [] || b != [] {
      ScoreUnswapped(a, b);
      ScoreUnswapped(b, a);
      LevSymmetric(a, b);
    }
  }

  /** Texts that normalise to the same string score 100. */
  lemma SimilaritySameNormalization(s1: string, s2: string)
    requires Normalize(s1, true) == Normalize(s2, true)
    ensures Similarity(s1, s2) == 100
  {
    LevSelf(Normalize(s1, true));
  }

  /**
   A perfect score means the distance is at most one two-hundredth of the
   longer normalised text; below 200 characters, only equal normalisations
   score 100.
   */
  lemma SimilarityPerfectIff(s1: string, s2: string)
    ensures var a, b := Normalize(s1, true), Normalize(s2, true);
      && (Similarity(s1, s2) == 100 <==> 200 * Lev(a, b) <= Max(|a|, |b|))
      && (Max(|a|, |b|) < 200 ==> (Similarity(s1, s2) == 100 <==> a == b))
  {
    var a, b := Normalize(s1, true), Normalize(s2, true);
    if a != [] || b != [] {
      ScoreUnswapped(a, b);
    }
    LevZeroIff(a, b);
  }

  /** A larger distance between the normalised texts never raises the score. */
  lemma RoundedPercentAntitone(L: nat, d1: nat, d2: nat)
    requires 0 < L && d1 <= d2 <= L
    ensures RoundedPercent(L, d1) >= RoundedPercent(L, d2)
  {
    var r1, r2 := RoundedPercent(L, d1), RoundedPercent(L, d2);
    if r1 < r2 {
      var m := 2 * L;
      assert m * r2 <= 200 * (L - d2) + L <= 200 * (L - d1) + L < m * r1 + m;
      MulMonotone(m, r1 + 1, r2);
      assert false;
    }
  }

  /**
   Case and trailing punctuation do not count: a text scores 100 against any
   text equal to it up to ASCII case, with any run of characters that
   normalise away appended (as "Hello world." against "hello world").
   */
  lemma CaseAndPunctuationScoreFull(a: string, b: string, tail: string)
    requires |a| == |b|
    requires forall k :: 0 <= k < |a| ==> Lower(a[k]) == Lower(b[k])
    requires Normalize(tail, true) == []
    ensures Similarity(a + tail, b) == 100
  {
    NormalizeAppend(a, tail, true);
    NormalizeIgnoresCase(a, b, true);
    SimilaritySameNormalization(a + tail, b);
  }

  /** Two texts without a letter, digit or space score 100 against each other. */
  lemma EmptyTextsScoreFull()
    ensures Similarity("", "") == 100
    ensures Similarity("...", "?!") == 100
  {
    assert Normalize("...", true) == [];
    assert Normalize("?!", true) == [];
  }

  /**
   `calculateSimilarity` as the program runs it, with the table-filling
   `levenshteinDistance(longer, shorter)`.
   */
  method CalculateSimilarity(s1: string, s2: string) returns (score: int)
    ensures score == Similarity(s1, s2)
    ensures 0 <= score <= 100
  {
    var longer := Normalize(s1, true);
    var shorter := Normalize(s2, true);
    if |longer| < |shorter| {
      longer, shorter := shorter, longer;
    }
    var longerLength := |longer|;
    if longerLength == 0 {
      return 100;
    }
    var editDistance := LevenshteinDistance(longer, shorter);
    score := RoundedPercent(longerLength, editDistance);
  }
}
