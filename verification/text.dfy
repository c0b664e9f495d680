/**
 Text handling shared by the scoring and feedback engine: ASCII case mapping,
 the two normalisations (`[a-z0-9 ]` for scoring, `[a-z ]` for feedback),
 JavaScript's `split(/\s+/)` on normalised text, and `trim()`.
 */
module Text {

  predicate IsUpper(c: char) { 'A' <= c <= 'Z' }

  predicate IsLower(c: char) { 'a' <= c <= 'z' }

  predicate IsDigit(c: char) { '0' <= c <= '9' }

  /** `toLowerCase` restricted to ASCII letters. */
  function Lower(c: char): (r: char)
    ensures IsUpper(c) ==> IsLower(r) && r as int - c as int == 32
    ensures !IsUpper(c) ==> r == c
  {
    if IsUpper(c) then (c as int + 32) as char else c
  }

  /** `toUpperCase` restricted to ASCII letters. */
  function Upper(c: char): (r: char)
    ensures IsLower(c) ==> IsUpper(r) && c as int - r as int == 32
    ensures !IsLower(c) ==> r == c
  {
    if IsLower(c) then (c as int - 32) as char else c
  }

  /** The characters a normalised string may hold. */
  predicate Allowed(c: char, keepDigits: bool) {
    IsLower(c) || c == ' ' || (keepDigits && IsDigit(c))
  }

  predicate IsNormal(s: string, keepDigits: bool) {
    forall k :: 0 <= k < |s| ==> Allowed(s[k], keepDigits)
  }

  /**
   `s.toLowerCase().replace(/[^a-z0-9 ]/g, "")` when `keepDigits`, and
   `s.toLowerCase().replace(/[^a-z ]/g, "")` otherwise.
   */
  function Normalize(s: string, keepDigits: bool): (r: string)
    ensures IsNormal(r, keepDigits)
    ensures |r| <= |s|
  {
    if s == [] then []
    else
      var c := Lower(s[0]);
      (if Allowed(c, keepDigits) then [c] else []) + Normalize(s[1..], keepDigits)
  }

  /** Normalisation works character by character: it distributes over concatenation. */
  lemma {:induction false} NormalizeAppend(a: string, b: string, keepDigits: bool)
    ensures Normalize(a + b, keepDigits) == Normalize(a, keepDigits) + Normalize(b, keepDigits)
    decreases |a|
  {
    if a == [] {
      assert a + b == b;
    } else {
      var c := Lower(a[0]);
      var head := if Allowed(c, keepDigits) then [c] else [];
      assert (a + b)[0] == a[0];
      assert (a + b)[1..] == a[1..] + b;
      assert Normalize(a + b, keepDigits) == head + Normalize(a[1..] + b, keepDigits);
      NormalizeAppend(a[1..], b, keepDigits);
      assert Normalize(a, keepDigits) == head + Normalize(a[1..], keepDigits);
      Assoc(head, Normalize(a[1..], keepDigits), Normalize(b, keepDigits));
    }
  }

  /**
   One character: it is lower-cased and kept if the lower-case form is
   allowed, and removed otherwise. With `NormalizeAppend` this fixes
   `Normalize` on every string.
   */
  lemma NormalizeChar(c: char, keepDigits: bool)
    ensures Normalize([c], keepDigits) == if Allowed(Lower(c), keepDigits) then [Lower(c)] else []
  {
    assert [c][1..] == [];
  }

  /** Text none of whose characters lower-case to an allowed one normalises to nothing. */
  lemma {:induction false} NormalizeRemovesAll(s: string, keepDigits: bool)
    requires forall k :: 0 <= k < |s| ==> !Allowed(Lower(s[k]), keepDigits)
    ensures Normalize(s, keepDigits) == []
    decreases |s|
  {
    if s != [] {
      assert !Allowed(Lower(s[0]), keepDigits);
      assert forall k :: 0 <= k < |s[1..]| ==> s[1..][k] == s[k + 1];
      NormalizeRemovesAll(s[1..], keepDigits);
    }
  }

  /** A string that is already normal is left exactly as it is. */
  lemma {:induction false} NormalizeFixesNormal(s: string, keepDigits: bool)
    requires IsNormal(s, keepDigits)
    ensures Normalize(s, keepDigits) == s
    decreases |s|
  {
    if s != [] {
      assert Lower(s[0]) == s[0];
      NormalizeFixesNormal(s[1..], keepDigits);
      assert s == [s[0]] + s[1..];
    }
  }

  /** Normalising twice is the same as normalising once. */
  lemma NormalizeIdempotent(s: string, keepDigits: bool)
    ensures Normalize(Normalize(s, keepDigits), keepDigits) == Normalize(s, keepDigits)
  {
    NormalizeFixesNormal(Normalize(s, keepDigits), keepDigits);
  }

  /** Strings that agree up to ASCII case normalise to the same text. */
  lemma {:induction false} NormalizeIgnoresCase(a: string, b: string, keepDigits: bool)
    requires |a| == |b|
    requires forall k :: 0 <= k < |a| ==> Lower(a[k]) == Lower(b[k])
    ensures Normalize(a, keepDigits) == Normalize(b, keepDigits)
    decreases |a|
  {
    if a != [] {
      NormalizeIgnoresCase(a[1..], b[1..], keepDigits);
    }
  }

  /** Text whose lower-case form is already normal normalises to that form. */
  lemma NormalizeToLower(a: string, b: string, keepDigits: bool)
    requires |a| == |b|
    requires forall k :: 0 <= k < |a| ==> Lower(a[k]) == b[k]
    requires IsNormal(b, keepDigits)
    ensures Normalize(a, keepDigits) == b
  {
    NormalizeIgnoresCase(a, b, keepDigits);
    NormalizeFixesNormal(b, keepDigits);
  }

  /** Normalised text keeping digits, with the digits then dropped, is the feedback normalisation. */
  lemma {:induction false} NormalizeDropsDigitsAfterwards(s: string)
    ensures Normalize(Normalize(s, true), false) == Normalize(s, false)
    decreases |s|
  {
    if s != [] {
      var c := Lower(s[0]);
      var head := if Allowed(c, true) then [c] else [];
      NormalizeAppend(head, Normalize(s[1..], true), false);
      NormalizeDropsDigitsAfterwards(s[1..]);
      if Allowed(c, true) {
        assert Lower(c) == c;
      }
    }
  }

  // ---------------------------------------------------------------------------
  // split(/\s+/) on normalised text, where the only whitespace left is ' '

  /**
   JavaScript `split(/\s+/)` for text whose only whitespace is the space
   character: every maximal run of spaces separates two tokens, so the empty
   string gives `[""]` and a leading or trailing run gives an empty token at
   that end.
   */
  function Split(s: string): (r: seq<string>)
    ensures |r| >= 1
    decreases |s|, 1
  {
    if s == [] then [[]] else SplitFrom(s)
  }

  /**
   `Split` of non-empty text, by its first character: a non-space extends
   the first token, a space followed by another space is skipped, and the
   last space of a run closes the first token.
   */
  function SplitFrom(s: string): (r: seq<string>)
    requires s != []
    ensures |r| >= 1
    decreases |s|, 0
  {
    if s[0] != ' ' then
      var rest := Split(s[1..]);
      [[s[0]] + rest[0]] + rest[1..]
    else if |s| > 1 && s[1] == ' ' then Split(s[1..])
    else [[]] + Split(s[1..])
  }

  /** The inverse of `Split`: tokens glued back with one space between neighbours. */
  function Join(ws: seq<string>): (r: string)
    requires |ws| >= 1
    ensures |r| >= |ws| - 1
    decreases |ws|
  {
    if |ws| == 1 then ws[0] else ws[0] + " " + Join(ws[1..])
  }

  predicate SpaceFree(w: string) {
    forall k :: 0 <= k < |w| ==> w[k] != ' '
  }

  /**
   The shape of every `Split` result: at least one token, no token holds a
   space, and only the first and the last token can be empty.
   */
  predicate WellFormedTokens(ws: seq<string>) {
    && |ws| >= 1
    && (forall k :: 0 <= k < |ws| ==> SpaceFree(ws[k]))
    && (forall k :: 0 < k < |ws| - 1 ==> ws[k] != [])
  }

  /** Every maximal run of spaces shrunk to a single space. */
  function Collapse(s: string): (r: string)
    ensures |r| <= |s|
    decreases |s|
  {
    if s == [] then []
    else if s[0] == ' ' && |s| > 1 && s[1] == ' ' then Collapse(s[1..])
    else [s[0]] + Collapse(s[1..])
  }

  /** A space-free token has a one-token split. */
  lemma {:induction false} SplitSpaceFree(w: string)
    requires SpaceFree(w)
    ensures Split(w) == [w]
    decreases |w|
  {
    if w != [] {
      SplitSpaceFree(w[1..]);
      assert w == [w[0]] + w[1..];
    }
  }

  /** `Split` only ever produces well-formed token lists. */
  lemma {:induction false} SplitWellFormed(s: string)
    ensures WellFormedTokens(Split(s))
    decreases |s|
  {
    if s == [] {
    } else if s[0] != ' ' {
      SplitWellFormed(s[1..]);
      var rest := Split(s[1..]);
      var r := SplitFrom(s);
      assert r == [[s[0]] + rest[0]] + rest[1..];
      forall k | 0 <= k < |r|
        ensures SpaceFree(r[k])
      {
        if k > 0 { assert r[k] == rest[k]; }
      }
      forall k | 0 < k < |r| - 1
        ensures r[k] != []
      {
        assert r[k] == rest[k];
      }
    } else if |s| > 1 && s[1] == ' ' {
      SplitWellFormed(s[1..]);
    } else {
      SplitWellFormed(s[1..]);
      var rest := Split(s[1..]);
      var r := SplitFrom(s);
      assert r == [[]] + rest;
      if |rest| > 1 {
        // s[1..] starts with a non-space, so its first token is non-empty
        SplitFirstEmpty(s[1..]);
      }
      forall k | 0 <= k < |r|
        ensures SpaceFree(r[k])
      {
        if k > 0 { assert r[k] == rest[k - 1]; }
      }
      forall k | 0 < k < |r| - 1
        ensures r[k] != []
      {
        assert r[k] == rest[k - 1];
      }
    }
  }

  /** The first token is empty exactly when the text is empty or starts with a space. */
  lemma {:induction false} SplitFirstEmpty(s: string)
    ensures Split(s)[0] == [] <==> (s == [] || s[0] == ' ')
    decreases |s|
  {
    if s != [] && s[0] == ' ' && |s| > 1 && s[1] == ' ' {
      SplitFirstEmpty(s[1..]);
    }
  }

  /** One token exactly when the text holds no space. */
  lemma {:induction false} SplitSingle(s: string)
    ensures |Split(s)| == 1 <==> SpaceFree(s)
    decreases |s|
  {
    if s == [] {
    } else if s[0] != ' ' {
      SplitSingle(s[1..]);
      if SpaceFree(s[1..]) {
        assert SpaceFree(s) by {
          forall k | 0 <= k < |s| ensures s[k] != ' ' {
            if k > 0 { assert s[k] == s[1..][k - 1]; }
          }
        }
      } else {
        var k :| 0 <= k < |s[1..]| && s[1..][k] == ' ';
        assert s[k + 1] == ' ';
      }
    } else if |s| > 1 && s[1] == ' ' {
      SplitSingle(s[1..]);
    } else {
      assert !SpaceFree(s) by { assert s[0] == ' '; }
    }
  }

  /** The last token is empty exactly when the text is empty or ends with a space. */
  lemma {:induction false} SplitLastEmpty(s: string)
    ensures var r := Split(s); r[|r| - 1] == [] <==> (s == [] || s[|s| - 1] == ' ')
    decreases |s|
  {
    if s != [] {
      var t := s[1..];
      var rest := Split(t);
      var r := SplitFrom(s);
      assert t != [] ==> s[|s| - 1] == t[|t| - 1];
      if s[0] != ' ' {
        SplitSingle(t);
        if |rest| == 1 {
          assert r == [[s[0]] + rest[0]];
          if t != [] {
            assert t[|t| - 1] != ' ';
          }
        } else {
          SplitLastEmpty(t);
          assert r[|r| - 1] == rest[|rest| - 1];
        }
      } else {
        SplitLastEmpty(t);
        assert r[|r| - 1] == rest[|rest| - 1];
      }
    }
  }


  /** An empty token comes out of `Split` exactly when the text is empty or has a space at either end. */
  lemma EmptyTokenIff(s: string)
    ensures [] in Split(s) <==> (s == [] || s[0] == ' ' || s[|s| - 1] == ' ')
  {
    var r := Split(s);
    SplitWellFormed(s);
    SplitFirstEmpty(s);
    SplitLastEmpty(s);
    if [] in r {
      var k :| 0 <= k < |r| && r[k] == [];
      assert k == 0 || k == |r| - 1;
    }
  }

  /** Splitting text that starts with a space-free word extends the first token by that word. */
  lemma {:induction false} SplitAfterWord(w: string, x: string)
    requires SpaceFree(w)
    ensures Split(w + x) == [w + Split(x)[0]] + Split(x)[1..]
    decreases |w|
  {
    if w != [] {
      assert (w + x)[0] == w[0];
      assert (w + x)[1..] == w[1..] + x;
      SplitAfterWord(w[1..], x);
      var rest := Split(w[1..] + x);
      assert rest[0] == w[1..] + Split(x)[0];
      assert rest[1..] == Split(x)[1..];
      assert w == [w[0]] + w[1..];
      Assoc([w[0]], w[1..], Split(x)[0]);
    } else {
      assert w + x == x;
      assert w + Split(x)[0] == Split(x)[0];
      assert Split(x) == [Split(x)[0]] + Split(x)[1..];
    }
  }

  /** `Join` of a token list does not start with a space unless its first token is empty. */
  lemma JoinHead(ws: seq<string>)
    requires WellFormedTokens(ws)
    requires ws[0] != []
    ensures Join(ws) != [] && Join(ws)[0] == ws[0][0]
  {
    if |ws| > 1 {
      JoinCons(ws[0], ws[1..]);
      assert ws == [ws[0]] + ws[1..];
      Assoc(ws[0], " ", Join(ws[1..]));
    }
  }

  /** Round trip: splitting the join of well-formed tokens gives the tokens back. */
  lemma {:induction false} SplitJoin(ws: seq<string>)
    requires WellFormedTokens(ws)
    ensures Split(Join(ws)) == ws
    decreases |ws|
  {
    if |ws| == 1 {
      SplitSpaceFree(ws[0]);
    } else {
      var tail := ws[1..];
      assert WellFormedTokens(tail) by {
        forall k | 0 < k < |tail| - 1 ensures tail[k] != [] {
          assert tail[k] == ws[k + 1];
        }
      }
      SplitJoin(tail);
      var y := Join(tail);
      // the space after ws[0] opens a token of its own
      if y != [] && y[0] == ' ' {
        if tail[0] != [] {
          JoinHead(tail);
        }
        assert false;
      }
      SplitSpaceBefore(y);
      JoinCons(ws[0], tail);
      Assoc(ws[0], " ", y);
      SplitAfterWord(ws[0], " " + y);
      assert ws[0] + [] == ws[0];
      assert ws == [ws[0]] + tail;
    }
  }

  /** A single space before text that does not start with one opens an empty token. */
  lemma SplitSpaceBefore(y: string)
    requires y == [] || y[0] != ' '
    ensures Split(" " + y) == [[]] + Split(y)
  {
    assert (" " + y)[1..] == y;
  }

  /** Joining a token in front of at least one more adds it and one space. */
  lemma JoinCons(w: string, ws: seq<string>)
    requires |ws| >= 1
    ensures Join([w] + ws) == w + " " + Join(ws)
  {
    assert ([w] + ws)[1..] == ws;
  }

  lemma Assoc(a: string, b: string, c: string)
    ensures (a + b) + c == a + (b + c)
  {
  }

  /** Extending the first token extends the joined text at its front. */
  lemma JoinExtendFirst(c: char, ws: seq<string>)
    requires |ws| >= 1
    ensures Join([[c] + ws[0]] + ws[1..]) == [c] + Join(ws)
  {
    var w := [c] + ws[0];
    if |ws| > 1 {
      JoinCons(w, ws[1..]);
      JoinCons(ws[0], ws[1..]);
      assert ws == [ws[0]] + ws[1..];
      Assoc([c], ws[0] + " ", Join(ws[1..]));
      Assoc([c], ws[0], " ");
    } else {
      assert [w] + ws[1..] == [w];
    }
  }

  /** Round trip the other way: joining the split text collapses each run of spaces to one. */
  lemma {:induction false} JoinSplit(s: string)
    ensures Join(Split(s)) == Collapse(s)
    decreases |s|
  {
    if s == [] {
    } else if s[0] != ' ' {
      JoinSplit(s[1..]);
      JoinExtendFirst(s[0], Split(s[1..]));
    } else if |s| > 1 && s[1] == ' ' {
      JoinSplit(s[1..]);
    } else {
      JoinSplit(s[1..]);
      var r := SplitFrom(s);
      assert r[1..] == Split(s[1..]);
      assert Join(r) == [] + " " + Join(Split(s[1..]));
    }
  }

  // ---------------------------------------------------------------------------
  // trim()

  /**
   The characters `String.prototype.trim` removes: ECMAScript WhiteSpace
   (tab, vertical tab, form feed, space, no-break space, byte order mark and
   the other Unicode space separators) and LineTerminator (line feed,
   carriage return, line and paragraph separators).
   */
  predicate IsJsWhitespace(c: char) {
    var n := c as int;
    || n == 0x09 || n == 0x0A || n == 0x0B || n == 0x0C || n == 0x0D
    || n == 0x20 || n == 0xA0 || n == 0x1680
    || (0x2000 <= n <= 0x200A)
    || n == 0x2028 || n == 0x2029 || n == 0x202F || n == 0x205F
    || n == 0x3000 || n == 0xFEFF
  }

  /** How many whitespace characters `s` starts with. */
  function LeadingWhitespace(s: string): (n: nat)
    ensures n <= |s|
    ensures forall k :: 0 <= k < n ==> IsJsWhitespace(s[k])
    ensures n < |s| ==> !IsJsWhitespace(s[n])
    decreases |s|
  {
    if s != [] && IsJsWhitespace(s[0]) then 1 + LeadingWhitespace(s[1..]) else 0
  }

  /** How many whitespace characters `s` ends with. */
  function TrailingWhitespace(s: string): (n: nat)
    ensures n <= |s|
    ensures forall k :: |s| - n <= k < |s| ==> IsJsWhitespace(s[k])
    ensures n < |s| ==> !IsJsWhitespace(s[|s| - n - 1])
    decreases |s|
  {
    if s != [] && IsJsWhitespace(s[|s| - 1]) then 1 + TrailingWhitespace(s[..|s| - 1]) else 0
  }

  /**
   `s.trim()`: `s` with its leading and its trailing whitespace cut off; what
   is left neither starts nor ends with whitespace.
   */
  function Trim(s: string): (r: string)
    ensures LeadingWhitespace(s) + |r| <= |s|
    ensures r == s[LeadingWhitespace(s)..LeadingWhitespace(s) + |r|]
    ensures forall k :: LeadingWhitespace(s) + |r| <= k < |s| ==> IsJsWhitespace(s[k])
    ensures r != [] ==> !IsJsWhitespace(r[0]) && !IsJsWhitespace(r[|r| - 1])
  {
    var n := LeadingWhitespace(s);
    var a := s[n..];
    var m := TrailingWhitespace(a);
    TrimTail(s, n, a, m);
    TrimEnds(s, n, a, m);
    a[..|a| - m]
  }

  /** What `Trim` leaves out at the end is the whitespace that `a`, the text after `n` characters, ends with. */
  lemma TrimTail(s: string, n: nat, a: string, m: nat)
    requires n <= |s| && a == s[n..] && m <= |a|
    requires forall k :: |a| - m <= k < |a| ==> IsJsWhitespace(a[k])
    ensures a[..|a| - m] == s[n..n + |a| - m]
    ensures forall k :: n + |a| - m <= k < |s| ==> IsJsWhitespace(s[k])
  {
    forall k | n + |a| - m <= k < |s|
      ensures IsJsWhitespace(s[k])
    {
      assert s[k] == a[k - n];
    }
  }

  /** The trimmed text starts and ends with a non-whitespace character. */
  lemma TrimEnds(s: string, n: nat, a: string, m: nat)
    requires n <= |s| && a == s[n..] && m <= |a|
    requires n < |s| ==> !IsJsWhitespace(s[n])
    requires m < |a| ==> !IsJsWhitespace(a[|a| - m - 1])
    ensures var r := a[..|a| - m]; r != [] ==> !IsJsWhitespace(r[0]) && !IsJsWhitespace(r[|r| - 1])
  {
  }


  /** Trimmed text is empty exactly when every character is whitespace. */
  lemma TrimEmptyIff(s: string)
    ensures Trim(s) == [] <==> forall k :: 0 <= k < |s| ==> IsJsWhitespace(s[k])
  {
    if forall k :: 0 <= k < |s| ==> IsJsWhitespace(s[k]) {
      assert LeadingWhitespace(s) == |s|;
    }
  }

  /** Text that neither starts nor ends with whitespace is its own trim. */
  lemma TrimUnchanged(s: string)
    requires s != [] ==> !IsJsWhitespace(s[0]) && !IsJsWhitespace(s[|s| - 1])
    ensures Trim(s) == s
  {
    if s != [] {
      assert LeadingWhitespace(s) == 0;
      assert TrailingWhitespace(s) == 0;
    }
  }

  /** Trimming twice is the same as trimming once. */
  lemma TrimIdempotent(s: string)
    ensures Trim(Trim(s)) == Trim(s)
  {
    TrimUnchanged(Trim(s));
  }
}
