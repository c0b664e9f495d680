/**
 The "perbaiki" (fix up) prompt of `usePrompt`: the text in the target box
 gets an upper-case first character, the rest trimmed, and a full stop at
 the end unless it already has one.
 */
module Prompt {
  import opened Text

  /** `charAt(0).toUpperCase() + slice(1).trim()`; both parts are empty for empty text. */
  function Capitalize(v: string): (r: string)
    ensures v == [] <==> r == []
    ensures v != [] ==> r[0] == Upper(v[0]) && r[1..] == Trim(v[1..])
  {
    if v == [] then [] else [Upper(v[0])] + Trim(v[1..])
  }

  /**
   The fixed-up sentence: the capitalised text, then a full stop when it
   does not already end with one. The result always ends with a full stop,
   and it adds at most that one character to the capitalised text.
   */
  function FixSentence(v: string): (r: string)
    ensures r != [] && r[|r| - 1] == '.'
    ensures var c := Capitalize(v);
      && |c| <= |r| <= |c| + 1
      && r[..|c|] == c
      && (|r| == |c| <==> c != [] && c[|c| - 1] == '.')
    ensures v == [] ==> r == "."
  {
    var text := Capitalize(v);
    if text != [] && text[|text| - 1] == '.' then text else text + "."
  }

  lemma UpperIdempotent(c: char)
    ensures Upper(Upper(c)) == Upper(c)
  {
  }

  /** Fixing up a sentence that was already fixed up changes nothing. */
  lemma FixSentenceIdempotent(v: string)
    ensures FixSentence(FixSentence(v)) == FixSentence(v)
  {
    var r := FixSentence(v);
    var t := r[1..];
    // what follows the first character is already trimmed: the trimmed rest of
    // `v`, possibly followed by the full stop
    if v != [] {
      var rest := Trim(v[1..]);
      if rest != [] {
        assert t[0] == rest[0];
        assert t[|t| - 1] == rest[|rest| - 1] || t[|t| - 1] == '.';
      }
    }
    TrimUnchanged(t);
    UpperIdempotent(if v == [] then '.' else Upper(v[0]));
    assert Capitalize(r) == r;
  }
}
