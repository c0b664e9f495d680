/**
 The word-level feedback of `generateWordFeedback`: both texts are
 lower-cased, stripped to letters and spaces and split on runs of spaces,
 and every target token is marked by whether the spoken tokens contain it.
 The coloured HTML spans built from the marks are presentation only.
 */
module Feedback {
  import opened Text

  /** One target token and whether it was heard (green) or not (red). */
  datatype WordMark = WordMark(word: string, matched: bool)

  /** The tokens of a text as the feedback sees them. */
  function Tokens(s: string): (r: seq<string>)
    ensures WellFormedTokens(r)
  {
    SplitWellFormed(Normalize(s, false));
    Split(Normalize(s, false))
  }

  /**
   The marks for a list of target tokens: one per token, in order, each
   matched exactly when some spoken token equals it.
   */
  function Classify(targetWords: seq<string>, spokenWords: seq<string>): (r: seq<WordMark>)
    ensures |r| == |targetWords|
    ensures forall k :: 0 <= k < |r| ==> r[k].word == targetWords[k]
    ensures forall k :: 0 <= k < |r| ==> (r[k].matched <==> targetWords[k] in spokenWords)
    decreases |targetWords|
  {
    if targetWords == [] then []
    else [WordMark(targetWords[0], targetWords[0] in spokenWords)] + Classify(targetWords[1..], spokenWords)
  }

  /** `generateWordFeedback(target, spoken)` as the sequence of marks it renders. */
  function WordFeedback(target: string, spoken: string): (r: seq<WordMark>)
    ensures |r| == |Tokens(target)| >= 1
    ensures forall k :: 0 <= k < |r| ==> r[k].word == Tokens(target)[k]
    ensures forall k :: 0 <= k < |r| ==> (r[k].matched <==> r[k].word in Tokens(spoken))
  {
    Classify(Tokens(target), Tokens(spoken))
  }

  /** The words a feedback shows, in order. */
  function Words(marks: seq<WordMark>): (r: seq<string>)
    ensures |r| == |marks|
    ensures forall k :: 0 <= k < |r| ==> r[k] == marks[k].word
    decreases |marks|
  {
    if marks == [] then [] else [marks[0].word] + Words(marks[1..])
  }

  /** The spoken text decides only the flags: the words are the target's tokens. */
  lemma WordsIgnoreSpoken(target: string, spoken1: string, spoken2: string)
    ensures Words(WordFeedback(target, spoken1)) == Tokens(target)
    ensures Words(WordFeedback(target, spoken1)) == Words(WordFeedback(target, spoken2))
  {
  }

  /** Every occurrence of a repeated target word gets the same flag. */
  lemma RepeatedWordsAgree(target: string, spoken: string, i: nat, j: nat)
    requires var r := WordFeedback(target, spoken); i < |r| && j < |r| && r[i].word == r[j].word
    ensures WordFeedback(target, spoken)[i].matched == WordFeedback(target, spoken)[j].matched
  {
  }

  /**
   A target with no letter or space left after normalisation gives one
   mark, for the empty token; it is matched exactly when the spoken tokens
   hold an empty one too.
   */
  lemma EmptyTargetSingleMark(target: string, spoken: string)
    requires Normalize(target, false) == []
    ensures var n := Normalize(spoken, false);
      WordFeedback(target, spoken) == [WordMark([], n == [] || n[0] == ' ' || n[|n| - 1] == ' ')]
  {
    EmptyTokenIff(Normalize(spoken, false));
  }

  /**
   A space at the start (end) of the normalised target gives an empty
   token at the start (end) of the feedback, and only a space there does.
   */
  lemma EdgeEmptyTokens(target: string, spoken: string)
    ensures var n, r := Normalize(target, false), WordFeedback(target, spoken);
      && (r[0].word == [] <==> n == [] || n[0] == ' ')
      && (r[|r| - 1].word == [] <==> n == [] || n[|n| - 1] == ' ')
  {
    SplitFirstEmpty(Normalize(target, false));
    SplitLastEmpty(Normalize(target, false));
  }

  /** Reading a text back to itself marks every word as matched. */
  lemma SelfFeedbackAllMatched(text: string)
    ensures forall k :: 0 <= k < |WordFeedback(text, text)| ==> WordFeedback(text, text)[k].matched
  {
  }

  /**
   Normalising either text beforehand, by either of the two normalisations,
   changes nothing: the feedback only sees lower-case letters and spaces.
   */
  lemma FeedbackIgnoresPriorNormalization(target: string, spoken: string, keepDigits: bool)
    ensures WordFeedback(Normalize(target, keepDigits), spoken) == WordFeedback(target, spoken)
    ensures WordFeedback(target, Normalize(spoken, keepDigits)) == WordFeedback(target, spoken)
  {
    NormalizeTwice(target, keepDigits);
    NormalizeTwice(spoken, keepDigits);
  }

  lemma NormalizeTwice(s: string, keepDigits: bool)
    ensures Normalize(Normalize(s, keepDigits), false) == Normalize(s, false)
  {
    if keepDigits {
      NormalizeDropsDigitsAfterwards(s);
    } else {
      NormalizeIdempotent(s, false);
    }
  }

  /**
   More spoken words never unmark a target word: if every spoken token of
   one text is a spoken token of another, the other matches at least as much.
   */
  lemma MoreSpokenWordsMatchMore(target: string, spoken1: string, spoken2: string)
    requires forall w :: w in Tokens(spoken1) ==> w in Tokens(spoken2)
    ensures var r1, r2 := WordFeedback(target, spoken1), WordFeedback(target, spoken2);
      forall k :: 0 <= k < |r1| ==> r1[k].matched ==> r2[k].matched
  {
  }

  /** Order is kept and case is ignored: "The Cat" read back as "I saw a cat". */
  lemma TheCatExample()
    ensures WordFeedback("The Cat", "I saw a cat") == [WordMark("the", false), WordMark("cat", true)]
  {
    TheCatMarks("The Cat", "I saw a cat");
  }

  lemma TheCatMarks(target: string, spoken: string)
    requires target == "The Cat" && spoken == "I saw a cat"
    ensures WordFeedback(target, spoken) == [WordMark("the", false), WordMark("cat", true)]
  {
    TokensTheCat(target);
    TokensISawACat(spoken);
  }

  /** Both copies of a repeated target word are satisfied by one spoken copy. */
  lemma CatCatExample()
    ensures WordFeedback("cat cat", "cat") == [WordMark("cat", true), WordMark("cat", true)]
  {
    TokensCatCat("cat cat");
    NormalizeFixesNormal("cat", false);
    SplitSpaceFree("cat");
  }

  lemma TokensTheCat(s: string)
    requires s == "The Cat"
    ensures Tokens(s) == ["the", "cat"]
  {
    NormalizeToLower(s, "the cat", false);
    JoinCons("the", ["cat"]);
    assert Join(["the", "cat"]) == "the cat";
    SplitJoin(["the", "cat"]);
  }

  lemma TokensCatCat(s: string)
    requires s == "cat cat"
    ensures Tokens(s) == ["cat", "cat"]
  {
    NormalizeFixesNormal(s, false);
    JoinCons("cat", ["cat"]);
    assert Join(["cat", "cat"]) == s;
    SplitJoin(["cat", "cat"]);
  }

  lemma TokensISawACat(s: string)
    requires s == "I saw a cat"
    ensures Tokens(s) == ["i", "saw", "a", "cat"]
  {
    NormalizeToLower(s, "i saw a cat", false);
    JoinISawACat(["i", "saw", "a", "cat"]);
    SplitJoin(["i", "saw", "a", "cat"]);
  }

  lemma JoinISawACat(ws: seq<string>)
    requires ws == ["i", "saw", "a", "cat"]
    ensures Join(ws) == "i saw a cat"
  {
    JoinCons("a", ["cat"]);
    assert Join(["a", "cat"]) == "a cat";
    JoinCons("saw", ["a", "cat"]);
    assert Join(["saw", "a", "cat"]) == "saw a cat";
    JoinCons("i", ["saw", "a", "cat"]);
  }

}
