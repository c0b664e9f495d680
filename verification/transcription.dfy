/**
 `onTranscriptionUpdate`: each new transcript is scored against the target
 and turned into word feedback, unless it holds nothing but whitespace, in
 which case the page is left as it was.
 */
module Transcription {
  import opened Text
  import opened Scoring
  import opened Feedback

  datatype Option<T> = None | Some(value: T)

  /** What one transcript puts on the page: the score and the word marks. */
  datatype Update = Update(score: int, marks: seq<WordMark>)

  /**
   The update a transcript causes: none for whitespace-only text (the
   `trim()` guard), otherwise the similarity score and the word feedback of
   the target against the transcript.
   */
  function OnTranscriptionUpdate(target: string, spoken: string): (r: Option<Update>)
    ensures r.None? <==> forall k :: 0 <= k < |spoken| ==> IsJsWhitespace(spoken[k])
    ensures r.Some? ==> 0 <= r.value.score <= 100
    ensures r.Some? ==> |r.value.marks| == |Tokens(target)|
    ensures r.Some? ==> r.value == Update(Similarity(target, spoken), WordFeedback(target, spoken))
  {
    TrimEmptyIff(spoken);
    if Trim(spoken) == [] then None
    else Some(Update(Similarity(target, spoken), WordFeedback(target, spoken)))
  }

  /** A transcript that is a perfect reading of the target scores 100 and matches every word. */
  lemma PerfectReading(target: string)
    requires exists k :: 0 <= k < |target| && !IsJsWhitespace(target[k])
    ensures var r := OnTranscriptionUpdate(target, target);
      && r.Some?
      && r.value.score == 100
      && forall k :: 0 <= k < |r.value.marks| ==> r.value.marks[k].matched
  {
    SimilaritySameNormalization(target, target);
    SelfFeedbackAllMatched(target);
  }
}
