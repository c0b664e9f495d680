# Speak-Smart scoring and feedback, in Dafny

Speak-Smart is a browser page for practising spoken English. The user types
(or picks) a target sentence, reads it aloud, and the page receives a
transcript of what was heard. For each transcript, the page shows two things:

- a similarity score out of 100. Both texts are lower-cased and stripped to
  letters, digits and spaces. The score is the rounded percentage of the
  longer text's length that the Levenshtein distance between them leaves
  intact;
- word-by-word feedback. Every word of the target is shown green if the
  transcript contains it and red if not.

This project models that scoring and feedback engine of `scripts.js` as pure
functions over `string` (`seq<char>`) and proves what the engine promises.
The modules are:

- `Text`:
  - ASCII case mapping;
  - the two normalisations (`/[^a-z0-9 ]/g` for the score, `/[^a-z ]/g` for
    the feedback);
  - `split(/\s+/)` on normalised text, with its inverse `Join`;
  - `trim()` with the JavaScript whitespace set.
- `EditDistance`:
  - the Levenshtein recurrence over prefixes (`Dist`, `Lev`);
  - its metric properties;
  - the table-filling `levenshteinDistance` as a method on a 2-D array,
    proved equal to the recurrence.
- `Scoring`:
  - `calculateSimilarity`, with `Math.round` as exact rounding half up;
  - the method version that runs the table.
- `Feedback`: `generateWordFeedback` as a sequence of `WordMark(word, matched)`
  instead of HTML.
- `Transcription`: the whitespace guard of `onTranscriptionUpdate`.
- `Prompt`: the "perbaiki" (fix up) prompt, which capitalises, trims and
  ends the sentence with a full stop.
- `Timer`: the `mm:ss` text of the recording timer.

`levenshteinDistance(s, t)` fills rows indexed by `t` and columns indexed by
`s`. So the method `EditDistance.LevenshteinDistance(s, t)` returns
`Lev(t, s)`. `calculateSimilarity` calls it as
`levenshteinDistance(longer, shorter)`, so the score uses
`Lev(shorter, longer)`.

Three behaviours of the code are worth naming:

- A target that normalises to the empty string gives one mark, for the
  empty token, since `"".split(/\s+/)` is `[""]`
  (`Feedback.EmptyTargetSingleMark`).
- `Math.round` rounds halves up.
- Every inner cell of the distance table is the minimum of the three
  candidates (deletion, insertion, substitution-or-match), even when the two
  characters are equal.

## Model

| member | source | states |
|---|---|---|
| Text.Lower | scripts.js:202-203 | `toLowerCase` on ASCII: an upper-case letter becomes the letter 32 code points higher, which is lower-case; every other character is unchanged |
| Text.Upper | scripts.js:364 | `toUpperCase` on ASCII: a lower-case letter becomes its upper-case form; every other character is unchanged |
| Text.Normalize | scripts.js:202-203 | the normalised text holds only lower-case letters, spaces and (for the score) digits, and is no longer than the input |
| Text.NormalizeChar | scripts.js:202-203 | a single character is lower-cased and kept when that form is allowed, and removed otherwise; with `Text.NormalizeAppend` this decides the normalisation of every text |
| Text.NormalizeRemovesAll | scripts.js:202-203 | text none of whose characters lower-cases to an allowed one, such as punctuation, normalises to the empty string |
| Text.NormalizeAppend | scripts.js:202-203 | the lower-case-and-strip regex works character by character, so normalisation distributes over concatenation |
| Text.NormalizeIdempotent | scripts.js:202-203 | normalising already-normalised text changes nothing |
| Text.NormalizeIgnoresCase | scripts.js:202-203 | texts equal up to ASCII case normalise to the same text |
| Text.NormalizeToLower | scripts.js:202-203 | text whose lower-case form is already normal normalises to exactly that form |
| Text.NormalizeDropsDigitsAfterwards | scripts.js:202-203 | the feedback normalisation equals the score normalisation with the digits then dropped |
| Text.Split | scripts.js:234-235 | `split(/\s+/)` on normalised text always yields at least one token |
| Text.SplitWellFormed | scripts.js:234-235 | no token holds a space, and only the first and the last token can be empty |
| Text.SplitFirstEmpty | scripts.js:234-235 | the first token is empty exactly when the text is empty or starts with a space |
| Text.SplitLastEmpty | scripts.js:234-235 | the last token is empty exactly when the text is empty or ends with a space |
| Text.SplitSingle | scripts.js:234-235 | there is exactly one token exactly when the text holds no space |
| Text.EmptyTokenIff | scripts.js:234-235 | an empty token appears exactly when the text is empty or has a space at either end |
| Text.SplitJoin | scripts.js:234-235 | splitting the space-joined form of well-formed tokens gives the tokens back |
| Text.JoinSplit | scripts.js:234-235 | joining the tokens with single spaces gives the text with every run of spaces shrunk to one |
| Text.Trim | scripts.js:190 | `trim()` cuts leading and trailing JavaScript whitespace: the result is the stretch after the leading whitespace, only whitespace follows it, and it neither starts nor ends with whitespace |
| Text.TrimEmptyIff | scripts.js:190 | the trimmed text is empty exactly when every character is whitespace |
| Text.TrimUnchanged | scripts.js:364 | text that neither starts nor ends with whitespace is its own trim |
| Text.TrimIdempotent | scripts.js:364 | trimming twice is trimming once |
| EditDistance.Cost | scripts.js:225 | the substitution cost is 0 exactly for equal characters and never more than 1 |
| EditDistance.DistBounds | scripts.js:213-214 | the distance between two prefixes is at least the difference of their lengths and at most the larger length; an empty prefix is as far as the other is long |
| EditDistance.Lev | scripts.js:212-229 | the edit distance of two strings lies between the difference of their lengths and the larger length |
| EditDistance.DistIsLevOfPrefixes | scripts.js:215-227 | every table cell of the recurrence is the edit distance of the two prefixes it indexes |
| EditDistance.LevEmpty | scripts.js:213-214 | a string is at distance its own length from the empty string, on either side |
| EditDistance.LevSelf | scripts.js:225 | a string is at distance 0 from itself |
| EditDistance.LevZeroIff | scripts.js:212-229 | the distance is 0 exactly for equal strings |
| EditDistance.LevSymmetric | scripts.js:212-229 | the distance does not depend on argument order |
| EditDistance.LevTriangle | scripts.js:212-229 | the distance obeys the triangle inequality |
| EditDistance.LevenshteinDistance | scripts.js:212-229 | the early returns and the `(|t|+1) x (|s|+1)` table compute exactly the edit distance between `t` and `s` |
| Scoring.RoundedPercent | scripts.js:209 | the result is within half a point of `100 (L - d) / L`, with halves rounded up; it lies in [0, 100]; it is 100 exactly when `200 d <= L` and 0 exactly when `200 (L - d) < L` |
| Scoring.RoundedPercentAntitone | scripts.js:209 | a larger distance never gives a higher score |
| Scoring.Score | scripts.js:204-209 | the score of two normalised texts lies in [0, 100]; two empty texts score 100; exactly one empty text scores 0 |
| Scoring.Similarity | scripts.js:201-210 | `calculateSimilarity` lies in [0, 100]; both texts empty after normalisation give 100; exactly one empty gives 0 |
| Scoring.ScoreUnswapped | scripts.js:204 | the swap only chooses the denominator: the score is the rounded share of the longer length left by the distance between the two texts, in either order |
| Scoring.SimilaritySymmetric | scripts.js:204 | the score does not depend on which text is the target |
| Scoring.SimilaritySameNormalization | scripts.js:202-209 | texts that normalise to the same string score 100 |
| Scoring.SimilarityPerfectIff | scripts.js:208-209 | a score of 100 means exactly that 200 times the distance is at most the longer length; below 200 characters it means the normalisations are equal |
| Scoring.CaseAndPunctuationScoreFull | scripts.js:202-209 | a text scores 100 against one that differs only in ASCII case, with punctuation appended |
| Scoring.EmptyTextsScoreFull | scripts.js:205-206 | two empty texts, or two texts of punctuation only, score 100 |
| Scoring.CalculateSimilarity | scripts.js:201-210 | running the table-filling distance gives the score of `Similarity`, which lies in [0, 100] |
| Feedback.Tokens | scripts.js:234-235 | the feedback's tokens of a text are well formed |
| Feedback.Classify | scripts.js:238-244 | one mark per target token, in order, with the token as the word, matched exactly when some spoken token equals it |
| Feedback.WordFeedback | scripts.js:233-246 | `generateWordFeedback` gives one mark per target token, in target order; each is matched exactly when the word is among the spoken tokens |
| Feedback.WordsIgnoreSpoken | scripts.js:238-243 | the words shown are the target's tokens whatever was spoken; the spoken text only sets the flags |
| Feedback.RepeatedWordsAgree | scripts.js:239 | every occurrence of a repeated target word gets the same flag |
| Feedback.EmptyTargetSingleMark | scripts.js:234 | a target with nothing left after normalisation gives one mark, for the empty token; it is matched exactly when the normalised transcript is empty or has a space at either end |
| Feedback.EdgeEmptyTokens | scripts.js:234 | the first (last) mark is for an empty token exactly when the normalised target is empty or starts (ends) with a space |
| Feedback.SelfFeedbackAllMatched | scripts.js:239 | reading the target back exactly matches every word |
| Feedback.FeedbackIgnoresPriorNormalization | scripts.js:234-235 | normalising either text beforehand, with or without digits, changes no mark |
| Feedback.MoreSpokenWordsMatchMore | scripts.js:239 | a transcript whose tokens include another's matches every word the other matches |
| Feedback.TheCatExample | scripts.js:233-246 | "The Cat" against "I saw a cat" gives `the` unmatched, then `cat` matched |
| Feedback.CatCatExample | scripts.js:233-246 | "cat cat" against "cat" gives two matched `cat` marks |
| Transcription.OnTranscriptionUpdate | scripts.js:188-198 | a transcript of whitespace only changes nothing; any other one yields the similarity of the target (first) and the transcript (second), in [0, 100], and the word feedback of the target against the transcript, one mark per target token |
| Transcription.PerfectReading | scripts.js:188-198 | a target read back exactly scores 100 with every word matched |
| Prompt.Capitalize | scripts.js:364 | the first character is upper-cased and the rest trimmed; empty text stays empty |
| Prompt.FixSentence | scripts.js:364-365 | the fixed-up text always ends with a full stop; it is the capitalised text with one full stop added exactly when it did not already end with one; empty text becomes "." |
| Prompt.FixSentenceIdempotent | scripts.js:364-365 | fixing up an already fixed-up text changes nothing |
| Timer.DecimalString | scripts.js:348 | `String(n)` is a non-empty run of decimal digits without leading zeros |
| Timer.DecimalRoundTrip | scripts.js:348 | reading back the digits of `String(n)` gives `n` |
| Timer.PadStart2 | scripts.js:348 | `padStart(2, '0')` puts zeros in front up to two characters and keeps the text as its suffix |
| Timer.PadKeepsValue | scripts.js:348 | zero padding keeps the value of the digits |
| Timer.Field | scripts.js:348 | each field has at least two digits, exactly two below 100, no leading zero when wider than two, and shows its number |
| Timer.Clock | scripts.js:346-348 | the text is decimal minutes (at least two digits, no leading zero beyond two), a colon and exactly two digits of seconds, showing the given values |
| Timer.TimerText | scripts.js:344-348 | the timer shows the whole minutes and the seconds past the minute of the elapsed milliseconds |
| Timer.DecimalSameLength | scripts.js:348 | two digit strings of one length and one value are equal |
| Timer.FieldUnique | scripts.js:348 | two timer fields with the same value are the same text, so the field is the one `String(n).padStart(2, '0')` writes |
| Timer.ClockUnique | scripts.js:346-348 | only one text shows given minutes and seconds as the timer does |
| Timer.TimerTextUnique | scripts.js:344-348 | any text showing the elapsed whole minutes and seconds past the minute is the timer text |
| Timer.TimerTextElapsed | scripts.js:345-347 | the shown minutes times 60 plus the shown seconds are the whole seconds elapsed, and the seconds are below 60 |

## Left out

- Everything around the engine is left out:
  - reading the target box and writing the score, feedback and timer into
    the page;
  - the HTML spans and colours of the feedback;
  - the "/100" suffix of the score.
  These are presentation only. `Feedback.WordFeedback` gives the marks they
  render.
- Browser and network I/O is left out: microphone capture, MediaRecorder,
  the Web Speech API, the Whisper upload, the waveform and volume meter, and
  the download link. None of it has algorithmic content. A transcript is a
  parameter of `Transcription.OnTranscriptionUpdate`.
- `setInterval`, `Date.now` and the random choice of a practice sentence are
  left out. The elapsed milliseconds are a parameter of `Timer.TimerText`.
  The fixed and random prompts of `usePrompt` are constant texts.
- Scoring.RoundedPercent: floating point is not modelled.
  `Math.round(((L - d) / L) * 100)` is taken in exact arithmetic as
  `(200 (L - d) + L) div (2 L)`. This treats the double-precision division
  and product as exact.
- Text.Lower: only ASCII letters change case. Unicode case mapping of
  `toLowerCase` is left out. The normalisation drops every character outside
  `a-z`, `0-9` and space, so this matters for the characters whose
  lower-case form contains an ASCII letter: the Kelvin sign U+212A, which
  becomes `k`, and U+0130 `İ`, which becomes `i` followed by U+0307. The
  model drops both, so the score and the feedback can differ for text that
  contains them ("İstanbul" normalises to "istanbul" in the code and to
  "stanbul" here).
- Text.Normalize: inherits the case-mapping difference of `Text.Lower`: the
  Kelvin sign and U+0130 are removed instead of leaving `k` and `i`.
- Text.Upper: only ASCII letters change case. Unicode case mapping of
  `toUpperCase` in the fix-up prompt is left out.
- Prompt.Capitalize: strings are sequences of code points, while
  `charAt(0)` and `slice(1)` index UTF-16 code units. When the first
  character lies outside the Basic Multilingual Plane (an emoji, say), the
  code upper-cases only its high surrogate and leaves the low surrogate at
  the head of the rest, so `trim()` does not remove whitespace after it.
  The model trims that whitespace.
- Prompt.FixSentence: inherits the difference above. For an emoji followed
  by " hi" the code gives the emoji, " hi" and a full stop, and the model
  gives the emoji, "hi" and a full stop.
- Text.Split: it splits on the space character only. The normalisations
  leave no other whitespace, so on normalised text this is `split(/\s+/)`.
- Timer.TimerText: the elapsed time is a natural number. A clock that goes
  backwards between `Date.now()` calls (a negative delta) is not modelled.
- EditDistance.LevenshteinDistance: the table is a fixed 2-D array instead
  of the growing array of rows that the code builds.
