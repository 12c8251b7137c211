# Hat check: decision policy and verdict display

This project models the decision core of a browser "hat-check" gate. A camera frame is
scored by a zero-shot image classifier against the concepts `head`, `hands` and `hat`,
and the answer, a list of `{label, score}` records, decides whether the subject may pass.
The frame passes only when the first `hat` record scores at least 0.8 and strictly above
every record not labelled `hat`. The verdict is then shown on a message element: one text
or the other, the green class added and the red one removed, or the reverse.

- `wrappers.dfy`: module `Wrappers`, the `Option` datatype.
- `decision.dfy`: module `HatDecision`. The `ScoreEntry` record, the constants, the
  first-`hat` search, the verdict `IsHatScoreHighest`, and the lemmas about it. The
  verdict is proved equal to a reference definition over positions (`PassesHatCheck`).
  The record's `label` field is called `concept` because `label` is a Dafny keyword.
- `message.dfy`: module `DetectorMessage`. The message element is a class whose `text`
  and `classes` fields are updated in place. `ShowDetectorMessage` is proved against the
  function `Shown`, and the lemmas about `Shown` give idempotence and "last verdict wins".

Scores are only compared, never combined, so they are `real` and the threshold is exactly
0.8; no floating-point rounding is involved.

## Model

| member | source | states |
|---|---|---|
| HatDecision.FirstHatIndex | main.js:115 | returns the position of the first record labelled `hat` (every earlier record is not a hat), and None exactly when no record is labelled `hat` |
| HatDecision.FindHat | main.js:115-120 | returns the first `hat` record itself; None (the falsy `find` result) exactly when the list has no `hat` record |
| HatDecision.IsHatScoreHighest | main.js:114-129 | true exactly when a first `hat` record exists, it scores at least 0.8, and every record is either labelled `hat` or scores strictly below it |
| HatDecision.NoHatRejects | main.js:117-120 | a list without any `hat` record is rejected |
| HatDecision.EmptyRejects | main.js:115-120 | the empty list is rejected |
| HatDecision.BelowThresholdRejects | main.js:122-124 | a first `hat` record scoring below 0.8 rejects, whatever the other records are |
| HatDecision.RivalAtLeastAsHighRejects | main.js:126-128 | a non-hat record scoring at least the first hat's score rejects; an exact tie fails because the comparison is strict |
| HatDecision.DominantHatAccepts | main.js:122-128 | a first hat at or above 0.8 that strictly beats every non-hat record is accepted |
| HatDecision.ThresholdIsInclusive | main.js:122-128 | when the first hat scores exactly 0.8 it passes the threshold test (the test is `score < 0.8`), so the verdict is then exactly "every non-hat record scores below 0.8" |
| HatDecision.LaterHatsExempt | main.js:126-128 | replacing the score of any `hat` record after the first by any value leaves the verdict unchanged |
| HatDecision.FirstHatIndexAppend | main.js:115 | once a `hat` record exists, appending any sequence of records does not move the first-hat position |
| HatDecision.OrderMattersWithTwoHats | main.js:115-128 | with two `hat` records, the same records are accepted in one order and rejected in another, because the later, higher hat is exempt rather than used |
| HatDecision.SingleHatVerdict | main.js:114-129 | when every `hat` record is the same record h, the verdict is: h scores at least 0.8 and every non-hat record in the list scores below h |
| HatDecision.SingleHatOrderIndependent | main.js:114-129 | with a single hat record, any permutation of the answer gets the same verdict |
| HatDecision.VocabularyOrderVerdict | main.js:10 | for an answer in vocabulary order (`head`, `hands`, `hat`), the verdict is hat at least 0.8 and above both other scores |
| HatDecision.WorkedExamples | main.js:114-129 | a confident dominant hat passes; a hat at 0.79, a tie at 0.85 and an answer without a hat all fail |
| DetectorMessage.Shown | main.js:103-111 | on a pass the text is the pass text, the green class is present and the red one absent; on a fail the reverse; all other classes unchanged |
| DetectorMessage.LastVerdictWins | main.js:103-111 | showing one verdict and then another leaves the element as showing only the second |
| DetectorMessage.ShownIdempotent | main.js:103-111 | showing the same verdict twice leaves the same text and classes as showing it once |
| DetectorMessage.MessageElement.constructor | main.js:20 | the element starts with the loading text and its page-defined classes |
| DetectorMessage.MessageElement.AddClass | main.js:105 | `classList.add`: the class is present afterwards, the text and other classes are unchanged |
| DetectorMessage.MessageElement.RemoveClass | main.js:106 | `classList.remove`: the class is absent afterwards, the text and other classes are unchanged |
| DetectorMessage.MessageElement.ShowDetectorMessage | main.js:102-112 | the new text and classes are `Shown` of the old ones under the verdict for the items; exactly one colour class is present, matching the text and the verdict, and no other class changes |

## Left out

- Loading the classifier from the model hub and the CDN import (main.js:1-7, 24-40): a network download and a foreign library call.
- Camera acquisition, drawing the frame on a canvas and encoding it (main.js:42-80): browser I/O with no decision logic.
- The frame loop and the asynchronous `classificator` (main.js:67-100): scheduling only. As written, the loop stops when the video is not ready and when the classifier call fails; it has no retry.
- The status line texts and the start button's visibility (main.js:19, 32-33, 43-44, 95, 97): display toggles, not state the decision depends on.
- Score values that are not numbers (NaN, missing `score`): the model takes every score to be a real number. The classifier's range [0, 1] is not assumed either, since the code never checks it.
- The order of tokens in the browser's class list: `classes` is a set.
