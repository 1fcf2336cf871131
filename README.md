# Paragraph-position prosody in MaryTTS, modelled in Dafny

This project models two acoustic-module classes of the MaryTTS runtime.

- **ProsodyParagraphHandler** reshapes the prosody of a MaryXML document according to where each sentence stands in its paragraph. For each phrase of each sentence it does four things:
  - It picks a speech-rate change from the sentence's location (First, Middle or Last) and the phrase's word count. One call in every `NUM_PARAGRAPHS` is damped by 4.1%, as decided by the static counter `CurrentParagraphProsody`.
  - It lengthens the phrase's phone durations by that rate and recomputes the `end` time of every phone in the document.
  - It extracts the phrase's pitch contour (101 samples) from the phones' `f0` targets and replaces the contour's fitted linear baseline with a falling ramp whose range depends on the location.
  - It writes the new contour back onto the same targets.
- **BoundaryModel.applyTo** gives every boundary that has no `duration` a pause length taken from its `breakindex`.

The document is abstracted to two parts:
- a sequence of `ph` and `boundary` segments in document order, each with typed optional attributes;
- the sentences, each a sequence of phrases, where a phrase holds its tokens and the positions of its phones.

Durations, times and rates are exact reals. Java's `Math.floor`, `(int)` truncation and `int` saturation are written out.

Modules:
- `Wrappers`: Option, Result and Outcome.
- `BoundaryModel`: the element class, the break-index table and `ApplyTo`.
- `ProsodyDocument`: segments, phrases, the `Document` class, the duration rescale and the timeline pass.
- `ProsodyPolicy`: sentence location, the rate tables, the paragraph counter, the pitch half-range and the new baseline.
- `ProsodyContour`: target placement, contour extraction and writeback.
- `ProsodyParagraphHandler`: word statistics, `setModifiedContour`, the per-phrase step, the run over the document, and the handler class with `Process`, `ProcessPhrase` and `ModifySpeechRate`.

The handler's methods change the document and the counter in place. Each method is proved equal to a specification function:
- `PhraseStep` specifies one phrase.
- `RunSentences`, `RunPhrases`, `RunPhrase` and `AfterPhrase` specify the two loops of `process`. They take the per-phrase action as a parameter.

The properties of the run are proved once, for any action that keeps the document's shape and moves the counter once per phrase. They are then instantiated with the handler's own action, `PhraseStepAction`.

Where the code and the design disagree, the model follows the code:
- The rate table's middle word-count column is "more than 4 and less than 8"; the pitch table's is "more than 4 and at most 8".
- An unknown location gets rate 0 and still moves the counter; only the pitch table raises an exception for it.
- Writeback clamps the contour index only from above; extraction clamps it at both ends.
- The new baseline's slope divides by 51, not by 100.
- A phrase with no words is processed like any other.
- A phrase with no phone makes `modifySpeechRate` fail on its first element. This happens after the durations are rescaled and the counter has moved.

## Model

| member | source | states |
|---|---|---|
| ProsodyParagraphHandler.ProsodyParagraphHandler.Process | marytts-runtime/src/main/java/marytts/modules/acoustic/ProsodyParagraphHandler.java:60-135 | the document and counter after `process` are exactly those of the run over all sentences with the handler's phrase action; the first exception ends processing |
| ProsodyParagraphHandler.ProsodyParagraphHandler.ProcessPhrase | marytts-runtime/src/main/java/marytts/modules/acoustic/ProsodyParagraphHandler.java:79-131 | one iteration of the phrase loop (word statistics, rate, contour, new baseline, writeback) leaves the document, counter and outcome that `PhraseStep` specifies |
| ProsodyParagraphHandler.ProsodyParagraphHandler.ModifySpeechRate | marytts-runtime/src/main/java/marytts/modules/acoustic/ProsodyParagraphHandler.java:196-323 | the counter moves to its next value; the phrase's durations are rescaled by the table rate (damped when the counter had reached the paragraph count); a phrase with a phone gets the whole timeline recomputed, a phrase without one fails |
| ProsodyParagraphHandler.ProsodyParagraphHandler.constructor | marytts-runtime/src/main/java/marytts/modules/acoustic/ProsodyParagraphHandler.java:44 | the counter starts at 1 and lies between 1 and the paragraph count |
| ProsodyParagraphHandler.WordStatistics | marytts-runtime/src/main/java/marytts/modules/acoustic/ProsodyParagraphHandler.java:80-94 | the word count is the number of non-punctuation tokens and the length sum is the total text length of exactly those tokens |
| ProsodyParagraphHandler.WordsAreTheNonPunctuation | marytts-runtime/src/main/java/marytts/modules/acoustic/ProsodyParagraphHandler.java:85-93 | a token is counted as a word if and only if its part of speech is not "." |
| ProsodyParagraphHandler.WordsWithoutPunctuation | marytts-runtime/src/main/java/marytts/modules/acoustic/ProsodyParagraphHandler.java:85-93 | without punctuation every token is a word, in order |
| ProsodyParagraphHandler.Words | marytts-runtime/src/main/java/marytts/modules/acoustic/ProsodyParagraphHandler.java:85-93 | there are never more words than tokens |
| ProsodyParagraphHandler.WordsCountEachToken | marytts-runtime/src/main/java/marytts/modules/acoustic/ProsodyParagraphHandler.java:85-93 | with multiplicity: each non-punctuation token is counted as often as it occurs, punctuation never |
| ProsodyParagraphHandler.TextLength | marytts-runtime/src/main/java/marytts/modules/acoustic/ProsodyParagraphHandler.java:91-92 | the summed text length of the tokens, zero exactly when every text is empty |
| ProsodyParagraphHandler.ReplaceBaseline | marytts-runtime/src/main/java/marytts/modules/acoustic/ProsodyParagraphHandler.java:117-128 | each sample of the result stands above the new baseline exactly as far as the contour stood above the fitted one |
| ProsodyParagraphHandler.Rebased | marytts-runtime/src/main/java/marytts/modules/acoustic/ProsodyParagraphHandler.java:117-128 | the contour with the fitted baseline swapped for the new one: each sample keeps its distance to the baseline, and the length is kept |
| ProsodyParagraphHandler.RebasedSameBase | marytts-runtime/src/main/java/marytts/modules/acoustic/ProsodyParagraphHandler.java:117-128 | imposing the residual on the baseline it came from gives the contour back |
| ProsodyParagraphHandler.RescaleDurations | marytts-runtime/src/main/java/marytts/modules/acoustic/ProsodyParagraphHandler.java:283-296 | every listed phone with a `d` gets `d + (rate/100)·d`; nothing else changes |
| ProsodyParagraphHandler.UpdateEndTimes | marytts-runtime/src/main/java/marytts/modules/acoustic/ProsodyParagraphHandler.java:298-321 | the document ends up as the timeline pass `EndTimes` specifies |
| ProsodyParagraphHandler.RewritePhoneTargets | marytts-runtime/src/main/java/marytts/modules/acoustic/ProsodyParagraphHandler.java:448-461 | one phone's targets are rewritten as `RewriteTargets` specifies, failing with the first negative index |
| ProsodyParagraphHandler.RewriteTargetsFailureStays | marytts-runtime/src/main/java/marytts/modules/acoustic/ProsodyParagraphHandler.java:448-461 | once a prefix of the targets fails, the whole phone fails with the same error |
| ProsodyParagraphHandler.WritebackFailureStays | marytts-runtime/src/main/java/marytts/modules/acoustic/ProsodyParagraphHandler.java:431-464 | once a prefix of the phones fails, the writeback of the phrase ends there |
| ProsodyParagraphHandler.SetModifiedContour | marytts-runtime/src/main/java/marytts/modules/acoustic/ProsodyParagraphHandler.java:418-465 | the phones are rewritten in order as `WritebackPhrase` specifies over the phrase's span, and `WritebackPhraseAt` says what that does to each element; the first failure stops it, leaving earlier phones rewritten |
| ProsodyParagraphHandler.PhraseStep | marytts-runtime/src/main/java/marytts/modules/acoustic/ProsodyParagraphHandler.java:79-131 | one phrase keeps every boundary and the element kinds, and moves the counter exactly once, even when it fails |
| ProsodyParagraphHandler.PhraseStepAction | marytts-runtime/src/main/java/marytts/modules/acoustic/ProsodyParagraphHandler.java:79-131 | the handler's phrase action is defined on every well-formed phrase, keeps the boundaries, and moves the counter once |
| ProsodyParagraphHandler.RunSentences | marytts-runtime/src/main/java/marytts/modules/acoustic/ProsodyParagraphHandler.java:66-133 | processing sentences onwards never changes a boundary nor the kind of any element |
| ProsodyParagraphHandler.RunPhrases | marytts-runtime/src/main/java/marytts/modules/acoustic/ProsodyParagraphHandler.java:79-132 | processing phrases onwards never changes a boundary nor the kind of any element |
| ProsodyParagraphHandler.RunPhrase | marytts-runtime/src/main/java/marytts/modules/acoustic/ProsodyParagraphHandler.java:79-131 | one phrase and the rest never change a boundary nor the kind of any element |
| ProsodyParagraphHandler.AfterPhrase | marytts-runtime/src/main/java/marytts/modules/acoustic/ProsodyParagraphHandler.java:79-132 | what follows a phrase never changes a boundary; an exception stops the run |
| ProsodyParagraphHandler.RunPhrasesStep | marytts-runtime/src/main/java/marytts/modules/acoustic/ProsodyParagraphHandler.java:79-132 | one phrase is one action of the loop body and the run continues from its result; well-formedness is preserved |
| ProsodyParagraphHandler.ProcessCounter | marytts-runtime/src/main/java/marytts/modules/acoustic/ProsodyParagraphHandler.java:222-277 | a run without exception moves the paragraph counter once per phrase: from its value after `calls` calls to its value after `calls` plus the number of phrases |
| ProsodyParagraphHandler.RunPhrasesCounter | marytts-runtime/src/main/java/marytts/modules/acoustic/ProsodyParagraphHandler.java:222-277 | from any phrase on, a run without exception advances the counter once for each remaining phrase |
| ProsodyParagraphHandler.RescaleKeepsDurations | marytts-runtime/src/main/java/marytts/modules/acoustic/ProsodyParagraphHandler.java:283-296 | a non-negative rate keeps durations non-negative and never removes a `d` |
| ProsodyParagraphHandler.TimingKeepsDurations | marytts-runtime/src/main/java/marytts/modules/acoustic/ProsodyParagraphHandler.java:298-321 | the timeline pass and the writeback leave the duration of every element exactly as it was (`d` of a phone, `duration` of a boundary, absent counted as 0), so durations stay non-negative and every `d` stays |
| ProsodyParagraphHandler.PhraseStepKeepsDurations | marytts-runtime/src/main/java/marytts/modules/acoustic/ProsodyParagraphHandler.java:79-131 | one phrase never makes a duration negative nor removes a `d` |
| ProsodyParagraphHandler.PhraseTimeline | marytts-runtime/src/main/java/marytts/modules/acoustic/ProsodyParagraphHandler.java:298-321 | after the timeline pass every phone of a fully timed phrase has `d` and `end` and starts inside the phrase's span, whose length is non-negative |
| ProsodyParagraphHandler.PhraseStepPasses | marytts-runtime/src/main/java/marytts/modules/acoustic/ProsodyParagraphHandler.java:79-131 | in exact arithmetic, a phrase of a located sentence whose phones all have a `d`, in a document without negative durations, raises no exception |
| ProsodyParagraphHandler.KeepsDurationsConditions | marytts-runtime/src/main/java/marytts/modules/acoustic/ProsodyParagraphHandler.java:79-131 | the conditions for an exception-free phrase survive any step that keeps durations |
| ProsodyParagraphHandler.PhraseStepPassesWithDurations | marytts-runtime/src/main/java/marytts/modules/acoustic/ProsodyParagraphHandler.java:79-131 | the handler's action passes and keeps durations under those conditions |
| ProsodyParagraphHandler.ProcessRaisesNothing | marytts-runtime/src/main/java/marytts/modules/acoustic/ProsodyParagraphHandler.java:60-135 | in exact arithmetic, a document without negative durations whose phrases all have phones with a `d` is processed without any exception. IEEE rounding of a phone's start is not covered; it could give an offset just below zero and so a negative writeback index |
| ProsodyParagraphHandler.RunPhrasesPasses | marytts-runtime/src/main/java/marytts/modules/acoustic/ProsodyParagraphHandler.java:66-133 | from any phrase on, under the same conditions, the run raises no exception |
| ProsodyPolicy.SentenceLocationClasses | marytts-runtime/src/main/java/marytts/modules/acoustic/ProsodyParagraphHandler.java:66-76 | sentence 0 is First (even when alone), the last sentence other than 0 is Last, every other is Middle, and every sentence is located |
| ProsodyPolicy.SentenceLocation | marytts-runtime/src/main/java/marytts/modules/acoustic/ProsodyParagraphHandler.java:66-76 | the location of sentence `k`: First for 0, Last for the final index, Middle otherwise; always one of the three |
| ProsodyPolicy.SpeechRateTable | marytts-runtime/src/main/java/marytts/modules/acoustic/ProsodyParagraphHandler.java:222-277 | the rate is the table entry for the location and word-count column, times 1 − 0.041 on a damped call; an unknown location gets 0; every rate is in [0, 9.9] |
| ProsodyPolicy.UndampedRate | marytts-runtime/src/main/java/marytts/modules/acoustic/ProsodyParagraphHandler.java:222-247 | the undamped rate table by location and column (≤4, 5–7, ≥8 words); every value in [0, 9.9], and 0 for an unknown location |
| ProsodyPolicy.SpeechRate | marytts-runtime/src/main/java/marytts/modules/acoustic/ProsodyParagraphHandler.java:222-277 | the rate of a call: the undamped rate, or that rate less 4.1% of it on a damped call, so never above the undamped rate and strictly below it when that is positive |
| ProsodyPolicy.IsDampedCall | marytts-runtime/src/main/java/marytts/modules/acoustic/ProsodyParagraphHandler.java:222 | a call is damped when the counter is not below the paragraph count, and exactly then it resets the counter to 1; otherwise the counter goes up by one |
| ProsodyPolicy.NextCounter | marytts-runtime/src/main/java/marytts/modules/acoustic/ProsodyParagraphHandler.java:222-277 | the counter increments below the paragraph count and resets to 1 otherwise, so it stays in [1, NUM_PARAGRAPHS] |
| ProsodyPolicy.CounterAfter | marytts-runtime/src/main/java/marytts/modules/acoustic/ProsodyParagraphHandler.java:44 | the counter after a number of calls from its initial value 1, always within [1, NUM_PARAGRAPHS] |
| ProsodyPolicy.CountersAheadAdd | marytts-runtime/src/main/java/marytts/modules/acoustic/ProsodyParagraphHandler.java:222-277 | `a` calls followed by `b` calls move the counter as `a + b` calls do |
| ProsodyPolicy.CountersAheadAfter | marytts-runtime/src/main/java/marytts/modules/acoustic/ProsodyParagraphHandler.java:222-277 | `n` calls after call number `calls` the counter is where `calls + n` calls from 1 put it |
| ProsodyPolicy.CounterInCycle | marytts-runtime/src/main/java/marytts/modules/acoustic/ProsodyParagraphHandler.java:222-277 | after whole blocks of NUM_PARAGRAPHS calls and `j` more, the counter is `j + 1` |
| ProsodyPolicy.DampedOncePerCycle | marytts-runtime/src/main/java/marytts/modules/acoustic/ProsodyParagraphHandler.java:222-277 | from 1, the counter after `n` calls is `n mod NUM_PARAGRAPHS + 1`; a call is damped if and only if it is the last of its block; the counter is periodic |
| ProsodyPolicy.BucketsDifferOnlyAtEight | marytts-runtime/src/main/java/marytts/modules/acoustic/ProsodyParagraphHandler.java:152-173 | the rate and pitch tables put a phrase in the same column except at exactly 8 words |
| ProsodyPolicy.PitchHalfRangeTable | marytts-runtime/src/main/java/marytts/modules/acoustic/ProsodyParagraphHandler.java:150-177 | the half-range is the table entry for the location and column, lies strictly between 0 and 0.1, and fails (UnlocatedSentence) exactly for an unknown location |
| ProsodyPolicy.PitchHalfRange | marytts-runtime/src/main/java/marytts/modules/acoustic/ProsodyParagraphHandler.java:150-177 | the half-range by location and column (≤4, 5–8, >8 words), strictly between 0 and 0.1; an unknown location is the IllegalArgumentException of line 176 |
| ProsodyPolicy.ApplyBasePitchModification | marytts-runtime/src/main/java/marytts/modules/acoustic/ProsodyParagraphHandler.java:144-187 | the new baseline exists if and only if the location is known, and has 101 samples |
| ProsodyPolicy.BaselineRampShape | marytts-runtime/src/main/java/marytts/modules/acoustic/ProsodyParagraphHandler.java:182-184 | the baseline starts at max·(1+h), changes by (mean − max·(1+h))/51 per sample, and meets the old mean at sample 51 |
| ProsodyPolicy.RampValue | marytts-runtime/src/main/java/marytts/modules/acoustic/ProsodyParagraphHandler.java:183 | sample `x` of the new baseline: max·(1+h) at 0 and the old mean at 51 |
| ProsodyPolicy.BaselineRampFalls | marytts-runtime/src/main/java/marytts/modules/acoustic/ProsodyParagraphHandler.java:111-113 | with mean ≤ max and max ≥ 0 the new baseline never rises |
| ProsodyPolicy.RampStep | marytts-runtime/src/main/java/marytts/modules/acoustic/ProsodyParagraphHandler.java:183 | consecutive ramp samples differ by the slope |
| ProsodyPolicy.RampFalls | marytts-runtime/src/main/java/marytts/modules/acoustic/ProsodyParagraphHandler.java:183 | under those conditions a later ramp sample is never above an earlier one |
| ProsodyDocument.Rescale | marytts-runtime/src/main/java/marytts/modules/acoustic/ProsodyParagraphHandler.java:287-294 | a phone with `d` gets a new `d`, everything else is kept; boundaries are untouched |
| ProsodyDocument.RescaledDurationFactor | marytts-runtime/src/main/java/marytts/modules/acoustic/ProsodyParagraphHandler.java:292 | the new duration is `d·(1 + rate/100)`, can be undone when that factor is non-zero, and is never shorter for non-negative rate and duration |
| ProsodyDocument.RescaledDuration | marytts-runtime/src/main/java/marytts/modules/acoustic/ProsodyParagraphHandler.java:292 | the new duration `d + (rate/100)·d`; a zero rate keeps it |
| ProsodyDocument.RescalePhones | marytts-runtime/src/main/java/marytts/modules/acoustic/ProsodyParagraphHandler.java:283-296 | rescaling keeps all boundaries and every segment outside the phrase |
| ProsodyDocument.EndTimes | marytts-runtime/src/main/java/marytts/modules/acoustic/ProsodyParagraphHandler.java:298-321 | the timeline pass keeps all boundaries and element kinds |
| ProsodyDocument.EndTimesProperties | marytts-runtime/src/main/java/marytts/modules/acoustic/ProsodyParagraphHandler.java:298-321 | boundaries never get `end`; each phone gets 0.001 × the running time including itself; with non-negative durations the `end` values never decrease |
| ProsodyDocument.ElapsedMonotone | marytts-runtime/src/main/java/marytts/modules/acoustic/ProsodyParagraphHandler.java:303-313 | with non-negative durations the running time never decreases |
| ProsodyDocument.SegmentDuration | marytts-runtime/src/main/java/marytts/modules/acoustic/ProsodyParagraphHandler.java:305-313 | what an element adds to the running time: `duration` of a boundary, `d` of a phone, 0 when the attribute is absent |
| ProsodyDocument.ElapsedMs | marytts-runtime/src/main/java/marytts/modules/acoustic/ProsodyParagraphHandler.java:303-314 | the running time after the first `n` elements, non-negative when they add nothing negative |
| ProsodyDocument.ElapsedAfterEndTimes | marytts-runtime/src/main/java/marytts/modules/acoustic/ProsodyParagraphHandler.java:298-321 | the pass leaves the running time unchanged |
| ProsodyDocument.EndTimesIdempotent | marytts-runtime/src/main/java/marytts/modules/acoustic/ProsodyParagraphHandler.java:298-321 | running the timeline pass twice is running it once |
| ProsodyDocument.EndTimesPhoneStart | marytts-runtime/src/main/java/marytts/modules/acoustic/ProsodyParagraphHandler.java:372-375 | after the pass, a phone's `end` minus its duration is 0.001 × the running time before it |
| ProsodyDocument.PhraseSegments | marytts-runtime/src/main/java/marytts/modules/acoustic/ProsodyParagraphHandler.java:82 | the phrase's `ph` elements are read in order from the document |
| ProsodyContour.JavaIntCast | marytts-runtime/src/main/java/marytts/modules/acoustic/ProsodyParagraphHandler.java:396 | the cast saturates to the `int` range and keeps values inside it |
| ProsodyContour.TruncateProperties | marytts-runtime/src/main/java/marytts/modules/acoustic/ProsodyParagraphHandler.java:459 | `(int)` of a double moves toward zero by less than one and keeps an `int` exactly |
| ProsodyContour.Truncate | marytts-runtime/src/main/java/marytts/modules/acoustic/ProsodyParagraphHandler.java:459 | `(int)` of a double: truncation toward zero, then saturation to the `int` range |
| ProsodyContour.FloorIndex | marytts-runtime/src/main/java/marytts/modules/acoustic/ProsodyParagraphHandler.java:396-397 | `(int) Math.floor(num/den)`: always an `int`, and the floor of the quotient when that fits; a zero denominator gives the largest `int`, 0 or the smallest `int` (Infinity, NaN, -Infinity) |
| ProsodyContour.ClampIndex | marytts-runtime/src/main/java/marytts/modules/acoustic/ProsodyParagraphHandler.java:398-402 | extraction clamps the index into [0, arraysize − 1] and keeps an index already inside |
| ProsodyContour.PhraseSpan | marytts-runtime/src/main/java/marytts/modules/acoustic/ProsodyParagraphHandler.java:372-376 | the phrase span starts where the first phone starts (its `end` minus its `d`/1000) and ends at the last phone's `end` |
| ProsodyContour.TargetOffset | marytts-runtime/src/main/java/marytts/modules/acoustic/ProsodyParagraphHandler.java:395-396 | seconds from the span start to a target: the phone's start minus the span start, plus `percent`% of the phone's duration |
| ProsodyContour.ScaledIndex | marytts-runtime/src/main/java/marytts/modules/acoustic/ProsodyParagraphHandler.java:396-397 | the floor of offset·size/length, always an `int` |
| ProsodyContour.PlaceIndex | marytts-runtime/src/main/java/marytts/modules/acoustic/ProsodyParagraphHandler.java:395-397 | the unclamped sample of a target in a `size`-sample contour, always an `int` |
| ProsodyContour.PlaceIndexInsideSpan | marytts-runtime/src/main/java/marytts/modules/acoustic/ProsodyParagraphHandler.java:395-402 | a target inside the phrase span lands, unclamped, on the sample its share of the span selects |
| ProsodyContour.FloorIndexBelow | marytts-runtime/src/main/java/marytts/modules/acoustic/ProsodyParagraphHandler.java:396-397 | the floor of offset·size/length is in range and within one of the exact quotient |
| ProsodyContour.PhoneWrites | marytts-runtime/src/main/java/marytts/modules/acoustic/ProsodyParagraphHandler.java:392-404 | a phone writes one in-range sample per target, in order, and nothing without targets |
| ProsodyContour.ContourWrites | marytts-runtime/src/main/java/marytts/modules/acoustic/ProsodyParagraphHandler.java:378-405 | every write of a phrase lands inside the array |
| ProsodyContour.Overlay | marytts-runtime/src/main/java/marytts/modules/acoustic/ProsodyParagraphHandler.java:403 | performing writes keeps the array's length |
| ProsodyContour.OverlayLastWrite | marytts-runtime/src/main/java/marytts/modules/acoustic/ProsodyParagraphHandler.java:403 | after the writes each sample holds the last value written there |
| ProsodyContour.OverlayUntouched | marytts-runtime/src/main/java/marytts/modules/acoustic/ProsodyParagraphHandler.java:369-370 | a sample nobody writes keeps its initial value |
| ProsodyContour.OverlayLastWins | marytts-runtime/src/main/java/marytts/modules/acoustic/ProsodyParagraphHandler.java:403 | the last write to a sample wins |
| ProsodyContour.OverlayAppend | marytts-runtime/src/main/java/marytts/modules/acoustic/ProsodyParagraphHandler.java:378-405 | performing two batches of writes is performing their concatenation |
| ProsodyContour.ContourWritesAt | marytts-runtime/src/main/java/marytts/modules/acoustic/ProsodyParagraphHandler.java:378-405 | phone `i`'s writes follow those of the phones before it |
| ProsodyContour.RawContour | marytts-runtime/src/main/java/marytts/modules/acoustic/ProsodyParagraphHandler.java:369-405 | the raw contour has `arraysize` samples |
| ProsodyContour.RawContourOverlay | marytts-runtime/src/main/java/marytts/modules/acoustic/ProsodyParagraphHandler.java:369-405 | the raw contour is the zero array after all the phrase's writes in order |
| ProsodyContour.FirstBadElement | marytts-runtime/src/main/java/marytts/modules/acoustic/ProsodyParagraphHandler.java:356-364 | validation fails exactly when some element is not a timed `ph`, with one of the two errors |
| ProsodyContour.FirstBadElementIsFirst | marytts-runtime/src/main/java/marytts/modules/acoustic/ProsodyParagraphHandler.java:356-364 | the error reported is that of the first offending element |
| ProsodyContour.ContourInputError | marytts-runtime/src/main/java/marytts/modules/acoustic/ProsodyParagraphHandler.java:348-364 | extraction raises nothing exactly when the list is non-empty, the size positive and every element timed |
| ProsodyContour.GetF0Contour | marytts-runtime/src/main/java/marytts/modules/acoustic/ProsodyParagraphHandler.java:346-408 | the first validation error is returned before any output; otherwise the result is the interpolation of the raw contour |
| ProsodyContour.PlaceTargets | marytts-runtime/src/main/java/marytts/modules/acoustic/ProsodyParagraphHandler.java:392-404 | one phone's targets are written into the array as its writes specify |
| ProsodyContour.WritebackIndex | marytts-runtime/src/main/java/marytts/modules/acoustic/ProsodyParagraphHandler.java:454-458 | the writeback index is the extraction index over 101 samples, replaced by 100 when it is 101 or more and kept otherwise, negative values included (no clamp from below) |
| ProsodyContour.MatchedTargets | marytts-runtime/src/main/java/marytts/modules/acoustic/ProsodyParagraphHandler.java:443-449 | the pairs read back are exactly those with a non-negative value; `MatchedTargetsAppend` and `MatchedTargetsCount` give their order and multiplicity |
| ProsodyContour.MatchedTargetsAll | marytts-runtime/src/main/java/marytts/modules/acoustic/ProsodyParagraphHandler.java:443-449 | with no negative value every pair is read back, in order |
| ProsodyContour.MatchedTargetsAppend | marytts-runtime/src/main/java/marytts/modules/acoustic/ProsodyParagraphHandler.java:443-449 | reading back preserves order: two stretches of the attribute read back as the first's pairs followed by the second's, and a single pair is read exactly when its value is not negative |
| ProsodyContour.MatchedTargetsCount | marytts-runtime/src/main/java/marytts/modules/acoustic/ProsodyParagraphHandler.java:443-449 | with multiplicity: a pair with a non-negative value is read back as often as it occurs, the others never |
| ProsodyContour.RewriteTargets | marytts-runtime/src/main/java/marytts/modules/acoustic/ProsodyParagraphHandler.java:448-461 | the rewritten targets keep their number, order and percents, each with the truncated contour sample at its index; the result fails exactly on a negative index |
| ProsodyContour.WritebackIndexNonNegative | marytts-runtime/src/main/java/marytts/modules/acoustic/ProsodyParagraphHandler.java:454-458 | a phone starting inside a span of non-negative length never gets a negative index |
| ProsodyContour.RoundTrip | marytts-runtime/src/main/java/marytts/modules/acoustic/ProsodyParagraphHandler.java:346-465 | writing back an unmodified contour gives a phone exactly its targets back, when all of the following hold: no two targets of the phrase fall on the same sample; the contour still holds the placed values at the placed samples (interpolation only fills the others); none of the phone's writeback indices is negative; and every target value is a non-negative `int`. A negative value is dropped by the read-back pattern, so it cannot round-trip |
| ProsodyContour.RoundTripTarget | marytts-runtime/src/main/java/marytts/modules/acoustic/ProsodyParagraphHandler.java:346-465 | the round trip for one target |
| ProsodyContour.WritebackPhone | marytts-runtime/src/main/java/marytts/modules/acoustic/ProsodyParagraphHandler.java:431-464 | writing back a phone changes only pitch targets; a phone without targets is skipped |
| ProsodyContour.WritebackPhrase | marytts-runtime/src/main/java/marytts/modules/acoustic/ProsodyParagraphHandler.java:418-465 | writing back a phrase changes only pitch targets |
| ProsodyContour.PhoneAfter | marytts-runtime/src/main/java/marytts/modules/acoustic/ProsodyParagraphHandler.java:436-463 | a phone after the writeback got through it: left alone without targets, otherwise with its read-back targets rewritten; `d` and `end` are kept |
| ProsodyContour.WritebackPhoneAt | marytts-runtime/src/main/java/marytts/modules/acoustic/ProsodyParagraphHandler.java:433-463 | a phone written back without exception is the only element that changes, and it becomes `PhoneAfter` of itself |
| ProsodyContour.WritebackPhraseAt | marytts-runtime/src/main/java/marytts/modules/acoustic/ProsodyParagraphHandler.java:431-464 | when the phrase writeback raises nothing: elements outside the phrase stay as they were; every phone of the phrase got through; a phone without targets is left alone; every other phone gets `RewriteTargets` of its read-back targets |
| ProsodyContour.WritebackPhrasePasses | marytts-runtime/src/main/java/marytts/modules/acoustic/ProsodyParagraphHandler.java:418-465 | with every phone starting inside a span of non-negative length, writeback never goes out of bounds |
| BoundaryModel.ApplyTo | marytts-runtime/src/main/java/marytts/modules/acoustic/BoundaryModel.java:48-73 | every listed element ends up with the target attribute; present values are kept and no other attribute changes |
| BoundaryModel.AssignDuration | marytts-runtime/src/main/java/marytts/modules/acoustic/BoundaryModel.java:51-66 | the target attribute is present afterwards; other attributes are unchanged; a present target leaves the element as it was |
| BoundaryModel.GetAttribute | marytts-runtime/src/main/java/marytts/modules/acoustic/BoundaryModel.java:52 | the DOM `getAttribute`: the value, or "" when the attribute is absent |
| BoundaryModel.BreakIndexDuration | marytts-runtime/src/main/java/marytts/modules/acoustic/BoundaryModel.java:52-65 | the string written for a break index, always a decimal number |
| BoundaryModel.BreakIndexTable | marytts-runtime/src/main/java/marytts/modules/acoustic/BoundaryModel.java:52-65 | the value written is decimal: 240 for "4", 520 for "5", 1240 for "6"–"8", 300 for "9", and 210 for anything else |
| BoundaryModel.AssignDurationValue | marytts-runtime/src/main/java/marytts/modules/acoustic/BoundaryModel.java:51-65 | a present target is kept; a missing one gets the table value, where a missing `breakindex` counts as "" |
| BoundaryModel.AssignDurationIdempotent | marytts-runtime/src/main/java/marytts/modules/acoustic/BoundaryModel.java:51 | assigning twice is assigning once |
| BoundaryModel.DecimalValueSnoc | marytts-runtime/src/main/java/marytts/modules/acoustic/BoundaryModel.java:52-65 | appending a digit multiplies by ten and adds the digit |
| BoundaryModel.ThreeDigitValue | marytts-runtime/src/main/java/marytts/modules/acoustic/BoundaryModel.java:52-65 | a three-digit string denotes hundreds, tens and units |

## Left out

- DOM and XML plumbing is left out: `Document`, `NodeList`, `getElementsByTagName`, the node iterator and `tokenText`. The document is nested sequences and a segment list; token text is a given string. `getAttribute` of a missing attribute is the empty string.
- Floating point is left out: IEEE rounding, NaN and infinities, and the double-to-string formatting of `d` and `end`. Exact reals are used instead. The one place where a division by a zero span matters, the index cast, is modelled as Java's saturating cast.
- String parsing is left out: `parseIntPairs` and the `(\d+,\d+)` pattern. `f0` is a list of (percent, value) pairs with non-negative percents. Only the pattern's effect of dropping pairs with a negative value is modelled, in `MatchedTargets`.
- The numeric routines of other classes are parameters of the model (`Numerics`): `interpolateNonZeroValues`, `fitPolynomial` with `generatePolynomialValues`, `max` and `mean`. The model assumes only that interpolation keeps the length and that the fitted line has 101 samples (`ValidNumerics`). `findGlobalPeakLocation` is left out because its result is never used.
- Dead values are left out: `MnWordLengthRatio`, `PhraseLengthRatio`, the unused `ratio`/`phraseRatio` parameters, `NumOfMiddleSentence`, the number formatter, the first empty loop of `modifySpeechRate`, and the commented-out methods.
- Logging and console output are left out.
- Java `assert` statements are left out; they are disabled by default.
- The static counter is an ordinary field of the handler object. Concurrent use of the static field is not modelled. In Java the static value carries over from one handler instance and one document to the next; here a new handler starts at 1. A handler reused for several documents keeps its counter, and `ProcessCounter` covers any starting point (the counter after any number of earlier calls).
- `MaryXML.NUM_PARAGRAPHS` is a constant field of the handler, at least 1.
- BoundaryModel's constructor, `evaluate` and `loadData` are left out: they only delegate to the superclass or do nothing. `Model` is not part of this model.
- `getF0Contour(NodeList)` is modelled as `GetF0Contour` with size 101. The null-list case is the empty list.
- ProsodyParagraphHandler.WordStatistics: sums lengths with unbounded integers, so Java's `int` overflow of `SumLengthWords` is not modelled; the sum is never used afterwards.
- ProsodyPolicy.ApplyBasePitchModification: takes the fitted baseline's mean and maximum as inputs, because `MathUtils` is not part of this model.
- ProsodyParagraphHandler.ProcessRaisesNothing: proved over exact reals. Under IEEE rounding, a phone that starts exactly at the phrase start after zero-length elements could get a start just below it, then a writeback index of −1 and an `ArrayIndexOutOfBoundsException`; that case is not modelled.
