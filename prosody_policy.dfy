/**
 * The paragraph-position policy: where a sentence stands in the document, the speech-rate
 * delta and the pitch half-range chosen from that position and the phrase's word count,
 * the rotating paragraph counter that damps one rate out of every `numParagraphs`, and the
 * new linear pitch baseline.
 */
module ProsodyPolicy {
  import opened Wrappers
  import opened ProsodyDocument

  const FIRST: string := "First"
  const MIDDLE: string := "Middle"
  const LAST: string := "Last"

  predicate IsLocated(location: string) {
    location == FIRST || location == MIDDLE || location == LAST
  }

  /** The location of sentence `k` among the document's `count` sentences. */
  function SentenceLocation(k: nat, count: nat): (r: string)
    ensures IsLocated(r)
  {
    if k == 0 then FIRST else if k == count - 1 then LAST else MIDDLE
  }

  /**
   * Sentence 0 is First, even when it is the only one; the last sentence is Last when it is
   * not sentence 0; every other sentence is Middle. Every sentence is located.
   */
  lemma SentenceLocationClasses(k: nat, count: nat)
    requires k < count
    ensures IsLocated(SentenceLocation(k, count))
    ensures SentenceLocation(k, count) == FIRST <==> k == 0
    ensures SentenceLocation(k, count) == LAST <==> 0 < k == count - 1
    ensures SentenceLocation(k, count) == MIDDLE <==> 0 < k < count - 1
  {
    assert FIRST != LAST && FIRST != MIDDLE && MIDDLE != LAST by {
      assert FIRST[0] != LAST[0] && FIRST[0] != MIDDLE[0] && MIDDLE[0] != LAST[0];
    }
  }

  // ---------------------------------------------------------------------------------------
  // Speech rate

  /**
   * The rate tables, per location, for phrases of at most 4, of 5 to 7 and of 8 or more words:
   * the reference against which `SpeechRateTable` checks the if-chains of `UndampedRate`.
   */
  const FIRST_RATES: seq<real> := [8.7, 9.5, 9.9]
  const MIDDLE_RATES: seq<real> := [2.8, 3.0, 3.3]
  const LAST_RATES: seq<real> := [6.0, 6.9, 7.6]

  /** The share of the rate taken away on a damped call. */
  const RATE_DAMPING: real := 0.041

  /** The rate-table column of a word count: at most 4, more than 4 and less than 8, the rest. */
  function RateBucket(numOfWords: int): nat {
    if numOfWords <= 4 then 0 else if numOfWords > 4 && numOfWords < 8 then 1 else 2
  }

  /** The rate delta, in percent, of an undamped call; an unknown location gets 0. */
  function UndampedRate(location: string, numOfWords: int): (r: real)
    ensures 0.0 <= r <= 9.9
    ensures !IsLocated(location) ==> r == 0.0
  {
    if location == FIRST then
      (if numOfWords <= 4 then 8.7 else if numOfWords > 4 && numOfWords < 8 then 9.5 else 9.9)
    else if location == MIDDLE then
      (if numOfWords <= 4 then 2.8 else if numOfWords > 4 && numOfWords < 8 then 3.0 else 3.3)
    else if location == LAST then
      (if numOfWords <= 4 then 6.0 else if numOfWords > 4 && numOfWords < 8 then 6.9 else 7.6)
    else 0.0
  }

  /** The rate delta of a call, damped by 4.1% when `damped`. */
  function SpeechRate(location: string, numOfWords: int, damped: bool): (r: real)
    ensures 0.0 <= r <= UndampedRate(location, numOfWords)
    ensures !damped ==> r == UndampedRate(location, numOfWords)
    ensures damped && UndampedRate(location, numOfWords) > 0.0 ==> r < UndampedRate(location, numOfWords)
  {
    var rate := UndampedRate(location, numOfWords);
    if damped then rate - rate * RATE_DAMPING else rate
  }

  /**
   * The rate agrees with the tables, damped or not; an unknown location silently gets 0 on
   * both kinds of call; and every rate is non-negative and at most 9.9.
   */
  lemma SpeechRateTable(location: string, numOfWords: int, damped: bool)
    ensures var table :=
        if location == FIRST then FIRST_RATES[RateBucket(numOfWords)]
        else if location == MIDDLE then MIDDLE_RATES[RateBucket(numOfWords)]
        else if location == LAST then LAST_RATES[RateBucket(numOfWords)]
        else 0.0;
      SpeechRate(location, numOfWords, damped) == if damped then table * (1.0 - RATE_DAMPING) else table
    ensures 0.0 <= SpeechRate(location, numOfWords, damped) <= 9.9
    ensures !IsLocated(location) ==> SpeechRate(location, numOfWords, damped) == 0.0
  {
  }

  // ---------------------------------------------------------------------------------------
  // The paragraph counter

  /** A call is damped when the counter has reached the paragraph count. */
  predicate IsDampedCall(counter: int, numParagraphs: int)
    ensures IsDampedCall(counter, numParagraphs) ==> NextCounter(counter, numParagraphs) == 1
    ensures !IsDampedCall(counter, numParagraphs) ==> NextCounter(counter, numParagraphs) == counter + 1
  {
    counter >= numParagraphs
  }

  /** The counter after one call: one more, or back to 1 after a damped call. */
  function NextCounter(counter: int, numParagraphs: int): (r: int)
    ensures 1 <= counter <= numParagraphs ==> 1 <= r <= numParagraphs
  {
    if counter < numParagraphs then counter + 1 else 1
  }

  /** The counter after `calls` calls, starting from its initial value 1. */
  function CounterAfter(numParagraphs: int, calls: nat): (r: int)
    ensures numParagraphs >= 1 ==> 1 <= r <= numParagraphs
  {
    if calls == 0 then 1 else NextCounter(CounterAfter(numParagraphs, calls - 1), numParagraphs)
  }

  /** The counter `n` calls after it was `counter`. */
  function CountersAhead(counter: int, numParagraphs: int, n: nat): int
    decreases n
  {
    if n == 0 then counter else CountersAhead(NextCounter(counter, numParagraphs), numParagraphs, n - 1)
  }

  /** `a` calls and then `b` more are `a + b` calls. */
  lemma {:induction false} CountersAheadAdd(counter: int, numParagraphs: int, a: nat, b: nat)
    ensures CountersAhead(CountersAhead(counter, numParagraphs, a), numParagraphs, b)
      == CountersAhead(counter, numParagraphs, a + b)
    decreases a
  {
    if a > 0 {
      CountersAheadAdd(NextCounter(counter, numParagraphs), numParagraphs, a - 1, b);
    }
  }

  /** `n` calls after call number `calls`, the counter is where `calls + n` calls from 1 put it. */
  lemma {:induction false} CountersAheadAfter(numParagraphs: int, calls: nat, n: nat)
    ensures CountersAhead(CounterAfter(numParagraphs, calls), numParagraphs, n) == CounterAfter(numParagraphs, calls + n)
    decreases n
  {
    if n > 0 {
      CountersAheadAfter(numParagraphs, calls + 1, n - 1);
    }
  }

  /** From 1, the counter after `m` full blocks of `numParagraphs` calls and `j` more is `j + 1`. */
  lemma {:induction false} CounterInCycle(numParagraphs: int, m: nat, j: nat)
    requires numParagraphs >= 1 && j < numParagraphs
    ensures CounterAfter(numParagraphs, m * numParagraphs + j) == j + 1
    decreases m, j
  {
    if j > 0 {
      CounterInCycle(numParagraphs, m, j - 1);
    } else if m > 0 {
      CounterInCycle(numParagraphs, m - 1, numParagraphs - 1);
      assert (m - 1) * numParagraphs + numParagraphs - 1 == m * numParagraphs - 1;
    }
  }

  /**
   * Call number `calls` (counted from 0) is damped exactly when it is the last of a block of
   * `numParagraphs` calls: one damped call in every `numParagraphs`, after which the counter is
   * back at 1; the counter always stays between 1 and `numParagraphs`.
   */
  lemma DampedOncePerCycle(numParagraphs: int, calls: nat)
    requires numParagraphs >= 1
    ensures CounterAfter(numParagraphs, calls) == calls % numParagraphs + 1
    ensures 1 <= CounterAfter(numParagraphs, calls) <= numParagraphs
    ensures IsDampedCall(CounterAfter(numParagraphs, calls), numParagraphs) <==> calls % numParagraphs == numParagraphs - 1
    ensures CounterAfter(numParagraphs, calls + numParagraphs) == CounterAfter(numParagraphs, calls)
  {
    var m, j := calls / numParagraphs, calls % numParagraphs;
    BlockAndRest(calls, numParagraphs);
    CounterInCycle(numParagraphs, m, j);
    CounterInCycle(numParagraphs, m + 1, j);
  }

  /** A call number is a whole number of blocks plus a rest, and one block more adds `numParagraphs`. */
  lemma BlockAndRest(calls: nat, numParagraphs: int)
    requires numParagraphs >= 1
    ensures calls / numParagraphs >= 0
    ensures calls == (calls / numParagraphs) * numParagraphs + calls % numParagraphs
    ensures calls + numParagraphs == (calls / numParagraphs + 1) * numParagraphs + calls % numParagraphs
  {
  }

  // ---------------------------------------------------------------------------------------
  // Pitch half-range and the new baseline

  /**
   * The half-range tables, per location, for phrases of at most 4, of 5 to 8 and of more than 8
   * words: the reference against which `PitchHalfRangeTable` checks `PitchHalfRange`.
   */
  const FIRST_HALF_RANGES: seq<real> := [0.072, 0.069, 0.065]
  const MIDDLE_HALF_RANGES: seq<real> := [0.029, 0.027, 0.025]
  const LAST_HALF_RANGES: seq<real> := [0.048, 0.046, 0.044]

  /** The half-range-table column of a word count: at most 4, more than 4 and at most 8, the rest. */
  function PitchBucket(numOfWords: int): nat {
    if numOfWords <= 4 then 0 else if numOfWords > 4 && numOfWords <= 8 then 1 else 2
  }

  /** The two tables put a phrase in the same column except at exactly 8 words. */
  lemma BucketsDifferOnlyAtEight(numOfWords: int)
    ensures RateBucket(numOfWords) == PitchBucket(numOfWords) <==> numOfWords != 8
  {
  }

  /** The pitch half-range of a location and word count; an unknown location is an error. */
  function PitchHalfRange(location: string, numOfWords: int): (r: Result<real, ProsodyError>)
    ensures r.Success? <==> IsLocated(location)
    ensures r.Failure? ==> r.error == UnlocatedSentence
    ensures r.Success? ==> 0.0 < r.value < 0.1
  {
    if location == FIRST then
      Success(if numOfWords <= 4 then 0.072 else if numOfWords > 4 && numOfWords <= 8 then 0.069 else 0.065)
    else if location == MIDDLE then
      Success(if numOfWords <= 4 then 0.029 else if numOfWords > 4 && numOfWords <= 8 then 0.027 else 0.025)
    else if location == LAST then
      Success(if numOfWords <= 4 then 0.048 else if numOfWords > 4 && numOfWords <= 8 then 0.046 else 0.044)
    else Failure(UnlocatedSentence)
  }

  /** The half-range agrees with the tables, is strictly between 0 and 0.1, and fails only for an unknown location. */
  lemma PitchHalfRangeTable(location: string, numOfWords: int)
    ensures PitchHalfRange(location, numOfWords).Success? <==> IsLocated(location)
    ensures PitchHalfRange(location, numOfWords).Failure? ==> PitchHalfRange(location, numOfWords).error == UnlocatedSentence
    ensures IsLocated(location) ==>
      PitchHalfRange(location, numOfWords).value ==
        if location == FIRST then FIRST_HALF_RANGES[PitchBucket(numOfWords)]
        else if location == MIDDLE then MIDDLE_HALF_RANGES[PitchBucket(numOfWords)]
        else LAST_HALF_RANGES[PitchBucket(numOfWords)]
    ensures IsLocated(location) ==> 0.0 < PitchHalfRange(location, numOfWords).value < 0.1
  {
  }

  /** Sample `x` of the new baseline: a line from max·(1 + h) falling by (mean − max·(1 + h))/51 per sample. */
  function RampValue(meanBase: real, maxValue: real, halfRange: real, x: int): (r: real)
    ensures x == 0 ==> r == maxValue * (1.0 + halfRange)
    ensures x == 51 ==> r == meanBase
  {
    ((meanBase - maxValue - maxValue * halfRange) / 51.0) * (x as real) + (maxValue + maxValue * halfRange)
  }

  /**
   * `applyBasePitchModification`: the new 101-sample baseline for a phrase, from the mean and
   * maximum of its fitted baseline; an unknown location is an error.
   */
  function ApplyBasePitchModification(meanBase: real, maxValue: real, location: string, numOfWords: int)
    : (r: Result<seq<real>, ProsodyError>)
    ensures r.Success? <==> IsLocated(location)
    ensures r.Success? ==> |r.value| == F0_CONTOUR_LENGTH
  {
    var halfRange :- PitchHalfRange(location, numOfWords);
    Success(seq(F0_CONTOUR_LENGTH, x => RampValue(meanBase, maxValue, halfRange, x)))
  }

  /**
   * The new baseline starts at max·(1 + h), goes down (or up) by the same step at every
   * sample, and passes through the old mean at sample 51 (the slope divides by 51, not 100).
   */
  lemma {:induction false} BaselineRampShape(meanBase: real, maxValue: real, location: string, numOfWords: int)
    requires IsLocated(location)
    ensures var h := PitchHalfRange(location, numOfWords).value;
      var base := ApplyBasePitchModification(meanBase, maxValue, location, numOfWords).value;
      && base[0] == maxValue * (1.0 + h)
      && base[51] == meanBase
      && forall x :: 0 <= x < F0_CONTOUR_LENGTH - 1 ==>
           base[x + 1] - base[x] == (meanBase - maxValue * (1.0 + h)) / 51.0
  {
    var h := PitchHalfRange(location, numOfWords).value;
    var base := ApplyBasePitchModification(meanBase, maxValue, location, numOfWords).value;
    assert forall x :: 0 <= x < F0_CONTOUR_LENGTH ==> base[x] == RampValue(meanBase, maxValue, h, x);
    RampEnds(meanBase, maxValue, h);
    forall x | 0 <= x < F0_CONTOUR_LENGTH - 1
      ensures base[x + 1] - base[x] == (meanBase - maxValue * (1.0 + h)) / 51.0
    {
      RampStep(meanBase, maxValue, h, x);
    }
  }

  lemma RampEnds(meanBase: real, maxValue: real, h: real)
    ensures RampValue(meanBase, maxValue, h, 0) == maxValue * (1.0 + h)
    ensures RampValue(meanBase, maxValue, h, 51) == meanBase
  {
  }

  lemma RampStep(meanBase: real, maxValue: real, h: real, x: int)
    ensures RampValue(meanBase, maxValue, h, x + 1) - RampValue(meanBase, maxValue, h, x)
      == (meanBase - maxValue * (1.0 + h)) / 51.0
  {
    var slope := (meanBase - maxValue - maxValue * h) / 51.0;
    assert slope * ((x + 1) as real) == slope * (x as real) + slope;
  }

  /**
   * When the old mean is at most the old maximum and the maximum is not negative (as for
   * any pitch contour), the new baseline never rises: the range is forced to decrease.
   */
  lemma {:induction false} BaselineRampFalls(meanBase: real, maxValue: real, location: string, numOfWords: int)
    requires IsLocated(location)
    requires meanBase <= maxValue && 0.0 <= maxValue
    ensures var base := ApplyBasePitchModification(meanBase, maxValue, location, numOfWords).value;
      forall x, y :: 0 <= x <= y < F0_CONTOUR_LENGTH ==> base[y] <= base[x]
  {
    var h := PitchHalfRange(location, numOfWords).value;
    PitchHalfRangeTable(location, numOfWords);
    var base := ApplyBasePitchModification(meanBase, maxValue, location, numOfWords).value;
    assert forall x :: 0 <= x < F0_CONTOUR_LENGTH ==> base[x] == RampValue(meanBase, maxValue, h, x);
    forall x, y | 0 <= x <= y < F0_CONTOUR_LENGTH
      ensures base[y] <= base[x]
    {
      RampFalls(meanBase, maxValue, h, x, y);
    }
  }

  lemma RampFalls(meanBase: real, maxValue: real, h: real, x: int, y: int)
    requires meanBase <= maxValue && 0.0 <= maxValue && 0.0 <= h && x <= y
    ensures RampValue(meanBase, maxValue, h, y) <= RampValue(meanBase, maxValue, h, x)
  {
    var slope := (meanBase - maxValue - maxValue * h) / 51.0;
    assert maxValue * h >= 0.0;
    assert slope <= 0.0;
    assert slope * (y as real) - slope * (x as real) == slope * ((y - x) as real);
    assert slope * ((y - x) as real) <= 0.0;
  }

}
