/**
 * The document the paragraph prosody handler works on, abstracted from MaryXML: sentences
 * made of phrases, each phrase with its tokens and its `ph` elements, and the list of all
 * `ph` and `boundary` elements of the document in document order (which is temporal order).
 * Attributes are typed: durations `d`/`duration` in milliseconds, `end` in seconds, `f0` as
 * a list of (percent, Hz) pitch targets.
 */
module ProsodyDocument {
  import opened Wrappers

  /** Every contour has 101 samples, for 0%, 1%, ..., 100% of the phrase. */
  const F0_CONTOUR_LENGTH: nat := 101

  /** A pitch target: at `percent` of the phone's duration the pitch is `value` Hz. */
  datatype F0Target = F0Target(percent: nat, value: int)

  /** A `ph` or a `boundary` element. An empty `f0` list stands for a missing or empty attribute. */
  datatype Segment =
    | Phone(d: Option<real>, end: Option<real>, f0: seq<F0Target>)
    | Boundary(duration: Option<real>)

  /** A token: its part of speech and its text. */
  datatype Token = Token(pos: string, text: string)

  /** A phrase: its tokens, and the positions of its `ph` elements in the document's segment list. */
  datatype Phrase = Phrase(tokens: seq<Token>, phones: seq<nat>)

  /** The exceptions the handler can raise. */
  datatype ProsodyError =
    | UnlocatedSentence               // IllegalArgumentException: location not First/Middle/Last
    | EmptyNodeList                   // IllegalArgumentException: no element to build a contour from
    | NonPositiveArraySize            // IllegalArgumentException: contour length not positive
    | NotAPhone                       // IllegalArgumentException: element other than `ph`
    | MissingDurationOrEnd            // IllegalArgumentException: `ph` without `d` or `end`
    | NoPhoneInPhrase                 // NullPointerException: first `ph` of an empty phrase
    | ContourIndexOutOfBounds(index: int)  // ArrayIndexOutOfBoundsException in the writeback

  /** A `ph` element carrying both `d` and `end`. */
  predicate HasTiming(s: Segment) {
    s.Phone? && s.d.Some? && s.end.Some?
  }

  /** Two segment lists with the same elements in the same places (attributes may differ). */
  predicate SameKinds(a: seq<Segment>, b: seq<Segment>) {
    |a| == |b| && forall i :: 0 <= i < |a| ==> a[i].Phone? == b[i].Phone?
  }

  /** Only `f0` lists may differ: same elements, same durations, same `end` values. */
  predicate OnlyPitchChanged(a: seq<Segment>, b: seq<Segment>) {
    && |a| == |b|
    && forall i :: 0 <= i < |a| ==>
         && a[i].Phone? == b[i].Phone?
         && (a[i].Boundary? ==> a[i] == b[i])
         && (a[i].Phone? ==> a[i].d == b[i].d && a[i].end == b[i].end)
  }

  lemma OnlyPitchChangedAt(a: seq<Segment>, b: seq<Segment>, i: nat)
    requires OnlyPitchChanged(a, b) && i < |a|
    ensures i < |b| && b[i].Phone? == a[i].Phone?
    ensures a[i].Phone? ==> b[i].d == a[i].d && b[i].end == a[i].end
  {
  }

  lemma OnlyPitchChangedTransitive(a: seq<Segment>, b: seq<Segment>, c: seq<Segment>)
    requires OnlyPitchChanged(a, b) && OnlyPitchChanged(b, c)
    ensures OnlyPitchChanged(a, c)
  {
  }

  /** Same elements in the same places, and every boundary exactly as it was. */
  predicate BoundariesKept(a: seq<Segment>, b: seq<Segment>) {
    && SameKinds(a, b)
    && forall i :: 0 <= i < |a| && a[i].Boundary? ==> b[i] == a[i]
  }

  lemma BoundariesKeptTransitive(a: seq<Segment>, b: seq<Segment>, c: seq<Segment>)
    requires BoundariesKept(a, b) && BoundariesKept(b, c)
    ensures BoundariesKept(a, c)
  {
  }

  lemma OnlyPitchChangedKeepsBoundaries(a: seq<Segment>, b: seq<Segment>)
    requires OnlyPitchChanged(a, b)
    ensures BoundariesKept(a, b)
  {
  }

  /** The phone positions of a phrase are in document order, in range, and name `ph` elements. */
  predicate WellFormedPhones(phones: seq<nat>, nodes: seq<Segment>) {
    && (forall i, j :: 0 <= i < j < |phones| ==> phones[i] < phones[j])
    && (forall i :: 0 <= i < |phones| ==> phones[i] < |nodes| && nodes[phones[i]].Phone?)
  }

  /** Every phrase of a sentence is well formed. */
  predicate WellFormedPhrases(phrases: seq<Phrase>, nodes: seq<Segment>) {
    forall m :: 0 <= m < |phrases| ==> WellFormedPhones(phrases[m].phones, nodes)
  }

  /** Every phrase of every sentence is well formed. */
  predicate WellFormedSentences(sentences: seq<seq<Phrase>>, nodes: seq<Segment>) {
    forall k :: 0 <= k < |sentences| ==> WellFormedPhrases(sentences[k], nodes)
  }

  /** Well-formedness only depends on where the `ph` elements are. */
  lemma WellFormedKinds(sentences: seq<seq<Phrase>>, a: seq<Segment>, b: seq<Segment>)
    requires WellFormedSentences(sentences, a) && SameKinds(a, b)
    ensures WellFormedSentences(sentences, b)
  {
    forall k | 0 <= k < |sentences|
      ensures WellFormedPhrases(sentences[k], b)
    {
      WellFormedPhrasesKinds(sentences[k], a, b);
    }
  }

  lemma WellFormedPhrasesKinds(phrases: seq<Phrase>, a: seq<Segment>, b: seq<Segment>)
    requires WellFormedPhrases(phrases, a) && SameKinds(a, b)
    ensures WellFormedPhrases(phrases, b)
  {
    forall m | 0 <= m < |phrases|
      ensures WellFormedPhones(phrases[m].phones, b)
    {
      WellFormedPhonesKinds(phrases[m].phones, a, b);
    }
  }

  lemma WellFormedPhonesKinds(phones: seq<nat>, a: seq<Segment>, b: seq<Segment>)
    requires WellFormedPhones(phones, a) && SameKinds(a, b)
    ensures WellFormedPhones(phones, b)
  {
  }

  /** The `ph` elements of a phrase, in order. */
  function PhraseSegments(nodes: seq<Segment>, phones: seq<nat>): (r: seq<Segment>)
    requires forall i :: 0 <= i < |phones| ==> phones[i] < |nodes|
    ensures |r| == |phones|
    ensures forall i :: 0 <= i < |phones| ==> r[i] == nodes[phones[i]]
  {
    seq(|phones|, i requires 0 <= i < |phones| => nodes[phones[i]])
  }

  /** A MaryXML document: its segments change in place, its structure does not. */
  class Document {
    var nodes: seq<Segment>
    const sentences: seq<seq<Phrase>>

    ghost predicate Valid()
      reads this
    {
      WellFormedSentences(sentences, nodes)
    }

    constructor (nodes: seq<Segment>, sentences: seq<seq<Phrase>>)
      requires WellFormedSentences(sentences, nodes)
      ensures Valid()
      ensures this.nodes == nodes && this.sentences == sentences
    {
      this.nodes := nodes;
      this.sentences := sentences;
    }
  }

  // ---------------------------------------------------------------------------------------
  // Duration rescale

  /** The new duration of a phone: `d` lengthened by `rate` percent. */
  function RescaledDuration(d: real, rate: real): (r: real)
    ensures rate == 0.0 ==> r == d
  {
    d + (rate / 100.0) * d
  }

  /** A phone with `d` gets the rescaled duration; anything else is left as it is. */
  function Rescale(s: Segment, rate: real): (r: Segment)
    ensures r.Phone? == s.Phone?
    ensures r.Phone? ==> r.end == s.end && r.f0 == s.f0 && r.d.Some? == s.d.Some?
    ensures s.Boundary? ==> r == s
  {
    if s.Phone? && s.d.Some? then s.(d := Some(RescaledDuration(s.d.value, rate))) else s
  }

  /**
   * Rescaling multiplies the duration by 1 + rate/100, so it can be undone whenever that
   * factor is not zero; with a non-negative rate it never shortens a non-negative duration.
   */
  lemma RescaledDurationFactor(d: real, rate: real)
    ensures RescaledDuration(d, rate) == d * (1.0 + rate / 100.0)
    ensures rate != -100.0 ==> RescaledDuration(d, rate) / (1.0 + rate / 100.0) == d
    ensures d >= 0.0 && rate >= 0.0 ==> RescaledDuration(d, rate) >= d
  {
    var f := 1.0 + rate / 100.0;
    Distribute(d, rate / 100.0);
    if rate != -100.0 {
      assert f != 0.0;
      assert RescaledDuration(d, rate) == d * f;
      CancelFactor(d, f);
    }
    if d >= 0.0 && rate >= 0.0 {
      NonNegativeProduct(rate / 100.0, d);
    }
  }

  lemma Distribute(d: real, x: real)
    ensures d + x * d == d * (1.0 + x)
  {
  }

  lemma CancelFactor(d: real, f: real)
    requires f != 0.0
    ensures (d * f) / f == d
  {
  }

  lemma NonNegativeProduct(x: real, y: real)
    requires x >= 0.0 && y >= 0.0
    ensures x * y >= 0.0
  {
  }

  /** The segments after every listed phone has been rescaled. */
  function RescalePhones(nodes: seq<Segment>, phones: seq<nat>, rate: real): (r: seq<Segment>)
    ensures BoundariesKept(nodes, r)
    ensures forall i :: 0 <= i < |nodes| && i !in phones ==> r[i] == nodes[i]
  {
    seq(|nodes|, i requires 0 <= i < |nodes| => if i in phones then Rescale(nodes[i], rate) else nodes[i])
  }

  // ---------------------------------------------------------------------------------------
  // Timeline pass

  /** What a segment adds to the running time, in ms: `duration` or `d`, 0 when absent. */
  function SegmentDuration(s: Segment): (r: real)
    ensures s.Boundary? && s.duration.None? ==> r == 0.0
    ensures s.Phone? && s.d.None? ==> r == 0.0
  {
    match s
    case Boundary(duration) => duration.GetOr(0.0)
    case Phone(d, _, _) => d.GetOr(0.0)
  }

  /** The running time, in ms, after the first `n` segments. */
  function ElapsedMs(nodes: seq<Segment>, n: nat): (r: real)
    requires n <= |nodes|
    ensures (forall i :: 0 <= i < n ==> SegmentDuration(nodes[i]) >= 0.0) ==> r >= 0.0
  {
    if n == 0 then 0.0 else ElapsedMs(nodes, n - 1) + SegmentDuration(nodes[n - 1])
  }

  /**
   * The timeline pass: every `ph` gets `end` = 0.001 × the running time including itself;
   * boundaries add to the running time but are not given an `end`.
   */
  function EndTimes(nodes: seq<Segment>): (r: seq<Segment>)
    ensures BoundariesKept(nodes, r)
  {
    seq(|nodes|, i requires 0 <= i < |nodes| =>
      if nodes[i].Boundary? then nodes[i] else nodes[i].(end := Some(0.001 * ElapsedMs(nodes, i + 1))))
  }

  /** With no negative duration the running time never decreases. */
  lemma {:induction false} ElapsedMonotone(nodes: seq<Segment>, m: nat, n: nat)
    requires m <= n <= |nodes|
    requires forall i :: 0 <= i < |nodes| ==> SegmentDuration(nodes[i]) >= 0.0
    ensures ElapsedMs(nodes, m) <= ElapsedMs(nodes, n)
    decreases n
  {
    if m < n {
      ElapsedMonotone(nodes, m, n - 1);
    }
  }

  /**
   * The pass writes `end` on phones only, leaves every other attribute alone, and with
   * non-negative durations the `end` values it writes never decrease along the document.
   */
  lemma {:induction false} EndTimesProperties(nodes: seq<Segment>)
    ensures forall i :: 0 <= i < |nodes| && nodes[i].Boundary? ==> EndTimes(nodes)[i] == nodes[i]
    ensures forall i :: 0 <= i < |nodes| && nodes[i].Phone? ==>
      EndTimes(nodes)[i] == nodes[i].(end := Some(0.001 * ElapsedMs(nodes, i + 1)))
    ensures (forall i :: 0 <= i < |nodes| ==> SegmentDuration(nodes[i]) >= 0.0) ==>
      forall i, j :: 0 <= i < j < |nodes| && nodes[i].Phone? && nodes[j].Phone? ==>
        EndTimes(nodes)[i].end.value <= EndTimes(nodes)[j].end.value
  {
    if forall i :: 0 <= i < |nodes| ==> SegmentDuration(nodes[i]) >= 0.0 {
      forall i, j | 0 <= i < j < |nodes| && nodes[i].Phone? && nodes[j].Phone?
        ensures EndTimes(nodes)[i].end.value <= EndTimes(nodes)[j].end.value
      {
        ElapsedMonotone(nodes, i + 1, j + 1);
      }
    }
  }

  /** The pass leaves every duration as it was, so the running time is the same afterwards. */
  lemma {:induction false} ElapsedAfterEndTimes(nodes: seq<Segment>, n: nat)
    requires n <= |nodes|
    ensures ElapsedMs(EndTimes(nodes), n) == ElapsedMs(nodes, n)
  {
    if n > 0 {
      ElapsedAfterEndTimes(nodes, n - 1);
    }
  }

  /** Running the timeline pass a second time changes nothing. */
  lemma EndTimesIdempotent(nodes: seq<Segment>)
    ensures EndTimes(EndTimes(nodes)) == EndTimes(nodes)
  {
    var once := EndTimes(nodes);
    forall i | 0 <= i < |nodes|
      ensures EndTimes(once)[i] == once[i]
    {
      ElapsedAfterEndTimes(nodes, i + 1);
    }
  }

  /**
   * After the pass a phone with `d` starts, in seconds, at 0.001 × the running time before
   * it: its `end` minus its own duration.
   */
  lemma {:induction false} EndTimesPhoneStart(nodes: seq<Segment>, i: nat)
    requires i < |nodes| && nodes[i].Phone? && nodes[i].d.Some?
    ensures HasTiming(EndTimes(nodes)[i])
    ensures EndTimes(nodes)[i].end.value - 0.001 * EndTimes(nodes)[i].d.value == 0.001 * ElapsedMs(nodes, i)
  {
    var e := EndTimes(nodes)[i];
    assert e == nodes[i].(end := Some(0.001 * ElapsedMs(nodes, i + 1)));
    assert ElapsedMs(nodes, i + 1) == ElapsedMs(nodes, i) + nodes[i].d.value;
  }
}
