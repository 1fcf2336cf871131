/**
 * Pitch contours of a phrase: the sparse (percent, Hz) targets of its `ph` elements are
 * placed into a dense contour whose samples cover the phrase's time span, and a dense
 * contour is written back onto the same targets.
 */
module ProsodyContour {
  import opened Wrappers
  import opened ProsodyDocument

  const JAVA_INT_MAX: int := 0x7fff_ffff
  const JAVA_INT_MIN: int := -0x8000_0000

  /** Java's `(int)` of an integral double: values outside the `int` range saturate. */
  function JavaIntCast(x: int): (r: int)
    ensures JAVA_INT_MIN <= r <= JAVA_INT_MAX
    ensures JAVA_INT_MIN <= x <= JAVA_INT_MAX ==> r == x
  {
    if x > JAVA_INT_MAX then JAVA_INT_MAX else if x < JAVA_INT_MIN then JAVA_INT_MIN else x
  }

  /**
   * `(int) Math.floor(num / den)`. When `den` is zero the quotient is +Infinity, NaN or
   * -Infinity, which the cast turns into the largest `int`, 0 and the smallest `int`.
   */
  function FloorIndex(num: real, den: real): (r: int)
    ensures JAVA_INT_MIN <= r <= JAVA_INT_MAX
    ensures den > 0.0 && JAVA_INT_MIN as real <= num / den < JAVA_INT_MAX as real ==>
      r as real <= num / den < r as real + 1.0
  {
    if den != 0.0 then JavaIntCast((num / den).Floor)
    else if num > 0.0 then JAVA_INT_MAX
    else if num < 0.0 then JAVA_INT_MIN
    else 0
  }

  /** `(int) x` for a double `x`: truncation toward zero, then saturation. */
  function Truncate(x: real): (r: int)
    ensures JAVA_INT_MIN <= r <= JAVA_INT_MAX
  {
    JavaIntCast(if x >= 0.0 then x.Floor else -((-x).Floor))
  }

  /** Truncation moves toward zero by less than one, and keeps an `int` value exactly. */
  lemma TruncateProperties(x: real, v: int)
    ensures JAVA_INT_MIN as real <= x <= JAVA_INT_MAX as real ==>
      (x >= 0.0 ==> x - 1.0 < Truncate(x) as real <= x) && (x < 0.0 ==> x <= Truncate(x) as real < x + 1.0)
    ensures JAVA_INT_MIN <= v <= JAVA_INT_MAX ==> Truncate(v as real) == v
  {
  }

  /** The time span of a phrase, in seconds: where its first phone starts, and how long it lasts. */
  datatype Span = Span(start: real, length: real)

  /** Every element has `d` and `end`. */
  predicate AllTimed(nl: seq<Segment>) {
    forall i :: 0 <= i < |nl| ==> HasTiming(nl[i])
  }

  /** From the start of the first phone (its `end` minus its `d`) to the `end` of the last. */
  function PhraseSpan(nl: seq<Segment>): (r: Span)
    requires |nl| > 0 && AllTimed(nl)
    ensures r.start + r.length == nl[|nl| - 1].end.value
    ensures r.start + 0.001 * nl[0].d.value == nl[0].end.value
  {
    var fStart := nl[0].end.value - 0.001 * nl[0].d.value;
    Span(fStart, nl[|nl| - 1].end.value - fStart)
  }

  /** Seconds from the start of the span to the pitch target at `percent` of `phone`. */
  function TargetOffset(phone: Segment, span: Span, percent: nat): real
    requires HasTiming(phone)
  {
    var phoneDuration := 0.001 * phone.d.value;
    ((phone.end.value - phoneDuration) - span.start) + phoneDuration * ((percent as real) / 100.0)
  }

  /** `(int) Math.floor(offset * size / length)`: the sample an offset into a span falls on. */
  function ScaledIndex(offset: real, length: real, size: int): (r: int)
    ensures JAVA_INT_MIN <= r <= JAVA_INT_MAX
  {
    FloorIndex(offset * (size as real), length)
  }

  /** The sample of a `size`-sample contour that the target falls on, before any clamping. */
  function PlaceIndex(phone: Segment, span: Span, percent: nat, size: int): (r: int)
    requires HasTiming(phone)
    ensures JAVA_INT_MIN <= r <= JAVA_INT_MAX
  {
    ScaledIndex(TargetOffset(phone, span, percent), span.length, size)
  }

  /** Extraction clamps the index at both ends. */
  function ClampIndex(index: int, size: int): (r: int)
    requires size > 0
    ensures 0 <= r < size
    ensures 0 <= index < size ==> r == index
  {
    if index >= size then size - 1 else if index < 0 then 0 else index
  }

  /**
   * A target inside the span lands, without clamping, on the sample its share of the span
   * selects: clamping only catches targets outside the span.
   */
  lemma {:induction false} PlaceIndexInsideSpan(phone: Segment, span: Span, percent: nat, size: int)
    requires HasTiming(phone) && 0 < size <= JAVA_INT_MAX
    requires 0.0 <= TargetOffset(phone, span, percent) < span.length
    ensures 0 <= PlaceIndex(phone, span, percent, size) < size
    ensures PlaceIndex(phone, span, percent, size) as real
      <= TargetOffset(phone, span, percent) / span.length * (size as real)
      < PlaceIndex(phone, span, percent, size) as real + 1.0
  {
    FloorIndexBelow(TargetOffset(phone, span, percent), span.length, size);
  }

  /** The arithmetic of `PlaceIndexInsideSpan`. */
  lemma FloorIndexBelow(offset: real, length: real, size: int)
    requires 0 < size <= JAVA_INT_MAX && 0.0 <= offset < length
    ensures 0 <= ScaledIndex(offset, length, size) < size
    ensures ScaledIndex(offset, length, size) as real
      <= offset / length * (size as real)
      < ScaledIndex(offset, length, size) as real + 1.0
  {
    var x := offset / length;
    DivBelowOne(offset, length);
    ScaleBelow(x, size as real);
    var q := offset * (size as real) / length;
    assert q == x * (size as real);
    FloorBounds(q);
    assert (q.Floor as real) < size as real;
    assert ScaledIndex(offset, length, size) == JavaIntCast(q.Floor);
  }

  lemma DivBelowOne(a: real, b: real)
    requires 0.0 <= a < b
    ensures 0.0 <= a / b < 1.0
  {
  }

  lemma ScaleBelow(x: real, n: real)
    requires 0.0 <= x < 1.0 && n > 0.0
    ensures 0.0 <= x * n < n
  {
  }

  lemma FloorBounds(q: real)
    ensures q.Floor as real <= q < q.Floor as real + 1.0
  {
  }

  // ---------------------------------------------------------------------------------------
  // Extraction

  /** One write into the contour array: `contour[index] = value`. */
  datatype Write = Write(index: int, value: int)

  predicate WritesWithin(ws: seq<Write>, size: int) {
    forall k :: 0 <= k < |ws| ==> 0 <= ws[k].index < size
  }

  /** The writes for one phone's targets, in order; a phone without targets writes nothing. */
  function PhoneWrites(phone: Segment, span: Span, size: int): (ws: seq<Write>)
    requires HasTiming(phone) && size > 0
    ensures |ws| == |phone.f0| && WritesWithin(ws, size)
  {
    seq(|phone.f0|, j requires 0 <= j < |phone.f0| =>
      Write(ClampIndex(PlaceIndex(phone, span, phone.f0[j].percent, size), size), phone.f0[j].value))
  }

  /** All writes of a phrase, phone after phone. */
  function ContourWrites(nl: seq<Segment>, span: Span, size: int): (ws: seq<Write>)
    requires AllTimed(nl) && size > 0
    ensures WritesWithin(ws, size)
  {
    if nl == [] then []
    else ContourWrites(nl[..|nl| - 1], span, size) + PhoneWrites(nl[|nl| - 1], span, size)
  }

  /** The array after performing the writes in order on `base`. */
  function Overlay(base: seq<real>, ws: seq<Write>): (r: seq<real>)
    requires WritesWithin(ws, |base|)
    ensures |r| == |base|
  {
    if ws == [] then base
    else Overlay(base, ws[..|ws| - 1])[ws[|ws| - 1].index := ws[|ws| - 1].value as real]
  }

  /** The value the last write to `index` leaves there, or `initial` when none writes it. */
  function LastWrite(ws: seq<Write>, index: int, initial: real): real {
    if ws == [] then initial
    else if ws[|ws| - 1].index == index then ws[|ws| - 1].value as real
    else LastWrite(ws[..|ws| - 1], index, initial)
  }

  /**
   * The contour before interpolation: each sample holds the value of the last target placed
   * on it, or 0 when no target lands there.
   */
  function RawContour(nl: seq<Segment>, size: int): (r: seq<real>)
    requires |nl| > 0 && AllTimed(nl) && size > 0
    ensures |r| == size
  {
    var ws := ContourWrites(nl, PhraseSpan(nl), size);
    seq(size, i requires 0 <= i < size => LastWrite(ws, i, 0.0))
  }

  /** Performing the writes in order leaves at each sample the last value written there. */
  lemma {:induction false} OverlayLastWrite(base: seq<real>, ws: seq<Write>, index: int)
    requires WritesWithin(ws, |base|) && 0 <= index < |base|
    ensures Overlay(base, ws)[index] == LastWrite(ws, index, base[index])
  {
    if ws != [] {
      OverlayLastWrite(base, ws[..|ws| - 1], index);
    }
  }

  /** The raw contour is the zero array after the writes of the phrase, in order. */
  lemma RawContourOverlay(nl: seq<Segment>, size: int)
    requires |nl| > 0 && AllTimed(nl) && size > 0
    ensures RawContour(nl, size) == Overlay(seq(size, _ => 0.0), ContourWrites(nl, PhraseSpan(nl), size))
  {
    var zeros := seq(size, _ => 0.0);
    var ws := ContourWrites(nl, PhraseSpan(nl), size);
    forall i | 0 <= i < size
      ensures RawContour(nl, size)[i] == Overlay(zeros, ws)[i]
    {
      OverlayLastWrite(zeros, ws, i);
    }
  }

  /** A sample nobody writes keeps its initial value. */
  lemma {:induction false} OverlayUntouched(base: seq<real>, ws: seq<Write>, index: int)
    requires WritesWithin(ws, |base|) && 0 <= index < |base|
    requires forall k :: 0 <= k < |ws| ==> ws[k].index != index
    ensures Overlay(base, ws)[index] == base[index]
  {
    if ws != [] {
      OverlayUntouched(base, ws[..|ws| - 1], index);
    }
  }

  /** The last write to a sample wins. */
  lemma {:induction false} OverlayLastWins(base: seq<real>, ws: seq<Write>, k: nat)
    requires WritesWithin(ws, |base|) && k < |ws|
    requires forall m :: k < m < |ws| ==> ws[m].index != ws[k].index
    ensures Overlay(base, ws)[ws[k].index] == ws[k].value as real
  {
    if k < |ws| - 1 {
      OverlayLastWins(base, ws[..|ws| - 1], k);
    }
  }

  lemma OverlaySnoc(base: seq<real>, ws: seq<Write>, w: Write)
    requires WritesWithin(ws + [w], |base|)
    ensures WritesWithin(ws, |base|) && 0 <= w.index < |base|
    ensures Overlay(base, ws + [w]) == Overlay(base, ws)[w.index := w.value as real]
  {
    assert (ws + [w])[..|ws|] == ws;
    assert (ws + [w])[|ws|] == w;
  }

  /** Performing two batches of writes is performing their concatenation. */
  lemma {:induction false} OverlayAppend(base: seq<real>, xs: seq<Write>, ys: seq<Write>)
    requires WritesWithin(xs + ys, |base|)
    ensures WritesWithin(xs, |base|) && WritesWithin(ys, |Overlay(base, xs)|)
    ensures Overlay(base, xs + ys) == Overlay(Overlay(base, xs), ys)
  {
    assert forall k :: 0 <= k < |xs| ==> (xs + ys)[k] == xs[k];
    assert forall k :: 0 <= k < |ys| ==> (xs + ys)[|xs| + k] == ys[k];
    if ys != [] {
      var init := ys[..|ys| - 1];
      assert xs + ys == (xs + init) + [ys[|ys| - 1]];
      OverlaySnoc(base, xs + init, ys[|ys| - 1]);
      OverlayAppend(base, xs, init);
      assert ys == init + [ys[|ys| - 1]];
      OverlaySnoc(Overlay(base, xs), init, ys[|ys| - 1]);
    } else {
      assert xs + ys == xs;
    }
  }

  /** The writes of phone `i` sit in the phrase's write list right after those of the phones before it. */
  lemma {:induction false} ContourWritesAt(nl: seq<Segment>, span: Span, size: int, i: nat, j: nat)
    requires AllTimed(nl) && size > 0 && i < |nl| && j < |nl[i].f0|
    ensures |ContourWrites(nl[..i], span, size)| + j < |ContourWrites(nl, span, size)|
    ensures ContourWrites(nl, span, size)[|ContourWrites(nl[..i], span, size)| + j]
      == PhoneWrites(nl[i], span, size)[j]
  {
    var init := nl[..|nl| - 1];
    assert ContourWrites(nl, span, size) == ContourWrites(init, span, size) + PhoneWrites(nl[|nl| - 1], span, size);
    if i < |nl| - 1 {
      ContourWritesAt(init, span, size, i, j);
      assert init[..i] == nl[..i];
    } else {
      assert init == nl[..i];
    }
  }

  /** The first element, in order, that is not a `ph` with `d` and `end`, as the error it raises. */
  function FirstBadElement(nl: seq<Segment>): (r: Option<ProsodyError>)
    ensures r.None? <==> AllTimed(nl)
    ensures r.Some? ==> r.value == NotAPhone || r.value == MissingDurationOrEnd
  {
    if nl == [] then None
    else if !nl[0].Phone? then Some(NotAPhone)
    else if !HasTiming(nl[0]) then Some(MissingDurationOrEnd)
    else
      var rest := FirstBadElement(nl[1..]);
      assert forall i :: 0 <= i < |nl| - 1 ==> nl[1..][i] == nl[i + 1];
      rest
  }

  /** The error names the first offending element: not a `ph`, or a `ph` lacking `d` or `end`. */
  lemma {:induction false} FirstBadElementIsFirst(nl: seq<Segment>, i: nat)
    requires i < |nl| && !HasTiming(nl[i])
    requires forall k :: 0 <= k < i ==> HasTiming(nl[k])
    ensures FirstBadElement(nl) == Some(if nl[i].Phone? then MissingDurationOrEnd else NotAPhone)
  {
    if i > 0 {
      FirstBadElementIsFirst(nl[1..], i - 1);
    }
  }

  /** The error `getF0Contour` raises before producing anything, if any. */
  function ContourInputError(nl: seq<Segment>, arraysize: int): (r: Option<ProsodyError>)
    ensures r.None? <==> |nl| > 0 && arraysize > 0 && AllTimed(nl)
  {
    if nl == [] then Some(EmptyNodeList)
    else if arraysize <= 0 then Some(NonPositiveArraySize)
    else FirstBadElement(nl)
  }

  /**
   * `getF0Contour(nl, arraysize)`: validate the elements, place every target into a
   * zero-filled array (clamped index, later writes overwriting earlier ones), then hand the
   * array to the interpolation that fills the zero samples.
   */
  method GetF0Contour(nl: seq<Segment>, arraysize: int, interpolate: seq<real> -> seq<real>)
    returns (r: Result<seq<real>, ProsodyError>)
    ensures ContourInputError(nl, arraysize).Some? ==> r == Failure(ContourInputError(nl, arraysize).value)
    ensures ContourInputError(nl, arraysize).None? ==> r == Success(interpolate(RawContour(nl, arraysize)))
  {
    if |nl| == 0 {
      return Failure(EmptyNodeList);
    }
    if arraysize <= 0 {
      return Failure(NonPositiveArraySize);
    }
    for i := 0 to |nl|
      invariant forall k :: 0 <= k < i ==> HasTiming(nl[k])
      invariant FirstBadElement(nl) == FirstBadElement(nl[i..])
    {
      if !nl[i].Phone? {
        return Failure(NotAPhone);
      }
      if nl[i].d.None? || nl[i].end.None? {
        return Failure(MissingDurationOrEnd);
      }
      assert nl[i..][1..] == nl[i + 1..];
    }

    var span := PhraseSpan(nl);
    var contour := new real[arraysize](_ => 0.0);
    ghost var zeros := contour[..];
    assert zeros == seq(arraysize, _ => 0.0);

    for i := 0 to |nl|
      invariant contour[..] == Overlay(zeros, ContourWrites(nl[..i], span, arraysize))
    {
      ghost var done := ContourWrites(nl[..i], span, arraysize);
      PlaceTargets(contour, nl[i], span);
      assert nl[..i + 1][..i] == nl[..i];
      OverlayAppend(zeros, done, PhoneWrites(nl[i], span, arraysize));
    }
    assert nl[..|nl|] == nl;
    RawContourOverlay(nl, arraysize);
    r := Success(interpolate(contour[..]));
  }

  /** The inner loop of `getF0Contour`: one phone's targets written into the contour array. */
  method PlaceTargets(contour: array<real>, e: Segment, span: Span)
    requires HasTiming(e) && contour.Length > 0
    modifies contour
    ensures contour[..] == Overlay(old(contour[..]), PhoneWrites(e, span, contour.Length))
  {
    var arraysize := contour.Length;
    ghost var mine := PhoneWrites(e, span, arraysize);
    ghost var initial := contour[..];
    if e.f0 == [] {
      return;
    }
    for j := 0 to |e.f0|
      invariant contour[..] == Overlay(initial, mine[..j])
    {
      var percent := e.f0[j].percent;
      var f0Value := e.f0[j].value;
      // seconds from the phrase start to the target: phone start plus `percent` of its duration
      var offset := TargetOffset(e, span, percent);
      var placeIndex := ScaledIndex(offset, span.length, arraysize);
      if placeIndex >= arraysize {
        placeIndex := arraysize - 1;
      } else if placeIndex < 0 {
        placeIndex := 0;
      }
      contour[placeIndex] := f0Value as real;
      assert mine[j] == Write(placeIndex, f0Value);
      assert mine[..j + 1] == mine[..j] + [mine[j]];
      OverlaySnoc(initial, mine[..j], mine[j]);
    }
    assert mine[..|e.f0|] == mine;
  }

  // ---------------------------------------------------------------------------------------
  // Writeback

  /** Writeback recomputes the extraction index over 101 samples but clamps it only from above. */
  function WritebackIndex(phone: Segment, span: Span, percent: nat): (r: int)
    requires HasTiming(phone)
    ensures r < F0_CONTOUR_LENGTH
    ensures PlaceIndex(phone, span, percent, F0_CONTOUR_LENGTH) < F0_CONTOUR_LENGTH ==>
      r == PlaceIndex(phone, span, percent, F0_CONTOUR_LENGTH)
    ensures PlaceIndex(phone, span, percent, F0_CONTOUR_LENGTH) >= F0_CONTOUR_LENGTH ==> r == F0_CONTOUR_LENGTH - 1
  {
    var index := PlaceIndex(phone, span, percent, F0_CONTOUR_LENGTH);
    if index >= F0_CONTOUR_LENGTH then F0_CONTOUR_LENGTH - 1 else index
  }

  /**
   * The pairs writeback reads back from an `f0` attribute: its pattern matches only digits on
   * both sides of the comma, so a pair with a negative value is skipped (and so dropped).
   */
  function MatchedTargets(targets: seq<F0Target>): (r: seq<F0Target>)
    ensures |r| <= |targets|
    ensures forall t :: t in r <==> t in targets && t.value >= 0
  {
    if targets == [] then []
    else
      var init := MatchedTargets(targets[..|targets| - 1]);
      var last := targets[|targets| - 1];
      assert targets == targets[..|targets| - 1] + [last];
      if last.value >= 0 then init + [last] else init
  }

  /** Targets with no negative value are all read back, in order. */
  lemma {:induction false} MatchedTargetsAll(targets: seq<F0Target>)
    requires forall j :: 0 <= j < |targets| ==> targets[j].value >= 0
    ensures MatchedTargets(targets) == targets
  {
    if targets != [] {
      MatchedTargetsAll(targets[..|targets| - 1]);
      assert targets == targets[..|targets| - 1] + [targets[|targets| - 1]];
    }
  }

  /**
   * Reading back keeps the order: the pairs read from two stretches of the attribute are those
   * read from the first followed by those read from the second, and a single pair is read
   * exactly when its value is not negative.
   */
  lemma {:induction false} MatchedTargetsAppend(xs: seq<F0Target>, ys: seq<F0Target>)
    ensures MatchedTargets(xs + ys) == MatchedTargets(xs) + MatchedTargets(ys)
    ensures forall t :: MatchedTargets([t]) == if t.value >= 0 then [t] else []
    decreases |ys|
  {
    forall t
      ensures MatchedTargets([t]) == if t.value >= 0 then [t] else []
    {
      assert [t][..0] == [];
    }
    if ys == [] {
      assert xs + ys == xs;
    } else {
      var init, last := ys[..|ys| - 1], ys[|ys| - 1];
      MatchedTargetsAppend(xs, init);
      assert (xs + ys)[..|xs + ys| - 1] == xs + init;
      assert ys[..|ys| - 1] == init;
    }
  }

  /** Counted with multiplicity: each pair with a non-negative value is read back as often as it occurs, the others never. */
  lemma {:induction false} MatchedTargetsCount(targets: seq<F0Target>)
    ensures forall t :: multiset(MatchedTargets(targets))[t] == if t.value >= 0 then multiset(targets)[t] else 0
  {
    if targets != [] {
      var init, last := targets[..|targets| - 1], targets[|targets| - 1];
      MatchedTargetsCount(init);
      assert targets == init + [last];
      assert multiset(targets) == multiset(init) + multiset{last};
    }
  }

  /**
   * The rewritten targets of a phone: the same percents in the same order, each with the
   * truncated contour sample at its index; a negative index aborts the phone.
   */
  function RewriteTargets(targets: seq<F0Target>, phone: Segment, span: Span, contour: seq<real>)
    : (r: Result<seq<F0Target>, ProsodyError>)
    requires HasTiming(phone) && |contour| == F0_CONTOUR_LENGTH
    ensures r.Success? <==> forall j :: 0 <= j < |targets| ==> WritebackIndex(phone, span, targets[j].percent) >= 0
    ensures r.Success? ==> |r.value| == |targets|
    ensures r.Success? ==> forall j :: 0 <= j < |targets| ==>
      && r.value[j].percent == targets[j].percent
      && 0 <= WritebackIndex(phone, span, targets[j].percent)
      && r.value[j].value == Truncate(contour[WritebackIndex(phone, span, targets[j].percent)])
    ensures r.Failure? ==> r.error.ContourIndexOutOfBounds? && r.error.index < 0
  {
    if targets == [] then Success([])
    else
      var init :- RewriteTargets(targets[..|targets| - 1], phone, span, contour);
      var last := targets[|targets| - 1];
      var index := WritebackIndex(phone, span, last.percent);
      if index < 0 then Failure(ContourIndexOutOfBounds(index))
      else Success(init + [F0Target(last.percent, Truncate(contour[index]))])
  }

  /**
   * A phone that starts no earlier than the phrase, with a non-negative duration, in a span of
   * non-negative length, never gets a negative writeback index.
   */
  lemma WritebackIndexNonNegative(phone: Segment, span: Span, percent: nat)
    requires HasTiming(phone) && phone.d.value >= 0.0
    requires phone.end.value - 0.001 * phone.d.value >= span.start && span.length >= 0.0
    ensures WritebackIndex(phone, span, percent) >= 0
  {
    var offset := TargetOffset(phone, span, percent);
    assert offset >= 0.0;
    var num := offset * (F0_CONTOUR_LENGTH as real);
    assert num >= 0.0;
    if span.length > 0.0 {
      assert num / span.length >= 0.0;
    }
  }

  /**
   * Round trip: writing back an unmodified contour onto the phrase it was extracted from gives
   * every phone its targets back, provided no two targets share a sample, the contour still
   * holds the placed values at the placed samples (interpolation only fills the others), the
   * phone's writeback indices are not negative and its values fit a Java `int`.
   */
  lemma RoundTrip(nl: seq<Segment>, contour: seq<real>, i: nat)
    requires |nl| > 0 && AllTimed(nl) && |contour| == F0_CONTOUR_LENGTH && i < |nl|
    requires var ws := ContourWrites(nl, PhraseSpan(nl), F0_CONTOUR_LENGTH);
      forall a, b :: 0 <= a < b < |ws| ==> ws[a].index != ws[b].index
    requires var ws := ContourWrites(nl, PhraseSpan(nl), F0_CONTOUR_LENGTH);
      forall k :: 0 <= k < |ws| ==> contour[ws[k].index] == RawContour(nl, F0_CONTOUR_LENGTH)[ws[k].index]
    requires forall j :: 0 <= j < |nl[i].f0| ==> WritebackIndex(nl[i], PhraseSpan(nl), nl[i].f0[j].percent) >= 0
    requires forall j :: 0 <= j < |nl[i].f0| ==> 0 <= nl[i].f0[j].value <= JAVA_INT_MAX
    ensures RewriteTargets(MatchedTargets(nl[i].f0), nl[i], PhraseSpan(nl), contour) == Success(nl[i].f0)
  {
    var targets := nl[i].f0;
    MatchedTargetsAll(targets);
    var span := PhraseSpan(nl);
    var r := RewriteTargets(targets, nl[i], span, contour);
    assert r.Success?;
    forall j | 0 <= j < |targets|
      ensures r.value[j] == targets[j]
    {
      RoundTripTarget(nl, contour, i, j);
    }
    assert r.value == targets;
  }

  /** The round trip for the `j`-th target of phone `i`. */
  lemma RoundTripTarget(nl: seq<Segment>, contour: seq<real>, i: nat, j: nat)
    requires |nl| > 0 && AllTimed(nl) && |contour| == F0_CONTOUR_LENGTH && i < |nl| && j < |nl[i].f0|
    requires var ws := ContourWrites(nl, PhraseSpan(nl), F0_CONTOUR_LENGTH);
      forall a, b :: 0 <= a < b < |ws| ==> ws[a].index != ws[b].index
    requires var ws := ContourWrites(nl, PhraseSpan(nl), F0_CONTOUR_LENGTH);
      forall k :: 0 <= k < |ws| ==> contour[ws[k].index] == RawContour(nl, F0_CONTOUR_LENGTH)[ws[k].index]
    requires WritebackIndex(nl[i], PhraseSpan(nl), nl[i].f0[j].percent) >= 0
    requires JAVA_INT_MIN <= nl[i].f0[j].value <= JAVA_INT_MAX
    ensures Truncate(contour[WritebackIndex(nl[i], PhraseSpan(nl), nl[i].f0[j].percent)]) == nl[i].f0[j].value
  {
    var span := PhraseSpan(nl);
    var ws := ContourWrites(nl, span, F0_CONTOUR_LENGTH);
    var target := nl[i].f0[j];
    var pos := |ContourWrites(nl[..i], span, F0_CONTOUR_LENGTH)| + j;
    ContourWritesAt(nl, span, F0_CONTOUR_LENGTH, i, j);
    var index := WritebackIndex(nl[i], span, target.percent);
    assert index == ClampIndex(PlaceIndex(nl[i], span, target.percent, F0_CONTOUR_LENGTH), F0_CONTOUR_LENGTH);
    assert ws[pos] == PhoneWrites(nl[i], span, F0_CONTOUR_LENGTH)[j];
    assert ws[pos] == Write(index, target.value);
    OverlayLastWins(seq(F0_CONTOUR_LENGTH, _ => 0.0), ws, pos);
    RawContourOverlay(nl, F0_CONTOUR_LENGTH);
    assert contour[index] == target.value as real;
    TruncateProperties(0.0, target.value);
  }

  /** The segments after one phone's targets are written back; a phone without targets is skipped. */
  function WritebackPhone(nodes: seq<Segment>, p: nat, span: Span, contour: seq<real>)
    : (r: (seq<Segment>, Outcome<ProsodyError>))
    requires p < |nodes| && HasTiming(nodes[p]) && |contour| == F0_CONTOUR_LENGTH
    ensures OnlyPitchChanged(nodes, r.0)
  {
    var phone := nodes[p];
    if phone.f0 == [] then (nodes, Pass)
    else match RewriteTargets(MatchedTargets(phone.f0), phone, span, contour)
      case Failure(e) => (nodes, Fail(e))
      case Success(f0) => (nodes[p := phone.(f0 := f0)], Pass)
  }

  /**
   * `setModifiedContour`: the phrase's phones are rewritten one after the other; the first
   * phone that cannot be written back aborts, leaving the phones before it rewritten.
   */
  function WritebackPhrase(nodes: seq<Segment>, phones: seq<nat>, span: Span, contour: seq<real>)
    : (r: (seq<Segment>, Outcome<ProsodyError>))
    requires forall k :: 0 <= k < |phones| ==> phones[k] < |nodes| && HasTiming(nodes[phones[k]])
    requires |contour| == F0_CONTOUR_LENGTH
    ensures OnlyPitchChanged(nodes, r.0)
  {
    if phones == [] then (nodes, Pass)
    else
      var previous := WritebackPhrase(nodes, phones[..|phones| - 1], span, contour);
      var p := phones[|phones| - 1];
      assert HasTiming(nodes[p]);
      OnlyPitchChangedAt(nodes, previous.0, p);
      assert HasTiming(previous.0[p]);
      if previous.1.Fail? then previous
      else
        var next := WritebackPhone(previous.0, p, span, contour);
        OnlyPitchChangedTransitive(nodes, previous.0, next.0);
        next
  }

  /** A phone the writeback gets through: it has no targets, or none of them has a negative index. */
  predicate WritesBack(phone: Segment, span: Span, contour: seq<real>)
    requires HasTiming(phone) && |contour| == F0_CONTOUR_LENGTH
  {
    phone.f0 == [] || RewriteTargets(MatchedTargets(phone.f0), phone, span, contour).Success?
  }

  /** A phone after a writeback that got through it: untouched without targets, else its rewritten targets. */
  function PhoneAfter(phone: Segment, span: Span, contour: seq<real>): (r: Segment)
    requires HasTiming(phone) && |contour| == F0_CONTOUR_LENGTH && WritesBack(phone, span, contour)
    ensures r.Phone? && r.d == phone.d && r.end == phone.end
  {
    if phone.f0 == [] then phone
    else phone.(f0 := RewriteTargets(MatchedTargets(phone.f0), phone, span, contour).value)
  }

  /** One phone written back without exception: exactly that phone changes, as `PhoneAfter` says. */
  lemma WritebackPhoneAt(nodes: seq<Segment>, p: nat, span: Span, contour: seq<real>)
    requires p < |nodes| && HasTiming(nodes[p]) && |contour| == F0_CONTOUR_LENGTH
    requires WritebackPhone(nodes, p, span, contour).1 == Pass
    ensures WritesBack(nodes[p], span, contour)
    ensures WritebackPhone(nodes, p, span, contour).0 == nodes[p := PhoneAfter(nodes[p], span, contour)]
  {
    if nodes[p].f0 == [] {
      assert nodes[p := nodes[p]] == nodes;
    }
  }

  /**
   * What writing back a phrase does to the document when it raises nothing: elements outside
   * the phrase stay as they were, a phone without targets is left alone, and every other phone
   * of the phrase gets its read-back targets rewritten from the contour.
   */
  lemma {:induction false} WritebackPhraseAt(nodes: seq<Segment>, phones: seq<nat>, span: Span, contour: seq<real>)
    requires forall k :: 0 <= k < |phones| ==> phones[k] < |nodes| && HasTiming(nodes[phones[k]])
    requires forall a, b :: 0 <= a < b < |phones| ==> phones[a] != phones[b]
    requires |contour| == F0_CONTOUR_LENGTH
    requires WritebackPhrase(nodes, phones, span, contour).1 == Pass
    ensures var r := WritebackPhrase(nodes, phones, span, contour).0;
      && |r| == |nodes|
      && (forall i :: 0 <= i < |nodes| && i !in phones ==> r[i] == nodes[i])
      && (forall k :: 0 <= k < |phones| ==> WritesBack(nodes[phones[k]], span, contour))
      && (forall k :: 0 <= k < |phones| ==> r[phones[k]] == PhoneAfter(nodes[phones[k]], span, contour))
  {
    if phones != [] {
      var init, p := phones[..|phones| - 1], phones[|phones| - 1];
      var previous := WritebackPhrase(nodes, init, span, contour);
      assert previous.1 == Pass;
      WritebackPhraseAt(nodes, init, span, contour);
      assert p !in init;
      assert previous.0[p] == nodes[p];
      WritebackPhoneAt(previous.0, p, span, contour);
      assert phones == init + [p];
      WritebackPhraseAtStep(nodes, init, p, span, contour, previous.0);
    }
  }

  /** The step of `WritebackPhraseAt`: one more phone, distinct from the earlier ones, written back. */
  lemma WritebackPhraseAtStep(nodes: seq<Segment>, init: seq<nat>, p: nat, span: Span, contour: seq<real>,
                              previous: seq<Segment>)
    requires forall k :: 0 <= k < |init| ==> init[k] < |nodes| && HasTiming(nodes[init[k]])
    requires p < |nodes| && HasTiming(nodes[p]) && p !in init && |contour| == F0_CONTOUR_LENGTH
    requires |previous| == |nodes|
    requires forall i :: 0 <= i < |nodes| && i !in init ==> previous[i] == nodes[i]
    requires forall k :: 0 <= k < |init| ==> WritesBack(nodes[init[k]], span, contour)
    requires forall k :: 0 <= k < |init| ==> previous[init[k]] == PhoneAfter(nodes[init[k]], span, contour)
    requires WritesBack(nodes[p], span, contour)
    ensures var r := previous[p := PhoneAfter(nodes[p], span, contour)];
      var phones := init + [p];
      && (forall i :: 0 <= i < |nodes| && i !in phones ==> r[i] == nodes[i])
      && (forall k :: 0 <= k < |phones| ==> WritesBack(nodes[phones[k]], span, contour))
      && (forall k :: 0 <= k < |phones| ==> r[phones[k]] == PhoneAfter(nodes[phones[k]], span, contour))
  {
    var phones := init + [p];
    forall k | 0 <= k < |phones|
      ensures WritesBack(nodes[phones[k]], span, contour)
    {
      if k < |init| {
        assert phones[k] == init[k];
      }
    }
  }

  /** A timed phone with a non-negative duration that starts no earlier than the span. */
  predicate StartsInSpan(phone: Segment, span: Span) {
    HasTiming(phone) && phone.d.value >= 0.0 && phone.end.value - 0.001 * phone.d.value >= span.start
  }

  /**
   * Writeback cannot go out of bounds when every phone of the phrase starts inside a span of
   * non-negative length and has a non-negative duration.
   */
  lemma {:induction false} WritebackPhrasePasses(nodes: seq<Segment>, phones: seq<nat>, span: Span, contour: seq<real>)
    requires forall k :: 0 <= k < |phones| ==>
      phones[k] < |nodes| && HasTiming(nodes[phones[k]]) && StartsInSpan(nodes[phones[k]], span)
    requires |contour| == F0_CONTOUR_LENGTH && span.length >= 0.0
    ensures WritebackPhrase(nodes, phones, span, contour).1 == Pass
  {
    if phones != [] {
      var init := phones[..|phones| - 1];
      WritebackPhrasePasses(nodes, init, span, contour);
      var previous := WritebackPhrase(nodes, init, span, contour);
      var p := phones[|phones| - 1];
      OnlyPitchChangedAt(nodes, previous.0, p);
      var phone := previous.0[p];
      assert StartsInSpan(phone, span);
      var targets := MatchedTargets(phone.f0);
      forall j | 0 <= j < |targets|
        ensures WritebackIndex(phone, span, targets[j].percent) >= 0
      {
        WritebackIndexNonNegative(phone, span, targets[j].percent);
      }
    }
  }
}
