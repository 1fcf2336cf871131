/**
 * The paragraph prosody handler: for every phrase of every sentence it changes the speech
 * rate according to where the sentence stands in the paragraph, recomputes the timeline,
 * extracts the phrase's pitch contour, replaces the contour's linear baseline by a falling
 * one whose range depends on the sentence location, and writes the contour back.
 */
module ProsodyParagraphHandler {
  import opened Wrappers
  import opened ProsodyDocument
  import opened ProsodyPolicy
  import opened ProsodyContour

  /**
   * The numeric routines of other classes that `process` relies on, taken as given:
   * filling the zero samples of a contour, the first-order polynomial fit sampled at 101
   * points, and the maximum and the mean of a contour.
   */
  datatype Numerics = Numerics(
    interpolate: seq<real> -> seq<real>,
    fitLine: seq<real> -> seq<real>,
    max: seq<real> -> real,
    mean: seq<real> -> real)

  /** Interpolation keeps the length of the contour; the fitted line has 101 samples. */
  ghost predicate ValidNumerics(num: Numerics) {
    && (forall c: seq<real> :: |num.interpolate(c)| == |c|)
    && (forall c: seq<real> :: |num.fitLine(c)| == F0_CONTOUR_LENGTH)
  }

  // ---------------------------------------------------------------------------------------
  // Word statistics

  /** The part of speech of a punctuation token, which is not counted as a word. */
  const PUNCTUATION: string := "."

  /** The tokens counted as words, in order: all but punctuation. */
  function Words(tokens: seq<Token>): (r: seq<Token>)
    ensures |r| <= |tokens|
  {
    if tokens == [] then []
    else
      var init := Words(tokens[..|tokens| - 1]);
      var last := tokens[|tokens| - 1];
      if last.pos != PUNCTUATION then init + [last] else init
  }

  /** The words are exactly the tokens that are not punctuation. */
  lemma {:induction false} WordsAreTheNonPunctuation(tokens: seq<Token>)
    ensures forall t :: t in Words(tokens) <==> t in tokens && t.pos != PUNCTUATION
  {
    if tokens != [] {
      var last := tokens[|tokens| - 1];
      WordsAreTheNonPunctuation(tokens[..|tokens| - 1]);
      assert tokens == tokens[..|tokens| - 1] + [last];
    }
  }

  /**
   * Counted with multiplicity: a token occurs among the words as often as it occurs in the
   * phrase, unless it is punctuation, in which case it does not occur at all.
   */
  lemma {:induction false} WordsCountEachToken(tokens: seq<Token>)
    ensures forall t :: multiset(Words(tokens))[t] == if t.pos != PUNCTUATION then multiset(tokens)[t] else 0
  {
    if tokens != [] {
      var init, last := tokens[..|tokens| - 1], tokens[|tokens| - 1];
      WordsCountEachToken(init);
      assert tokens == init + [last];
      assert multiset(tokens) == multiset(init) + multiset{last};
    }
  }

  /** One more token adds it to the words unless it is punctuation. */
  lemma WordsSnoc(tokens: seq<Token>, t: nat)
    requires t < |tokens|
    ensures Words(tokens[..t + 1]) == if tokens[t].pos != PUNCTUATION then Words(tokens[..t]) + [tokens[t]] else Words(tokens[..t])
  {
    assert tokens[..t + 1][..t] == tokens[..t];
  }

  /** The text length of one more token. */
  lemma TextLengthSnoc(tokens: seq<Token>, t: Token)
    ensures TextLength(tokens + [t]) == TextLength(tokens) + |t.text|
  {
    assert (tokens + [t])[..|tokens|] == tokens;
  }

  /** The summed text length of some tokens. */
  function TextLength(tokens: seq<Token>): (r: nat)
    ensures (forall t :: 0 <= t < |tokens| ==> tokens[t].text == []) <==> r == 0
  {
    if tokens == [] then 0 else TextLength(tokens[..|tokens| - 1]) + |tokens[|tokens| - 1].text|
  }

  /** A phrase without punctuation has all its tokens as words. */
  lemma {:induction false} WordsWithoutPunctuation(tokens: seq<Token>)
    requires forall t :: 0 <= t < |tokens| ==> tokens[t].pos != PUNCTUATION
    ensures Words(tokens) == tokens
  {
    if tokens != [] {
      WordsWithoutPunctuation(tokens[..|tokens| - 1]);
      assert tokens == tokens[..|tokens| - 1] + [tokens[|tokens| - 1]];
    }
  }

  /** The number of words of a phrase, and the summed length of their texts. */
  method WordStatistics(tokens: seq<Token>) returns (numOfWords: nat, sumLengthWords: nat)
    ensures numOfWords == |Words(tokens)|
    ensures sumLengthWords == TextLength(Words(tokens))
  {
    numOfWords, sumLengthWords := 0, 0;
    ghost var words: seq<Token> := [];
    for t := 0 to |tokens|
      invariant words == Words(tokens[..t])
      invariant numOfWords == |words| && sumLengthWords == TextLength(words)
    {
      var el := tokens[t];
      WordsSnoc(tokens, t);
      if el.pos != PUNCTUATION {
        numOfWords := numOfWords + 1;
        sumLengthWords := sumLengthWords + |el.text|;
        TextLengthSnoc(words, el);
        words := words + [el];
      }
    }
    assert tokens[..|tokens|] == tokens;
  }

  // ---------------------------------------------------------------------------------------
  // Baseline replacement

  /** The contour with its baseline replaced: each sample keeps its distance to the baseline. */
  function Rebased(f0: seq<real>, base: seq<real>, newBase: seq<real>): (r: seq<real>)
    requires |base| >= |f0| && |newBase| >= |f0|
    ensures |r| == |f0|
    ensures forall i :: 0 <= i < |f0| ==> r[i] - newBase[i] == f0[i] - base[i]
  {
    seq(|f0|, i requires 0 <= i < |f0| => (f0[i] - base[i]) + newBase[i])
  }

  /**
   * The two loops of `process` around the pitch modification: the residual of the contour
   * over its fitted baseline, then that residual imposed on the new baseline.
   */
  method ReplaceBaseline(f0: seq<real>, base: seq<real>, newBase: seq<real>) returns (r: seq<real>)
    requires |base| >= |f0| && |newBase| >= |f0|
    ensures |r| == |f0|
    ensures forall i :: 0 <= i < |f0| ==> r[i] - newBase[i] == f0[i] - base[i]
    ensures r == Rebased(f0, base, newBase)
  {
    var diffF0Contour := new real[|f0|];
    for i := 0 to |f0|
      invariant forall k :: 0 <= k < i ==> diffF0Contour[k] == f0[k] - base[k]
    {
      diffF0Contour[i] := f0[i] - base[i];
    }
    var f0Contour := new real[|f0|];
    for i := 0 to |f0|
      invariant forall k :: 0 <= k < |f0| ==> diffF0Contour[k] == f0[k] - base[k]
      invariant forall k :: 0 <= k < i ==> f0Contour[k] == diffF0Contour[k] + newBase[k]
    {
      f0Contour[i] := diffF0Contour[i] + newBase[i];
    }
    r := f0Contour[..];
    assert forall i :: 0 <= i < |f0| ==> r[i] == (f0[i] - base[i]) + newBase[i];
  }

  /** Imposing the residual on the same baseline gives the contour back. */
  lemma RebasedSameBase(f0: seq<real>, base: seq<real>)
    requires |base| >= |f0|
    ensures Rebased(f0, base, base) == f0
  {
  }

  // ---------------------------------------------------------------------------------------
  // The steps of `modifySpeechRate`

  /** Every phone of the phrase with a `d` gets it rescaled, in place. */
  method RescaleDurations(doc: Document, phones: seq<nat>, rate: real)
    requires WellFormedPhones(phones, doc.nodes)
    modifies doc
    ensures doc.nodes == RescalePhones(old(doc.nodes), phones, rate)
  {
    ghost var original := doc.nodes;
    for i := 0 to |phones|
      invariant |doc.nodes| == |original|
      invariant forall k :: 0 <= k < |original| ==>
        doc.nodes[k] == if k in phones[..i] then Rescale(original[k], rate) else original[k]
    {
      var p := phones[i];
      assert p !in phones[..i];
      assert phones[..i + 1] == phones[..i] + [p];
      var e := doc.nodes[p];
      if e.d.None? {
        continue;
      }
      var newDurAttribute := RescaledDuration(e.d.value, rate);
      doc.nodes := doc.nodes[p := e.(d := Some(newDurAttribute))];
    }
    assert phones[..|phones|] == phones;
  }

  /** The timeline pass over all `ph` and `boundary` elements of the document, in place. */
  method UpdateEndTimes(doc: Document)
    modifies doc
    ensures doc.nodes == EndTimes(old(doc.nodes))
  {
    ghost var original := doc.nodes;
    var duration := 0.0;
    for i := 0 to |doc.nodes|
      invariant |doc.nodes| == |original|
      invariant duration == ElapsedMs(original, i)
      invariant forall k :: 0 <= k < i ==> doc.nodes[k] == EndTimes(original)[k]
      invariant forall k :: i <= k < |original| ==> doc.nodes[k] == original[k]
    {
      var nd := doc.nodes[i];
      if nd.Boundary? {
        if nd.duration.Some? {
          duration := duration + nd.duration.value;
        }
      } else {
        if nd.d.Some? {
          duration := duration + nd.d.value;
        }
      }
      var endTime := 0.001 * duration;
      if !nd.Boundary? {
        doc.nodes := doc.nodes[i := nd.(end := Some(endTime))];
      }
    }
  }

  // ---------------------------------------------------------------------------------------
  // `setModifiedContour`

  /** The targets of one phone rewritten from the contour, or the index that was out of bounds. */
  method RewritePhoneTargets(targets: seq<F0Target>, e: Segment, span: Span, contour: seq<real>)
    returns (r: Result<seq<F0Target>, ProsodyError>)
    requires HasTiming(e) && |contour| == F0_CONTOUR_LENGTH
    ensures r == RewriteTargets(targets, e, span, contour)
  {
    var setF0 := [];
    for j := 0 to |targets|
      invariant RewriteTargets(targets[..j], e, span, contour) == Success(setF0)
    {
      assert targets[..j + 1][..j] == targets[..j];
      var percent := targets[j].percent;
      var offset := TargetOffset(e, span, percent);
      var placeIndex := ScaledIndex(offset, span.length, F0_CONTOUR_LENGTH);
      if placeIndex >= F0_CONTOUR_LENGTH {
        placeIndex := F0_CONTOUR_LENGTH - 1;
      }
      if placeIndex < 0 {
        RewriteTargetsFailureStays(targets, e, span, contour, j + 1);
        return Failure(ContourIndexOutOfBounds(placeIndex));
      }
      setF0 := setF0 + [F0Target(percent, Truncate(contour[placeIndex]))];
    }
    assert targets[..|targets|] == targets;
    r := Success(setF0);
  }

  /** Once a prefix of the targets fails, so do all of them, with the same error. */
  lemma {:induction false} RewriteTargetsFailureStays(targets: seq<F0Target>, e: Segment, span: Span,
                                                      contour: seq<real>, n: nat)
    requires HasTiming(e) && |contour| == F0_CONTOUR_LENGTH && n <= |targets|
    requires RewriteTargets(targets[..n], e, span, contour).Failure?
    ensures RewriteTargets(targets, e, span, contour) == RewriteTargets(targets[..n], e, span, contour)
    decreases |targets| - n
  {
    if n < |targets| {
      var longer := targets[..n + 1];
      assert longer[..n] == targets[..n];
      RewriteTargetsFailureStays(targets, e, span, contour, n + 1);
    } else {
      assert targets[..n] == targets;
    }
  }

  /** Once a prefix of the phones fails, the whole writeback ends there. */
  lemma {:induction false} WritebackFailureStays(nodes: seq<Segment>, phones: seq<nat>, span: Span,
                                                 contour: seq<real>, n: nat)
    requires forall k :: 0 <= k < |phones| ==> phones[k] < |nodes| && HasTiming(nodes[phones[k]])
    requires |contour| == F0_CONTOUR_LENGTH && n <= |phones|
    requires WritebackPhrase(nodes, phones[..n], span, contour).1.Fail?
    ensures WritebackPhrase(nodes, phones, span, contour) == WritebackPhrase(nodes, phones[..n], span, contour)
    decreases |phones| - n
  {
    if n < |phones| {
      var longer := phones[..n + 1];
      assert longer[..n] == phones[..n];
      WritebackFailureStays(nodes, phones, span, contour, n + 1);
    } else {
      assert phones[..n] == phones;
    }
  }

  /**
   * `setModifiedContour`: every phone of the phrase with pitch targets gets them rewritten
   * from the contour; an index out of bounds stops it, with the phones before rewritten.
   */
  method SetModifiedContour(doc: Document, phones: seq<nat>, contour: seq<real>)
    returns (outcome: Outcome<ProsodyError>)
    requires |phones| > 0 && |contour| == F0_CONTOUR_LENGTH
    requires forall k :: 0 <= k < |phones| ==> phones[k] < |doc.nodes| && HasTiming(doc.nodes[phones[k]])
    modifies doc
    ensures var nl := PhraseSegments(old(doc.nodes), phones);
      (doc.nodes, outcome) == WritebackPhrase(old(doc.nodes), phones, PhraseSpan(nl), contour)
  {
    ghost var original := doc.nodes;
    var nl := PhraseSegments(doc.nodes, phones);
    var span := PhraseSpan(nl);
    for i := 0 to |phones|
      invariant (doc.nodes, Pass) == WritebackPhrase(original, phones[..i], span, contour)
    {
      assert phones[..i + 1][..i] == phones[..i];
      var p := phones[i];
      OnlyPitchChangedAt(original, doc.nodes, p);
      var e := doc.nodes[p];
      if e.f0 == [] {
        continue;
      }
      var setF0 := RewritePhoneTargets(MatchedTargets(e.f0), e, span, contour);
      if setF0.Failure? {
        WritebackFailureStays(original, phones, span, contour, i + 1);
        return Fail(setF0.error);
      }
      doc.nodes := doc.nodes[p := e.(f0 := setF0.value)];
    }
    assert phones[..|phones|] == phones;
    outcome := Pass;
  }

  // ---------------------------------------------------------------------------------------
  // The handler

  /** What processing has produced so far: the segments, the counter, and the exception if any. */
  datatype State = State(nodes: seq<Segment>, counter: int, outcome: Outcome<ProsodyError>)

  /**
   * One phrase, as the body of `process`'s phrase loop handles it: the speech rate (which
   * moves the counter even when it fails), the contour, the new baseline, the writeback.
   */
  function PhraseStep(nodes: seq<Segment>, counter: int, numParagraphs: int, location: string,
                      phrase: Phrase, num: Numerics): (r: State)
    requires WellFormedPhones(phrase.phones, nodes) && ValidNumerics(num)
    ensures BoundariesKept(nodes, r.nodes)
    ensures r.counter == NextCounter(counter, numParagraphs)
  {
    var numOfWords := |Words(phrase.tokens)|;
    var rate := SpeechRate(location, numOfWords, IsDampedCall(counter, numParagraphs));
    var next := NextCounter(counter, numParagraphs);
    var rescaled := RescalePhones(nodes, phrase.phones, rate);
    if phrase.phones == [] then State(rescaled, next, Fail(NoPhoneInPhrase))
    else
      var timed := EndTimes(rescaled);
      BoundariesKeptTransitive(nodes, rescaled, timed);
      var nl := PhraseSegments(timed, phrase.phones);
      match ContourInputError(nl, F0_CONTOUR_LENGTH)
      case Some(e) => State(timed, next, Fail(e))
      case None =>
        var f0 := num.interpolate(RawContour(nl, F0_CONTOUR_LENGTH));
        var base := num.fitLine(f0);
        match ApplyBasePitchModification(num.mean(base), num.max(base), location, numOfWords)
        case Failure(e) => State(timed, next, Fail(e))
        case Success(newBase) =>
          var written := WritebackPhrase(timed, phrase.phones, PhraseSpan(nl), Rebased(f0, base, newBase));
          OnlyPitchChangedKeepsBoundaries(timed, written.0);
          BoundariesKeptTransitive(nodes, timed, written.0);
          State(written.0, next, written.1)
  }

  /** The number of phrases of sentences `k` onwards. */
  function PhraseCount(sentences: seq<seq<Phrase>>, k: nat): nat
    decreases |sentences| - k
  {
    if k >= |sentences| then 0 else |sentences[k]| + PhraseCount(sentences, k + 1)
  }

  /** What `process` does to the state with one phrase of a sentence at the given location. */
  type PhraseAction = (State, string, Phrase) --> State

  /** The action is defined on every well-formed phrase and keeps the document's boundaries. */
  ghost predicate ActsOnWellFormed(act: PhraseAction) {
    forall st: State, location: string, phrase: Phrase | WellFormedPhones(phrase.phones, st.nodes) ::
      act.requires(st, location, phrase) && BoundariesKept(st.nodes, act(st, location, phrase).nodes)
  }

  /** Every phrase moves the counter once, whether or not it raises an exception. */
  ghost predicate MovesCounter(act: PhraseAction, numParagraphs: int) {
    forall st: State, location: string, phrase: Phrase | WellFormedPhones(phrase.phones, st.nodes) ::
      act.requires(st, location, phrase) && act(st, location, phrase).counter == NextCounter(st.counter, numParagraphs)
  }

  /**
   * A phrase of a located sentence whose phones all have a `d`, in a document without
   * negative durations, raises nothing and leaves the durations as good as it found them.
   */
  ghost predicate PassesWithDurations(act: PhraseAction) {
    forall st: State, location: string, phrase: Phrase
      | && WellFormedPhones(phrase.phones, st.nodes) && IsLocated(location)
        && DurationsNonNegative(st.nodes) && PhonesHaveDuration(phrase.phones, st.nodes) ::
      && act.requires(st, location, phrase)
      && act(st, location, phrase).outcome == Pass && KeepsDurations(st.nodes, act(st, location, phrase).nodes)
  }

  /** The body of `process`'s phrase loop, as the action on the state. */
  function PhraseStepAction(numParagraphs: int, num: Numerics): (act: PhraseAction)
    requires ValidNumerics(num)
    ensures ActsOnWellFormed(act) && MovesCounter(act, numParagraphs)
  {
    (st: State, location: string, phrase: Phrase) requires WellFormedPhones(phrase.phones, st.nodes) =>
      PhraseStep(st.nodes, st.counter, numParagraphs, location, phrase, num)
  }

  /*
   * `process` as four mutually recursive functions, one per point of its two loops: sentences
   * `k` onwards; phrases `m` onwards of sentence `k` and then the sentences after it; phrase
   * `m` and everything after it; and what follows a phrase, which ends processing on an
   * exception. Each phrase gets its sentence's location. The phrase's action is a parameter,
   * so that what the loops do is stated apart from what one phrase does.
   */

  /** Sentences `k` onwards processed from `s`. */
  function RunSentences(s: State, sentences: seq<seq<Phrase>>, k: nat, act: PhraseAction): (r: State)
    requires WellFormedSentences(sentences, s.nodes) && ActsOnWellFormed(act)
    ensures BoundariesKept(s.nodes, r.nodes)
    decreases |sentences| - k, if k < |sentences| then |sentences[k]| + 1 else 0, 3
  {
    if s.outcome.Fail? || k >= |sentences| then s
    else RunPhrases(s, sentences, k, 0, act)
  }

  /** Phrases `m` onwards of sentence `k`, then the sentences after it. */
  function RunPhrases(s: State, sentences: seq<seq<Phrase>>, k: nat, m: nat, act: PhraseAction): (r: State)
    requires k < |sentences| && m <= |sentences[k]|
    requires WellFormedSentences(sentences, s.nodes) && ActsOnWellFormed(act)
    ensures BoundariesKept(s.nodes, r.nodes)
    decreases |sentences| - k, |sentences[k]| - m, 2
  {
    if s.outcome.Fail? then s
    else if m == |sentences[k]| then RunSentences(s, sentences, k + 1, act)
    else RunPhrase(s, sentences, k, m, act)
  }

  /** Phrase `m` of sentence `k`, then everything after it. */
  function RunPhrase(s: State, sentences: seq<seq<Phrase>>, k: nat, m: nat, act: PhraseAction): (r: State)
    requires k < |sentences| && m < |sentences[k]|
    requires WellFormedSentences(sentences, s.nodes) && ActsOnWellFormed(act)
    ensures BoundariesKept(s.nodes, r.nodes)
    decreases |sentences| - k, |sentences[k]| - m, 1
  {
    var step := act(s, SentenceLocation(k, |sentences|), sentences[k][m]);
    WellFormedKinds(sentences, s.nodes, step.nodes);
    var r := AfterPhrase(step, sentences, k, m + 1, act);
    BoundariesKeptTransitive(s.nodes, step.nodes, r.nodes);
    r
  }

  /** What follows a phrase that left `s`: an exception is the final state, else phrase `m` on. */
  function AfterPhrase(s: State, sentences: seq<seq<Phrase>>, k: nat, m: nat, act: PhraseAction): (r: State)
    requires k < |sentences| && m <= |sentences[k]|
    requires WellFormedSentences(sentences, s.nodes) && ActsOnWellFormed(act)
    ensures BoundariesKept(s.nodes, r.nodes)
    decreases |sentences| - k, |sentences[k]| - m, 3
  {
    if s.outcome.Fail? then s else RunPhrases(s, sentences, k, m, act)
  }

  /** Phrase `m` is one action, and what follows it is what follows that action. */
  lemma RunPhrasesStep(s: State, sentences: seq<seq<Phrase>>, k: nat, m: nat, act: PhraseAction)
    requires k < |sentences| && m < |sentences[k]|
    requires WellFormedSentences(sentences, s.nodes) && ActsOnWellFormed(act) && s.outcome.Pass?
    ensures var step := act(s, SentenceLocation(k, |sentences|), sentences[k][m]);
      && WellFormedSentences(sentences, step.nodes)
      && AfterPhrase(s, sentences, k, m, act) == RunPhrases(s, sentences, k, m, act)
      && RunPhrases(s, sentences, k, m, act) == AfterPhrase(step, sentences, k, m + 1, act)
  {
    var step := act(s, SentenceLocation(k, |sentences|), sentences[k][m]);
    WellFormedKinds(sentences, s.nodes, step.nodes);
  }

  // ---------------------------------------------------------------------------------------
  // What processing promises

  /**
   * A document processed without exception moves the counter once per phrase: from its
   * value after `calls` calls to its value after `calls` plus the number of phrases.
   */
  lemma ProcessCounter(s: State, sentences: seq<seq<Phrase>>, act: PhraseAction, numParagraphs: int, calls: nat)
    requires WellFormedSentences(sentences, s.nodes) && ActsOnWellFormed(act) && MovesCounter(act, numParagraphs)
    requires s.counter == CounterAfter(numParagraphs, calls)
    ensures var r := RunSentences(s, sentences, 0, act);
      r.outcome.Pass? ==> r.counter == CounterAfter(numParagraphs, calls + PhraseCount(sentences, 0))
  {
    if s.outcome.Pass? && |sentences| > 0 {
      RunPhrasesCounter(s, sentences, 0, 0, act, numParagraphs);
    }
    CountersAheadAfter(numParagraphs, calls, PhraseCount(sentences, 0));
  }

  /** From phrase `m` of sentence `k` on, a run without exception moves the counter once per phrase. */
  lemma {:induction false} RunPhrasesCounter(s: State, sentences: seq<seq<Phrase>>, k: nat, m: nat,
                                             act: PhraseAction, numParagraphs: int)
    requires k < |sentences| && m <= |sentences[k]|
    requires WellFormedSentences(sentences, s.nodes) && ActsOnWellFormed(act) && MovesCounter(act, numParagraphs)
    ensures var r := RunPhrases(s, sentences, k, m, act);
      r.outcome.Pass? ==> r.counter == CountersAhead(s.counter, numParagraphs, |sentences[k]| - m + PhraseCount(sentences, k + 1))
    decreases |sentences| - k, |sentences[k]| - m
  {
    if s.outcome.Fail? {
    } else if m == |sentences[k]| {
      if k + 1 < |sentences| {
        RunPhrasesCounter(s, sentences, k + 1, 0, act, numParagraphs);
      }
    } else {
      var step := act(s, SentenceLocation(k, |sentences|), sentences[k][m]);
      RunPhrasesStep(s, sentences, k, m, act);
      RunPhrasesCounter(step, sentences, k, m + 1, act, numParagraphs);
    }
  }

  /** No element adds a negative time. */
  predicate DurationsNonNegative(nodes: seq<Segment>) {
    forall i :: 0 <= i < |nodes| ==> SegmentDuration(nodes[i]) >= 0.0
  }

  /** The phrase has a phone, and all its phones have a `d`. */
  predicate PhonesHaveDuration(phones: seq<nat>, nodes: seq<Segment>) {
    && |phones| > 0
    && forall j :: 0 <= j < |phones| ==> phones[j] < |nodes| && nodes[phones[j]].Phone? && nodes[phones[j]].d.Some?
  }

  predicate PhrasesHaveDuration(sentences: seq<seq<Phrase>>, nodes: seq<Segment>) {
    forall k, m :: 0 <= k < |sentences| && 0 <= m < |sentences[k]| ==>
      PhonesHaveDuration(sentences[k][m].phones, nodes)
  }

  /** Durations stay non-negative, and a phone with a `d` keeps one. */
  predicate KeepsDurations(a: seq<Segment>, b: seq<Segment>) {
    && |a| == |b|
    && (DurationsNonNegative(a) ==> DurationsNonNegative(b))
    && forall i :: 0 <= i < |a| && a[i].Phone? && a[i].d.Some? ==> b[i].Phone? && b[i].d.Some?
  }

  lemma KeepsDurationsTransitive(a: seq<Segment>, b: seq<Segment>, c: seq<Segment>)
    requires KeepsDurations(a, b) && KeepsDurations(b, c)
    ensures KeepsDurations(a, c)
  {
  }

  /** A non-negative rate never makes a duration negative. */
  lemma RescaleKeepsDurations(nodes: seq<Segment>, phones: seq<nat>, rate: real)
    requires rate >= 0.0
    ensures KeepsDurations(nodes, RescalePhones(nodes, phones, rate))
  {
    var rescaled := RescalePhones(nodes, phones, rate);
    if DurationsNonNegative(nodes) {
      forall i | 0 <= i < |nodes|
        ensures SegmentDuration(rescaled[i]) >= 0.0
      {
        if i in phones && nodes[i].Phone? && nodes[i].d.Some? {
          RescaledDurationFactor(nodes[i].d.value, rate);
        }
      }
    }
  }

  /** The timeline pass and the writeback leave every duration as it is. */
  lemma TimingKeepsDurations(nodes: seq<Segment>, written: seq<Segment>)
    requires OnlyPitchChanged(EndTimes(nodes), written)
    ensures forall i :: 0 <= i < |nodes| ==> SegmentDuration(EndTimes(nodes)[i]) == SegmentDuration(nodes[i])
    ensures forall i :: 0 <= i < |nodes| ==> SegmentDuration(written[i]) == SegmentDuration(nodes[i])
    ensures KeepsDurations(nodes, EndTimes(nodes))
    ensures KeepsDurations(EndTimes(nodes), written)
  {
    var timed := EndTimes(nodes);
    assert forall i :: 0 <= i < |nodes| ==> SegmentDuration(timed[i]) == SegmentDuration(nodes[i]);
    forall i | 0 <= i < |nodes|
      ensures SegmentDuration(written[i]) == SegmentDuration(timed[i])
    {
      OnlyPitchChangedAt(timed, written, i);
    }
  }

  /** One phrase never makes a duration negative nor takes a `d` away. */
  lemma {:induction false} PhraseStepKeepsDurations(nodes: seq<Segment>, counter: int, numParagraphs: int,
                                                    location: string, phrase: Phrase, num: Numerics)
    requires WellFormedPhones(phrase.phones, nodes) && ValidNumerics(num)
    ensures KeepsDurations(nodes, PhraseStep(nodes, counter, numParagraphs, location, phrase, num).nodes)
  {
    var numOfWords := |Words(phrase.tokens)|;
    var rate := SpeechRate(location, numOfWords, IsDampedCall(counter, numParagraphs));
    SpeechRateTable(location, numOfWords, IsDampedCall(counter, numParagraphs));
    var rescaled := RescalePhones(nodes, phrase.phones, rate);
    RescaleKeepsDurations(nodes, phrase.phones, rate);
    var r := PhraseStep(nodes, counter, numParagraphs, location, phrase, num);
    if phrase.phones != [] {
      var timed := EndTimes(rescaled);
      if r.nodes == timed {
        TimingKeepsDurations(rescaled, timed);
      } else {
        var nl := PhraseSegments(timed, phrase.phones);
        var f0 := num.interpolate(RawContour(nl, F0_CONTOUR_LENGTH));
        var base := num.fitLine(f0);
        var newBase := ApplyBasePitchModification(num.mean(base), num.max(base), location, numOfWords).value;
        var written := WritebackPhrase(timed, phrase.phones, PhraseSpan(nl), Rebased(f0, base, newBase));
        assert r.nodes == written.0;
        TimingKeepsDurations(rescaled, written.0);
      }
      KeepsDurationsTransitive(nodes, rescaled, timed);
      KeepsDurationsTransitive(nodes, timed, r.nodes);
    }
  }

  /**
   * A phrase of a located sentence whose phones all have a `d`, in a document without negative
   * durations, goes through without exception: the timeline pass gives every phone an `end`
   * inside the phrase's span, so extraction accepts the phrase and writeback stays in bounds.
   */
  lemma {:induction false} PhraseStepPasses(nodes: seq<Segment>, counter: int, numParagraphs: int, location: string,
                         phrase: Phrase, num: Numerics)
    requires WellFormedPhones(phrase.phones, nodes) && ValidNumerics(num)
    requires DurationsNonNegative(nodes) && PhonesHaveDuration(phrase.phones, nodes) && IsLocated(location)
    ensures PhraseStep(nodes, counter, numParagraphs, location, phrase, num).outcome == Pass
  {
    var phones := phrase.phones;
    var numOfWords := |Words(phrase.tokens)|;
    var rate := SpeechRate(location, numOfWords, IsDampedCall(counter, numParagraphs));
    SpeechRateTable(location, numOfWords, IsDampedCall(counter, numParagraphs));
    var rescaled := RescalePhones(nodes, phones, rate);
    RescaleKeepsDurations(nodes, phones, rate);
    PhraseTimeline(rescaled, phones);
    var timed := EndTimes(rescaled);
    var nl := PhraseSegments(timed, phones);
    var f0 := num.interpolate(RawContour(nl, F0_CONTOUR_LENGTH));
    var base := num.fitLine(f0);
    var newBase := ApplyBasePitchModification(num.mean(base), num.max(base), location, numOfWords);
    WritebackPhrasePasses(timed, phones, PhraseSpan(nl), Rebased(f0, base, newBase.value));
  }

  /**
   * After the timeline pass, every phone of a phrase whose phones all have a `d` (in a document
   * without negative durations) has `d` and `end`, and starts inside the phrase's span.
   */
  lemma {:induction false} PhraseTimeline(nodes: seq<Segment>, phones: seq<nat>)
    requires WellFormedPhones(phones, nodes) && DurationsNonNegative(nodes) && PhonesHaveDuration(phones, nodes)
    ensures var timed := EndTimes(nodes);
      var nl := PhraseSegments(timed, phones);
      && AllTimed(nl) && PhraseSpan(nl).length >= 0.0
      && forall j :: 0 <= j < |phones| ==> StartsInSpan(timed[phones[j]], PhraseSpan(nl))
  {
    var timed := EndTimes(nodes);
    EndTimesProperties(nodes);
    var first, last := phones[0], phones[|phones| - 1];
    forall j | 0 <= j < |phones|
      ensures HasTiming(timed[phones[j]])
      ensures timed[phones[j]].end.value - 0.001 * timed[phones[j]].d.value == 0.001 * ElapsedMs(nodes, phones[j])
    {
      EndTimesPhoneStart(nodes, phones[j]);
    }
    var nl := PhraseSegments(timed, phones);
    assert AllTimed(nl);
    var span := PhraseSpan(nl);
    assert span.start == 0.001 * ElapsedMs(nodes, first);
    ElapsedMonotone(nodes, first, last + 1);
    assert timed[last].end.value == 0.001 * ElapsedMs(nodes, last + 1);
    forall j | 0 <= j < |phones|
      ensures StartsInSpan(timed[phones[j]], span)
    {
      ElapsedMonotone(nodes, first, phones[j]);
      assert SegmentDuration(nodes[phones[j]]) >= 0.0;
    }
  }

  /** The conditions under which a phrase goes through hold again after any step that keeps durations. */
  lemma KeepsDurationsConditions(sentences: seq<seq<Phrase>>, a: seq<Segment>, b: seq<Segment>)
    requires KeepsDurations(a, b) && DurationsNonNegative(a) && PhrasesHaveDuration(sentences, a)
    ensures DurationsNonNegative(b) && PhrasesHaveDuration(sentences, b)
  {
    forall k, m | 0 <= k < |sentences| && 0 <= m < |sentences[k]|
      ensures PhonesHaveDuration(sentences[k][m].phones, b)
    {
      var phones := sentences[k][m].phones;
      assert forall j :: 0 <= j < |phones| ==> a[phones[j]].Phone? && a[phones[j]].d.Some?;
    }
  }

  /** The handler's phrase action goes through, and keeps durations, under those conditions. */
  lemma PhraseStepPassesWithDurations(numParagraphs: int, num: Numerics)
    requires ValidNumerics(num)
    ensures PassesWithDurations(PhraseStepAction(numParagraphs, num))
  {
    var act := PhraseStepAction(numParagraphs, num);
    forall st: State, location: string, phrase: Phrase
      | && WellFormedPhones(phrase.phones, st.nodes) && IsLocated(location)
        && DurationsNonNegative(st.nodes) && PhonesHaveDuration(phrase.phones, st.nodes)
      ensures act.requires(st, location, phrase)
      ensures act(st, location, phrase).outcome == Pass && KeepsDurations(st.nodes, act(st, location, phrase).nodes)
    {
      PhraseStepPasses(st.nodes, st.counter, numParagraphs, location, phrase, num);
      PhraseStepKeepsDurations(st.nodes, st.counter, numParagraphs, location, phrase, num);
    }
  }

  /**
   * A document without negative durations in which every phrase has phones and every phone
   * of a phrase has a `d` is processed without any exception.
   */
  lemma ProcessRaisesNothing(s: State, numParagraphs: int, sentences: seq<seq<Phrase>>, num: Numerics)
    requires WellFormedSentences(sentences, s.nodes) && ValidNumerics(num) && s.outcome.Pass?
    requires DurationsNonNegative(s.nodes) && PhrasesHaveDuration(sentences, s.nodes)
    ensures RunSentences(s, sentences, 0, PhraseStepAction(numParagraphs, num)).outcome.Pass?
  {
    if |sentences| > 0 {
      PhraseStepPassesWithDurations(numParagraphs, num);
      RunPhrasesPasses(s, sentences, 0, 0, PhraseStepAction(numParagraphs, num));
    }
  }

  /** From phrase `m` of sentence `k` on, under the same conditions, no exception is raised. */
  lemma {:induction false} RunPhrasesPasses(s: State, sentences: seq<seq<Phrase>>, k: nat, m: nat, act: PhraseAction)
    requires k < |sentences| && m <= |sentences[k]|
    requires WellFormedSentences(sentences, s.nodes) && ActsOnWellFormed(act) && PassesWithDurations(act)
    requires s.outcome.Pass? && DurationsNonNegative(s.nodes) && PhrasesHaveDuration(sentences, s.nodes)
    ensures RunPhrases(s, sentences, k, m, act).outcome.Pass?
    decreases |sentences| - k, |sentences[k]| - m
  {
    if m == |sentences[k]| {
      if k + 1 < |sentences| {
        RunPhrasesPasses(s, sentences, k + 1, 0, act);
      }
    } else {
      SentenceLocationClasses(k, |sentences|);
      var step := act(s, SentenceLocation(k, |sentences|), sentences[k][m]);
      RunPhrasesStep(s, sentences, k, m, act);
      KeepsDurationsConditions(sentences, s.nodes, step.nodes);
      RunPhrasesPasses(step, sentences, k, m + 1, act);
    }
  }

  /**
   * The handler, with the paragraph counter that the original keeps in a static field: it
   * starts at 1 and is shared by every phrase the handler processes.
   */
  class ProsodyParagraphHandler {
    /** The paragraph count of the markup: one damped phrase in every `numParagraphs`. */
    const numParagraphs: int
    var currentParagraphProsody: int

    ghost predicate Valid()
      reads this
    {
      numParagraphs >= 1 && 1 <= currentParagraphProsody <= numParagraphs
    }

    constructor (numParagraphs: int)
      requires numParagraphs >= 1
      ensures Valid()
      ensures this.numParagraphs == numParagraphs && currentParagraphProsody == 1
    {
      this.numParagraphs := numParagraphs;
      currentParagraphProsody := 1;
    }

    /**
     * `modifySpeechRate`: picks the rate from the location and the word count (damped when
     * the counter has reached the paragraph count) and moves the counter; rescales the
     * phrase's durations; then, when the phrase has a phone, recomputes the whole timeline.
     */
    method ModifySpeechRate(doc: Document, phones: seq<nat>, numOfWords: int, location: string)
      returns (outcome: Outcome<ProsodyError>)
      requires Valid() && WellFormedPhones(phones, doc.nodes)
      modifies this, doc
      ensures Valid()
      ensures currentParagraphProsody == NextCounter(old(currentParagraphProsody), numParagraphs)
      ensures var rate := SpeechRate(location, numOfWords, IsDampedCall(old(currentParagraphProsody), numParagraphs));
        var rescaled := RescalePhones(old(doc.nodes), phones, rate);
        if phones == [] then doc.nodes == rescaled && outcome == Fail(NoPhoneInPhrase)
        else doc.nodes == EndTimes(rescaled) && outcome == Pass
    {
      var outputSpeakerRate;
      if currentParagraphProsody < numParagraphs {
        outputSpeakerRate := SpeechRate(location, numOfWords, false);
        currentParagraphProsody := currentParagraphProsody + 1;
      } else {
        outputSpeakerRate := SpeechRate(location, numOfWords, true);
        currentParagraphProsody := 1;
      }
      RescaleDurations(doc, phones, outputSpeakerRate);
      if phones == [] {
        return Fail(NoPhoneInPhrase);
      }
      UpdateEndTimes(doc);
      outcome := Pass;
    }

    /** The body of `process`'s phrase loop: word statistics, speech rate, pitch, writeback. */
    method ProcessPhrase(doc: Document, phrase: Phrase, location: string, num: Numerics)
      returns (outcome: Outcome<ProsodyError>)
      requires Valid() && ValidNumerics(num) && WellFormedPhones(phrase.phones, doc.nodes)
      modifies this, doc
      ensures Valid()
      ensures State(doc.nodes, currentParagraphProsody, outcome)
        == PhraseStep(old(doc.nodes), old(currentParagraphProsody), numParagraphs, location, phrase, num)
    {
      var numOfWords, sumLengthWords := WordStatistics(phrase.tokens);
      outcome := ModifySpeechRate(doc, phrase.phones, numOfWords, location);
      if outcome.Fail? {
        return;
      }
      var nl := PhraseSegments(doc.nodes, phrase.phones);
      var contour := GetF0Contour(nl, F0_CONTOUR_LENGTH, num.interpolate);
      if contour.Failure? {
        return Fail(contour.error);
      }
      var f0Contour := contour.value;
      var baseF0Contour := num.fitLine(f0Contour);
      var maximumValue := num.max(baseF0Contour);
      var newBase := ApplyBasePitchModification(num.mean(baseF0Contour), maximumValue, location, numOfWords);
      if newBase.Failure? {
        return Fail(newBase.error);
      }
      f0Contour := ReplaceBaseline(f0Contour, baseF0Contour, newBase.value);
      outcome := SetModifiedContour(doc, phrase.phones, f0Contour);
    }

    /**
     * `process`: every phrase of every sentence in document order, each with its sentence's
     * location; the first exception ends the processing.
     */
    method Process(doc: Document, num: Numerics) returns (outcome: Outcome<ProsodyError>)
      requires Valid() && doc.Valid() && ValidNumerics(num)
      modifies this, doc
      ensures Valid() && doc.Valid()
      ensures State(doc.nodes, currentParagraphProsody, outcome)
        == RunSentences(State(old(doc.nodes), old(currentParagraphProsody), Pass), doc.sentences, 0,
                        PhraseStepAction(numParagraphs, num))
    {
      var sentences := doc.sentences;
      ghost var act := PhraseStepAction(numParagraphs, num);
      ghost var final := RunSentences(State(doc.nodes, currentParagraphProsody, Pass), sentences, 0, act);
      for k := 0 to |sentences|
        invariant Valid() && doc.Valid()
        invariant final == RunSentences(State(doc.nodes, currentParagraphProsody, Pass), sentences, k, act)
      {
        var sentenceLocation;
        if k == 0 {
          sentenceLocation := FIRST;
        } else if k == |sentences| - 1 {
          sentenceLocation := LAST;
        } else {
          sentenceLocation := MIDDLE;
        }
        assert sentenceLocation == SentenceLocation(k, |sentences|);
        var phrases := sentences[k];
        for m := 0 to |phrases|
          invariant Valid() && doc.Valid()
          invariant final == AfterPhrase(State(doc.nodes, currentParagraphProsody, Pass), sentences, k, m, act)
        {
          RunPhrasesStep(State(doc.nodes, currentParagraphProsody, Pass), sentences, k, m, act);
          outcome := ProcessPhrase(doc, phrases[m], sentenceLocation, num);
          if outcome.Fail? {
            return;
          }
        }
      }
      outcome := Pass;
    }
  }
}
