/**
 * The mapping between playback time and sentences in `VideoControls`
 * (src/components/dasboard-item.tsx): which sentence a time falls in, the time
 * range of the selected key moment, the previous/next sentence buttons and the
 * pin buttons. Times are milliseconds, as in module Loader.
 *
 * The source looks a time up with `findIndex(s => s.timeRange[1] >= t)`: a
 * sentence "holds" every time up to and including its end. `Boundary` lets the
 * lookup also exclude the end instant, so that a time shared by one sentence's
 * end and the next one's start belongs to the later sentence.
 */
module Timeline {
  import opened Wrappers
  import opened Loader
  import Reducer

  datatype Boundary = Inclusive | Exclusive

  /** Sentence `s` has not finished by time `t`. */
  predicate Holds(boundary: Boundary, s: Sentence, t: int) {
    match boundary
    case Inclusive => t <= s.timeRange.end
    case Exclusive => t < s.timeRange.end
  }

  /** Each sentence lasts a positive time and none starts before the previous one ends. */
  ghost predicate Chronological(sentences: seq<Sentence>) {
    && (forall i :: 0 <= i < |sentences| ==> sentences[i].timeRange.start < sentences[i].timeRange.end)
    && (forall i, j :: 0 <= i < j < |sentences| ==> sentences[i].timeRange.end <= sentences[j].timeRange.start)
  }

  /** Chronological, with a gap of at least one millisecond between consecutive sentences. */
  ghost predicate Separated(sentences: seq<Sentence>) {
    && Chronological(sentences)
    && (forall i, j :: 0 <= i < j < |sentences| ==> sentences[i].timeRange.end < sentences[j].timeRange.start)
  }

  // ---------------------------------------------------------------- time to sentence

  function FindFrom(sentences: seq<Sentence>, t: int, boundary: Boundary, from: nat): (r: int)
    requires from <= |sentences|
    ensures r == -1 || from <= r < |sentences|
    ensures r == -1 <==> forall j :: from <= j < |sentences| ==> !Holds(boundary, sentences[j], t)
    ensures r != -1 ==> Holds(boundary, sentences[r], t)
    ensures r != -1 ==> forall j :: from <= j < r ==> !Holds(boundary, sentences[j], t)
    decreases |sentences| - from
  {
    if from == |sentences| then -1
    else if Holds(boundary, sentences[from], t) then from
    else FindFrom(sentences, t, boundary, from + 1)
  }

  /**
   * `sentences.findIndex(...)`: the first sentence that has not finished by `t`,
   * or -1 when every sentence has.
   */
  function SentenceAt(sentences: seq<Sentence>, t: int, boundary: Boundary): (r: int)
    ensures -1 <= r < |sentences|
    ensures r == -1 <==> forall j :: 0 <= j < |sentences| ==> !Holds(boundary, sentences[j], t)
    ensures r != -1 ==> Holds(boundary, sentences[r], t)
    ensures r != -1 ==> forall j :: 0 <= j < r ==> !Holds(boundary, sentences[j], t)
  {
    FindFrom(sentences, t, boundary, 0)
  }

  /**
   * On chronological sentences the lookup names the sentence playing at `t`, or,
   * when `t` falls before it in a pause, the next sentence to play.
   */
  lemma SentenceAtPlaying(sentences: seq<Sentence>, t: int, boundary: Boundary)
    requires Chronological(sentences)
    ensures var r := SentenceAt(sentences, t, boundary);
      r != -1 ==>
        && t <= sentences[r].timeRange.end
        && (r == 0 || sentences[r - 1].timeRange.end <= t)
        && (sentences[r].timeRange.start <= t || r == 0 || sentences[r - 1].timeRange.end <= t < sentences[r].timeRange.start)
  {
    var r := SentenceAt(sentences, t, boundary);
    if r > 0 {
      assert !Holds(boundary, sentences[r - 1], t);
    }
  }

  /** A sentence's own start is looked up as that sentence when the sentences are separated. */
  lemma SentenceAtStart(sentences: seq<Sentence>, k: int, boundary: Boundary)
    requires 0 <= k < |sentences|
    requires Separated(sentences) || (Chronological(sentences) && boundary == Exclusive)
    ensures SentenceAt(sentences, sentences[k].timeRange.start, boundary) == k
  {
    var t := sentences[k].timeRange.start;
    assert Holds(boundary, sentences[k], t);
    forall j | 0 <= j < k ensures !Holds(boundary, sentences[j], t) {
    }
  }

  // ---------------------------------------------------------------- sentence range to time range

  /**
   * `[sentences[r.start].timeRange[0], sentences[r.end].timeRange[1]]`, or
   * `None` where either index is outside the sentences and the source reads a
   * field of `undefined`.
   */
  function TimeRangeOf(sentences: seq<Sentence>, r: SentenceRange): (t: Option<TimeRange>)
    ensures t.Some? <==> 0 <= r.start < |sentences| && 0 <= r.end < |sentences|
  {
    if 0 <= r.start < |sentences| && 0 <= r.end < |sentences| then
      Some(TimeRange(sentences[r.start].timeRange.start, sentences[r.end].timeRange.end))
    else None
  }

  /** `activeTimeRange`: the selected moment's time range, or `[0, 1]` seconds when none is selected. */
  function ActiveTimeRange(sentences: seq<Sentence>, s: Reducer.State): (r: Option<TimeRange>)
    ensures !(0 <= s.selectedKeyMoment < |s.keyMoments|) ==> r == Some(TimeRange(0, 1000))
    ensures 0 <= s.selectedKeyMoment < |s.keyMoments| ==>
      var m := s.keyMoments[s.selectedKeyMoment].sentenceRange;
      && (r.Some? <==> 0 <= m.start < |sentences| && 0 <= m.end < |sentences|)
      && (r.Some? && Chronological(sentences) && m.start <= m.end ==> r.value.start < r.value.end)
  {
    var sel := s.selectedKeyMoment;
    if 0 <= sel < |s.keyMoments| then TimeRangeOf(sentences, s.keyMoments[sel].sentenceRange)
    else Some(TimeRange(0, 1000))
  }

  /**
   * On a valid state over chronological sentences the active range exists, and
   * a sentence lies inside it exactly when it belongs to the selected moment.
   */
  lemma ActiveRangeSpansMoment(sentences: seq<Sentence>, s: Reducer.State)
    requires Chronological(sentences) && Reducer.Valid(s, |sentences|)
    requires 0 <= s.selectedKeyMoment < |s.keyMoments|
    ensures ActiveTimeRange(sentences, s).Some?
    ensures var r := ActiveTimeRange(sentences, s).value;
      var m := s.keyMoments[s.selectedKeyMoment].sentenceRange;
      && r.start < r.end
      && forall i :: 0 <= i < |sentences| ==>
           ((m.start <= i <= m.end) <==>
              (r.start <= sentences[i].timeRange.start && sentences[i].timeRange.end <= r.end))
  {
    var m := s.keyMoments[s.selectedKeyMoment];
    assert NonEmpty(m);
    var r := ActiveTimeRange(sentences, s).value;
    forall i | 0 <= i < |sentences|
      ensures (m.sentenceRange.start <= i <= m.sentenceRange.end) <==>
              (r.start <= sentences[i].timeRange.start && sentences[i].timeRange.end <= r.end)
    {
      if i < m.sentenceRange.start {
        assert sentences[i].timeRange.end <= r.start;
      } else if i > m.sentenceRange.end {
        assert r.end <= sentences[i].timeRange.start;
      }
    }
  }

  // ---------------------------------------------------------------- previous / next

  /** `handlePrevious`: the start of the sentence before the one at `t`, if there is one. */
  function PreviousTarget(sentences: seq<Sentence>, t: int, boundary: Boundary): (r: Option<int>)
    ensures r.None? <==> SentenceAt(sentences, t, boundary) < 1
    ensures r.Some? ==> exists j :: 0 <= j < |sentences| - 1 && r.value == sentences[j].timeRange.start
  {
    var k := SentenceAt(sentences, t, boundary);
    if k < 1 then None else Some(sentences[k - 1].timeRange.start)
  }

  /** `handleNext`: the start of the sentence after the one at `t`, if there is one. */
  function NextTarget(sentences: seq<Sentence>, t: int, boundary: Boundary): (r: Option<int>)
    ensures r.None? <==> SentenceAt(sentences, t, boundary) < 0 || SentenceAt(sentences, t, boundary) == |sentences| - 1
    ensures r.Some? ==> exists j :: 0 < j < |sentences| && r.value == sentences[j].timeRange.start
  {
    var k := SentenceAt(sentences, t, boundary);
    if k < 0 || k >= |sentences| - 1 then None else Some(sentences[k + 1].timeRange.start)
  }

  /**
   * Where sentences are separated, or with the exclusive boundary, "previous"
   * seeks to a time the lookup places exactly one sentence earlier, and does
   * nothing only at the first sentence (or past the end).
   */
  lemma PreviousMovesBack(sentences: seq<Sentence>, t: int, boundary: Boundary)
    requires Separated(sentences) || (Chronological(sentences) && boundary == Exclusive)
    ensures var k := SentenceAt(sentences, t, boundary);
      match PreviousTarget(sentences, t, boundary)
      case None => k < 1
      case Some(p) => SentenceAt(sentences, p, boundary) == k - 1
  {
    var k := SentenceAt(sentences, t, boundary);
    if k >= 1 {
      SentenceAtStart(sentences, k - 1, boundary);
    }
  }

  /**
   * Likewise "next" seeks to a time the lookup places exactly one sentence
   * later, and does nothing only at the last sentence or past the end.
   */
  lemma NextMovesOn(sentences: seq<Sentence>, t: int, boundary: Boundary)
    requires Separated(sentences) || (Chronological(sentences) && boundary == Exclusive)
    ensures var k := SentenceAt(sentences, t, boundary);
      match NextTarget(sentences, t, boundary)
      case None => k == -1 || k == |sentences| - 1
      case Some(q) => SentenceAt(sentences, q, boundary) == k + 1
  {
    var k := SentenceAt(sentences, t, boundary);
    if 0 <= k < |sentences| - 1 {
      SentenceAtStart(sentences, k + 1, boundary);
    }
  }

  /**
   * With the source's inclusive lookup, where a sentence ends exactly as the
   * next begins, "next" from that instant seeks to the instant itself: the
   * button never gets past the earlier sentence.
   */
  lemma NextStallsAtSharedInstant(sentences: seq<Sentence>, k: int)
    requires Chronological(sentences) && 0 <= k < |sentences| - 1
    requires sentences[k].timeRange.end == sentences[k + 1].timeRange.start
    ensures var t := sentences[k + 1].timeRange.start;
      && SentenceAt(sentences, t, Inclusive) == k
      && NextTarget(sentences, t, Inclusive) == Some(t)
  {
    var t := sentences[k + 1].timeRange.start;
    assert Holds(Inclusive, sentences[k], t);
    forall j | 0 <= j < k ensures !Holds(Inclusive, sentences[j], t) {
      assert sentences[j].timeRange.end <= sentences[k].timeRange.start;
    }
  }

  /**
   * The same shared instant misleads "previous": the start of sentence `k + 1` is
   * looked up as sentence `k`, so "previous" from there goes to sentence `k - 1`,
   * and from the start of sentence 1 it does nothing; sentence 0 is never reached.
   */
  lemma PreviousStallsAtSharedInstant(sentences: seq<Sentence>, k: int)
    requires Chronological(sentences) && 0 <= k < |sentences| - 1
    requires sentences[k].timeRange.end == sentences[k + 1].timeRange.start
    ensures var t := sentences[k + 1].timeRange.start;
      && SentenceAt(sentences, t, Inclusive) == k
      && PreviousTarget(sentences, t, Inclusive) == if k == 0 then None else Some(sentences[k - 1].timeRange.start)
  {
    var t := sentences[k + 1].timeRange.start;
    assert Holds(Inclusive, sentences[k], t);
    forall j | 0 <= j < k ensures !Holds(Inclusive, sentences[j], t) {
      assert sentences[j].timeRange.end <= sentences[k].timeRange.start;
    }
  }

  /**
   * Three sentences, [0 s, 1 s], [1 s, 2 s] and [2 s, 3 s]: "previous" from 2.5 s
   * goes to 1 s, and from 1 s nowhere; with the exclusive boundary it goes on to 0 s.
   */
  lemma PreviousStallsExample()
    ensures var sentences := [Sentence(TimeRange(0, 1000), "a"), Sentence(TimeRange(1000, 2000), "b"),
                              Sentence(TimeRange(2000, 3000), "c")];
      && PreviousTarget(sentences, 2500, Inclusive) == Some(1000)
      && PreviousTarget(sentences, 1000, Inclusive) == None
      && PreviousTarget(sentences, 1000, Exclusive) == Some(0)
  {
  }

  /** Two sentences, [0 s, 1 s] and [1 s, 2 s]: "next" from 1 s stays at 1 s. */
  lemma NextStallsExample()
    ensures var sentences := [Sentence(TimeRange(0, 1000), "a"), Sentence(TimeRange(1000, 2000), "b")];
      && NextTarget(sentences, 1000, Inclusive) == Some(1000)
      && NextTarget(sentences, 1000, Exclusive) == None
      && SentenceAt(sentences, 1000, Exclusive) == 1
  {
  }

  // ---------------------------------------------------------------- pins

  /**
   * `handlePinStart`: an edit of the selected moment from the sentence at `t` to
   * its current end; `None` when no moment is selected and the source reads a
   * field of `undefined`.
   */
  function PinStart(sentences: seq<Sentence>, s: Reducer.State, t: int, boundary: Boundary): (r: Option<Reducer.Action>)
    ensures r.Some? <==> 0 <= s.selectedKeyMoment < |s.keyMoments|
    ensures r.Some? ==>
      && r.value.ModifyKeyMoment?
      && r.value.patch.title.None? && r.value.patch.concept.None? && r.value.patch.keyTakeaway.None?
      && r.value.patch.sentenceRange.Some?
      && r.value.patch.sentenceRange.value.start == SentenceAt(sentences, t, boundary)
      && r.value.patch.sentenceRange.value.end == s.keyMoments[s.selectedKeyMoment].sentenceRange.end
  {
    var sel := s.selectedKeyMoment;
    if 0 <= sel < |s.keyMoments| then
      var range := SentenceRange(SentenceAt(sentences, t, boundary), s.keyMoments[sel].sentenceRange.end);
      Some(Reducer.ModifyKeyMoment(Reducer.Patch(None, Some(range), None, None)))
    else None
  }

  /** `handlePinEnd`: an edit of the selected moment from its current start to the sentence at `t`. */
  function PinEnd(sentences: seq<Sentence>, s: Reducer.State, t: int, boundary: Boundary): (r: Option<Reducer.Action>)
    ensures r.Some? <==> 0 <= s.selectedKeyMoment < |s.keyMoments|
    ensures r.Some? ==>
      && r.value.ModifyKeyMoment?
      && r.value.patch.title.None? && r.value.patch.concept.None? && r.value.patch.keyTakeaway.None?
      && r.value.patch.sentenceRange.Some?
      && r.value.patch.sentenceRange.value.start == s.keyMoments[s.selectedKeyMoment].sentenceRange.start
      && r.value.patch.sentenceRange.value.end == SentenceAt(sentences, t, boundary)
  {
    var sel := s.selectedKeyMoment;
    if 0 <= sel < |s.keyMoments| then
      var range := SentenceRange(s.keyMoments[sel].sentenceRange.start, SentenceAt(sentences, t, boundary));
      Some(Reducer.ModifyKeyMoment(Reducer.Patch(None, Some(range), None, None)))
    else None
  }

  /**
   * On a valid state, pinning the start makes an edit that meets `Reducer.Fits`
   * (and so keeps the invariant) exactly when `t` falls in a sentence no later
   * than the moment's end; past the last sentence the lookup gives -1 and the
   * pinned range starts at -1.
   */
  lemma PinStartFits(sentences: seq<Sentence>, s: Reducer.State, t: int, boundary: Boundary)
    requires Reducer.Valid(s, |sentences|) && 0 <= s.selectedKeyMoment < |s.keyMoments|
    ensures PinStart(sentences, s, t, boundary).Some?
    ensures var k := SentenceAt(sentences, t, boundary);
      var fits := Reducer.Fits(s, PinStart(sentences, s, t, boundary).value, |sentences|);
      fits <==> 0 <= k <= s.keyMoments[s.selectedKeyMoment].sentenceRange.end
  {
  }

  /** The same for the end: the edit meets `Reducer.Fits` exactly when the sentence at `t` does not precede the moment's start. */
  lemma PinEndFits(sentences: seq<Sentence>, s: Reducer.State, t: int, boundary: Boundary)
    requires Reducer.Valid(s, |sentences|) && 0 <= s.selectedKeyMoment < |s.keyMoments|
    ensures PinEnd(sentences, s, t, boundary).Some?
    ensures var k := SentenceAt(sentences, t, boundary);
      var fits := Reducer.Fits(s, PinEnd(sentences, s, t, boundary).value, |sentences|);
      fits <==> 0 <= s.keyMoments[s.selectedKeyMoment].sentenceRange.start <= k
  {
  }
}
