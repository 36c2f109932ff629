/**
 * The transcript grouping of `SentenceList` (src/components/dasboard-item.tsx):
 * one pass over the sentences that cuts them into consecutive display groups,
 * each tagged with the index of the key moment it belongs to, or -1 for
 * sentences outside every moment.
 *
 * The pass opens a group at the start of the moment it waits for and closes it
 * at that moment's end, in an `if … else if` chain. A moment of a single
 * sentence matches the first test and never the second, so its group is never
 * closed and the pass never moves on to the next moment. `Rule.ClosesSingle`
 * also closes the group when the start is the end.
 */
module Grouping {
  import opened Loader
  import Resolver

  datatype Rule = AsWritten | ClosesSingle

  datatype Line = Line(sentence: string, sentenceIndex: int)

  datatype Group = Group(keyMomentIndex: int, lines: seq<Line>)

  /** The variables of the loop: the finished groups, the open one and the moment waited for. */
  datatype Scan = Scan(groups: seq<Group>, current: Group, index: nat)

  function Initial(): Scan {
    Scan([], Group(-1, []), 0)
  }

  /** `pushGroup()`: a non-empty open group is finished and a fresh one opened. */
  function Push(sc: Scan): Scan {
    if sc.current.lines != [] then Scan(sc.groups + [sc.current], Group(-1, []), sc.index)
    else sc
  }

  function Append(sc: Scan, line: Line): Scan {
    sc.(current := sc.current.(lines := sc.current.lines + [line]))
  }

  /** One iteration of the loop, for sentence `i` with text `value`. */
  function Visit(sc: Scan, kms: seq<KeyMoment>, i: int, value: string, rule: Rule): Scan {
    var line := Line(value, i);
    if sc.index < |kms| && i == kms[sc.index].sentenceRange.start then
      var pushed := Push(sc);
      var next := pushed.(current := Group(sc.index, [line]));
      if rule == ClosesSingle && i == kms[sc.index].sentenceRange.end then
        Push(next).(index := sc.index + 1)
      else next
    else if sc.index < |kms| && i == kms[sc.index].sentenceRange.end then
      Push(Append(sc, line)).(index := sc.index + 1)
    else Append(sc, line)
  }

  /** The loop state after the first `k` sentences. */
  function ScanTo(sentences: seq<Sentence>, kms: seq<KeyMoment>, k: nat, rule: Rule): Scan
    requires k <= |sentences|
  {
    if k == 0 then Initial()
    else Visit(ScanTo(sentences, kms, k - 1, rule), kms, k - 1, sentences[k - 1].value, rule)
  }

  /** `groups`: the loop, then the last `pushGroup()`. */
  function Groups(sentences: seq<Sentence>, kms: seq<KeyMoment>, rule: Rule): (r: seq<Group>)
    ensures sentences == [] ==> r == []
  {
    Push(ScanTo(sentences, kms, |sentences|, rule)).groups
  }

  /** The loop itself. */
  method GroupSentences(sentences: seq<Sentence>, kms: seq<KeyMoment>, rule: Rule) returns (groups: seq<Group>)
    ensures groups == Groups(sentences, kms, rule)
    ensures Flatten(groups) == Lines(sentences)
    ensures forall g :: g in groups ==> g.lines != []
  {
    groups := [];
    var current := Group(-1, []);
    var index: nat := 0;
    for i := 0 to |sentences|
      invariant Scan(groups, current, index) == ScanTo(sentences, kms, i, rule)
    {
      var line := Line(sentences[i].value, i);
      if index < |kms| && i == kms[index].sentenceRange.start {
        if current.lines != [] {
          groups := groups + [current];
        }
        current := Group(index, [line]);
        if rule == ClosesSingle && i == kms[index].sentenceRange.end {
          groups := groups + [current];
          current := Group(-1, []);
          index := index + 1;
        }
      } else if index < |kms| && i == kms[index].sentenceRange.end {
        current := current.(lines := current.lines + [line]);
        groups := groups + [current];
        current := Group(-1, []);
        index := index + 1;
      } else {
        current := current.(lines := current.lines + [line]);
      }
    }
    if current.lines != [] {
      groups := groups + [current];
    }
    GroupsPartition(sentences, kms, rule);
  }

  // ---------------------------------------------------------------- every sentence once, in order

  /** The lines of all groups, in order. */
  function Flatten(groups: seq<Group>): seq<Line>
    decreases |groups|
  {
    if groups == [] then [] else Flatten(groups[..|groups| - 1]) + groups[|groups| - 1].lines
  }

  /** Every sentence with its index. */
  function Lines(sentences: seq<Sentence>): (r: seq<Line>)
    ensures |r| == |sentences|
    ensures forall i :: 0 <= i < |r| ==> r[i] == Line(sentences[i].value, i)
  {
    seq(|sentences|, i requires 0 <= i < |sentences| => Line(sentences[i].value, i))
  }

  /** The groups and the open one hold the first `k` sentences, in order, and no group is empty. */
  ghost predicate Partitions(sc: Scan, sentences: seq<Sentence>, k: nat)
    requires k <= |sentences|
  {
    && Flatten(sc.groups) + sc.current.lines == Lines(sentences[..k])
    && (forall g :: g in sc.groups ==> g.lines != [])
  }

  lemma FlattenSnoc(groups: seq<Group>, g: Group)
    ensures Flatten(groups + [g]) == Flatten(groups) + g.lines
  {
    assert (groups + [g])[..|groups|] == groups;
  }

  lemma PushPartitions(sc: Scan, sentences: seq<Sentence>, k: nat)
    requires k <= |sentences| && Partitions(sc, sentences, k)
    ensures Partitions(Push(sc), sentences, k)
  {
    if sc.current.lines != [] {
      FlattenSnoc(sc.groups, sc.current);
    }
  }

  lemma AppendPartitions(sc: Scan, sentences: seq<Sentence>, k: nat)
    requires k < |sentences| && Partitions(sc, sentences, k)
    ensures Partitions(Append(sc, Line(sentences[k].value, k)), sentences, k + 1)
  {
    assert Lines(sentences[..k + 1]) == Lines(sentences[..k]) + [Line(sentences[k].value, k)];
  }

  /** The start of a moment: the open group is finished and a new one holds the sentence. */
  lemma OpenPartitions(sc: Scan, sentences: seq<Sentence>, k: nat, tag: int)
    requires k < |sentences| && Partitions(sc, sentences, k)
    ensures Partitions(Push(sc).(current := Group(tag, [Line(sentences[k].value, k)])), sentences, k + 1)
  {
    PushPartitions(sc, sentences, k);
    assert Push(sc).current.lines == [];
    assert Lines(sentences[..k + 1]) == Lines(sentences[..k]) + [Line(sentences[k].value, k)];
  }

  lemma VisitPartitions(sc: Scan, sentences: seq<Sentence>, kms: seq<KeyMoment>, k: nat, rule: Rule)
    requires k < |sentences| && Partitions(sc, sentences, k)
    ensures Partitions(Visit(sc, kms, k, sentences[k].value, rule), sentences, k + 1)
  {
    var line := Line(sentences[k].value, k);
    if sc.index < |kms| && k == kms[sc.index].sentenceRange.start {
      OpenPartitions(sc, sentences, k, sc.index);
      PushPartitions(Push(sc).(current := Group(sc.index, [line])), sentences, k + 1);
    } else {
      AppendPartitions(sc, sentences, k);
      PushPartitions(Append(sc, line), sentences, k + 1);
    }
  }

  lemma {:induction false} ScanPartitions(sentences: seq<Sentence>, kms: seq<KeyMoment>, k: nat, rule: Rule)
    requires k <= |sentences|
    ensures Partitions(ScanTo(sentences, kms, k, rule), sentences, k)
  {
    if k == 0 {
      assert Lines(sentences[..0]) == [];
    } else {
      ScanPartitions(sentences, kms, k - 1, rule);
      VisitPartitions(ScanTo(sentences, kms, k - 1, rule), sentences, kms, k - 1, rule);
    }
  }

  /** The groups hold every sentence exactly once, in order, and none of them is empty. */
  lemma GroupsPartition(sentences: seq<Sentence>, kms: seq<KeyMoment>, rule: Rule)
    ensures Flatten(Groups(sentences, kms, rule)) == Lines(sentences)
    ensures forall g :: g in Groups(sentences, kms, rule) ==> g.lines != []
  {
    var n := |sentences|;
    ScanPartitions(sentences, kms, n, rule);
    PushPartitions(ScanTo(sentences, kms, n, rule), sentences, n);
    assert sentences[..n] == sentences;
    assert Push(ScanTo(sentences, kms, n, rule)).current.lines == [];
  }

  // ---------------------------------------------------------------- each group tagged with its moment

  /** Sentence `i` belongs to moment `tag`, or, for tag -1, to no moment. */
  ghost predicate Tagged(kms: seq<KeyMoment>, tag: int, i: int) {
    if tag == -1 then !Resolver.Covers(kms, i)
    else 0 <= tag < |kms| && Resolver.InRange(kms[tag], i)
  }

  ghost predicate GroupTagged(kms: seq<KeyMoment>, g: Group) {
    forall l :: l in g.lines ==> Tagged(kms, g.keyMomentIndex, l.sentenceIndex)
  }

  /**
   * What the tags need of the moments: ordered, inside the sentences, and, for
   * the loop as written, at least two sentences long.
   */
  ghost predicate Groupable(kms: seq<KeyMoment>, sentenceCount: int, rule: Rule) {
    && Ordered(kms)
    && Within(kms, sentenceCount)
    && (rule == AsWritten ==> forall j :: 0 <= j < |kms| ==> Resolver.Start(kms[j]) < Resolver.End(kms[j]))
  }

  /** The loop is inside the moment it waits for. */
  predicate Inside(sc: Scan, kms: seq<KeyMoment>, k: int) {
    sc.index < |kms| && Resolver.Start(kms[sc.index]) < k
  }

  /**
   * The loop invariant behind the tags, after `k` sentences: the moments before
   * `index` have ended, the one waited for has not, the open group is that
   * moment's exactly when the loop is inside it, and every line is tagged right.
   */
  ghost predicate Tracks(sc: Scan, kms: seq<KeyMoment>, k: int) {
    && sc.index <= |kms|
    && (forall j :: 0 <= j < sc.index ==> Resolver.End(kms[j]) < k)
    && (sc.index < |kms| ==> k <= Resolver.End(kms[sc.index]))
    && (Inside(sc, kms, k) ==> sc.current.keyMomentIndex == sc.index && sc.current.lines != [])
    && (!Inside(sc, kms, k) ==> sc.current.keyMomentIndex == -1)
    && (forall g :: g in sc.groups ==> GroupTagged(kms, g))
    && GroupTagged(kms, sc.current)
  }

  /** Between the moments before `index`, which have ended, and the rest, which start after `k`. */
  lemma Uncovered(kms: seq<KeyMoment>, index: nat, k: int)
    requires Ordered(kms) && index <= |kms|
    requires forall j :: 0 <= j < index ==> Resolver.End(kms[j]) < k
    requires index < |kms| ==> k < Resolver.Start(kms[index])
    ensures !Resolver.Covers(kms, k)
  {
    forall m | m in kms ensures !Resolver.InRange(m, k) {
      var j :| 0 <= j < |kms| && kms[j] == m;
      if j > index {
        assert NonEmpty(kms[index]);
      }
    }
  }

  lemma PushTracks(sc: Scan, kms: seq<KeyMoment>)
    requires forall g :: g in sc.groups ==> GroupTagged(kms, g)
    requires GroupTagged(kms, sc.current)
    ensures forall g :: g in Push(sc).groups ==> GroupTagged(kms, g)
    ensures GroupTagged(kms, Push(sc).current)
  {
  }

  /** The end of the moment waited for: the loop moves on to the next one. */
  lemma CloseTracks(sc: Scan, kms: seq<KeyMoment>, k: int)
    requires Ordered(kms) && sc.index < |kms| && k == Resolver.End(kms[sc.index])
    requires forall j :: 0 <= j < sc.index ==> Resolver.End(kms[j]) < k
    requires sc.current.lines != []
    requires forall g :: g in sc.groups ==> GroupTagged(kms, g)
    requires GroupTagged(kms, sc.current)
    ensures Tracks(Push(sc).(index := sc.index + 1), kms, k + 1)
  {
    var next := Push(sc).(index := sc.index + 1);
    if next.index < |kms| {
      assert NonEmpty(kms[next.index]);
    }
  }

  lemma VisitTracks(sc: Scan, kms: seq<KeyMoment>, k: int, value: string, rule: Rule, sentenceCount: int)
    requires Groupable(kms, sentenceCount, rule) && Tracks(sc, kms, k)
    ensures Tracks(Visit(sc, kms, k, value, rule), kms, k + 1)
  {
    var line := Line(value, k);
    if sc.index < |kms| && k == Resolver.Start(kms[sc.index]) {
      var next := Push(sc).(current := Group(sc.index, [line]));
      PushTracks(sc, kms);
      assert GroupTagged(kms, next.current);
      if rule == ClosesSingle && k == Resolver.End(kms[sc.index]) {
        CloseTracks(next, kms, k);
      }
    } else if sc.index < |kms| && k == Resolver.End(kms[sc.index]) {
      assert NonEmpty(kms[sc.index]);
      assert GroupTagged(kms, Append(sc, line).current);
      CloseTracks(Append(sc, line), kms, k);
    } else if Inside(sc, kms, k) {
      assert GroupTagged(kms, Append(sc, line).current);
    } else {
      Uncovered(kms, sc.index, k);
      assert GroupTagged(kms, Append(sc, line).current);
    }
  }

  lemma InitialTracks(kms: seq<KeyMoment>, sentenceCount: int)
    requires Ordered(kms) && Within(kms, sentenceCount)
    ensures Tracks(Initial(), kms, 0)
  {
    if kms != [] {
      assert NonEmpty(kms[0]);
    }
  }

  lemma {:induction false} ScanTracks(sentences: seq<Sentence>, kms: seq<KeyMoment>, k: nat, rule: Rule)
    requires k <= |sentences| && Groupable(kms, |sentences|, rule)
    ensures Tracks(ScanTo(sentences, kms, k, rule), kms, k)
  {
    if k == 0 {
      InitialTracks(kms, |sentences|);
    } else {
      ScanTracks(sentences, kms, k - 1, rule);
      ScanStepTracks(sentences, kms, k, rule);
    }
  }

  /** One more sentence keeps the invariant of the tags. */
  lemma ScanStepTracks(sentences: seq<Sentence>, kms: seq<KeyMoment>, k: nat, rule: Rule)
    requires 0 < k <= |sentences| && Groupable(kms, |sentences|, rule)
    requires Tracks(ScanTo(sentences, kms, k - 1, rule), kms, k - 1)
    ensures Tracks(ScanTo(sentences, kms, k, rule), kms, k)
  {
    var prev := ScanTo(sentences, kms, k - 1, rule);
    VisitTracks(prev, kms, k - 1, sentences[k - 1].value, rule, |sentences|);
    assert ScanTo(sentences, kms, k, rule) == Visit(prev, kms, k - 1, sentences[k - 1].value, rule);
  }

  /**
   * On ordered moments inside the sentences, every sentence's group carries the
   * index of the moment holding it, or -1 when no moment holds it; the loop as
   * written needs every moment to span at least two sentences for this.
   */
  lemma GroupsTagged(sentences: seq<Sentence>, kms: seq<KeyMoment>, rule: Rule)
    requires Groupable(kms, |sentences|, rule)
    ensures forall g, l :: g in Groups(sentences, kms, rule) && l in g.lines ==>
      Tagged(kms, g.keyMomentIndex, l.sentenceIndex)
  {
    var sc := ScanTo(sentences, kms, |sentences|, rule);
    ScanTracks(sentences, kms, |sentences|, rule);
    PushTracks(sc, kms);
  }

  /**
   * Neighbouring groups carry different tags. After a moment's group is
   * finished and before the next line, the last group is the moment before `index`.
   */
  ghost predicate Alternates(sc: Scan) {
    && (forall j :: 0 <= j < |sc.groups| - 1 ==> sc.groups[j].keyMomentIndex != sc.groups[j + 1].keyMomentIndex)
    && (sc.groups != [] && sc.current.lines != [] ==>
          sc.groups[|sc.groups| - 1].keyMomentIndex != sc.current.keyMomentIndex)
    && (sc.groups != [] && sc.current.lines == [] ==>
          sc.index >= 1 && sc.groups[|sc.groups| - 1].keyMomentIndex == sc.index - 1)
  }

  lemma PushAlternates(sc: Scan)
    requires Alternates(sc)
    ensures forall j :: 0 <= j < |Push(sc).groups| - 1 ==>
      Push(sc).groups[j].keyMomentIndex != Push(sc).groups[j + 1].keyMomentIndex
  {
  }

  lemma VisitAlternates(sc: Scan, kms: seq<KeyMoment>, k: int, value: string, rule: Rule, sentenceCount: int)
    requires Groupable(kms, sentenceCount, rule) && Tracks(sc, kms, k) && Alternates(sc)
    ensures Alternates(Visit(sc, kms, k, value, rule))
  {
    var line := Line(value, k);
    if sc.index < |kms| && k == Resolver.Start(kms[sc.index]) {
      PushAlternates(sc);
      var next := Push(sc).(current := Group(sc.index, [line]));
      assert Alternates(next);
      if rule == ClosesSingle && k == Resolver.End(kms[sc.index]) {
        PushAlternates(next);
      }
    } else if sc.index < |kms| && k == Resolver.End(kms[sc.index]) {
      assert NonEmpty(kms[sc.index]);
      PushAlternates(Append(sc, line));
    }
  }

  lemma {:induction false} ScanAlternates(sentences: seq<Sentence>, kms: seq<KeyMoment>, k: nat, rule: Rule)
    requires k <= |sentences| && Groupable(kms, |sentences|, rule)
    ensures Alternates(ScanTo(sentences, kms, k, rule))
  {
    if k > 0 {
      ScanAlternates(sentences, kms, k - 1, rule);
      ScanTracks(sentences, kms, k - 1, rule);
      ScanStepAlternates(sentences, kms, k, rule);
    }
  }

  /** One more sentence keeps neighbouring tags apart. */
  lemma ScanStepAlternates(sentences: seq<Sentence>, kms: seq<KeyMoment>, k: nat, rule: Rule)
    requires 0 < k <= |sentences| && Groupable(kms, |sentences|, rule)
    requires Tracks(ScanTo(sentences, kms, k - 1, rule), kms, k - 1)
    requires Alternates(ScanTo(sentences, kms, k - 1, rule))
    ensures Alternates(ScanTo(sentences, kms, k, rule))
  {
    var prev := ScanTo(sentences, kms, k - 1, rule);
    VisitAlternates(prev, kms, k - 1, sentences[k - 1].value, rule, |sentences|);
    assert ScanTo(sentences, kms, k, rule) == Visit(prev, kms, k - 1, sentences[k - 1].value, rule);
  }

  /**
   * Neighbouring groups carry different tags: with the tags right, a new group
   * begins exactly where a moment starts or ends.
   */
  lemma GroupsAlternate(sentences: seq<Sentence>, kms: seq<KeyMoment>, rule: Rule)
    requires Groupable(kms, |sentences|, rule)
    ensures var gs := Groups(sentences, kms, rule);
      forall j :: 0 <= j < |gs| - 1 ==> gs[j].keyMomentIndex != gs[j + 1].keyMomentIndex
  {
    ScanAlternates(sentences, kms, |sentences|, rule);
    PushAlternates(ScanTo(sentences, kms, |sentences|, rule));
  }

  /**
   * Three sentences and one moment holding only sentence 0: as written, the
   * group of that moment also takes sentences 1 and 2, which no moment holds.
   */
  lemma SingleSentenceMomentExample()
    ensures var sentences := [Sentence(TimeRange(0, 1), "x"), Sentence(TimeRange(1, 2), "y"), Sentence(TimeRange(2, 3), "z")];
      var kms := [Resolver.Moment("a", 0, 0)];
      && Groups(sentences, kms, AsWritten) == [Group(0, [Line("x", 0), Line("y", 1), Line("z", 2)])]
      && Groups(sentences, kms, ClosesSingle) == [Group(0, [Line("x", 0)]), Group(-1, [Line("y", 1), Line("z", 2)])]
      && !Resolver.Covers(kms, 1)
  {
    var sentences := [Sentence(TimeRange(0, 1), "x"), Sentence(TimeRange(1, 2), "y"), Sentence(TimeRange(2, 3), "z")];
    var kms := [Resolver.Moment("a", 0, 0)];
    assert !Resolver.InRange(kms[0], 1);
    var x, y, z := Line("x", 0), Line("y", 1), Line("z", 2);
    assert ScanTo(sentences, kms, 1, AsWritten) == Scan([], Group(0, [x]), 0);
    assert ScanTo(sentences, kms, 2, AsWritten) == Scan([], Group(0, [x, y]), 0);
    assert ScanTo(sentences, kms, 3, AsWritten) == Scan([], Group(0, [x, y, z]), 0);
    assert ScanTo(sentences, kms, 1, ClosesSingle) == Scan([Group(0, [x])], Group(-1, []), 1);
    assert ScanTo(sentences, kms, 2, ClosesSingle) == Scan([Group(0, [x])], Group(-1, [y]), 1);
    assert ScanTo(sentences, kms, 3, ClosesSingle) == Scan([Group(0, [x])], Group(-1, [y, z]), 1);
  }
}
