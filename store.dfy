/**
 * The editor state of one video item and its reducer
 * (src/components/dasboard-item.tsx): the selected moment and the list of key
 * moments, changed only by dispatched actions. The insertion button's range
 * policy (`InsertKeymoment`) is modelled here as the function producing the
 * action it dispatches.
 *
 * The reducer returns `Failure` where the source throws a `TypeError` (reading a
 * field of a missing moment, or the overlap resolver emptying its stack).
 */
module Reducer {
  import opened Wrappers
  import opened Loader
  import Resolver

  // ---------------------------------------------------------------- state and actions

  datatype State = State(selectedKeyMoment: int, keyMoments: seq<KeyMoment>)

  /** `Partial<KeyMoment>`: the fields an edit supplies, each possibly absent. */
  datatype Patch = Patch(
    title: Option<string>,
    sentenceRange: Option<SentenceRange>,
    concept: Option<string>,
    keyTakeaway: Option<string>)

  datatype Action =
    | SelectKeyMoment(index: int)
    | ModifyKeyMoment(patch: Patch)
    | AddKeyMoment(index: int, keyMoment: KeyMoment)
    | RemoveKeyMoment(index: int)
    | MergeKeyMoments(index: int)
    | MarkKeyMomentCompleted(index: int)

  datatype Fault =
    | Overlap(cause: Resolver.Fault)  // the overlap resolver threw
    | MissingMoment                   // a field of a moment that does not exist was read

  /**
   * The editor's invariant: the moments are ordered and pairwise disjoint, and
   * lie inside the `sentenceCount` sentences of the video.
   */
  ghost predicate Valid(s: State, sentenceCount: int) {
    Ordered(s.keyMoments) && Within(s.keyMoments, sentenceCount)
  }

  // ---------------------------------------------------------------- the pieces of the reducer

  /** `{ ...m, ...patch, isReviewed: false }`. */
  function Patched(m: KeyMoment, p: Patch): KeyMoment {
    KeyMoment(
      if p.title.Some? then p.title.value else m.title,
      if p.sentenceRange.Some? then p.sentenceRange.value else m.sentenceRange,
      if p.concept.Some? then p.concept.value else m.concept,
      if p.keyTakeaway.Some? then p.keyTakeaway.value else m.keyTakeaway,
      false)
  }

  /**
   * The moments handed to the resolver by an edit. With no moment selected
   * (a negative cursor) the patched record is written to a property that is not
   * an array index, so the moments go to the resolver as they are.
   */
  function Edited(s: State, p: Patch): seq<KeyMoment>
    requires s.selectedKeyMoment < |s.keyMoments|
  {
    var sel := s.selectedKeyMoment;
    if sel < 0 then s.keyMoments
    else s.keyMoments[sel := Patched(s.keyMoments[sel], p)]
  }

  /** The position `Array.prototype.slice` makes of index `i` in a list of `len` items. */
  function SliceIndex(i: int, len: nat): (c: nat)
    ensures c <= len
    ensures 0 <= i <= len ==> c == i
    ensures i > len ==> c == len
    ensures i < 0 ==> c == if len + i < 0 then 0 else len + i
  {
    if i < 0 then (if len + i < 0 then 0 else len + i)
    else if i < len then i
    else len
  }

  /** `[...kms.slice(0, i), m, ...kms.slice(i)]`. */
  function InsertAt(kms: seq<KeyMoment>, i: int, m: KeyMoment): (r: seq<KeyMoment>)
    ensures |r| == |kms| + 1
    ensures r[SliceIndex(i, |kms|)] == m
    ensures forall j :: 0 <= j < SliceIndex(i, |kms|) ==> r[j] == kms[j]
    ensures forall j :: SliceIndex(i, |kms|) < j < |r| ==> r[j] == kms[j - 1]
  {
    var c := SliceIndex(i, |kms|);
    kms[..c] + [m] + kms[c..]
  }

  /** `kms.filter((_, j) => j !== i)`. */
  function RemoveAt(kms: seq<KeyMoment>, i: int): (r: seq<KeyMoment>)
    ensures |r| == if 0 <= i < |kms| then |kms| - 1 else |kms|
    ensures forall j :: 0 <= j < |r| ==> r[j] == if 0 <= i <= j then kms[j + 1] else kms[j]
  {
    if 0 <= i < |kms| then kms[..i] + kms[i + 1..] else kms
  }

  /** The moment at `i` merged with the one after it, which is then spliced out. */
  function MergeAt(kms: seq<KeyMoment>, i: nat): (r: seq<KeyMoment>)
    requires i + 1 < |kms|
    ensures |r| == |kms| - 1
    ensures r[i] == Resolver.MergeKeyMoments(kms[i], kms[i + 1])
    ensures forall j :: 0 <= j < i ==> r[j] == kms[j]
    ensures forall j :: i < j < |r| ==> r[j] == kms[j + 1]
  {
    kms[..i] + [Resolver.MergeKeyMoments(kms[i], kms[i + 1])] + kms[i + 2..]
  }

  /** `kms.map((m, j) => j === i ? { ...m, isReviewed: true } : m)`. */
  function MarkAt(kms: seq<KeyMoment>, i: int): (r: seq<KeyMoment>)
    ensures |r| == |kms|
    ensures forall j :: 0 <= j < |r| ==> r[j] == if j == i then kms[j].(isReviewed := true) else kms[j]
  {
    seq(|kms|, j requires 0 <= j < |kms| => if j == i then kms[j].(isReviewed := true) else kms[j])
  }

  // ---------------------------------------------------------------- the reducer

  /**
   * `reducer(state, action)`. `policy` selects the resolver's trim: `Unconditional`
   * is the source as written.
   *
   * A merge at an index without a following moment throws: `mergeKeyMoments`
   * reads a field of a missing moment (at -1 the spread of `undefined` is an
   * empty record, whose `sentenceRange` is missing as well).
   */
  function Reduce(s: State, a: Action, policy: Resolver.TrimPolicy): (r: Result<State, Fault>)
    // only an edit and a merge can throw; a merge throws exactly when no moment follows `index`
    ensures r.Failure? ==> a.ModifyKeyMoment? || a.MergeKeyMoments?
    ensures a.MergeKeyMoments? ==> (r.Success? <==> 0 <= a.index && a.index + 1 < |s.keyMoments|)
    ensures a.ModifyKeyMoment? && s.selectedKeyMoment >= |s.keyMoments| ==> r == Failure(MissingMoment)
    // the cursor moves only by a selection or by removing while the last moment is selected
    ensures r.Success? && !a.SelectKeyMoment? && !a.RemoveKeyMoment? ==>
      r.value.selectedKeyMoment == s.selectedKeyMoment
    ensures a.SelectKeyMoment? ==> r.Success? && r.value.selectedKeyMoment == a.index
    ensures a.RemoveKeyMoment? ==> r.Success? && r.value.keyMoments == RemoveAt(s.keyMoments, a.index)
    // where the moments go: an insertion, a merge and a mark change exactly what their helpers say
    ensures a.AddKeyMoment? ==> r.Success? && r.value.keyMoments == InsertAt(s.keyMoments, a.index, a.keyMoment)
    ensures a.MergeKeyMoments? && 0 <= a.index && a.index + 1 < |s.keyMoments| ==>
      r.Success? && r.value.keyMoments == MergeAt(s.keyMoments, a.index)
    ensures a.MarkKeyMomentCompleted? ==> r.Success? && r.value.keyMoments == MarkAt(s.keyMoments, a.index)
    ensures a.RemoveKeyMoment? ==>
      r.value.selectedKeyMoment == if s.selectedKeyMoment == |s.keyMoments| - 1
                                   then s.selectedKeyMoment - 1 else s.selectedKeyMoment
    // how many moments there are afterwards
    ensures r.Success? ==>
      && (a.SelectKeyMoment? ==> r.value.keyMoments == s.keyMoments)
      && (a.MarkKeyMomentCompleted? ==> |r.value.keyMoments| == |s.keyMoments|)
      && (a.AddKeyMoment? ==> |r.value.keyMoments| == |s.keyMoments| + 1)
      && (a.MergeKeyMoments? ==> |r.value.keyMoments| == |s.keyMoments| - 1)
      && (a.RemoveKeyMoment? ==> |r.value.keyMoments| == |s.keyMoments| - if 0 <= a.index < |s.keyMoments| then 1 else 0)
  {
    var kms := s.keyMoments;
    var sel := s.selectedKeyMoment;
    match a
    case SelectKeyMoment(i) => Success(s.(selectedKeyMoment := i))
    case ModifyKeyMoment(p) =>
      if sel >= |kms| then Failure(MissingMoment)
      else (
        match Resolver.Resolve(Edited(s, p), policy)
        case Success(r) => Success(s.(keyMoments := r))
        case Failure(e) => Failure(Overlap(e)))
    case AddKeyMoment(i, m) => Success(s.(keyMoments := InsertAt(kms, i, m)))
    case RemoveKeyMoment(i) =>
      Success(State(if sel == |kms| - 1 then sel - 1 else sel, RemoveAt(kms, i)))
    case MergeKeyMoments(i) =>
      if 0 <= i && i + 1 < |kms| then Success(s.(keyMoments := MergeAt(kms, i)))
      else Failure(MissingMoment)
    case MarkKeyMomentCompleted(i) => Success(s.(keyMoments := MarkAt(kms, i)))
  }

  /** Dispatching a sequence of actions, stopping at the first that throws. */
  function Run(s: State, actions: seq<Action>, policy: Resolver.TrimPolicy): Result<State, Fault>
    decreases |actions|
  {
    if actions == [] then Success(s)
    else
      match Reduce(s, actions[0], policy)
      case Failure(e) => Failure(e)
      case Success(t) => Run(t, actions[1..], policy)
  }

  // ---------------------------------------------------------------- the insertion policy

  /**
   * `nextAvailableSentenceRange` of the insert button at position `at`: from
   * just after the moment before `at` (or sentence 0) to just before the moment
   * at `at` (or the last sentence).
   */
  function NextAvailableRange(kms: seq<KeyMoment>, at: int, sentenceCount: int): (r: SentenceRange)
    ensures at <= 0 || at > |kms| ==> r.start == 0
    ensures at < 0 || at >= |kms| ==> r.end == sentenceCount - 1
  {
    var currentEnd := if 0 <= at - 1 < |kms| then kms[at - 1].sentenceRange.end else -1;
    var nextStart := if 0 <= at < |kms| then kms[at].sentenceRange.start else sentenceCount;
    SentenceRange(currentEnd + 1, nextStart - 1)
  }

  /**
   * What the insert button dispatches: the template moment over the available
   * range, or nothing when that range is empty.
   */
  function InsertAction(s: State, at: int, sentenceCount: int, template: KeyMoment): (r: Option<Action>)
    ensures r.None? <==> NextAvailableRange(s.keyMoments, at, sentenceCount).end
                         < NextAvailableRange(s.keyMoments, at, sentenceCount).start
    ensures r.Some? ==> r.value == AddKeyMoment(at,
      template.(sentenceRange := NextAvailableRange(s.keyMoments, at, sentenceCount)))
  {
    var range := NextAvailableRange(s.keyMoments, at, sentenceCount);
    if range.end - range.start >= 0 then Some(AddKeyMoment(at, template.(sentenceRange := range)))
    else None
  }

  // ---------------------------------------------------------------- the invariant

  /**
   * What an action must satisfy for the invariant to survive it: an edited range
   * is non-empty and inside the video, and an added moment lies in the gap at
   * the position it is inserted.
   */
  ghost predicate Fits(s: State, a: Action, sentenceCount: int) {
    var kms := s.keyMoments;
    match a
    case ModifyKeyMoment(p) =>
      p.sentenceRange.Some? ==>
        0 <= p.sentenceRange.value.start <= p.sentenceRange.value.end < sentenceCount
    case AddKeyMoment(i, m) =>
      var c := SliceIndex(i, |kms|);
      && 0 <= Resolver.Start(m) <= Resolver.End(m) < sentenceCount
      && (c == 0 || Resolver.End(kms[c - 1]) < Resolver.Start(m))
      && (c == |kms| || Resolver.End(m) < Resolver.Start(kms[c]))
    case _ => true
  }

  /**
   * An edit throws exactly when the resolver finds a moment reaching the end of
   * the last one; otherwise the invariant holds again, every sentence the edited
   * moments covered stays covered, and with the overlap-only trim no other is.
   */
  lemma ModifyOutcome(s: State, p: Patch, policy: Resolver.TrimPolicy, sentenceCount: int)
    requires Valid(s, sentenceCount) && Fits(s, ModifyKeyMoment(p), sentenceCount)
    requires s.selectedKeyMoment < |s.keyMoments|
    ensures Reduce(s, ModifyKeyMoment(p), policy).Failure? <==> Resolver.Overreaches(Edited(s, p))
    ensures Reduce(s, ModifyKeyMoment(p), policy).Success? ==>
      var t := Reduce(s, ModifyKeyMoment(p), policy).value;
      && Valid(t, sentenceCount)
      && t.selectedKeyMoment == s.selectedKeyMoment
      && (forall i :: Resolver.Covers(Edited(s, p), i) ==> Resolver.Covers(t.keyMoments, i))
      && (policy == Resolver.OverlapOnly ==>
            forall i :: Resolver.Covers(t.keyMoments, i) ==> Resolver.Covers(Edited(s, p), i))
  {
    var e := Edited(s, p);
    forall j | 0 <= j < |e|
      ensures NonEmpty(e[j]) && 0 <= e[j].sentenceRange.start && e[j].sentenceRange.end < sentenceCount
    {
      if j != s.selectedKeyMoment {
        assert e[j] == s.keyMoments[j];
      }
    }
    Resolver.ResolveProperties(e, policy);
    if Resolver.Resolve(e, policy).Success? {
      Resolver.ResolveWithin(e, policy, sentenceCount);
      Resolver.ResolveCovers(e, policy);
    }
  }

  /** A moment placed in the gap at position `c` of an ordered list keeps it ordered. */
  lemma InsertOrdered(kms: seq<KeyMoment>, c: nat, m: KeyMoment)
    requires Ordered(kms) && c <= |kms| && NonEmpty(m)
    requires c == 0 || Resolver.End(kms[c - 1]) < Resolver.Start(m)
    requires c == |kms| || Resolver.End(m) < Resolver.Start(kms[c])
    ensures Ordered(kms[..c] + [m] + kms[c..])
  {
    var r := kms[..c] + [m] + kms[c..];
    assert forall j :: 0 <= j < |r| ==> r[j] == if j < c then kms[j] else if j == c then m else kms[j - 1];
    forall j, k | 0 <= j < k < |r| ensures r[j].sentenceRange.end < r[k].sentenceRange.start {
      if k == c && j < c - 1 {
        assert NonEmpty(kms[c - 1]);
      } else if j == c && k - 1 > c {
        assert NonEmpty(kms[c]);
      }
    }
  }

  lemma InsertCovers(kms: seq<KeyMoment>, c: nat, m: KeyMoment)
    requires c <= |kms|
    ensures forall x :: Resolver.Covers(kms[..c] + [m] + kms[c..], x) <==> Resolver.Covers(kms, x) || Resolver.InRange(m, x)
  {
    assert kms[..c] + [m] + kms[c..] == kms[..c] + ([m] + kms[c..]);
    Resolver.CoversConcat(kms[..c], [m] + kms[c..]);
    Resolver.CoversConcat([m], kms[c..]);
    Resolver.CoversOne(m);
    Resolver.CoversConcat(kms[..c], kms[c..]);
    assert kms[..c] + kms[c..] == kms;
  }

  /**
   * An insertion that lies in the gap at its position keeps the invariant, and
   * the sentences covered afterwards are those covered before and the new moment's.
   */
  lemma AddOutcome(s: State, i: int, m: KeyMoment, sentenceCount: int)
    requires Valid(s, sentenceCount) && Fits(s, AddKeyMoment(i, m), sentenceCount)
    ensures Reduce(s, AddKeyMoment(i, m), Resolver.Unconditional).Success?
    ensures var t := Reduce(s, AddKeyMoment(i, m), Resolver.Unconditional).value;
      && Valid(t, sentenceCount)
      && forall x :: Resolver.Covers(t.keyMoments, x) <==> Resolver.Covers(s.keyMoments, x) || Resolver.InRange(m, x)
  {
    var kms := s.keyMoments;
    var c := SliceIndex(i, |kms|);
    InsertOrdered(kms, c, m);
    InsertCovers(kms, c, m);
    var r := InsertAt(kms, i, m);
    assert Within(r, sentenceCount) by {
      forall j | 0 <= j < |r| ensures 0 <= r[j].sentenceRange.start && r[j].sentenceRange.end < sentenceCount {
        if j < c {
          assert r[j] == kms[j];
        } else if j > c {
          assert r[j] == kms[j - 1];
        }
      }
    }
  }

  /**
   * A removal keeps the invariant. With a valid cursor (or none) and an existing
   * moment removed, the cursor stays a valid position or -1; removing the only
   * moment while it is selected leaves no moment and the cursor at -1.
   */
  lemma RemoveOutcome(s: State, i: int, sentenceCount: int)
    requires Valid(s, sentenceCount)
    ensures var t := Reduce(s, RemoveKeyMoment(i), Resolver.Unconditional).value;
      && Valid(t, sentenceCount)
      && (-1 <= s.selectedKeyMoment < |s.keyMoments| && 0 <= i < |s.keyMoments| ==>
            -1 <= t.selectedKeyMoment < |t.keyMoments|)
      && (|s.keyMoments| == 1 && s.selectedKeyMoment == 0 && i == 0 ==>
            t.keyMoments == [] && t.selectedKeyMoment == -1)
  {
    var r := RemoveAt(s.keyMoments, i);
    forall j, k | 0 <= j < k < |r| ensures r[j].sentenceRange.end < r[k].sentenceRange.start {
    }
  }

  lemma MergeOrdered(kms: seq<KeyMoment>, i: nat)
    requires Ordered(kms) && i + 1 < |kms|
    ensures Ordered(MergeAt(kms, i))
  {
    var r := MergeAt(kms, i);
    assert NonEmpty(kms[i]) && NonEmpty(kms[i + 1]);
    forall j, k | 0 <= j < k < |r| ensures r[j].sentenceRange.end < r[k].sentenceRange.start {
      if j == i {
        assert r[k] == kms[k + 1];
      }
    }
  }

  lemma MergeCovers(kms: seq<KeyMoment>, i: nat)
    requires i + 1 < |kms| && NonEmpty(kms[i]) && NonEmpty(kms[i + 1])
    requires Resolver.End(kms[i]) < Resolver.Start(kms[i + 1])
    ensures forall x :: Resolver.Covers(MergeAt(kms, i), x) <==>
      Resolver.Covers(kms, x) || Resolver.End(kms[i]) < x < Resolver.Start(kms[i + 1])
  {
    var r := MergeAt(kms, i);
    var pre, post := kms[..i], kms[i + 2..];
    assert kms == pre + ([kms[i]] + [kms[i + 1]] + post);
    assert r == pre + ([r[i]] + post);
    Resolver.CoversConcat(pre, [kms[i]] + [kms[i + 1]] + post);
    Resolver.CoversConcat([kms[i]] + [kms[i + 1]], post);
    Resolver.CoversConcat([kms[i]], [kms[i + 1]]);
    Resolver.CoversOne(kms[i]);
    Resolver.CoversOne(kms[i + 1]);
    Resolver.CoversConcat(pre, [r[i]] + post);
    Resolver.CoversConcat([r[i]], post);
    Resolver.CoversOne(r[i]);
  }

  /**
   * Merging moment `i` with the next one keeps the invariant, leaves one moment
   * fewer, gives the merged moment all three texts of both joined by ", " and
   * the span from the first start to the second end, leaves every other moment
   * where it was, and covers the sentences covered before plus the gap between
   * the two.
   */
  lemma MergeOutcome(s: State, i: int, sentenceCount: int)
    requires Valid(s, sentenceCount)
    requires 0 <= i && i + 1 < |s.keyMoments|
    ensures Reduce(s, MergeKeyMoments(i), Resolver.Unconditional).Success?
    ensures var kms := s.keyMoments;
      var t := Reduce(s, MergeKeyMoments(i), Resolver.Unconditional).value;
      && Valid(t, sentenceCount)
      && |t.keyMoments| == |kms| - 1
      && t.keyMoments[i].sentenceRange == SentenceRange(kms[i].sentenceRange.start, kms[i + 1].sentenceRange.end)
      && t.keyMoments[i].title == kms[i].title + ", " + kms[i + 1].title
      && t.keyMoments[i].concept == kms[i].concept + ", " + kms[i + 1].concept
      && t.keyMoments[i].keyTakeaway == kms[i].keyTakeaway + ", " + kms[i + 1].keyTakeaway
      && !t.keyMoments[i].isReviewed
      && (forall j :: 0 <= j < i ==> t.keyMoments[j] == kms[j])
      && (forall j :: i < j < |t.keyMoments| ==> t.keyMoments[j] == kms[j + 1])
      && (forall x :: Resolver.Covers(t.keyMoments, x) <==>
            Resolver.Covers(kms, x) || kms[i].sentenceRange.end < x < kms[i + 1].sentenceRange.start)
  {
    var kms := s.keyMoments;
    MergeOrdered(kms, i);
    assert NonEmpty(kms[i]) && NonEmpty(kms[i + 1]);
    MergeCovers(kms, i);
    var r := MergeAt(kms, i);
    assert Within(r, sentenceCount) by {
      forall j | 0 <= j < |r| ensures 0 <= r[j].sentenceRange.start && r[j].sentenceRange.end < sentenceCount {
        if j > i {
          assert r[j] == kms[j + 1];
        }
      }
    }
  }

  /**
   * A merge succeeds exactly when a moment follows index `i`, and every merge
   * that succeeds keeps the invariant.
   */
  lemma MergeKeepsValid(s: State, i: int, policy: Resolver.TrimPolicy, sentenceCount: int)
    requires Valid(s, sentenceCount)
    ensures Reduce(s, MergeKeyMoments(i), policy).Success? <==> 0 <= i && i + 1 < |s.keyMoments|
    ensures Reduce(s, MergeKeyMoments(i), policy).Success? ==>
      Valid(Reduce(s, MergeKeyMoments(i), policy).value, sentenceCount)
  {
    if 0 <= i && i + 1 < |s.keyMoments| {
      MergeOutcome(s, i, sentenceCount);
    }
  }

  /**
   * Marking changes only the review flag of moment `i`, keeps the invariant and
   * is idempotent.
   */
  lemma MarkOutcome(s: State, i: int, sentenceCount: int)
    requires Valid(s, sentenceCount)
    ensures var t := Reduce(s, MarkKeyMomentCompleted(i), Resolver.Unconditional).value;
      && Valid(t, sentenceCount)
      && |t.keyMoments| == |s.keyMoments|
      && (forall j :: 0 <= j < |t.keyMoments| ==>
            t.keyMoments[j].(isReviewed := false) == s.keyMoments[j].(isReviewed := false))
      && (forall j :: 0 <= j < |t.keyMoments| ==>
            t.keyMoments[j].isReviewed == (j == i || s.keyMoments[j].isReviewed))
      && Reduce(t, MarkKeyMomentCompleted(i), Resolver.Unconditional) == Success(t)
  {
    var t := Reduce(s, MarkKeyMomentCompleted(i), Resolver.Unconditional).value;
    var u := MarkAt(t.keyMoments, i);
    assert u == t.keyMoments;
  }

  /** Every action that fits and does not throw keeps the invariant. */
  lemma ReduceKeepsValid(s: State, a: Action, policy: Resolver.TrimPolicy, sentenceCount: int)
    requires Valid(s, sentenceCount) && Fits(s, a, sentenceCount)
    requires Reduce(s, a, policy).Success?
    ensures Valid(Reduce(s, a, policy).value, sentenceCount)
  {
    match a
    case SelectKeyMoment(_) =>
    case ModifyKeyMoment(p) => ModifyOutcome(s, p, policy, sentenceCount);
    case AddKeyMoment(i, m) => AddOutcome(s, i, m, sentenceCount);
    case RemoveKeyMoment(i) => RemoveOutcome(s, i, sentenceCount);
    case MergeKeyMoments(i) => MergeKeepsValid(s, i, policy, sentenceCount);
    case MarkKeyMomentCompleted(i) => MarkOutcome(s, i, sentenceCount);
  }

  /** Each action of the run fits the state it is dispatched in. */
  ghost predicate Admissible(s: State, actions: seq<Action>, policy: Resolver.TrimPolicy, sentenceCount: int)
    decreases |actions|
  {
    actions != [] ==>
      && Fits(s, actions[0], sentenceCount)
      && (Reduce(s, actions[0], policy).Success? ==>
            Admissible(Reduce(s, actions[0], policy).value, actions[1..], policy, sentenceCount))
  }

  /** A run of fitting actions that does not throw ends in a valid state. */
  lemma {:induction false} RunKeepsValid(s: State, actions: seq<Action>, policy: Resolver.TrimPolicy, sentenceCount: int)
    requires Valid(s, sentenceCount) && Admissible(s, actions, policy, sentenceCount)
    requires Run(s, actions, policy).Success?
    ensures Valid(Run(s, actions, policy).value, sentenceCount)
    decreases |actions|
  {
    if actions != [] {
      ReduceKeepsValid(s, actions[0], policy, sentenceCount);
      RunKeepsValid(Reduce(s, actions[0], policy).value, actions[1..], policy, sentenceCount);
    }
  }

  // ---------------------------------------------------------------- the insertion policy

  /** Sentence `x` of the video lies strictly between the neighbours of position `at`. */
  ghost predicate InGap(kms: seq<KeyMoment>, at: int, sentenceCount: int, x: int)
    requires 0 <= at <= |kms|
  {
    && 0 <= x < sentenceCount
    && (at == 0 || Resolver.End(kms[at - 1]) < x)
    && (at == |kms| || x < Resolver.Start(kms[at]))
  }

  /**
   * On a valid state the insert button at a position `0 .. |kms|` offers exactly
   * the sentences between its neighbours, and none of them is covered.
   */
  lemma InsertFillsGap(s: State, at: int, sentenceCount: int)
    requires Valid(s, sentenceCount) && 0 <= at <= |s.keyMoments|
    ensures var r := NextAvailableRange(s.keyMoments, at, sentenceCount);
      forall x :: r.start <= x <= r.end <==> InGap(s.keyMoments, at, sentenceCount, x)
    ensures forall x :: InGap(s.keyMoments, at, sentenceCount, x) ==> !Resolver.Covers(s.keyMoments, x)
  {
    var kms := s.keyMoments;
    var r := NextAvailableRange(kms, at, sentenceCount);
    if at > 0 {
      assert 0 <= kms[at - 1].sentenceRange.start;
      assert NonEmpty(kms[at - 1]);
    }
    if at < |kms| {
      assert kms[at].sentenceRange.end < sentenceCount;
      assert NonEmpty(kms[at]);
    }
    forall j | 0 <= j < |kms| ensures Resolver.End(kms[j]) < r.start || r.end < Resolver.Start(kms[j]) {
      if j < at - 1 {
        assert NonEmpty(kms[at - 1]);
      } else if j > at {
        assert NonEmpty(kms[at]);
      }
    }
    forall x | InGap(kms, at, sentenceCount, x) ensures !Resolver.Covers(kms, x) {
      forall y | y in kms ensures !Resolver.InRange(y, x) {
        var j :| 0 <= j < |kms| && kms[j] == y;
      }
    }
  }

  /**
   * The insert button dispatches nothing exactly when no sentence lies between
   * the neighbours; what it dispatches fits, so it keeps the invariant.
   */
  lemma InsertKeepsValid(s: State, at: int, sentenceCount: int, template: KeyMoment)
    requires Valid(s, sentenceCount) && 0 <= at <= |s.keyMoments|
    ensures InsertAction(s, at, sentenceCount, template).None? <==>
      forall x :: !InGap(s.keyMoments, at, sentenceCount, x)
    ensures InsertAction(s, at, sentenceCount, template).Some? ==>
      var a := InsertAction(s, at, sentenceCount, template).value;
      && Fits(s, a, sentenceCount)
      && Valid(Reduce(s, a, Resolver.Unconditional).value, sentenceCount)
  {
    var r := NextAvailableRange(s.keyMoments, at, sentenceCount);
    InsertFillsGap(s, at, sentenceCount);
    if r.start <= r.end {
      assert InGap(s.keyMoments, at, sentenceCount, r.start);
      AddOutcome(s, at, template.(sentenceRange := r), sentenceCount);
    }
  }

  // ---------------------------------------------------------------- examples

  /**
   * With moments [0,2] and [3,5] there is no room between them: the button at
   * position 1 dispatches nothing. At the end, [6,9] of ten sentences is offered.
   */
  lemma InsertRefusedExample(template: KeyMoment)
    ensures var s := State(0, [Resolver.Moment("a", 0, 2), Resolver.Moment("b", 3, 5)]);
      && InsertAction(s, 1, 10, template) == None
      && InsertAction(s, 2, 10, template) == Some(AddKeyMoment(2, template.(sentenceRange := SentenceRange(6, 9))))
  {
  }

  /**
   * Moments [0,1] and [3,4]; the first is stretched to [0,3]. The second is cut
   * to [4,4] rather than merged into the first.
   */
  lemma BoundaryEditExample(policy: Resolver.TrimPolicy)
    ensures var s := State(0, [Resolver.Moment("a", 0, 1), Resolver.Moment("b", 3, 4)]);
      Reduce(s, ModifyKeyMoment(Patch(None, Some(SentenceRange(0, 3)), None, None)), policy)
        == Success(State(0, [Resolver.Moment("a", 0, 3), Resolver.Moment("b", 4, 4)]))
  {
    var s := State(0, [Resolver.Moment("a", 0, 1), Resolver.Moment("b", 3, 4)]);
    assert Edited(s, Patch(None, Some(SentenceRange(0, 3)), None, None))
        == [Resolver.Moment("a", 0, 3), Resolver.Moment("b", 3, 4)];
    Resolver.ResolveTrimExample(policy);
  }

  /**
   * Moments [0,2] and [3,4]; the second is stretched back to [1,4]. The first
   * starts earlier and keeps its range, so the edit is cut back to [3,4].
   */
  lemma EditLosesToEarlierMoment(policy: Resolver.TrimPolicy)
    ensures var s := State(1, [Resolver.Moment("a", 0, 2), Resolver.Moment("b", 3, 4)]);
      Reduce(s, ModifyKeyMoment(Patch(None, Some(SentenceRange(1, 4)), None, None)), policy)
        == Success(s)
  {
    var s := State(1, [Resolver.Moment("a", 0, 2), Resolver.Moment("b", 3, 4)]);
    assert Edited(s, Patch(None, Some(SentenceRange(1, 4)), None, None))
        == [Resolver.Moment("a", 0, 2), Resolver.Moment("b", 1, 4)];
    Resolver.ResolveEarlierStartWins(policy);
  }

  /**
   * Merging the last two moments while the last is selected leaves the cursor
   * one past the end.
   */
  lemma MergeStrandsCursor()
    ensures var s := State(1, [Resolver.Moment("a", 0, 2), Resolver.Moment("b", 3, 4)]);
      var t := Reduce(s, MergeKeyMoments(0), Resolver.Unconditional).value;
      t.selectedKeyMoment == |t.keyMoments|
  {
  }
}
