/**
 * `mergeKeyMoments` and `preventRangeOverlap` (src/components/dasboard-item.tsx):
 * after an edit, the key moments are sorted by start and folded from the back
 * into a stack. A moment that reaches into the front of the stack swallows every
 * stacked moment that ends no later than it does, and pushes the start of the
 * first one it does not swallow to just after its own end.
 *
 * The function `Resolve` states that fold; the method `PreventRangeOverlap`
 * performs it with the source's loop and explicit stack and is proved equal to it.
 */
module Resolver {
  import opened Wrappers
  import opened Loader
  import Sorting

  /** The crash of the source: `stack[0].sentenceRange[0] = end + 1` on an emptied stack. */
  datatype Fault = EmptyStack

  function Start(m: KeyMoment): int { m.sentenceRange.start }

  function End(m: KeyMoment): int { m.sentenceRange.end }

  /** Sentence `i` lies in the range of `m`. */
  predicate InRange(m: KeyMoment, i: int) {
    Start(m) <= i <= End(m)
  }

  /** Some moment of `kms` contains sentence `i`. */
  ghost predicate Covers(kms: seq<KeyMoment>, i: int) {
    exists m :: m in kms && InRange(m, i)
  }

  /**
   * `mergeKeyMoments(target, source)`: the texts joined with ", ", the range from
   * the target's start to the source's end, and the review mark cleared.
   */
  function MergeKeyMoments(target: KeyMoment, source: KeyMoment): KeyMoment {
    KeyMoment(
      target.title + ", " + source.title,
      SentenceRange(Start(target), End(source)),
      target.concept + ", " + source.concept,
      target.keyTakeaway + ", " + source.keyTakeaway,
      false)
  }

  /**
   * The merged moment covers exactly the sentences from the target's start to
   * the source's end, so both moments when the target comes first; each text
   * splits back into the target's and the source's around ", "; and it is not
   * reviewed.
   */
  lemma MergeJoins(target: KeyMoment, source: KeyMoment)
    ensures forall i :: InRange(MergeKeyMoments(target, source), i) <==> Start(target) <= i <= End(source)
    ensures NonEmpty(target) && NonEmpty(source) && End(target) < Start(source) ==>
      forall i :: InRange(target, i) || InRange(source, i) ==> InRange(MergeKeyMoments(target, source), i)
    ensures var t := MergeKeyMoments(target, source).title;
      |t| == |target.title| + 2 + |source.title| && t[..|target.title|] == target.title && t[|target.title| + 2..] == source.title
    ensures var c := MergeKeyMoments(target, source).concept;
      |c| == |target.concept| + 2 + |source.concept| && c[..|target.concept|] == target.concept
      && c[|target.concept| + 2..] == source.concept
    ensures var k := MergeKeyMoments(target, source).keyTakeaway;
      |k| == |target.keyTakeaway| + 2 + |source.keyTakeaway| && k[..|target.keyTakeaway|] == target.keyTakeaway
      && k[|target.keyTakeaway| + 2..] == source.keyTakeaway
    ensures !MergeKeyMoments(target, source).isReviewed
  {
  }

  // ---------------------------------------------------------------- the fold

  /**
   * The inner `while`: `next` swallows the front of the stack as long as the
   * front ends no later than `next`; each merge resets the range to `next`'s own.
   */
  function Absorb(next: KeyMoment, stack: seq<KeyMoment>): (KeyMoment, seq<KeyMoment>)
    decreases |stack|
  {
    if stack != [] && End(next) >= End(stack[0]) then
      Absorb(MergeKeyMoments(next, stack[0]).(sentenceRange := next.sentenceRange), stack[1..])
    else (next, stack)
  }

  /**
   * Where the first moment the inner loop leaves on the stack starts after the
   * trim. The source sets it to `end + 1` whatever it was; `OverlapOnly` trims
   * only a neighbour that still overlaps, which never moves a start back.
   */
  datatype TrimPolicy = Unconditional | OverlapOnly

  function TrimmedStart(policy: TrimPolicy, first: KeyMoment, end: int): int {
    match policy
    case Unconditional => end + 1
    case OverlapOnly => if Start(first) <= end then end + 1 else Start(first)
  }

  /** One iteration of the `for` loop: `cur` is placed on the front of the stack. */
  function Step(cur: KeyMoment, stack: seq<KeyMoment>, policy: TrimPolicy): Result<seq<KeyMoment>, Fault> {
    if stack != [] && End(cur) >= Start(stack[0]) then
      var absorbed := Absorb(cur, stack);
      var rest := absorbed.1;
      if rest == [] then Failure(EmptyStack)
      else
        var trimmed := rest[0].(sentenceRange :=
          SentenceRange(TrimmedStart(policy, rest[0], End(cur)), End(rest[0])));
        Success([absorbed.0, trimmed] + rest[1..])
    else Success([cur] + stack)
  }

  /** The loop over `sorted[k - 1], sorted[k - 2], .., sorted[0]`, starting from `stack`. */
  function ResolveFrom(sorted: seq<KeyMoment>, k: nat, stack: seq<KeyMoment>, policy: TrimPolicy): Result<seq<KeyMoment>, Fault>
    requires k <= |sorted|
    decreases k
  {
    if k == 0 then Success(stack)
    else
      match Step(sorted[k - 1], stack, policy)
      case Failure(e) => Failure(e)
      case Success(next) => ResolveFrom(sorted, k - 1, next, policy)
  }

  /**
   * `preventRangeOverlap(ranges)`: the stable sort by start, then the fold from
   * the back. `Resolve(ranges, Unconditional)` is the source as written.
   */
  function Resolve(ranges: seq<KeyMoment>, policy: TrimPolicy): Result<seq<KeyMoment>, Fault> {
    ResolveFrom(Sorting.SortBy(ranges, Start), |ranges|, [], policy)
  }

  /**
   * Some moment other than the last one by start ends at or after it. This is
   * exactly when the source throws (see ResolveProperties).
   */
  ghost predicate Overreaches(ranges: seq<KeyMoment>) {
    var sorted := Sorting.SortBy(ranges, Start);
    exists j :: 0 <= j < |sorted| - 1 && End(sorted[j]) >= End(sorted[|sorted| - 1])
  }

  // ---------------------------------------------------------------- the method

  /** The source's loop, with the stack as a sequence whose front is index 0. */
  method PreventRangeOverlap(ranges: seq<KeyMoment>) returns (r: Result<seq<KeyMoment>, Fault>)
    ensures r == Resolve(ranges, Unconditional)
    ensures (forall i :: 0 <= i < |ranges| ==> NonEmpty(ranges[i])) ==>
      && (r.Failure? <==> Overreaches(ranges))
      && (r.Success? ==> Ordered(r.value) && forall i :: Covers(ranges, i) ==> Covers(r.value, i))
  {
    var sorted := Sorting.SortBy(ranges, Start);
    var stack: seq<KeyMoment> := [];
    var k := |sorted|;
    while k > 0
      invariant 0 <= k <= |sorted|
      invariant ResolveFrom(sorted, k, stack, Unconditional) == Resolve(ranges, Unconditional)
    {
      var cur := sorted[k - 1];
      var start, end := Start(cur), End(cur);
      var next := cur;
      ghost var stack0 := stack;
      if stack != [] && end >= Start(stack[0]) {
        while stack != [] && end >= End(stack[0])
          invariant next.sentenceRange == cur.sentenceRange
          invariant Absorb(next, stack) == Absorb(cur, stack0)
          decreases |stack|
        {
          next := MergeKeyMoments(next, stack[0]);
          next := next.(sentenceRange := SentenceRange(start, end));
          stack := stack[1..];
        }
        assert Absorb(next, stack) == (next, stack);
        if stack == [] {
          StepEmpties(cur, stack0, next);
          ResolveFromFails(sorted, k, stack0, Unconditional);
          ResolveAsWritten(ranges);
          return Failure(EmptyStack);
        }
        ghost var rest := stack;
        stack := stack[0 := stack[0].(sentenceRange := SentenceRange(end + 1, End(stack[0])))];
        stack := [next] + stack;
        assert stack == [next, stack[1]] + rest[1..];
        StepTrims(cur, stack0, next, rest);
      } else {
        stack := [next] + stack;
        StepPushes(cur, stack0);
      }
      ResolveFromStep(sorted, k, stack0, Unconditional, stack);
      k := k - 1;
    }
    r := Success(stack);
    ResolveAsWritten(ranges);
  }

  /** A step whose inner loop swallows the whole stack throws. */
  lemma StepEmpties(cur: KeyMoment, stack: seq<KeyMoment>, next: KeyMoment)
    requires stack != [] && End(cur) >= Start(stack[0])
    requires Absorb(cur, stack) == (next, [])
    ensures Step(cur, stack, Unconditional) == Failure(EmptyStack)
  {
  }

  /** A step that does not reach the front of the stack pushes `cur` unchanged. */
  lemma StepPushes(cur: KeyMoment, stack: seq<KeyMoment>)
    requires !(stack != [] && End(cur) >= Start(stack[0]))
    ensures Step(cur, stack, Unconditional) == Success([cur] + stack)
  {
  }

  /** A step that throws ends the fold with the throw. */
  lemma ResolveFromFails(sorted: seq<KeyMoment>, k: nat, stack: seq<KeyMoment>, policy: TrimPolicy)
    requires 0 < k <= |sorted|
    requires Step(sorted[k - 1], stack, policy).Failure?
    ensures ResolveFrom(sorted, k, stack, policy) == Failure(EmptyStack)
  {
  }

  /** A step whose inner loop leaves moments behind trims the first of them. */
  lemma StepTrims(cur: KeyMoment, stack: seq<KeyMoment>, next: KeyMoment, rest: seq<KeyMoment>)
    requires stack != [] && End(cur) >= Start(stack[0])
    requires Absorb(cur, stack) == (next, rest) && rest != []
    ensures Step(cur, stack, Unconditional) ==
      Success([next, rest[0].(sentenceRange := SentenceRange(End(cur) + 1, End(rest[0])))] + rest[1..])
  {
  }

  /** What ResolveProperties and ResolveCovers say about the source as written. */
  lemma ResolveAsWritten(ranges: seq<KeyMoment>)
    ensures var r := Resolve(ranges, Unconditional);
      (forall i :: 0 <= i < |ranges| ==> NonEmpty(ranges[i])) ==>
      && (r.Failure? <==> Overreaches(ranges))
      && (r.Success? ==> Ordered(r.value) && forall i :: Covers(ranges, i) ==> Covers(r.value, i))
  {
    if forall i :: 0 <= i < |ranges| ==> NonEmpty(ranges[i]) {
      ResolveProperties(ranges, Unconditional);
      if Resolve(ranges, Unconditional).Success? {
        ResolveCovers(ranges, Unconditional);
      }
    }
  }

  // ---------------------------------------------------------------- one step

  /** What the inner loop leaves: `next` keeps its range, and the rest is a suffix of the stack. */
  lemma {:induction false} AbsorbShape(next: KeyMoment, stack: seq<KeyMoment>)
    ensures Absorb(next, stack).0.sentenceRange == next.sentenceRange
    ensures |Absorb(next, stack).1| <= |stack|
    ensures Absorb(next, stack).1 == stack[|stack| - |Absorb(next, stack).1|..]
    ensures forall j :: 0 <= j < |stack| - |Absorb(next, stack).1| ==> End(stack[j]) <= End(next)
    ensures Absorb(next, stack).1 != [] ==> End(next) < End(Absorb(next, stack).1[0])
    decreases |stack|
  {
    if stack != [] && End(next) >= End(stack[0]) {
      AbsorbShape(MergeKeyMoments(next, stack[0]).(sentenceRange := next.sentenceRange), stack[1..]);
    }
  }

  function Title(m: KeyMoment): string { m.title }

  function Concept(m: KeyMoment): string { m.concept }

  function KeyTakeaway(m: KeyMoment): string { m.keyTakeaway }

  /** `first`, then the `field` of each swallowed moment, each after ", ". */
  function Joined(first: string, swallowed: seq<KeyMoment>, field: KeyMoment -> string): string
    decreases |swallowed|
  {
    if swallowed == [] then first else Joined(first + ", " + field(swallowed[0]), swallowed[1..], field)
  }

  /**
   * What the inner loop does to `next`'s data: the texts of the moments it
   * swallows are appended to `next`'s in stack order, and a `next` that swallows
   * anything is no longer reviewed; a `next` that swallows nothing is unchanged.
   */
  lemma {:induction false} AbsorbJoins(next: KeyMoment, stack: seq<KeyMoment>)
    ensures |Absorb(next, stack).1| <= |stack|
    ensures var swallowed := stack[..|stack| - |Absorb(next, stack).1|];
      var m := Absorb(next, stack).0;
      && m.title == Joined(next.title, swallowed, Title)
      && m.concept == Joined(next.concept, swallowed, Concept)
      && m.keyTakeaway == Joined(next.keyTakeaway, swallowed, KeyTakeaway)
    ensures |Absorb(next, stack).1| < |stack| ==> !Absorb(next, stack).0.isReviewed
    ensures |Absorb(next, stack).1| == |stack| ==> Absorb(next, stack).0 == next
    decreases |stack|
  {
    if stack != [] && End(next) >= End(stack[0]) {
      var merged := MergeKeyMoments(next, stack[0]).(sentenceRange := next.sentenceRange);
      AbsorbJoins(merged, stack[1..]);
      var rest := Absorb(merged, stack[1..]).1;
      assert stack[..|stack| - |rest|][1..] == stack[1..][..|stack| - 1 - |rest|];
    }
  }

  /** On an ordered stack, everything is swallowed exactly when `next` reaches the end of the last moment. */
  lemma AbsorbEmpties(next: KeyMoment, stack: seq<KeyMoment>)
    requires Ordered(stack) && stack != []
    ensures Absorb(next, stack).1 == [] <==> End(next) >= End(stack[|stack| - 1])
  {
    AbsorbShape(next, stack);
    var rest := Absorb(next, stack).1;
    if rest != [] {
      assert rest[|rest| - 1] == stack[|stack| - 1];
    }
  }

  /** A suffix of an ordered collection is ordered. */
  lemma OrderedSuffix(kms: seq<KeyMoment>, m: int)
    requires Ordered(kms) && 0 <= m <= |kms|
    ensures Ordered(kms[m..])
  {
    assert forall j :: 0 <= j < |kms| - m ==> kms[m..][j] == kms[m + j];
  }

  /** A non-empty moment that ends before an ordered collection starts can go in front of it. */
  lemma OrderedCons(x: KeyMoment, kms: seq<KeyMoment>)
    requires NonEmpty(x) && Ordered(kms)
    requires kms != [] ==> End(x) < Start(kms[0])
    ensures Ordered([x] + kms)
  {
    var s := [x] + kms;
    assert forall j :: 1 <= j < |s| ==> s[j] == kms[j - 1];
    forall j | 1 <= j < |s|
      ensures End(x) < Start(s[j])
    {
      if j > 1 {
        assert NonEmpty(kms[0]);
        assert End(kms[0]) < Start(kms[j - 1]);
      }
    }
  }

  /**
   * After the inner loop: `head` goes in front of what it left, whose first
   * moment is trimmed to start after `head`; the stack stays ordered and keeps
   * its last end.
   */
  lemma PushTrimmed(head: KeyMoment, rest: seq<KeyMoment>, policy: TrimPolicy)
    requires NonEmpty(head) && Ordered(rest) && rest != [] && End(head) < End(rest[0])
    ensures var trimmed := rest[0].(sentenceRange :=
        SentenceRange(TrimmedStart(policy, rest[0], End(head)), End(rest[0])));
      var s := [head, trimmed] + rest[1..];
      Ordered(s) && End(s[|s| - 1]) == End(rest[|rest| - 1])
  {
    var trimmed := rest[0].(sentenceRange :=
      SentenceRange(TrimmedStart(policy, rest[0], End(head)), End(rest[0])));
    var s := [head, trimmed] + rest[1..];
    OrderedSuffix(rest, 1);
    if |rest| > 1 {
      assert End(rest[0]) < Start(rest[1]);
    }
    OrderedCons(trimmed, rest[1..]);
    assert [trimmed] + rest[1..] == s[1..];
    OrderedCons(head, s[1..]);
    assert s == [head] + s[1..];
    if |rest| > 1 {
      assert s[|s| - 1] == rest[|rest| - 1];
    } else {
      assert s[|s| - 1] == trimmed;
    }
  }

  /** A step keeps the stack ordered and its last end, and throws exactly when `cur` reaches that end. */
  lemma StepOrdered(cur: KeyMoment, stack: seq<KeyMoment>, policy: TrimPolicy)
    requires NonEmpty(cur) && Ordered(stack) && stack != []
    ensures Step(cur, stack, policy).Failure? <==> End(cur) >= End(stack[|stack| - 1])
    ensures Step(cur, stack, policy).Success? ==>
      var s := Step(cur, stack, policy).value;
      && Ordered(s) && s != []
      && End(s[|s| - 1]) == End(stack[|stack| - 1])
      && s[0].sentenceRange == cur.sentenceRange
  {
    var last := stack[|stack| - 1];
    if End(cur) >= Start(stack[0]) {
      AbsorbShape(cur, stack);
      AbsorbEmpties(cur, stack);
      var rest := Absorb(cur, stack).1;
      if rest != [] {
        OrderedSuffix(stack, |stack| - |rest|);
        PushTrimmed(Absorb(cur, stack).0, rest, policy);
        assert rest[|rest| - 1] == last;
      }
    } else {
      assert Step(cur, stack, policy) == Success([cur] + stack);
      assert NonEmpty(stack[0]);
      OrderedCons(cur, stack);
      assert ([cur] + stack)[|stack|] == last;
    }
  }

  /** Sentences covered by a concatenation are those covered by either part. */
  lemma CoversConcat(a: seq<KeyMoment>, b: seq<KeyMoment>)
    ensures forall i :: Covers(a + b, i) <==> Covers(a, i) || Covers(b, i)
  {
    forall i ensures Covers(a + b, i) <==> Covers(a, i) || Covers(b, i) {
      if Covers(a + b, i) {
        var x :| x in a + b && InRange(x, i);
      }
      if Covers(a, i) {
        var x :| x in a && InRange(x, i);
        assert x in a + b;
      }
      if Covers(b, i) {
        var x :| x in b && InRange(x, i);
        assert x in a + b;
      }
    }
  }

  lemma CoversOne(x: KeyMoment)
    ensures forall i :: Covers([x], i) <==> InRange(x, i)
  {
    forall i ensures Covers([x], i) <==> InRange(x, i) {
      if InRange(x, i) {
        assert x in [x];
      }
    }
  }

  /** Moments lying inside the range of `cur` cover nothing outside it. */
  lemma CoversInside(kms: seq<KeyMoment>, cur: KeyMoment)
    requires forall j :: 0 <= j < |kms| ==> Start(cur) <= Start(kms[j]) && End(kms[j]) <= End(cur)
    ensures forall i :: Covers(kms, i) ==> InRange(cur, i)
  {
    forall i | Covers(kms, i) ensures InRange(cur, i) {
      var x :| x in kms && InRange(x, i);
      var j :| 0 <= j < |kms| && kms[j] == x;
    }
  }

  /**
   * The trimming branch loses no sentence: the swallowed moments and the cut-off
   * head of the first kept one lie inside `cur`, whose range the front keeps. It
   * adds none either when the trim never moves a start back.
   */
  lemma TrimCovers(cur: KeyMoment, swallowed: seq<KeyMoment>, front: KeyMoment,
                   first: KeyMoment, tail: seq<KeyMoment>, trimmedStart: int)
    requires front.sentenceRange == cur.sentenceRange
    requires forall j :: 0 <= j < |swallowed| ==> Start(cur) <= Start(swallowed[j]) && End(swallowed[j]) <= End(cur)
    requires Start(cur) <= Start(first)
    requires trimmedStart <= End(cur) + 1 || trimmedStart <= Start(first)
    ensures var trimmed := first.(sentenceRange := SentenceRange(trimmedStart, End(first)));
      forall i :: Covers(swallowed + ([first] + tail), i) || InRange(cur, i) ==> Covers([front, trimmed] + tail, i)
    ensures var trimmed := first.(sentenceRange := SentenceRange(trimmedStart, End(first)));
      Start(first) <= trimmedStart ==>
      forall i :: Covers([front, trimmed] + tail, i) ==> Covers(swallowed + ([first] + tail), i) || InRange(cur, i)
  {
    var trimmed := first.(sentenceRange := SentenceRange(trimmedStart, End(first)));
    assert [front, trimmed] + tail == [front] + ([trimmed] + tail);
    CoversConcat(swallowed, [first] + tail);
    CoversConcat([first], tail);
    CoversConcat([front], [trimmed] + tail);
    CoversConcat([trimmed], tail);
    CoversOne(first);
    CoversOne(trimmed);
    CoversOne(front);
    CoversInside(swallowed, cur);
    forall i ensures Covers([front, trimmed] + tail, i) <==> InRange(cur, i) || InRange(trimmed, i) || Covers(tail, i) {
    }
    forall i ensures Covers(swallowed + ([first] + tail), i) <==> Covers(swallowed, i) || InRange(first, i) || Covers(tail, i) {
    }
  }

  /**
   * A step loses no sentence: whatever it swallows or trims away lies inside
   * `cur`'s range, since every stacked moment starts no earlier than `cur`. With
   * the overlap-only trim it adds none beyond `cur`'s either.
   */
  lemma StepCovers(cur: KeyMoment, stack: seq<KeyMoment>, policy: TrimPolicy, s: seq<KeyMoment>)
    requires forall j :: 0 <= j < |stack| ==> Start(cur) <= Start(stack[j])
    requires Step(cur, stack, policy) == Success(s)
    ensures forall i :: Covers(stack, i) || InRange(cur, i) ==> Covers(s, i)
    ensures policy == OverlapOnly ==> forall i :: Covers(s, i) ==> Covers(stack, i) || InRange(cur, i)
    ensures NonEmpty(cur) ==> forall j :: 0 <= j < |s| ==> Start(cur) <= Start(s[j])
  {
    if stack != [] && End(cur) >= Start(stack[0]) {
      AbsorbShape(cur, stack);
      var absorbed := Absorb(cur, stack);
      TrimStepCovers(cur, stack, policy, absorbed.0, absorbed.1, s);
    } else {
      assert s == [cur] + stack;
      CoversOne(cur);
      CoversConcat([cur], stack);
      assert forall j :: 1 <= j < |stack| + 1 ==> ([cur] + stack)[j] == stack[j - 1];
    }
  }

  /** StepCovers for a step that swallows the front of the stack and trims the rest. */
  lemma TrimStepCovers(cur: KeyMoment, stack: seq<KeyMoment>, policy: TrimPolicy,
                       front: KeyMoment, rest: seq<KeyMoment>, s: seq<KeyMoment>)
    requires forall j :: 0 <= j < |stack| ==> Start(cur) <= Start(stack[j])
    requires rest != []
    requires s == [front, rest[0].(sentenceRange :=
      SentenceRange(TrimmedStart(policy, rest[0], End(cur)), End(rest[0])))] + rest[1..]
    requires front.sentenceRange == cur.sentenceRange
    requires |rest| <= |stack| && rest == stack[|stack| - |rest|..]
    requires forall j :: 0 <= j < |stack| - |rest| ==> End(stack[j]) <= End(cur)
    requires rest != [] ==> End(cur) < End(rest[0])
    ensures forall i :: Covers(stack, i) || InRange(cur, i) ==> Covers(s, i)
    ensures policy == OverlapOnly ==> forall i :: Covers(s, i) ==> Covers(stack, i) || InRange(cur, i)
    ensures NonEmpty(cur) ==> forall j :: 0 <= j < |s| ==> Start(cur) <= Start(s[j])
  {
    var m := |stack| - |rest|;
    var ts := TrimmedStart(policy, rest[0], End(cur));
    var trimmed := rest[0].(sentenceRange := SentenceRange(ts, End(rest[0])));
    assert stack == stack[..m] + ([rest[0]] + rest[1..]);
    TrimCovers(cur, stack[..m], front, rest[0], rest[1..], ts);
    assert forall j :: 2 <= j < |s| ==> s[j] == stack[m + j - 1];
  }

  // ---------------------------------------------------------------- the fold's outcome

  /** The sorted moments are the input moments. */
  lemma SortedElements(ranges: seq<KeyMoment>)
    ensures forall x :: x in Sorting.SortBy(ranges, Start) <==> x in ranges
  {
    var sorted := Sorting.SortBy(ranges, Start);
    forall x ensures x in sorted <==> x in ranges {
      assert x in sorted <==> x in multiset(sorted);
      assert x in ranges <==> x in multiset(ranges);
    }
  }

  /**
   * One iteration of the fold on an ordered stack: it throws when `cur` reaches
   * the end of the stack's last moment, and otherwise continues from an ordered
   * stack `next` with the same last end.
   */
  lemma FoldStep(sorted: seq<KeyMoment>, k: nat, stack: seq<KeyMoment>, policy: TrimPolicy)
      returns (next: seq<KeyMoment>)
    requires 0 < k <= |sorted| && NonEmpty(sorted[k - 1])
    requires Ordered(stack) && stack != []
    ensures End(sorted[k - 1]) >= End(stack[|stack| - 1]) ==>
      ResolveFrom(sorted, k, stack, policy) == Failure(EmptyStack)
    ensures End(sorted[k - 1]) < End(stack[|stack| - 1]) ==>
      && Ordered(next) && next != [] && End(next[|next| - 1]) == End(stack[|stack| - 1])
      && ResolveFrom(sorted, k, stack, policy) == ResolveFrom(sorted, k - 1, next, policy)
  {
    StepOrdered(sorted[k - 1], stack, policy);
    match Step(sorted[k - 1], stack, policy)
    case Failure(_) =>
      next := stack;
      ResolveFromFails(sorted, k, stack, policy);
    case Success(s) =>
      next := s;
      ResolveFromStep(sorted, k, stack, policy, s);
  }

  /**
   * Folding non-empty moments onto an ordered stack throws exactly when one of
   * them reaches the end of the stack's last moment.
   */
  lemma {:induction false} ResolveFromThrows(sorted: seq<KeyMoment>, k: nat, stack: seq<KeyMoment>, policy: TrimPolicy)
    requires k <= |sorted|
    requires forall j :: 0 <= j < k ==> NonEmpty(sorted[j])
    requires Ordered(stack) && stack != []
    ensures ResolveFrom(sorted, k, stack, policy).Failure?
        <==> exists j :: 0 <= j < k && End(sorted[j]) >= End(stack[|stack| - 1])
    decreases k
  {
    if k > 0 {
      var last := End(stack[|stack| - 1]);
      var next := FoldStep(sorted, k, stack, policy);
      if End(sorted[k - 1]) < last {
        ResolveFromThrows(sorted, k - 1, next, policy);
        ReachesLast(sorted, k, last);
      }
    }
  }

  /**
   * Otherwise the stack stays ordered and keeps its last end.
   */
  lemma {:induction false} ResolveFromOrdered(sorted: seq<KeyMoment>, k: nat, stack: seq<KeyMoment>, policy: TrimPolicy)
    requires k <= |sorted|
    requires forall j :: 0 <= j < k ==> NonEmpty(sorted[j])
    requires Ordered(stack) && stack != []
    requires ResolveFrom(sorted, k, stack, policy).Success?
    ensures var s := ResolveFrom(sorted, k, stack, policy).value;
      Ordered(s) && s != [] && End(s[|s| - 1]) == End(stack[|stack| - 1])
    decreases k
  {
    if k > 0 {
      var next := FoldStep(sorted, k, stack, policy);
      ResolveFromOrdered(sorted, k - 1, next, policy);
    }
  }

  lemma ReachesLast(sorted: seq<KeyMoment>, k: nat, last: int)
    requires 0 < k <= |sorted| && End(sorted[k - 1]) < last
    ensures (exists j :: 0 <= j < k && End(sorted[j]) >= last)
        <==> exists j :: 0 <= j < k - 1 && End(sorted[j]) >= last
  {
  }

  /**
   * Folding the first `k` sorted moments onto a stack whose moments start no
   * earlier than any of them loses none of the sentences they and the stack
   * cover, and with the overlap-only trim adds none.
   */
  lemma {:induction false} ResolveFromCovers(sorted: seq<KeyMoment>, k: nat, stack: seq<KeyMoment>, policy: TrimPolicy)
    requires k <= |sorted|
    requires Sorting.SortedBy(sorted, Start)
    requires forall j :: 0 <= j < k ==> NonEmpty(sorted[j])
    requires forall j, m :: 0 <= j < k && 0 <= m < |stack| ==> Start(sorted[j]) <= Start(stack[m])
    requires ResolveFrom(sorted, k, stack, policy).Success?
    ensures forall i :: Covers(stack, i) || Covers(sorted[..k], i) ==> Covers(ResolveFrom(sorted, k, stack, policy).value, i)
    ensures policy == OverlapOnly ==>
      forall i :: Covers(ResolveFrom(sorted, k, stack, policy).value, i) ==> Covers(stack, i) || Covers(sorted[..k], i)
    decreases k
  {
    if k > 0 {
      var cur := sorted[k - 1];
      var next := Step(cur, stack, policy).value;
      StepCovers(cur, stack, policy, next);
      assert ResolveFrom(sorted, k, stack, policy) == ResolveFrom(sorted, k - 1, next, policy);
      ResolveFromCovers(sorted, k - 1, next, policy);
      assert sorted[..k] == sorted[..k - 1] + [cur];
      forall i ensures Covers(sorted[..k], i) <==> Covers(sorted[..k - 1], i) || InRange(cur, i) {
        if Covers(sorted[..k], i) {
          var x :| x in sorted[..k] && InRange(x, i);
          if x != cur {
            assert x in sorted[..k - 1];
          }
        }
        if Covers(sorted[..k - 1], i) {
          var x :| x in sorted[..k - 1] && InRange(x, i);
          assert x in sorted[..k];
        }
        if InRange(cur, i) {
          assert cur in sorted[..k];
        }
      }
    } else {
      assert sorted[..0] == [];
    }
  }

  /** The fold never adds moments: each step pushes one and swallows none or more. */
  lemma {:induction false} ResolveLength(sorted: seq<KeyMoment>, k: nat, stack: seq<KeyMoment>, policy: TrimPolicy)
    requires k <= |sorted|
    requires ResolveFrom(sorted, k, stack, policy).Success?
    ensures |ResolveFrom(sorted, k, stack, policy).value| <= |stack| + k
    ensures stack != [] ==> ResolveFrom(sorted, k, stack, policy).value != []
    decreases k
  {
    if k > 0 {
      var cur := sorted[k - 1];
      if stack != [] && End(cur) >= Start(stack[0]) {
        AbsorbShape(cur, stack);
      }
      ResolveLength(sorted, k - 1, Step(cur, stack, policy).value, policy);
    }
  }

  /** The input moments are non-empty, and so are the sorted ones. */
  lemma SortedNonEmpty(ranges: seq<KeyMoment>)
    requires forall i :: 0 <= i < |ranges| ==> NonEmpty(ranges[i])
    ensures forall j :: 0 <= j < |ranges| ==> NonEmpty(Sorting.SortBy(ranges, Start)[j])
  {
    var sorted := Sorting.SortBy(ranges, Start);
    SortedElements(ranges);
    forall j | 0 <= j < |ranges| ensures NonEmpty(sorted[j]) {
      assert sorted[j] in ranges;
    }
  }

  /**
   * The whole fold over sorted non-empty moments, from the empty stack: it throws
   * exactly when a moment other than the last reaches the last one's end, and
   * otherwise leaves an ordered stack no longer than the input.
   */
  lemma FoldProperties(sorted: seq<KeyMoment>, policy: TrimPolicy)
    requires forall j :: 0 <= j < |sorted| ==> NonEmpty(sorted[j])
    ensures var r := ResolveFrom(sorted, |sorted|, [], policy);
      r.Failure? <==> exists j :: 0 <= j < |sorted| - 1 && End(sorted[j]) >= End(sorted[|sorted| - 1])
    ensures var r := ResolveFrom(sorted, |sorted|, [], policy);
      r.Success? ==> Ordered(r.value) && |r.value| <= |sorted| && (r.value == [] <==> sorted == [])
  {
    var n := |sorted|;
    if n > 0 {
      var first := [sorted[n - 1]];
      assert Step(sorted[n - 1], [], policy) == Success(first) by {
        assert first + [] == first;
      }
      assert ResolveFrom(sorted, n, [], policy) == ResolveFrom(sorted, n - 1, first, policy);
      ResolveFromThrows(sorted, n - 1, first, policy);
      if ResolveFrom(sorted, n - 1, first, policy).Success? {
        ResolveFromOrdered(sorted, n - 1, first, policy);
        ResolveLength(sorted, n - 1, first, policy);
      }
    }
  }

  /**
   * The whole fold over sorted non-empty moments loses no sentence they cover,
   * and with the overlap-only trim adds none.
   */
  lemma FoldCovers(sorted: seq<KeyMoment>, policy: TrimPolicy)
    requires Sorting.SortedBy(sorted, Start)
    requires forall j :: 0 <= j < |sorted| ==> NonEmpty(sorted[j])
    requires ResolveFrom(sorted, |sorted|, [], policy).Success?
    ensures var s := ResolveFrom(sorted, |sorted|, [], policy).value;
      forall i :: Covers(sorted, i) ==> Covers(s, i)
    ensures var s := ResolveFrom(sorted, |sorted|, [], policy).value;
      policy == OverlapOnly ==> forall i :: Covers(s, i) ==> Covers(sorted, i)
  {
    ResolveFromCovers(sorted, |sorted|, [], policy);
    assert sorted[..|sorted|] == sorted;
    forall i ensures !Covers([], i) {
    }
  }

  /** Sequences with the same elements cover the same sentences. */
  lemma CoversSameElements(a: seq<KeyMoment>, b: seq<KeyMoment>)
    requires forall x :: x in a <==> x in b
    ensures forall i :: Covers(a, i) <==> Covers(b, i)
  {
  }

  /**
   * `preventRangeOverlap` on non-empty ranges throws exactly when some moment
   * other than the last by start reaches the last one's end; otherwise the result
   * is ordered, has no more moments than the input and is empty only for an
   * empty input.
   */
  lemma ResolveProperties(ranges: seq<KeyMoment>, policy: TrimPolicy)
    requires forall i :: 0 <= i < |ranges| ==> NonEmpty(ranges[i])
    ensures Resolve(ranges, policy).Failure? <==> Overreaches(ranges)
    ensures Resolve(ranges, policy).Success? ==>
      var s := Resolve(ranges, policy).value;
      && Ordered(s)
      && |s| <= |ranges|
      && (s == [] <==> ranges == [])
  {
    SortedNonEmpty(ranges);
    FoldProperties(Sorting.SortBy(ranges, Start), policy);
  }

  /**
   * When it does not throw, `preventRangeOverlap` loses none of the sentences
   * the input moments covered; with the overlap-only trim it covers exactly them.
   */
  lemma ResolveCovers(ranges: seq<KeyMoment>, policy: TrimPolicy)
    requires forall i :: 0 <= i < |ranges| ==> NonEmpty(ranges[i])
    requires Resolve(ranges, policy).Success?
    ensures forall i :: Covers(ranges, i) ==> Covers(Resolve(ranges, policy).value, i)
    ensures policy == OverlapOnly ==> forall i :: Covers(Resolve(ranges, policy).value, i) ==> Covers(ranges, i)
  {
    var sorted := Sorting.SortBy(ranges, Start);
    SortedNonEmpty(ranges);
    SortedElements(ranges);
    CoversSameElements(sorted, ranges);
    FoldCovers(sorted, policy);
  }

  /** A step keeps every moment inside the sentence indices `0 .. n - 1`. */
  lemma StepWithin(cur: KeyMoment, stack: seq<KeyMoment>, policy: TrimPolicy, s: seq<KeyMoment>, n: int)
    requires NonEmpty(cur) && 0 <= Start(cur) && End(cur) < n
    requires Within(stack, n)
    requires Step(cur, stack, policy) == Success(s)
    ensures Within(s, n)
  {
    if stack != [] && End(cur) >= Start(stack[0]) {
      AbsorbShape(cur, stack);
      var absorbed := Absorb(cur, stack);
      var rest := absorbed.1;
      var m := |stack| - |rest|;
      var trimmed := rest[0].(sentenceRange :=
        SentenceRange(TrimmedStart(policy, rest[0], End(cur)), End(rest[0])));
      assert s == [absorbed.0, trimmed] + rest[1..];
      assert forall j :: 2 <= j < |s| ==> s[j] == stack[m + j - 1];
      assert rest[0] == stack[m];
    } else {
      assert s == [cur] + stack;
      assert forall j :: 1 <= j < |s| ==> s[j] == stack[j - 1];
    }
  }

  lemma {:induction false} ResolveFromWithin(sorted: seq<KeyMoment>, k: nat, stack: seq<KeyMoment>, policy: TrimPolicy, n: int)
    requires k <= |sorted|
    requires forall j :: 0 <= j < k ==> NonEmpty(sorted[j]) && 0 <= Start(sorted[j]) && End(sorted[j]) < n
    requires Within(stack, n)
    requires ResolveFrom(sorted, k, stack, policy).Success?
    ensures Within(ResolveFrom(sorted, k, stack, policy).value, n)
    decreases k
  {
    if k > 0 {
      var next := Step(sorted[k - 1], stack, policy).value;
      StepWithin(sorted[k - 1], stack, policy, next, n);
      ResolveFromWithin(sorted, k - 1, next, policy, n);
    }
  }

  /** Moments inside the sentence indices `0 .. n - 1` stay inside them. */
  lemma ResolveWithin(ranges: seq<KeyMoment>, policy: TrimPolicy, n: int)
    requires forall i :: 0 <= i < |ranges| ==> NonEmpty(ranges[i])
    requires Within(ranges, n)
    requires Resolve(ranges, policy).Success?
    ensures Within(Resolve(ranges, policy).value, n)
  {
    var sorted := Sorting.SortBy(ranges, Start);
    SortedElements(ranges);
    forall j | 0 <= j < |sorted| ensures NonEmpty(sorted[j]) && 0 <= Start(sorted[j]) && End(sorted[j]) < n {
      assert sorted[j] in ranges;
    }
    ResolveFromWithin(sorted, |sorted|, [], policy, n);
  }

  // ---------------------------------------------------------------- already ordered input

  /** Folding an ordered sequence onto its own suffix rebuilds it unchanged. */
  lemma {:induction false} ResolveFromOrderedInput(s: seq<KeyMoment>, k: nat, policy: TrimPolicy)
    requires Ordered(s) && k <= |s|
    ensures ResolveFrom(s, k, s[k..], policy) == Success(s)
    decreases k
  {
    if k > 0 {
      assert s[k - 1..] == [s[k - 1]] + s[k..];
      if k < |s| {
        assert End(s[k - 1]) < Start(s[k..][0]);
      }
      assert Step(s[k - 1], s[k..], policy) == Success(s[k - 1..]);
      ResolveFromOrderedInput(s, k - 1, policy);
    }
  }

  /** An ordered collection is left exactly as it is. */
  lemma ResolveKeepsOrdered(kms: seq<KeyMoment>, policy: TrimPolicy)
    requires Ordered(kms)
    ensures Resolve(kms, policy) == Success(kms)
  {
    assert Sorting.SortedBy(kms, Start) by {
      forall i, j | 0 <= i < j < |kms| ensures Start(kms[i]) <= Start(kms[j]) {
        assert NonEmpty(kms[i]);
      }
    }
    Sorting.SortBySorted(kms, Start);
    ResolveFromOrderedInput(kms, |kms|, policy);
    assert kms[|kms|..] == [];
  }

  /** Resolving twice is resolving once. */
  lemma ResolveIdempotent(ranges: seq<KeyMoment>, policy: TrimPolicy)
    requires forall i :: 0 <= i < |ranges| ==> NonEmpty(ranges[i])
    requires Resolve(ranges, policy).Success?
    ensures Resolve(Resolve(ranges, policy).value, policy) == Resolve(ranges, policy)
  {
    ResolveProperties(ranges, policy);
    ResolveKeepsOrdered(Resolve(ranges, policy).value, policy);
  }

  // ---------------------------------------------------------------- examples

  /** A moment with a title and a range, and empty notes, for the examples below. */
  function Moment(title: string, start: int, end: int): KeyMoment {
    KeyMoment(title, SentenceRange(start, end), "", "", false)
  }

  /**
   * Moments [0,1] and [3,4], the first edited to [0,3]: the edited moment only
   * touches the start of the next one, so that one is trimmed to [4,4], not folded.
   */
  lemma ResolveTrimExample(policy: TrimPolicy)
    ensures Resolve([Moment("a", 0, 3), Moment("b", 3, 4)], policy)
         == Success([Moment("a", 0, 3), Moment("b", 4, 4)])
  {
    var a, b := Moment("a", 0, 3), Moment("b", 3, 4);
    var input := [a, b];
    assert Sorting.SortedBy(input, Start);
    Sorting.SortBySorted(input, Start);
    assert Step(b, [], policy) == Success([b]);
    assert Absorb(a, [b]) == (a, [b]);
    assert TrimmedStart(policy, b, 3) == 4;
    assert [a, Moment("b", 4, 4)] + [b][1..] == [a, Moment("b", 4, 4)];
    assert ResolveFrom(input, 2, [], policy) == ResolveFrom(input, 1, [b], policy);
    assert ResolveFrom(input, 1, [b], policy) == ResolveFrom(input, 0, [a, Moment("b", 4, 4)], policy);
  }

  /**
   * Moments [0,2] and [1,4]: the one starting first keeps its range and the
   * other is cut back to [3,4], whichever of the two was edited last.
   */
  lemma ResolveEarlierStartWins(policy: TrimPolicy)
    ensures Resolve([Moment("a", 0, 2), Moment("b", 1, 4)], policy)
         == Success([Moment("a", 0, 2), Moment("b", 3, 4)])
  {
    var a, b := Moment("a", 0, 2), Moment("b", 1, 4);
    var input := [a, b];
    assert Sorting.SortedBy(input, Start);
    Sorting.SortBySorted(input, Start);
    assert Step(b, [], policy) == Success([b]);
    assert Absorb(a, [b]) == (a, [b]);
    assert TrimmedStart(policy, b, 2) == 3;
    assert [a, Moment("b", 3, 4)] + [b][1..] == [a, Moment("b", 3, 4)];
    assert ResolveFrom(input, 2, [], policy) == ResolveFrom(input, 1, [b], policy);
    assert ResolveFrom(input, 1, [b], policy) == ResolveFrom(input, 0, [a, Moment("b", 3, 4)], policy);
  }

  /** [0,4] reaches the end of the last moment [3,4]: everything is swallowed and the source throws. */
  lemma ResolveCrashExample(policy: TrimPolicy)
    ensures Resolve([Moment("a", 0, 4), Moment("b", 3, 4)], policy) == Failure(EmptyStack)
  {
    var a, b := Moment("a", 0, 4), Moment("b", 3, 4);
    var input := [a, b];
    assert Sorting.SortedBy(input, Start);
    Sorting.SortBySorted(input, Start);
    assert Step(b, [], policy) == Success([b]);
    assert Absorb(a, [b]).1 == [] by {
      assert [b][1..] == [];
    }
    assert ResolveFrom(input, 2, [], policy) == ResolveFrom(input, 1, [b], policy);
  }

  /**
   * [0,5] swallows [3,4]; the source then sets the start of [10,12] to 6 although
   * it never overlapped, so sentences 6 to 9, covered by no moment before, now
   * belong to the last one.
   */
  lemma ResolveGrowsAcrossGap(input: seq<KeyMoment>)
    requires input == [Moment("a", 0, 5), Moment("b", 3, 4), Moment("c", 10, 12)]
    ensures Resolve(input, Unconditional) == Success([MergedExample(), Moment("c", 6, 12)])
    ensures !Covers(input, 7) && Covers(Resolve(input, Unconditional).value, 7)
  {
    FoldExample(input, Unconditional);
    GapExample(input, [MergedExample(), Moment("c", 6, 12)]);
  }

  /** Sentence 7 lies in no moment of the edited list, and in the last one of the result. */
  lemma GapExample(input: seq<KeyMoment>, out: seq<KeyMoment>)
    requires input == [Moment("a", 0, 5), Moment("b", 3, 4), Moment("c", 10, 12)]
    requires out == [MergedExample(), Moment("c", 6, 12)]
    ensures !Covers(input, 7) && Covers(out, 7)
  {
    assert InRange(out[1], 7) && out[1] in out;
    forall m | m in input ensures !InRange(m, 7) {
    }
  }

  /** With the overlap-only trim the same edit leaves [10,12] where it was. */
  lemma ResolveOverlapOnlyKeepsGap()
    ensures var input := [Moment("a", 0, 5), Moment("b", 3, 4), Moment("c", 10, 12)];
      Resolve(input, OverlapOnly) == Success([MergedExample(), Moment("c", 10, 12)])
  {
    var input := [Moment("a", 0, 5), Moment("b", 3, 4), Moment("c", 10, 12)];
    FoldExample(input, OverlapOnly);
  }

  /** "a" and "b" folded together, with the range of "a". */
  function MergedExample(): KeyMoment {
    MergeKeyMoments(Moment("a", 0, 5), Moment("b", 3, 4)).(sentenceRange := SentenceRange(0, 5))
  }

  /** The three iterations of the examples above. */
  lemma FoldExample(input: seq<KeyMoment>, policy: TrimPolicy)
    requires input == [Moment("a", 0, 5), Moment("b", 3, 4), Moment("c", 10, 12)]
    ensures Resolve(input, policy)
         == Success([MergedExample(), Moment("c", TrimmedStart(policy, Moment("c", 10, 12), 5), 12)])
  {
    assert Sorting.SortBy(input, Start) == input by {
      assert Sorting.SortedBy(input, Start);
      Sorting.SortBySorted(input, Start);
    }
    FoldExampleSteps(input, policy);
  }

  lemma FoldExampleSteps(input: seq<KeyMoment>, policy: TrimPolicy)
    requires input == [Moment("a", 0, 5), Moment("b", 3, 4), Moment("c", 10, 12)]
    ensures ResolveFrom(input, 3, [], policy)
         == Success([MergedExample(), Moment("c", TrimmedStart(policy, Moment("c", 10, 12), 5), 12)])
  {
    var a, b, c := input[0], input[1], input[2];
    var last := [MergedExample(), Moment("c", TrimmedStart(policy, c, 5), 12)];
    assert Step(c, [], policy) == Success([c]) by {
      assert [c] + [] == [c];
    }
    assert Step(b, [c], policy) == Success([b, c]) by {
      assert End(b) < Start(c);
      assert [b] + [c] == [b, c];
    }
    FoldExampleSwallow(a, b, c, policy);
    ResolveFromStep(input, 3, [], policy, [c]);
    ResolveFromStep(input, 2, [c], policy, [b, c]);
    ResolveFromStep(input, 1, [b, c], policy, last);
  }

  lemma ResolveFromStep(sorted: seq<KeyMoment>, k: nat, stack: seq<KeyMoment>, policy: TrimPolicy, next: seq<KeyMoment>)
    requires 0 < k <= |sorted|
    requires Step(sorted[k - 1], stack, policy) == Success(next)
    ensures ResolveFrom(sorted, k, stack, policy) == ResolveFrom(sorted, k - 1, next, policy)
  {
  }

  /** The last iteration: "a" swallows "b" and trims "c". */
  lemma FoldExampleSwallow(a: KeyMoment, b: KeyMoment, c: KeyMoment, policy: TrimPolicy)
    requires a == Moment("a", 0, 5) && b == Moment("b", 3, 4) && c == Moment("c", 10, 12)
    ensures Step(a, [b, c], policy) == Success([MergedExample(), Moment("c", TrimmedStart(policy, c, 5), 12)])
  {
    assert Absorb(MergedExample(), [c]) == (MergedExample(), [c]);
    assert Absorb(a, [b, c]) == (MergedExample(), [c]) by {
      assert [b, c][1..] == [c];
    }
    var ts := TrimmedStart(policy, c, 5);
    assert [MergedExample(), Moment("c", ts, 12)] + [c][1..] == [MergedExample(), Moment("c", ts, 12)];
  }
}
