/** When allocation is complete over all runs, and what using up and giving back
    all of memory does. */
module FrameRuns {
  import opened Bits
  import opened MemoryMap
  import opened FrameSpec

  /** How many more net allocations the unsigned test lets through. */
  function Slack(s: Frames): nat {
    Wrap32(s.max - s.used)
  }

  /** `AllocFrame` would return null although a frame is clear. */
  ghost predicate RefusesEarly(s: Frames) {
    s.LimitReached() && s.Clear() != {}
  }

  lemma SubsetSize<T>(a: set<T>, b: set<T>)
    requires a <= b
    ensures |a| <= |b|
    ensures |b - a| == |b| - |a|
  {
    assert b == a + (b - a);
  }

  /** The clear frames shrink by exactly the live ones. */
  lemma ClearCount(s0: Frames, sys: System)
    requires Partitioned(s0, sys)
    ensures sys.frames.Clear() == s0.Clear() - sys.live
    ensures |sys.frames.Clear()| == |s0.Clear()| - |sys.live|
  {
    SubsetSize(sys.live, s0.Clear());
  }

  ghost predicate SameSum(s: Frames, t: Frames) {
    Wrap32(s.used + |s.Clear()|) == Wrap32(t.used + |t.Clear()|)
  }

  /** Conservation: over every legal run the counter plus the number of clear frames,
      as a 32-bit sum, does not change. */
  lemma CounterPlusClearConserved(s0: Frames, ops: seq<Op>)
    requires s0.Valid() && LegalRun(Start(s0), ops)
    ensures SameSum(Run(Start(s0), ops).frames, s0)
  {
    var start := Start(s0);
    StartPartitioned(s0);
    RunPartitioned(s0, start, ops);
    PartitionConserves(s0, Run(start, ops));
  }

  lemma StartPartitioned(s0: Frames)
    ensures Partitioned(s0, Start(s0))
  {
  }

  lemma PartitionConserves(s0: Frames, sys: System)
    requires Partitioned(s0, sys)
    ensures SameSum(sys.frames, s0)
  {
    ClearCount(s0, sys);
    PartitionUsed(s0, sys, |sys.live|);
    WrapSum(s0.used, |sys.live|, |sys.frames.Clear()|, |s0.Clear()|);
  }

  lemma PartitionUsed(s0: Frames, sys: System, n: nat)
    requires Partitioned(s0, sys) && n == |sys.live|
    ensures sys.frames.used == Wrap32(s0.used + n)
  {
  }

  lemma WrapSum(u: int, a: nat, b: nat, c: nat)
    requires c == a + b
    ensures Wrap32(Wrap32(u + a) + b) == Wrap32(u + c)
  {
    WrapStep(u + a, b);
    assert u + a + b == u + c;
  }

  lemma ClearBound(s: Frames)
    ensures |s.Clear()| <= s.max
  {
    FrameRangeMembers(0, s.max);
    SubsetSize(s.Clear(), FrameRange(0, s.max));
  }

  /** One successful allocation uses up one clear frame and one unit of slack. */
  lemma AllocUsesOne(s: Frames)
    requires s.Valid() && s.Clear() != {} && Slack(s) > 0
    ensures var (s', a) := s.Alloc();
            var f := a / FRAME_SIZE;
            && a != 0 && a == FRAME_SIZE * f && f in s.Clear() && (forall g :: g in s.Clear() ==> f <= g)
            && s' == Frames(s.max, Wrap32(s.used + 1), s.busy + {f})
            && s'.Clear() == s.Clear() - {f} && |s'.Clear()| == |s.Clear()| - 1
            && Slack(s') == Slack(s) - 1
  {
    AllocTakesLeastClear(s);
    SlackStep(s.max, s.used);
    assert 0 !in s.Clear();
  }

  lemma SlackReached(s0: Frames, sys: System)
    requires s0.Valid() && Partitioned(s0, sys) && |sys.live| == Slack(s0)
    ensures sys.frames.LimitReached()
  {
    assert sys.frames.used == s0.max;
  }

  lemma SlackStep(max: nat, used: Word)
    requires max < MAX_FRAMES && Wrap32(max - used) > 0
    ensures used != max
    ensures Wrap32(max - Wrap32(used + 1)) == Wrap32(max - used) - 1
  {
  }

  /** `k` calls of `AllocFrame` and no other. */
  predicate Allocs(ops: seq<Op>, k: nat) {
    |ops| == k && forall i :: 0 <= i < k ==> ops[i] == AllocOp
  }

  /** The clear frames that a call would take before `f`, and `f` itself. */
  ghost function UpTo(clear: set<nat>, f: nat): set<nat> {
    set g | g in clear && g <= f
  }

  lemma UpToLeast(s0: Frames, sys: System, f: nat)
    requires Partitioned(s0, sys) && f in sys.frames.Clear()
    requires forall g :: g in sys.frames.Clear() ==> f <= g
    ensures UpTo(s0.Clear(), f) <= sys.live + {f}
    ensures sys.live <= s0.Clear() && f !in sys.live && f in s0.Clear()
  {
    ClearCount(s0, sys);
    forall g | g in UpTo(s0.Clear(), f) ensures g in sys.live + {f} {
      assert g in s0.Clear() - sys.live ==> g in sys.frames.Clear();
    }
  }

  /** A call adds the first clear frame to the live ones, or nothing. */
  lemma AllocAddsLeast(s0: Frames, sys: System) returns (f: nat)
    requires s0.Valid() && Partitioned(s0, sys)
    ensures var next := sys.Step(AllocOp);
            if next.live == sys.live then sys.frames.LimitReached() || sys.frames.Clear() == {}
            else !sys.frames.LimitReached() && next.live == sys.live + {f} && UpTo(s0.Clear(), f) <= next.live
  {
    AllocTakesLeastClear(sys.frames);
    f := sys.frames.Alloc().1 / FRAME_SIZE;
    if !sys.frames.LimitReached() && sys.frames.Clear() != {} {
      UpToLeast(s0, sys, f);
      assert f != 0 && f in sys.live + {f};
    }
  }

  /** The live frames are the first ones of those clear at the start. */
  ghost predicate Front(s0: Frames, sys: System) {
    forall g, f :: g in s0.Clear() && f in sys.live && g <= f ==> g in sys.live
  }

  lemma AllocFront(s0: Frames, sys: System)
    requires s0.Valid() && Partitioned(s0, sys) && Front(s0, sys)
    ensures Front(s0, sys.Step(AllocOp))
  {
    var next := sys.Step(AllocOp);
    var f := AllocAddsLeast(s0, sys);
    forall g, h | g in s0.Clear() && h in next.live && g <= h ensures g in next.live {
      if h !in sys.live { assert g in UpTo(s0.Clear(), f); }
    }
  }

  /** The partition holds and the first frames went out first. */
  ghost predicate InOrder(s0: Frames, sys: System) {
    s0.Valid() && Partitioned(s0, sys) && Front(s0, sys)
  }

  /** `k` more calls will find a clear frame and get past the limit test. */
  ghost predicate Affords(s: Frames, k: nat) {
    k <= |s.Clear()| && k <= Slack(s)
  }

  /** The first of `k` allocations leaves enough for the others. */
  lemma FirstAlloc(s0: Frames, sys: System, next: System, k: nat)
    requires InOrder(s0, sys) && k > 0 && Affords(sys.frames, k) && next == sys.Step(AllocOp)
    ensures InOrder(s0, next) && Affords(next.frames, k - 1) && |next.live| == |sys.live| + 1
  {
    assert sys.frames.Clear() != {};
    AllocUsesOne(sys.frames);
    AllocPartitioned(s0, sys);
    AllocFront(s0, sys);
  }

  /** `ops` are `k` calls of `AllocFrame`, legal one after the other, that lead to `end`. */
  ghost predicate Leads(sys: System, ops: seq<Op>, k: nat, end: System) {
    Allocs(ops, k) && LegalRun(sys, ops) && end == Run(sys, ops)
  }

  lemma LeadsCons(sys: System, next: System, rest: seq<Op>, k: nat, end: System)
    requires k > 0 && next == sys.Step(AllocOp) && Leads(next, rest, k - 1, end)
    ensures Leads(sys, [AllocOp] + rest, k, end)
  {
    RunCons(sys, AllocOp, rest);
  }

  /** As long as frames and slack last, every call in a row hands out the first one. */
  lemma {:induction false} AllocsRun(s0: Frames, sys: System, k: nat) returns (ops: seq<Op>, end: System)
    requires InOrder(s0, sys) && Affords(sys.frames, k)
    ensures Leads(sys, ops, k, end) && InOrder(s0, end) && |end.live| == |sys.live| + k
    decreases k
  {
    if k == 0 {
      ops, end := [], sys;
    } else {
      var next := sys.Step(AllocOp);
      FirstAlloc(s0, sys, next, k);
      ops, end := AllocsRun(s0, next, k - 1);
      LeadsCons(sys, next, ops, k, end);
      ops := [AllocOp] + ops;
    }
  }

  /** On no legal run does `AllocFrame` refuse while a frame is clear. */
  ghost predicate Complete(s0: Frames) {
    forall ops :: LegalRun(Start(s0), ops) ==> !RefusesEarly(Run(Start(s0), ops).frames)
  }

  /** Allocation is complete exactly when the counter starts at least as far from the
      limit as there are clear frames. */
  lemma AllocCompleteIff(s0: Frames)
    requires s0.Valid()
    ensures Complete(s0) <==> Slack(s0) >= |s0.Clear()|
  {
    var start := Start(s0);
    assert Partitioned(s0, start);
    if Slack(s0) >= |s0.Clear()| {
      forall ops | LegalRun(start, ops) ensures !RefusesEarly(Run(start, ops).frames) {
        RunPartitioned(s0, start, ops);
        NoEarlyRefusal(s0, Run(start, ops));
      }
    } else {
      var ops := EarlyRefusal(s0);
    }
  }

  /** With less slack, as many calls as there is slack end in a refusal. */
  lemma EarlyRefusal(s0: Frames) returns (ops: seq<Op>)
    requires s0.Valid() && Slack(s0) < |s0.Clear()|
    ensures Allocs(ops, Slack(s0)) && LegalRun(Start(s0), ops)
    ensures RefusesEarly(Run(Start(s0), ops).frames)
  {
    var end;
    ops, end := AllocsRun(s0, Start(s0), Slack(s0));
    ClearCount(s0, end);
    SlackReached(s0, end);
  }

  lemma NoEarlyRefusal(s0: Frames, sys: System)
    requires s0.Valid() && Partitioned(s0, sys) && Slack(s0) >= |s0.Clear()|
    ensures !RefusesEarly(sys.frames)
  {
    ClearCount(s0, sys);
    ClearBound(s0);
    if sys.frames.LimitReached() {
      assert sys.frames.used == sys.frames.max;
      assert |sys.live| == Slack(s0);
    }
  }

  /** From such a state null means that nothing is clear. */
  lemma NullMeansFull(s0: Frames, ops: seq<Op>)
    requires s0.Valid() && Slack(s0) >= |s0.Clear()|
    requires LegalRun(Start(s0), ops)
    ensures var s := Run(Start(s0), ops).frames;
            s.Alloc().1 == 0 <==> forall f: nat :: f < s0.max ==> f in s.busy
  {
    var sys := Run(Start(s0), ops);
    RunPartitioned(s0, Start(s0), ops);
    NoEarlyRefusal(s0, sys);
    AllocTakesLeastClear(sys.frames);
    ClearEmpty(sys.frames);
  }

  lemma ClearEmpty(s: Frames)
    ensures s.Clear() == {} <==> forall f: nat :: f < s.max ==> f in s.busy
  {
    if f: nat :| f < s.max && f !in s.busy {
      assert f in s.Clear();
    }
  }

  /** ... and the counter counts the live frames without ever wrapping. */
  lemma CounterNeverWraps(s0: Frames, ops: seq<Op>)
    requires s0.Valid() && s0.used <= s0.max && Slack(s0) >= |s0.Clear()|
    requires LegalRun(Start(s0), ops)
    ensures var sys := Run(Start(s0), ops);
            sys.frames.used == s0.used + |sys.live| <= s0.max
  {
    RunPartitioned(s0, Start(s0), ops);
    CounterExact(s0, Run(Start(s0), ops));
  }

  lemma CounterExact(s0: Frames, sys: System)
    requires s0.Valid() && Partitioned(s0, sys) && s0.used <= s0.max && Slack(s0) >= |s0.Clear()|
    ensures sys.frames.used == s0.used + |sys.live| <= s0.max
  {
    ClearCount(s0, sys);
    assert |sys.live| <= |s0.Clear()| <= s0.max - s0.used;
  }

  // ------------------------------------------------ which frames are ever handed out

  /** Some run of the system has frame `f` handed out. */
  ghost predicate HandedOut(s0: Frames, f: nat) {
    exists ops :: LegalRun(Start(s0), ops) && f in Run(Start(s0), ops).live
  }

  /** A frame is handed out on some run exactly when it is clear at the start and no
      more frames precede it than the limit test lets through. */
  lemma HandedOutIff(s0: Frames, f: nat)
    requires s0.Valid()
    ensures HandedOut(s0, f) <==> f in s0.Clear() && |UpTo(s0.Clear(), f)| <= Slack(s0)
  {
    if ops :| LegalRun(Start(s0), ops) && f in Run(Start(s0), ops).live {
      RunInReach(s0, Start(s0), ops);
    }
    if f in s0.Clear() && |UpTo(s0.Clear(), f)| <= Slack(s0) {
      var ops := AllocsReach(s0, f);
    }
  }

  /** Every live frame was within reach of the limit test when it was handed out. */
  ghost predicate InReach(s0: Frames, sys: System) {
    && Partitioned(s0, sys) && |sys.live| <= Slack(s0)
    && forall f :: f in sys.live ==> |UpTo(s0.Clear(), f)| <= Slack(s0)
  }

  lemma {:induction false} RunInReach(s0: Frames, sys: System, ops: seq<Op>)
    requires s0.Valid() && InReach(s0, sys) && LegalRun(sys, ops)
    ensures InReach(s0, Run(sys, ops))
    decreases |ops|
  {
    if ops == [] {
    } else {
      StepPartitioned(s0, sys, ops[0]);
      if ops[0].AllocOp? {
        AllocInReach(s0, sys);
      } else if ops[0].frame != 0 {
        SubsetSize(sys.live - {ops[0].frame / FRAME_SIZE}, sys.live);
      }
      RunInReach(s0, sys.Step(ops[0]), ops[1..]);
    }
  }

  lemma AllocInReach(s0: Frames, sys: System)
    requires s0.Valid() && InReach(s0, sys)
    ensures InReach(s0, sys.Step(AllocOp))
  {
    AllocPartitioned(s0, sys);
    var next := sys.Step(AllocOp);
    var f := AllocAddsLeast(s0, sys);
    if next.live != sys.live {
      if |sys.live| == Slack(s0) { SlackReached(s0, sys); }
      SubsetSize(UpTo(s0.Clear(), f), sys.live + {f});
    }
  }

  /** As many calls in a row as there are clear frames up to `f` hand it out. */
  lemma AllocsReach(s0: Frames, f: nat) returns (ops: seq<Op>)
    requires s0.Valid() && f in s0.Clear() && |UpTo(s0.Clear(), f)| <= Slack(s0)
    ensures Allocs(ops, |UpTo(s0.Clear(), f)|) && LegalRun(Start(s0), ops)
    ensures Run(Start(s0), ops).Live(FRAME_SIZE * f) && f in Run(Start(s0), ops).live
  {
    SubsetSize(UpTo(s0.Clear(), f), s0.Clear());
    var end;
    ops, end := AllocsRun(s0, Start(s0), |UpTo(s0.Clear(), f)|);
    FrontCovers(s0, end, f);
    FrameAddress(f);
  }

  lemma FrameAddress(f: nat)
    ensures Aligned(FRAME_SIZE * f) && FRAME_SIZE * f / FRAME_SIZE == f
  {
  }

  lemma FrontCovers(s0: Frames, sys: System, f: nat)
    requires Partitioned(s0, sys) && Front(s0, sys) && f in s0.Clear()
    requires |sys.live| == |UpTo(s0.Clear(), f)|
    ensures f in sys.live
  {
    var first := UpTo(s0.Clear(), f);
    assert f in first;
    if f !in sys.live {
      SubsetSize(sys.live, first - {f});
      assert false;
    }
  }

  // ------------------------------------------------ using up and giving back

  ghost function AllocMany(s: Frames, k: nat): (Frames, seq<nat>)
    decreases k
  {
    if k == 0 then (s, [])
    else
      var (s1, a) := s.Alloc();
      var (s2, rest) := AllocMany(s1, k - 1);
      (s2, [a] + rest)
  }

  ghost function FreeMany(s: Frames, addresses: seq<nat>): Frames
    decreases |addresses|
  {
    if addresses == [] then s else FreeMany(s.Free(addresses[0]), addresses[1..])
  }

  ghost predicate Increasing(addresses: seq<nat>) {
    forall i, j :: 0 <= i < j < |addresses| ==> addresses[i] < addresses[j]
  }

  ghost function FramesIn(addresses: seq<nat>): set<nat> {
    if addresses == [] then {} else {addresses[0] / FRAME_SIZE} + FramesIn(addresses[1..])
  }

  lemma {:induction false} FramesInMember(addresses: seq<nat>, f: nat)
    ensures f in FramesIn(addresses) <==> exists a :: a in addresses && a / FRAME_SIZE == f
  {
    if addresses == [] {
    } else {
      var head, rest := addresses[0], addresses[1..];
      FramesInMember(rest, f);
      assert addresses == [head] + rest && head in addresses;
      if f in FramesIn(rest) {
        var a :| a in rest && a / FRAME_SIZE == f;
        assert a in addresses;
      }
    }
  }

  ghost predicate Addresses(got: seq<nat>) {
    forall a :: a in got ==> a != 0 && Aligned(a)
  }

  /** What `k` allocations in a row do. */
  ghost predicate Takes(s: Frames, k: nat, s': Frames, got: seq<nat>) {
    && |got| == k && Increasing(got) && Addresses(got) && FramesIn(got) <= s.Clear()
    && s' == Frames(s.max, Wrap32(s.used + k), s.busy + FramesIn(got))
  }

  lemma {:induction false} AllocManyTakes(s: Frames, k: nat)
    requires s.Valid() && k <= |s.Clear()| && k <= Slack(s)
    ensures Takes(s, k, AllocMany(s, k).0, AllocMany(s, k).1)
    decreases k
  {
    if k == 0 {
      TakesNothing(s);
    } else {
      assert s.Clear() != {};
      AllocUsesOne(s);
      var (s1, a) := s.Alloc();
      AllocManyTakes(s1, k - 1);
      var (s2, rest) := AllocMany(s1, k - 1);
      TakesStep(s, k, a, s1, s2, rest);
      assert AllocMany(s, k) == (s2, [a] + rest);
    }
  }

  lemma TakesNothing(s: Frames)
    ensures Takes(s, 0, s, [])
  {
    assert s.busy + FramesIn([]) == s.busy;
  }

  lemma TakesStep(s: Frames, k: nat, a: nat, s1: Frames, s2: Frames, rest: seq<nat>)
    requires k > 0 && Takes(s1, k - 1, s2, rest)
    requires a != 0 && Aligned(a) && a / FRAME_SIZE in s.Clear()
    requires forall g :: g in s.Clear() ==> a / FRAME_SIZE <= g
    requires s1 == Frames(s.max, Wrap32(s.used + 1), s.busy + {a / FRAME_SIZE})
    requires s1.Clear() == s.Clear() - {a / FRAME_SIZE}
    ensures Takes(s, k, s2, [a] + rest)
  {
    AboveLeast(s.Clear(), a, rest);
    ConsIncreasing(a, rest);
    TakeOneThenMany(s, a, s1, rest, s2, k);
    assert Addresses([a] + rest);
  }

  lemma TakeOneThenMany(s: Frames, a: nat, s1: Frames, rest: seq<nat>, s2: Frames, k: nat)
    requires k == |rest| + 1
    requires s1 == Frames(s.max, Wrap32(s.used + 1), s.busy + {a / FRAME_SIZE})
    requires s2 == Frames(s1.max, Wrap32(s1.used + (k - 1)), s1.busy + FramesIn(rest))
    requires a / FRAME_SIZE in s.Clear() && FramesIn(rest) <= s1.Clear()
    ensures s2 == Frames(s.max, Wrap32(s.used + k), s.busy + FramesIn([a] + rest))
    ensures FramesIn([a] + rest) <= s.Clear()
  {
    FramesInCons(a, rest);
    WrapStep(s.used + 1, k - 1);
    assert s.used + 1 + (k - 1) == s.used + k;
    assert s.busy + FramesIn([a] + rest) == s.busy + {a / FRAME_SIZE} + FramesIn(rest);
    assert s1.Clear() <= s.Clear();
  }

  lemma AboveLeast(clear: set<nat>, a: nat, rest: seq<nat>)
    requires Aligned(a) && (forall g :: g in clear ==> a / FRAME_SIZE <= g)
    requires FramesIn(rest) <= clear - {a / FRAME_SIZE} && Addresses(rest)
    ensures forall b :: b in rest ==> a < b
  {
    forall b | b in rest ensures a < b {
      FramesInMember(rest, b / FRAME_SIZE);
      assert Aligned(a) && Aligned(b);
    }
  }

  lemma FramesInCons(a: nat, rest: seq<nat>)
    ensures FramesIn([a] + rest) == {a / FRAME_SIZE} + FramesIn(rest)
  {
    assert ([a] + rest)[1..] == rest;
  }

  lemma ConsIncreasing(a: nat, rest: seq<nat>)
    requires Increasing(rest) && forall b :: b in rest ==> a < b
    ensures Increasing([a] + rest)
  {
    var all := [a] + rest;
    forall i, j | 0 <= i < j < |all| ensures all[i] < all[j] {
      assert all[j] == rest[j - 1] && rest[j - 1] in rest;
      assert i > 0 ==> all[i] == rest[i - 1];
    }
  }

  lemma {:induction false} FreeManyGives(s: Frames, addresses: seq<nat>)
    requires forall a :: a in addresses ==> a != 0
    ensures FreeMany(s, addresses) ==
            Frames(s.max, Wrap32(s.used - |addresses|), s.busy - FramesIn(addresses))
    decreases |addresses|
  {
    if addresses == [] {
      assert s.busy - FramesIn([]) == s.busy;
    } else {
      var a, rest := addresses[0], addresses[1..];
      assert addresses == [a] + rest;
      assert a in addresses && forall b :: b in rest ==> b in addresses;
      FreeManyGives(s.Free(a), rest);
      WrapStep(s.used - 1, -|rest|);
      assert s.busy - FramesIn(addresses) == s.busy - {a / FRAME_SIZE} - FramesIn(rest);
    }
  }

  lemma {:induction false} TakesDistinct(got: seq<nat>)
    requires Increasing(got) && Addresses(got)
    ensures |FramesIn(got)| == |got|
  {
    if got == [] {
    } else {
      var a, rest := got[0], got[1..];
      assert forall b :: b in rest ==> b in got;
      TakesDistinct(rest);
      FramesInMember(rest, a / FRAME_SIZE);
      forall b | b in rest ensures b / FRAME_SIZE != a / FRAME_SIZE {
        assert a < b && Aligned(a) && Aligned(b);
      }
    }
  }

  /** With `k` clear frames, `k` allocations return all of them in increasing order
      and the next returns null. */
  lemma ExhaustionIsOrdered(s: Frames)
    requires s.Valid() && Slack(s) >= |s.Clear()|
    ensures var (s', got) := AllocMany(s, |s.Clear()|);
            && Increasing(got) && FramesIn(got) == s.Clear() && s'.Clear() == {}
            && s'.Alloc() == (s', 0)
  {
    var k := |s.Clear()|;
    AllocManyTakes(s, k);
    var (s', got) := AllocMany(s, k);
    TakesDistinct(got);
    SubsetSize(FramesIn(got), s.Clear());
    assert s'.Clear() == s.Clear() - FramesIn(got);
    AllocTakesLeastClear(s');
  }

  /** Giving the frames back, in any order, restores the starting state. */
  lemma FreeingRestores(s: Frames, k: nat, order: seq<nat>)
    requires s.Valid() && k <= |s.Clear()| && k <= Slack(s)
    requires multiset(order) == multiset(AllocMany(s, k).1)
    ensures FreeMany(AllocMany(s, k).0, order) == s
  {
    AllocManyTakes(s, k);
    GiveBack(s, k, AllocMany(s, k).0, AllocMany(s, k).1, order);
  }

  lemma GiveBack(s: Frames, k: nat, s': Frames, got: seq<nat>, order: seq<nat>)
    requires Takes(s, k, s', got) && multiset(order) == multiset(got)
    ensures FreeMany(s', order) == s
  {
    SameElements(order, got);
    FreeManyGives(s', order);
    WrapBack(s.used, k, |order|);
    assert s'.busy - FramesIn(order) == s.busy;
  }

  lemma WrapBack(u: Word, k: nat, n: nat)
    requires n == k
    ensures Wrap32(Wrap32(u + k) - n) == u
  {
    WrapStep(u + k, -(k as int));
  }

  lemma SameElements(a: seq<nat>, b: seq<nat>)
    requires multiset(a) == multiset(b)
    ensures |a| == |b| && FramesIn(a) == FramesIn(b)
    ensures forall x :: x in a <==> x in b
  {
    assert |a| == |multiset(a)| == |multiset(b)| == |b|;
    forall x ensures x in a <==> x in b {
      assert x in a <==> x in multiset(a);
      assert x in b <==> x in multiset(b);
    }
    forall f: nat ensures f in FramesIn(a) <==> f in FramesIn(b) {
      FramesInMember(a, f);
      FramesInMember(b, f);
    }
  }
}
