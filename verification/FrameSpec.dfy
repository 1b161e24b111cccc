/** The allocator on abstract values: a set of busy frames and a counter, what
    one call does to them, and what holds over every run of calls. */
module FrameSpec {
  import opened Bits
  import opened FrameBitmap
  import opened MemoryMap

  /** Indexes of frames the bitmap can name without overflowing an address. */
  const MAX_FRAMES := 0x10_0000

  datatype Frames = Frames(max: nat, used: Word, busy: set<nat>) {
    /** Frame 0 is never clear, since its address would read as null. */
    ghost predicate Valid() {
      max < MAX_FRAMES && (max > 0 ==> 0 in busy)
    }

    /** The frames that could still be handed out. */
    ghost function Clear(): set<nat> {
      set f: nat | f < max && f !in busy
    }

    /** What the unsigned test `used_frames_ - max_frames_ <= 0` comes to. */
    ghost predicate LimitReached() {
      used == max
    }

    /** `AllocFrame`: the new state and the returned address (0 is null). */
    ghost function Alloc(): (Frames, nat) {
      if LimitReached() then (this, 0)
      else
        var p := LeastClear(busy, 0, max);
        if p == -1 then (this, 0)
        else (Frames(max, Wrap32(used + 1), busy + {p}), FRAME_SIZE * p)
    }

    /** `FreeFrame`. */
    ghost function Free(frame: nat): Frames {
      if frame == 0 then this
      else Frames(max, Wrap32(used - 1), busy - {frame / FRAME_SIZE})
    }
  }

  lemma UnsignedLimitTest(used: Word, max: Word)
    ensures Wrap32(used - max) <= 0 <==> used == max
  {
  }

  // ------------------------------------------------------------- one call

  /** A successful call takes the least clear frame; a null result changes nothing. */
  lemma AllocTakesLeastClear(s: Frames)
    requires s.Valid()
    ensures var (s', a) := s.Alloc();
            if s.LimitReached() || s.Clear() == {} then s' == s && a == 0
            else
              var f := a / FRAME_SIZE;
              && a == FRAME_SIZE * f && f in s.Clear() && (forall g :: g in s.Clear() ==> f <= g)
              && s' == Frames(s.max, Wrap32(s.used + 1), s.busy + {f})
              && s'.Clear() == s.Clear() - {f}
  {
    LeastClearFinds(s.busy, 0, s.max);
    var p := LeastClear(s.busy, 0, s.max);
    if p != -1 { assert p as nat in s.Clear(); }
  }

  // ----------------------------------------------------- runs of the system

  datatype Op = AllocOp | FreeOp(frame: nat)

  predicate Aligned(a: nat) {
    a == FRAME_SIZE * (a / FRAME_SIZE)
  }

  /** The allocator together with the frames handed out and not yet given back. */
  datatype System = System(frames: Frames, live: set<nat>) {
    /** `a` is an address that `AllocFrame` returned and that was not freed since. */
    ghost predicate Live(a: nat) {
      Aligned(a) && a / FRAME_SIZE in live
    }

    /** `FreeFrame` is documented only for addresses that `AllocFrame` returned. */
    ghost predicate Legal(op: Op) {
      op.FreeOp? ==> op.frame == 0 || Live(op.frame)
    }

    ghost function Step(op: Op): System {
      match op
      case AllocOp =>
        var (s, a) := frames.Alloc();
        System(s, if a == 0 then live else live + {a / FRAME_SIZE})
      case FreeOp(a) =>
        System(frames.Free(a), if a == 0 then live else live - {a / FRAME_SIZE})
    }
  }

  /** Nothing has been handed out yet. */
  ghost function Start(s0: Frames): System {
    System(s0, {})
  }

  ghost predicate LegalRun(sys: System, ops: seq<Op>)
    decreases |ops|
  {
    ops == [] || (sys.Legal(ops[0]) && LegalRun(sys.Step(ops[0]), ops[1..]))
  }

  ghost function Run(sys: System, ops: seq<Op>): System
    decreases |ops|
  {
    if ops == [] then sys else Run(sys.Step(ops[0]), ops[1..])
  }

  lemma RunCons(sys: System, op: Op, rest: seq<Op>)
    ensures LegalRun(sys, [op] + rest) <==> sys.Legal(op) && LegalRun(sys.Step(op), rest)
    ensures Run(sys, [op] + rest) == Run(sys.Step(op), rest)
  {
    assert ([op] + rest)[1..] == rest;
  }

  /** Memory is split into the frames reserved in `s0`, the live ones and the clear
      ones; the counter is that of `s0` plus the number of live frames. */
  ghost predicate Partitioned(s0: Frames, sys: System) {
    && sys.frames.max == s0.max
    && sys.live <= s0.Clear()
    && sys.frames.busy == s0.busy + sys.live
    && sys.frames.used == Wrap32(s0.used + |sys.live|)
  }

  lemma OneMoreLive(s0: Frames, sys: System, f: nat)
    requires Partitioned(s0, sys) && f in sys.frames.Clear()
    ensures f !in sys.live && f in s0.Clear()
    ensures Partitioned(s0, System(Frames(sys.frames.max, Wrap32(sys.frames.used + 1), sys.frames.busy + {f}),
                                   sys.live + {f}))
  {
    OneMoreBusy(s0, sys, f);
    OneMore(sys.live, f);
    CountUp(s0.used, |sys.live|, |sys.live + {f}|);
  }

  lemma OneMoreBusy(s0: Frames, sys: System, f: nat)
    requires Partitioned(s0, sys) && f in sys.frames.Clear()
    ensures f !in sys.live && f in s0.Clear()
    ensures sys.frames.busy + {f} == s0.busy + (sys.live + {f})
  {
    assert f !in s0.busy + sys.live;
  }

  lemma OneMore(live: set<nat>, f: nat)
    requires f !in live
    ensures |live + {f}| == |live| + 1
  {
  }

  lemma CountUp(u: int, n: nat, m: nat)
    requires m == n + 1
    ensures Wrap32(Wrap32(u + n) + 1) == Wrap32(u + m)
  {
    WrapInc(u, n);
  }

  lemma AllocPartitioned(s0: Frames, sys: System)
    requires s0.Valid() && Partitioned(s0, sys)
    ensures Partitioned(s0, sys.Step(AllocOp))
    ensures !sys.frames.LimitReached() && sys.frames.Clear() != {} ==>
              |sys.Step(AllocOp).live| == |sys.live| + 1
  {
    AllocTakesLeastClear(sys.frames);
    var a := sys.frames.Alloc().1;
    if a != 0 {
      OneMoreLive(s0, sys, a / FRAME_SIZE);
    }
  }

  lemma FreePartitioned(s0: Frames, sys: System, a: nat)
    requires Partitioned(s0, sys) && sys.Legal(FreeOp(a))
    ensures Partitioned(s0, sys.Step(FreeOp(a)))
  {
    if a != 0 {
      var f := a / FRAME_SIZE;
      assert f in s0.Clear();
      assert s0.busy + sys.live - {f} == s0.busy + (sys.live - {f});
      var n, m := |sys.live|, |sys.live - {f}|;
      assert n == m + 1;
      CountDown(s0.used, n, m);
    }
  }

  lemma CountDown(u: int, n: nat, m: nat)
    requires n == m + 1
    ensures Wrap32(Wrap32(u + n) - 1) == Wrap32(u + m)
  {
    WrapStep(u + n, -1);
    assert u + n - 1 == u + m;
  }

  lemma StepPartitioned(s0: Frames, sys: System, op: Op)
    requires s0.Valid() && Partitioned(s0, sys) && sys.Legal(op)
    ensures Partitioned(s0, sys.Step(op))
  {
    match op
    case AllocOp => AllocPartitioned(s0, sys);
    case FreeOp(a) => FreePartitioned(s0, sys, a);
  }

  /** Safety over every legal run: the partition is kept. */
  lemma {:induction false} RunPartitioned(s0: Frames, sys: System, ops: seq<Op>)
    requires s0.Valid() && Partitioned(s0, sys) && LegalRun(sys, ops)
    ensures Partitioned(s0, Run(sys, ops))
    decreases |ops|
  {
    if ops == [] {
    } else {
      StepPartitioned(s0, sys, ops[0]);
      RunPartitioned(s0, sys.Step(ops[0]), ops[1..]);
    }
  }

  /** In every state a legal run reaches, the 4 KiB behind a live address lie inside
      memory, above frame 0, outside every frame reserved at the start and outside
      the 4 KiB behind every other live address. */
  lemma LiveRangesDisjoint(s0: Frames, ops: seq<Op>, a: nat, x: nat)
    requires s0.Valid() && LegalRun(Start(s0), ops)
    requires Run(Start(s0), ops).Live(a) && a <= x < a + FRAME_SIZE
    ensures FRAME_SIZE <= a && a + FRAME_SIZE <= FRAME_SIZE * s0.max
    ensures x / FRAME_SIZE !in s0.busy
    ensures forall b: nat :: Run(Start(s0), ops).Live(b) && b <= x < b + FRAME_SIZE ==> b == a
  {
    var sys := Run(Start(s0), ops);
    RunPartitioned(s0, Start(s0), ops);
    FrameOfByte(a, x);
    assert a / FRAME_SIZE in s0.Clear();
    forall b: nat | sys.Live(b) && b <= x < b + FRAME_SIZE ensures b == a {
      FrameOfByte(b, x);
    }
  }

  lemma FrameOfByte(a: nat, x: nat)
    requires Aligned(a) && a <= x < a + FRAME_SIZE
    ensures x / FRAME_SIZE == a / FRAME_SIZE
  {
  }

  /** The address of a successful call is new: no live address and no reserved frame. */
  lemma AllocReturnsFresh(s0: Frames, ops: seq<Op>)
    requires s0.Valid() && LegalRun(Start(s0), ops)
    ensures var sys := Run(Start(s0), ops);
            var a := sys.frames.Alloc().1;
            a != 0 ==> Aligned(a) && !sys.Live(a) && a / FRAME_SIZE in s0.Clear() && sys.Step(AllocOp).Live(a)
  {
    RunPartitioned(s0, Start(s0), ops);
    AllocTakesLeastClear(Run(Start(s0), ops).frames);
  }
}
