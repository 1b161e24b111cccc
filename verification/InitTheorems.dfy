/** What `Init` achieves, for every memory map, kernel placement and prior content of
    the bitmap's memory, and when that is what its documentation promises. */
module InitTheorems {
  import opened Bits
  import opened MemoryMap
  import opened FrameSpec
  import opened FrameRuns
  import opened FrameInit

  /** Frame by frame, the outcome for an arbitrary prior bitmap content. */
  lemma InitMarks(before: set<nat>, max: Word, mmap: seq<MmapEntry>, k: KernelDescriptor, f: nat)
    ensures f in InitFrames(before, max, mmap, k).busy <==>
            || f in KernelFrames(k, BitmapWords(max))
            || (f == 0 && AnyAvailable(mmap))
            || (f !in AvailFrames(mmap) && (f < 8 * BitmapWords(max) || f in before))
  {
    FrameRangeMembers(0, 8 * BitmapWords(max));
  }

  /** The fill ends before frame `f`: it counts dwords where bytes are meant. */
  predicate PastFill(max: Word, f: nat) {
    8 * BitmapWords(max) <= f
  }

  /** The frames `Init` leaves clear: those some available entry names, and those past
      the filled part that were clear before; never frame 0, never the kernel's. */
  ghost function LeftClear(before: set<nat>, max: Word, mmap: seq<MmapEntry>, k: KernelDescriptor): set<nat> {
    set f: nat | 0 < f < max && f !in KernelFrames(k, BitmapWords(max))
                 && (f in AvailFrames(mmap) || (PastFill(max, f) && f !in before))
  }

  lemma InitLeavesClear(before: set<nat>, max: Word, mmap: seq<MmapEntry>, k: KernelDescriptor)
    ensures InitFrames(before, max, mmap, k).Clear() == LeftClear(before, max, mmap, k)
  {
    var s := InitFrames(before, max, mmap, k);
    forall f: nat | f < max ensures f in s.Clear() <==> f in LeftClear(before, max, mmap, k) {
      InitMarks(before, max, mmap, k, f);
      if f == 0 { SomeEntryAvailable(mmap, f); }
    }
  }

  /** The same said of the arguments alone. */
  lemma InitClearsIff(before: set<nat>, max: Word, mmap: seq<MmapEntry>, k: KernelDescriptor, f: nat)
    ensures f in InitFrames(before, max, mmap, k).Clear() <==> InitClears(before, max, mmap, k, f)
  {
    var p := BitmapWords(max);
    InitLeavesClear(before, max, mmap, k);
    AvailFramesIff(mmap, f);
    KernelMember(k, p, f, (k.physicalEnd - k.physicalStart) % 0x1_0000_0000);
    assert p == (max + 31) / 32;
  }

  lemma KernelMember(k: KernelDescriptor, p: nat, f: nat, size: nat)
    requires size == (k.physicalEnd - k.physicalStart) % 0x1_0000_0000
    ensures f in KernelFrames(k, p) <==>
            || k.physicalStart / 4096 <= f < k.physicalStart / 4096 + (if size < 4096 then 1 else size / 4096)
            || k.physicalEnd / 4096 <= f <= k.physicalEnd / 4096 + p / 4096
  {
    WrapIsMod(k.physicalEnd - k.physicalStart);
    FrameRangeMember(k.physicalStart / FRAME_SIZE, RegionCount(size), f);
    FrameRangeMember(k.physicalEnd / FRAME_SIZE, p / FRAME_SIZE + 1, f);
  }

  lemma SomeEntryAvailable(mmap: seq<MmapEntry>, f: nat)
    ensures f in AvailFrames(mmap) ==> AnyAvailable(mmap)
  {
    AvailFramesMember(mmap, f);
  }

  /** The order of the map's entries is irrelevant, overlaps or not. */
  lemma InitOrderIrrelevant(before: set<nat>, max: Word, a: seq<MmapEntry>, b: seq<MmapEntry>, k: KernelDescriptor)
    requires multiset(a) == multiset(b)
    ensures InitFrames(before, max, a, k) == InitFrames(before, max, b, k)
  {
    MapOrderIrrelevant(a, b);
  }

  // ------------------------------------------------ what must be reserved

  /** The map calls the byte at address `x` available, by all 64 bits of some entry, and
      it is no byte of the kernel image. */
  ghost predicate FreeByte(mmap: seq<MmapEntry>, k: KernelDescriptor, x: nat) {
    && (exists i :: 0 <= i < |mmap| && mmap[i].Available() && mmap[i].Describes(x))
    && !(k.physicalStart <= x < k.physicalEnd)
  }

  /** The frame may be handed out: every byte of it is free. */
  ghost predicate FreeFrame(mmap: seq<MmapEntry>, k: KernelDescriptor, f: nat) {
    forall x: nat :: x / FRAME_SIZE == f ==> FreeByte(mmap, k, x)
  }

  /** The frames initialisation must keep back: frame 0, the kernel's two regions, and
      every frame with a byte that is not free. */
  ghost predicate MustBeReserved(mmap: seq<MmapEntry>, k: KernelDescriptor, p: nat, f: nat) {
    f == 0 || f in KernelFrames(k, p) || !FreeFrame(mmap, k, f)
  }

  /** `Init` marks every frame it must, in memory whose marked frames were `before`. */
  ghost predicate Reserves(before: set<nat>, max: Word, mmap: seq<MmapEntry>, k: KernelDescriptor) {
    forall f: nat :: f < max && MustBeReserved(mmap, k, BitmapWords(max), f) ==>
      f in InitFrames(before, max, mmap, k).busy
  }

  /** `Init` marks every frame it must, whatever the bitmap's memory held. */
  ghost predicate AlwaysReserves(max: Word, mmap: seq<MmapEntry>, k: KernelDescriptor) {
    forall before :: Reserves(before, max, mmap, k)
  }

  /** Every frame in `frames` may be handed out, is frame 0 or is marked for the kernel. */
  ghost predicate Harmless(frames: set<nat>, max: Word, mmap: seq<MmapEntry>, k: KernelDescriptor) {
    forall f :: f in frames && 0 < f < max && f !in KernelFrames(k, BitmapWords(max)) ==> FreeFrame(mmap, k, f)
  }

  /** The frames of memory that the fill does not reach. */
  ghost function Unfilled(max: Word): set<nat> {
    set f: nat | f < max && PastFill(max, f)
  }

  /** `Init` reserves what it must exactly when the frames that available entries name, low
      halves only and rounded down, are harmless, and so are the frames the fill does not
      reach, as far as they were not marked before. */
  lemma InitReservesIff(before: set<nat>, max: Word, mmap: seq<MmapEntry>, k: KernelDescriptor)
    ensures Reserves(before, max, mmap, k) <==>
            Harmless(AvailFrames(mmap), max, mmap, k) && Harmless(Unfilled(max) - before, max, mmap, k)
  {
    var p, busy := BitmapWords(max), InitFrames(before, max, mmap, k).busy;
    forall f: nat | f < max
      ensures f in busy <==> f !in LeftClear(before, max, mmap, k)
    {
      InitLeavesClear(before, max, mmap, k);
      assert f in InitFrames(before, max, mmap, k).Clear() <==> f !in busy;
    }
    if Harmless(AvailFrames(mmap), max, mmap, k) && Harmless(Unfilled(max) - before, max, mmap, k) {
      forall f: nat | f < max && MustBeReserved(mmap, k, p, f) ensures f in busy {
      }
    }
    if Reserves(before, max, mmap, k) {
      forall f | f in AvailFrames(mmap) + (Unfilled(max) - before) && 0 < f < max && f !in KernelFrames(k, p)
        ensures FreeFrame(mmap, k, f)
      {
        assert f in LeftClear(before, max, mmap, k);
      }
    }
  }

  /** ... so it can be relied on, whatever the memory held, exactly when both kinds of
      frames are harmless. */
  lemma InitAlwaysReservesIff(max: Word, mmap: seq<MmapEntry>, k: KernelDescriptor)
    ensures AlwaysReserves(max, mmap, k) <==>
            Harmless(AvailFrames(mmap), max, mmap, k) && Harmless(Unfilled(max), max, mmap, k)
  {
    if Harmless(AvailFrames(mmap), max, mmap, k) && Harmless(Unfilled(max), max, mmap, k) {
      forall before ensures Reserves(before, max, mmap, k) { InitReservesIff(before, max, mmap, k); }
    } else {
      InitReservesIff({}, max, mmap, k);
      assert Unfilled(max) - {} == Unfilled(max);
      assert !Reserves({}, max, mmap, k);
    }
  }

  /** The entries' share of the condition holds when each is aligned and below 4 GiB, or
      too short to name a frame, and the image's end does not cut off its last page. */
  lemma AlignedEntriesHarmless(max: Word, mmap: seq<MmapEntry>, k: KernelDescriptor)
    requires forall i :: 0 <= i < |mmap| && mmap[i].Available() ==>
               mmap[i].lenLow < FRAME_SIZE || (mmap[i].addrHigh == 0 && mmap[i].addrLow % FRAME_SIZE == 0)
    requires k.physicalStart <= k.physicalEnd
    requires k.physicalStart % FRAME_SIZE <= k.physicalEnd % FRAME_SIZE
             || k.physicalEnd / FRAME_SIZE - k.physicalStart / FRAME_SIZE <= 1
    ensures Harmless(AvailFrames(mmap), max, mmap, k)
  {
    var p := BitmapWords(max);
    ImageReservedIff(k, p);
    forall f, x: nat | f in AvailFrames(mmap) && f !in KernelFrames(k, p) && x / FRAME_SIZE == f
      ensures FreeByte(mmap, k, x)
    {
      assert !ByteMarked(k, p, x);
      AvailFramesMember(mmap, f);
      var i :| 0 <= i < |mmap| && Releases(mmap[i], f);
      EntryOwnsItsFramesIff(mmap[i]);
      assert mmap[i].Describes(x);
    }
  }

  /** Past the filled part every frame is named by an available entry, is the kernel's or
      was marked before. */
  ghost predicate Settled(max: Word, mmap: seq<MmapEntry>, k: KernelDescriptor, before: set<nat>) {
    Unfilled(max) <= AvailFrames(mmap) + KernelFrames(k, BitmapWords(max)) + before
  }

  /** The frames that available entries name, but for frame 0 and the kernel's. */
  ghost function Named(max: Word, mmap: seq<MmapEntry>, k: KernelDescriptor): set<nat> {
    set f | f in AvailFrames(mmap) && 0 < f < max && f !in KernelFrames(k, BitmapWords(max))
  }

  /** `Init` leaves clear what the entries name, and nothing else, exactly when everything
      past the filled part is settled. */
  lemma InitClearsNamedIff(before: set<nat>, max: Word, mmap: seq<MmapEntry>, k: KernelDescriptor)
    ensures LeftClear(before, max, mmap, k) == Named(max, mmap, k) <==> Settled(max, mmap, k, before)
  {
    if Settled(max, mmap, k, before) {
      forall f: nat | f < max && PastFill(max, f)
        ensures f in AvailFrames(mmap) + KernelFrames(k, BitmapWords(max)) + before
      {
        assert f in Unfilled(max);
      }
    } else {
      var f :| f in Unfilled(max) && f !in AvailFrames(mmap) + KernelFrames(k, BitmapWords(max)) + before;
      assert f in LeftClear(before, max, mmap, k) && f !in Named(max, mmap, k);
    }
  }

  /** `Init` does not depend on what the bitmap's memory held, exactly when the map and the
      kernel settle every frame that the fill does not reach. */
  lemma InitIgnoresMemoryIff(max: Word, mmap: seq<MmapEntry>, k: KernelDescriptor)
    ensures (forall before :: LeftClear(before, max, mmap, k) == LeftClear({}, max, mmap, k)) <==>
            Settled(max, mmap, k, {})
  {
    if Settled(max, mmap, k, {}) {
      forall before ensures LeftClear(before, max, mmap, k) == LeftClear({}, max, mmap, k) {
        SettledLeavesSame(before, max, mmap, k);
      }
    } else {
      var f :| f in Unfilled(max) && f !in AvailFrames(mmap) + KernelFrames(k, BitmapWords(max));
      UnsettledLeaves(max, mmap, k, f);
    }
  }

  lemma SettledLeavesSame(before: set<nat>, max: Word, mmap: seq<MmapEntry>, k: KernelDescriptor)
    requires Settled(max, mmap, k, {})
    ensures LeftClear(before, max, mmap, k) == LeftClear({}, max, mmap, k)
  {
    forall f: nat | f < max && PastFill(max, f)
      ensures f in AvailFrames(mmap) || f in KernelFrames(k, BitmapWords(max))
    {
      assert f in Unfilled(max);
    }
  }

  lemma UnsettledLeaves(max: Word, mmap: seq<MmapEntry>, k: KernelDescriptor, f: nat)
    requires f in Unfilled(max) && f !in AvailFrames(mmap) + KernelFrames(k, BitmapWords(max))
    ensures LeftClear({f}, max, mmap, k) != LeftClear({}, max, mmap, k)
  {
    assert f in LeftClear({}, max, mmap, k) && f !in LeftClear({f}, max, mmap, k);
  }

  // ------------------------------------------------ the kernel's frames

  /** The byte at address `x` lies in a frame `DeinitKernel` marks. */
  ghost predicate ByteMarked(k: KernelDescriptor, p: nat, x: nat) {
    x / FRAME_SIZE in KernelFrames(k, p)
  }

  /** Every byte of the image lies in a frame `DeinitKernel` marks, exactly when the
      image's start is not further into its frame than its end, or it spans at most
      two frames. */
  lemma ImageReservedIff(k: KernelDescriptor, p: nat)
    requires k.physicalStart <= k.physicalEnd
    ensures (forall x: nat :: k.physicalStart <= x < k.physicalEnd ==> ByteMarked(k, p, x)) <==>
            || k.physicalStart % FRAME_SIZE <= k.physicalEnd % FRAME_SIZE
            || k.physicalEnd / FRAME_SIZE - k.physicalStart / FRAME_SIZE <= 1
  {
    var a, b := k.physicalStart / FRAME_SIZE, k.physicalEnd / FRAME_SIZE;
    if k.physicalStart % FRAME_SIZE > k.physicalEnd % FRAME_SIZE && b - a > 1 {
      var x := FRAME_SIZE * (b - 1);
      KernelFrameIff(k, p, b - 1);
      assert k.physicalStart <= x < k.physicalEnd && x / FRAME_SIZE == b - 1;
      assert !ByteMarked(k, p, x);
    } else {
      forall x: nat | k.physicalStart <= x < k.physicalEnd ensures ByteMarked(k, p, x) {
        KernelFrameIff(k, p, x / FRAME_SIZE);
      }
    }
  }

  /** From the image's first frame to the frame of its end all frames are marked, except
      the last but one if the start is further into its frame than the end. */
  lemma KernelFrameIff(k: KernelDescriptor, p: nat, f: nat)
    requires k.physicalStart <= k.physicalEnd
    requires k.physicalStart / FRAME_SIZE <= f <= k.physicalEnd / FRAME_SIZE
    ensures var a, b := k.physicalStart / FRAME_SIZE, k.physicalEnd / FRAME_SIZE;
            f in KernelFrames(k, p) <==>
              f != b - 1 || f == a || k.physicalStart % FRAME_SIZE <= k.physicalEnd % FRAME_SIZE
  {
    var a, b := k.physicalStart / FRAME_SIZE, k.physicalEnd / FRAME_SIZE;
    var n, m := RegionCount(k.physicalEnd - k.physicalStart), p / FRAME_SIZE + 1;
    ImageFrameCount(k.physicalStart, k.physicalEnd);
    assert n == if k.physicalStart % FRAME_SIZE <= k.physicalEnd % FRAME_SIZE
                then if a == b then 1 else b - a
                else if a == b - 1 then 1 else b - a - 1;
    FrameRangeMember(a, n, f);
    FrameRangeMember(b, m, f);
    assert KernelFrames(k, p) == FrameRange(a, n) + FrameRange(b, m);
  }

  /** An image from 0x100800 to 0x103000: frame 258, with its last page, is not marked. */
  lemma ImageTailUnmarked(p: nat)
    ensures var k := KernelDescriptor(0x10_0800, 0x10_3000);
            k.physicalStart <= 0x10_2000 < k.physicalEnd && !ByteMarked(k, p, 0x10_2000)
  {
    FrameRangeMembers(256, 2);
    FrameRangeMembers(259, p / FRAME_SIZE + 1);
    assert RegionCount(0x2800) == 2;
  }

  lemma ImageFrameCount(start: nat, end: nat)
    requires start <= end
    ensures (end - start) / FRAME_SIZE ==
            end / FRAME_SIZE - start / FRAME_SIZE - (if end % FRAME_SIZE < start % FRAME_SIZE then 1 else 0)
  {
  }

  /** Two runs of frames that meet or overlap are one. */
  lemma RangesJoin(a: nat, n: nat, b: nat, m: nat)
    requires a <= b <= a + n <= b + m
    ensures FrameRange(a, n) + FrameRange(b, m) == FrameRange(a, b - a + m)
  {
    forall f: nat ensures f in FrameRange(a, n) + FrameRange(b, m) <==> f in FrameRange(a, b - a + m) {
      FrameRangeMember(a, n, f);
      FrameRangeMember(b, m, f);
      FrameRangeMember(a, b - a + m, f);
    }
  }

  /** From a frame-aligned start the two regions close up to one contiguous run of
      frames, even when the end is unaligned. */
  lemma KernelFramesContiguous(k: KernelDescriptor, p: nat)
    requires k.physicalStart <= k.physicalEnd && k.physicalStart % FRAME_SIZE == 0
    ensures var a, b := k.physicalStart / FRAME_SIZE, k.physicalEnd / FRAME_SIZE;
            KernelFrames(k, p) == FrameRange(a, b - a + p / FRAME_SIZE + 1)
  {
    var a, b, m := k.physicalStart / FRAME_SIZE, k.physicalEnd / FRAME_SIZE, p / FRAME_SIZE + 1;
    var n := RegionCount(k.physicalEnd - k.physicalStart);
    ImageFrameCount(k.physicalStart, k.physicalEnd);
    assert a <= b <= a + n <= b + m;
    RangesJoin(a, n, b, m);
    assert KernelFrames(k, p) == FrameRange(a, n) + FrameRange(b, m);
    assert b - a + m == b - a + p / FRAME_SIZE + 1;
  }

  /** The counter then counts each of these frames once, exactly when the kernel is at
      least one frame long. */
  lemma KernelCountExactIff(k: KernelDescriptor, p: nat)
    requires k.physicalStart <= k.physicalEnd && k.physicalStart % FRAME_SIZE == 0
    ensures |KernelFrames(k, p)| == KernelCount(k, p) <==> k.physicalEnd - k.physicalStart >= FRAME_SIZE
  {
    var a, b := k.physicalStart / FRAME_SIZE, k.physicalEnd / FRAME_SIZE;
    KernelFramesContiguous(k, p);
    ImageFrameCount(k.physicalStart, k.physicalEnd);
    FrameRangeMembers(a, b - a + p / FRAME_SIZE + 1);
  }

  lemma KernelAboveStart(k: KernelDescriptor, p: nat)
    requires k.physicalStart <= k.physicalEnd
    ensures forall f :: f in KernelFrames(k, p) ==> k.physicalStart / FRAME_SIZE <= f
  {
    FrameRangeMembers(k.physicalStart / FRAME_SIZE, RegionCount(k.physicalEnd - k.physicalStart));
    FrameRangeMembers(k.physicalEnd / FRAME_SIZE, p / FRAME_SIZE + 1);
  }

  // ------------------------------------------------ the counter

  /** Allocation after `Init` is complete exactly when the frames counted as released,
      less those counted as the kernel's, cover the frames left clear. */
  lemma InitCompleteIff(before: set<nat>, max: Word, mmap: seq<MmapEntry>, k: KernelDescriptor)
    requires max < MAX_FRAMES
    ensures InitFrames(before, max, mmap, k).Valid()
    ensures Complete(InitFrames(before, max, mmap, k)) <==>
            Wrap32(AvailCount(mmap) - KernelCount(k, BitmapWords(max))) >= |LeftClear(before, max, mmap, k)|
  {
    InitValid(before, max, mmap, k);
    InitLeavesClear(before, max, mmap, k);
    InitSlackIs(before, max, mmap, k);
    AllocCompleteIff(InitFrames(before, max, mmap, k));
  }

  lemma InitValid(before: set<nat>, max: Word, mmap: seq<MmapEntry>, k: KernelDescriptor)
    requires max < MAX_FRAMES
    ensures InitFrames(before, max, mmap, k).Valid()
  {
    InitMarks(before, max, mmap, k, 0);
    SomeEntryAvailable(mmap, 0);
  }

  lemma InitSlackIs(before: set<nat>, max: Word, mmap: seq<MmapEntry>, k: KernelDescriptor)
    ensures Slack(InitFrames(before, max, mmap, k)) == Wrap32(AvailCount(mmap) - KernelCount(k, BitmapWords(max)))
  {
    var s, a, n := InitFrames(before, max, mmap, k), AvailCount(mmap), KernelCount(k, BitmapWords(max));
    InitUsed(before, max, mmap, k, a, n);
    SlackOf(s, max, a, n);
  }

  lemma SlackOf(s: Frames, max: Word, a: nat, n: nat)
    requires s.max == max && s.used == Wrap32(Wrap32(max - a) + n)
    ensures Slack(s) == Wrap32(a - n)
  {
    InitSlack(max, a, n);
  }

  lemma InitUsed(before: set<nat>, max: Word, mmap: seq<MmapEntry>, k: KernelDescriptor, a: nat, n: nat)
    requires a == AvailCount(mmap) && n == KernelCount(k, BitmapWords(max))
    ensures InitFrames(before, max, mmap, k).max == max
    ensures InitFrames(before, max, mmap, k).used == Wrap32(Wrap32(max - a) + n)
  {
    var p := BitmapWords(max);
    var filled := Frames(max, max, before + FrameRange(0, 8 * p));
    ReleasedUsed(filled, mmap, a);
    KernelTakenUsed(Released(filled, mmap), k, p, n);
  }

  lemma ReleasedUsed(s: Frames, mmap: seq<MmapEntry>, a: nat)
    requires a == AvailCount(mmap)
    ensures Released(s, mmap).max == s.max && Released(s, mmap).used == Wrap32(s.used - a)
  {
  }

  lemma KernelTakenUsed(s: Frames, k: KernelDescriptor, p: nat, n: nat)
    requires n == KernelCount(k, p)
    ensures KernelTaken(s, k, p).max == s.max && KernelTaken(s, k, p).used == Wrap32(s.used + n)
  {
  }

  lemma InitSlack(max: Word, a: nat, n: nat)
    ensures Wrap32(max - Wrap32(Wrap32(max - a) + n)) == Wrap32(a - n)
  {
    WrapStep(max - a, n);
    WrapNeg(max, max - a + n);
    assert max - (max - a + n) == a - n;
  }

  lemma WrapNeg(m: int, x: int)
    ensures Wrap32(m - Wrap32(x)) == Wrap32(m - x)
  {
    WrapIsMod(x);
    var q := x / WORD;
    assert m - Wrap32(x) == m - x + q * WORD;
    WrapShift(m - x, q);
  }

  lemma WrapShift(x: int, q: int)
    ensures Wrap32(x + q * WORD) == Wrap32(x)
  {
    WrapIsMod(x);
    WrapIsMod(x + q * WORD);
  }

  /** The map a well-behaved boot loader gives: disjoint entries inside memory, the
      kernel's two regions inside available memory and disjoint from each other. */
  ghost predicate WellFormedBoot(max: Word, mmap: seq<MmapEntry>, k: KernelDescriptor) {
    var p := BitmapWords(max);
    && max < MAX_FRAMES
    && MapDisjoint(mmap) && MapFits(mmap, max)
    && KernelFrames(k, p) <= AvailFrames(mmap)
    && |KernelFrames(k, p)| == KernelCount(k, p)
  }

  /** After such a boot the counter is the number of busy frames, or one less when
      frame 0 was released and taken back, and no allocation is ever refused early. */
  lemma InitCounts(before: set<nat>, max: Word, mmap: seq<MmapEntry>, k: KernelDescriptor)
    requires WellFormedBoot(max, mmap, k) && Settled(max, mmap, k, before)
    ensures var s := InitFrames(before, max, mmap, k);
            && s.used == max - |s.Clear()|
                         - (if 0 in AvailFrames(mmap) - KernelFrames(k, BitmapWords(max)) then 1 else 0)
            && Complete(s)
  {
    var p := BitmapWords(max);
    InitLeavesClear(before, max, mmap, k);
    SettledClear(before, max, mmap, k);
    WellFormedSizes(max, mmap, k);
    InitCompleteIff(before, max, mmap, k);
    WrapStep(max - AvailCount(mmap), KernelCount(k, p));
  }

  lemma SettledClear(before: set<nat>, max: Word, mmap: seq<MmapEntry>, k: KernelDescriptor)
    requires MapFits(mmap, max) && Settled(max, mmap, k, before)
    ensures LeftClear(before, max, mmap, k) == AvailFrames(mmap) - KernelFrames(k, BitmapWords(max)) - {0}
  {
    AvailBelow(mmap, max);
    forall f: nat | f < max && PastFill(max, f)
      ensures f in AvailFrames(mmap) + KernelFrames(k, BitmapWords(max)) + before
    {
      assert f in Unfilled(max);
    }
  }

  lemma WellFormedSizes(max: Word, mmap: seq<MmapEntry>, k: KernelDescriptor)
    requires WellFormedBoot(max, mmap, k)
    ensures |AvailFrames(mmap) - KernelFrames(k, BitmapWords(max))| ==
            AvailCount(mmap) - KernelCount(k, BitmapWords(max))
    ensures AvailCount(mmap) <= max
  {
    DisjointMapCount(mmap);
    SubsetSize(KernelFrames(k, BitmapWords(max)), AvailFrames(mmap));
    AvailBelow(mmap, max);
    FrameRangeMembers(0, max);
    SubsetSize(AvailFrames(mmap), FrameRange(0, max));
  }

  lemma AvailBelow(mmap: seq<MmapEntry>, max: nat)
    requires MapFits(mmap, max)
    ensures forall f :: f in AvailFrames(mmap) ==> f < max
  {
    forall f | f in AvailFrames(mmap) ensures f < max {
      AvailFramesMember(mmap, f);
      var i :| 0 <= i < |mmap| && Releases(mmap[i], f);
      FrameRangeMembers(mmap[i].addrLow / FRAME_SIZE, mmap[i].lenLow / FRAME_SIZE);
    }
  }

  // ------------------------------------------------ boot to run

  /** On every run of the system, every byte behind a live address is free memory. */
  ghost predicate RunsSafely(s0: Frames, mmap: seq<MmapEntry>, k: KernelDescriptor) {
    forall ops, a: nat, x: nat ::
      LegalRun(Start(s0), ops) && Run(Start(s0), ops).Live(a) && InFrame(a, x) ==> FreeByte(mmap, k, x)
  }

  /** Byte `x` is one of the 4 KiB from address `a` on. */
  predicate InFrame(a: nat, x: nat) {
    a <= x < a + FRAME_SIZE
  }

  lemma RunsSafelyMeans(s0: Frames, mmap: seq<MmapEntry>, k: KernelDescriptor)
    ensures RunsSafely(s0, mmap, k) <==> forall f: nat :: HandedOut(s0, f) ==> FreeFrame(mmap, k, f)
  {
    if RunsSafely(s0, mmap, k) {
      forall f: nat, x: nat | HandedOut(s0, f) && x / FRAME_SIZE == f ensures FreeByte(mmap, k, x) {
        var ops :| LegalRun(Start(s0), ops) && f in Run(Start(s0), ops).live;
        FrameAddress(f);
        assert Run(Start(s0), ops).Live(FRAME_SIZE * f) && InFrame(FRAME_SIZE * f, x);
      }
    } else {
      var ops, a: nat, x: nat :|
        LegalRun(Start(s0), ops) && Run(Start(s0), ops).Live(a) && InFrame(a, x) && !FreeByte(mmap, k, x);
      FrameOfByte(a, x);
      assert HandedOut(s0, a / FRAME_SIZE) && !FreeFrame(mmap, k, a / FRAME_SIZE);
    }
  }

  /** From boot over every run: memory that is not free is never handed out, exactly when
      every frame `Init` leaves clear is free, or comes later in the order of frames than
      the counter will let through. */
  lemma BootRunsSafelyIff(before: set<nat>, max: Word, mmap: seq<MmapEntry>, k: KernelDescriptor)
    requires max < MAX_FRAMES
    ensures RunsSafely(InitFrames(before, max, mmap, k), mmap, k) <==>
            forall f :: f in LeftClear(before, max, mmap, k) ==>
              || FreeFrame(mmap, k, f)
              || |UpTo(LeftClear(before, max, mmap, k), f)| >
                   Wrap32(AvailCount(mmap) - KernelCount(k, BitmapWords(max)))
  {
    var s0, clear := InitFrames(before, max, mmap, k), LeftClear(before, max, mmap, k);
    var slack := Wrap32(AvailCount(mmap) - KernelCount(k, BitmapWords(max)));
    forall f: nat ensures HandedOut(s0, f) <==> f in clear && |UpTo(clear, f)| <= slack {
      InitHandsOutIff(before, max, mmap, k, f);
    }
    RunsSafelyMeans(s0, mmap, k);
  }

  lemma InitHandsOutIff(before: set<nat>, max: Word, mmap: seq<MmapEntry>, k: KernelDescriptor, f: nat)
    requires max < MAX_FRAMES
    ensures var clear := LeftClear(before, max, mmap, k);
            HandedOut(InitFrames(before, max, mmap, k), f) <==>
              f in clear && |UpTo(clear, f)| <= Wrap32(AvailCount(mmap) - KernelCount(k, BitmapWords(max)))
  {
    InitValid(before, max, mmap, k);
    InitLeavesClear(before, max, mmap, k);
    InitSlackIs(before, max, mmap, k);
    HandedOutIff(InitFrames(before, max, mmap, k), f);
  }

  /** In particular when `Init` reserves what it must. */
  lemma ReservingRunsSafely(before: set<nat>, max: Word, mmap: seq<MmapEntry>, k: KernelDescriptor)
    requires max < MAX_FRAMES && Reserves(before, max, mmap, k)
    ensures RunsSafely(InitFrames(before, max, mmap, k), mmap, k)
  {
    BootRunsSafelyIff(before, max, mmap, k);
    InitLeavesClear(before, max, mmap, k);
    forall f | f in LeftClear(before, max, mmap, k) ensures FreeFrame(mmap, k, f) {
      assert f in InitFrames(before, max, mmap, k).Clear();
    }
  }
}
