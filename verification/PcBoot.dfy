/** Initialisation on a PC: which memory maps it handles there, and two machines on which
    it hands out memory that nobody called available. */
module PcBoot {
  import opened Bits
  import opened MemoryMap
  import opened FrameSpec
  import opened FrameRuns
  import opened FrameInit
  import opened InitTheorems

  const ONE_MIB := 0x10_0000
  /** The first frame from 1 MiB on. */
  const UPPER_FRAME := 256

  /** What a PC's boot loader reports, in any order and among any entries of other kinds:
      conventional memory, at most 640 KiB, in entry `l`, memory from 1 MiB on in entry
      `u`, and no other memory below 1 MiB. */
  ghost predicate PcMap(mmap: seq<MmapEntry>, l: nat, u: nat) {
    && l < |mmap| && mmap[l].Available() && mmap[l].Base() == 0
    && mmap[l].lenHigh == 0 && mmap[l].lenLow <= 0xA_0000
    && u < |mmap| && mmap[u].Available() && mmap[u].Base() == ONE_MIB
    && mmap[u].lenHigh == 0 && ONE_MIB + mmap[u].lenLow < WORD
    && forall i :: 0 <= i < |mmap| && mmap[i].Available() && i != l && i != u ==> mmap[i].Base() >= ONE_MIB
  }

  /** Number of frames wholly in an entry of that length. */
  function NumFrames(e: MmapEntry): nat {
    e.lenLow / FRAME_SIZE
  }

  /** The kernel is linked to 1 MiB. */
  predicate PcKernel(k: KernelDescriptor) {
    k.physicalStart == ONE_MIB <= k.physicalEnd
  }

  /** `kmain` sizes memory by the upper memory in KiB that the boot loader reports. */
  lemma PcFrames(len: Word)
    requires ONE_MIB + len < WORD
    ensures KilobytesToFrames(Wrap32(1024 + len / 1024)) == UPPER_FRAME + len / FRAME_SIZE < MAX_FRAMES
  {
  }

  /** The frame lies between conventional memory of `low` frames and 1 MiB. */
  predicate InHole(low: nat, f: nat) {
    0 < f && low <= f < UPPER_FRAME
  }

  /** By its lower halves the entry names no frame of the hole. */
  predicate SparesHole(e: MmapEntry, low: nat) {
    var first := e.addrLow / FRAME_SIZE;
    NumFrames(e) == 0 || first >= UPPER_FRAME || first + NumFrames(e) <= if low == 0 then 1 else low
  }

  ghost predicate HoleSpared(mmap: seq<MmapEntry>, low: nat) {
    forall i :: 0 <= i < |mmap| && mmap[i].Available() ==> SparesHole(mmap[i], low)
  }

  /** On a PC `Init` reserves what it must, whatever the bitmap's memory held, exactly when
      there are at least 993 frames (just under 4 MiB) and no entry, read by its lower
      halves, reaches into the hole below 1 MiB. */
  lemma PcReservesIff(max: Word, mmap: seq<MmapEntry>, l: nat, u: nat, k: KernelDescriptor)
    requires PcMap(mmap, l, u) && PcKernel(k) && max == UPPER_FRAME + NumFrames(mmap[u])
    ensures AlwaysReserves(max, mmap, k) <==> max >= 993 && HoleSpared(mmap, NumFrames(mmap[l]))
  {
    var low := NumFrames(mmap[l]);
    InitAlwaysReservesIff(max, mmap, k);
    PcHarmlessIff(AvailFrames(mmap), max, mmap, l, u, k);
    PcHarmlessIff(Unfilled(max), max, mmap, l, u, k);
    UnfilledHoleIff(max, low);
    NamedHoleIff(mmap, low);
  }

  ghost predicate MeetsHole(frames: set<nat>, low: nat) {
    exists f :: f in frames && InHole(low, f)
  }

  /** The hole is all that matters. */
  lemma PcHarmlessIff(frames: set<nat>, max: Word, mmap: seq<MmapEntry>, l: nat, u: nat, k: KernelDescriptor)
    requires PcMap(mmap, l, u) && PcKernel(k) && max == UPPER_FRAME + NumFrames(mmap[u])
    ensures Harmless(frames, max, mmap, k) <==> !MeetsHole(frames, NumFrames(mmap[l]))
  {
    var low, p := NumFrames(mmap[l]), BitmapWords(max);
    forall f | f in frames && 0 < f < max && f !in KernelFrames(k, p)
      ensures FreeFrame(mmap, k, f) <==> !InHole(low, f)
    {
      if f < low {
        ConventionalIsFree(mmap, l, u, k, f);
      } else if f < UPPER_FRAME {
        HoleIsNotFree(mmap, l, u, k, f);
      } else {
        UpperIsFree(max, mmap, l, u, k, f);
      }
    }
    forall f | f in frames && InHole(low, f) ensures f !in KernelFrames(k, p) {
      KernelAboveStart(k, p);
    }
  }

  lemma ConventionalIsFree(mmap: seq<MmapEntry>, l: nat, u: nat, k: KernelDescriptor, f: nat)
    requires PcMap(mmap, l, u) && PcKernel(k) && f < NumFrames(mmap[l])
    ensures FreeFrame(mmap, k, f)
  {
    forall x: nat | x / FRAME_SIZE == f ensures FreeByte(mmap, k, x) {
      assert mmap[l].Describes(x);
    }
  }

  lemma HoleIsNotFree(mmap: seq<MmapEntry>, l: nat, u: nat, k: KernelDescriptor, f: nat)
    requires PcMap(mmap, l, u) && InHole(NumFrames(mmap[l]), f)
    ensures !FreeFrame(mmap, k, f)
  {
    var x := FRAME_SIZE * f + (FRAME_SIZE - 1);
    assert x / FRAME_SIZE == f && !mmap[l].Describes(x);
    assert !FreeByte(mmap, k, x);
  }

  lemma UpperIsFree(max: Word, mmap: seq<MmapEntry>, l: nat, u: nat, k: KernelDescriptor, f: nat)
    requires PcMap(mmap, l, u) && PcKernel(k) && max == UPPER_FRAME + NumFrames(mmap[u])
    requires UPPER_FRAME <= f < max && f !in KernelFrames(k, BitmapWords(max))
    ensures FreeFrame(mmap, k, f)
  {
    ImageReservedIff(k, BitmapWords(max));
    forall x: nat | x / FRAME_SIZE == f ensures FreeByte(mmap, k, x) {
      assert !ByteMarked(k, BitmapWords(max), x) && mmap[u].Describes(x);
    }
  }

  /** Frame 255 is in the hole. */
  lemma UnfilledHoleIff(max: Word, low: nat)
    requires max >= UPPER_FRAME > low
    ensures MeetsHole(Unfilled(max), low) <==> max < 993
  {
    if max < 993 {
      assert 255 in Unfilled(max) && InHole(low, 255);
    }
  }

  lemma NamedHoleIff(mmap: seq<MmapEntry>, low: nat)
    requires low < UPPER_FRAME
    ensures MeetsHole(AvailFrames(mmap), low) <==> !HoleSpared(mmap, low)
  {
    if f :| f in AvailFrames(mmap) && InHole(low, f) {
      AvailFramesMember(mmap, f);
      var i :| 0 <= i < |mmap| && Releases(mmap[i], f);
      EntryMembers(mmap[i]);
      assert !SparesHole(mmap[i], low);
    }
    if i :| 0 <= i < |mmap| && mmap[i].Available() && !SparesHole(mmap[i], low) {
      var first, start := mmap[i].addrLow / FRAME_SIZE, if low == 0 then 1 else low;
      var f := if first < start then start else first;
      EntryMembers(mmap[i]);
      AvailFramesMember(mmap, f);
      assert Releases(mmap[i], f) && InHole(low, f);
    }
  }

  lemma EntryMembers(e: MmapEntry)
    ensures forall f :: f in EntryFrames(e) <==> e.addrLow / FRAME_SIZE <= f < e.addrLow / FRAME_SIZE + NumFrames(e)
  {
    FrameRangeMembers(e.addrLow / FRAME_SIZE, NumFrames(e));
  }

  // ------------------------------------------------ from boot to run

  /** The kernel is at least a page long and its two regions lie in upper memory. */
  predicate KernelPlaced(k: KernelDescriptor, max: Word) {
    && PcKernel(k) && k.physicalEnd - k.physicalStart >= FRAME_SIZE
    && k.physicalEnd / FRAME_SIZE + BitmapWords(max) / FRAME_SIZE < max
  }

  /** A PC that meets the condition, from boot over every run: `Init` leaves clear the
      conventional frames but frame 0, and those behind the kernel's; only free memory is
      ever handed out; and, if the entries name fewer than 2^32 frames, counted with
      repetitions, no call is refused while a frame is clear. */
  lemma PcBoots(before: set<nat>, max: Word, mmap: seq<MmapEntry>, l: nat, u: nat, k: KernelDescriptor)
    requires PcMap(mmap, l, u) && max == UPPER_FRAME + NumFrames(mmap[u])
    requires max >= 993 && HoleSpared(mmap, NumFrames(mmap[l]))
    requires KernelPlaced(k, max)
    ensures max < MAX_FRAMES
    ensures Reserves(before, max, mmap, k)
    ensures RunsSafely(InitFrames(before, max, mmap, k), mmap, k)
    ensures InitFrames(before, max, mmap, k).Clear() == UsableBelow(max, NumFrames(mmap[l]), KernelTop(max, k))
    ensures AvailCount(mmap) < WORD ==> Complete(InitFrames(before, max, mmap, k))
  {
    PcReservesIff(max, mmap, l, u, k);
    ReservingRunsSafely(before, max, mmap, k);
    InitLeavesClear(before, max, mmap, k);
    PcLeavesClear(before, max, mmap, l, u, k);
    if AvailCount(mmap) < WORD { PcSlackSuffices(max, mmap, l, u, k); }
    InitCompleteIff(before, max, mmap, k);
  }

  /** The first frame behind both of the kernel's regions. */
  function KernelTop(max: Word, k: KernelDescriptor): nat {
    k.physicalEnd / FRAME_SIZE + BitmapWords(max) / FRAME_SIZE + 1
  }

  predicate Usable(low: nat, top: nat, f: nat) {
    0 < f < low || top <= f
  }

  ghost function UsableBelow(max: nat, low: nat, top: nat): set<nat> {
    set f: nat | f < max && Usable(low, top, f)
  }

  lemma UsableSize(max: nat, low: nat, top: nat)
    requires low <= top <= max
    ensures |UsableBelow(max, low, top)| == (if low == 0 then 0 else low - 1) + (max - top)
  {
    var n, m := if low == 0 then 0 else low - 1, max - top;
    UsableSplit(max, low, top, n, m);
    RangesApart(1, n, top, m);
  }

  lemma UsableSplit(max: nat, low: nat, top: nat, n: nat, m: nat)
    requires low <= top <= max && m == max - top && n == if low == 0 then 0 else low - 1
    ensures UsableBelow(max, low, top) == FrameRange(1, n) + FrameRange(top, m)
  {
    forall f: nat ensures f in UsableBelow(max, low, top) <==> f in FrameRange(1, n) + FrameRange(top, m) {
      FrameRangeMember(1, n, f);
      FrameRangeMember(top, m, f);
    }
  }

  lemma RangesApart(a: nat, n: nat, b: nat, m: nat)
    requires n == 0 || a + n <= b
    ensures |FrameRange(a, n) + FrameRange(b, m)| == n + m
  {
    var low, high := FrameRange(a, n), FrameRange(b, m);
    forall f | f in low ensures f !in high {
      FrameRangeMember(a, n, f);
      FrameRangeMember(b, m, f);
    }
    FrameRangeSize(a, n);
    FrameRangeSize(b, m);
    assert |low + high| == |low| + |high|;
  }

  lemma UsableUpTo(max: nat, low: nat, top: nat, f: nat)
    requires 0 < f < low <= top <= max
    ensures |UpTo(UsableBelow(max, low, top), f)| == f
  {
    FrameRangeMembers(1, f);
    assert UpTo(UsableBelow(max, low, top), f) == FrameRange(1, f);
  }

  lemma PcKernelFrames(k: KernelDescriptor, max: Word, f: nat)
    requires PcKernel(k)
    ensures f in KernelFrames(k, BitmapWords(max)) <==> UPPER_FRAME <= f < KernelTop(max, k)
  {
    KernelFramesContiguous(k, BitmapWords(max));
    FrameRangeMembers(UPPER_FRAME, KernelTop(max, k) - UPPER_FRAME);
  }

  lemma PcLeavesClear(before: set<nat>, max: Word, mmap: seq<MmapEntry>, l: nat, u: nat, k: KernelDescriptor)
    requires PcMap(mmap, l, u) && PcKernel(k) && max == UPPER_FRAME + NumFrames(mmap[u])
    requires max >= 993 && HoleSpared(mmap, NumFrames(mmap[l]))
    ensures LeftClear(before, max, mmap, k) == UsableBelow(max, NumFrames(mmap[l]), KernelTop(max, k))
  {
    var low := NumFrames(mmap[l]);
    forall f: nat | f < max
      ensures f in LeftClear(before, max, mmap, k) <==> Usable(low, KernelTop(max, k), f)
    {
      PcKernelFrames(k, max, f);
      PcNames(max, mmap, l, u, f);
    }
  }

  /** The entries name every frame of memory but those of the hole, which the fill reaches. */
  lemma PcNames(max: Word, mmap: seq<MmapEntry>, l: nat, u: nat, f: nat)
    requires PcMap(mmap, l, u) && f < max == UPPER_FRAME + NumFrames(mmap[u])
    requires max >= 993 && HoleSpared(mmap, NumFrames(mmap[l]))
    ensures InHole(NumFrames(mmap[l]), f) ==> f !in AvailFrames(mmap) && !PastFill(max, f)
    ensures 0 < f && !InHole(NumFrames(mmap[l]), f) ==> f in AvailFrames(mmap)
  {
    var low := NumFrames(mmap[l]);
    if InHole(low, f) {
      NamedHoleIff(mmap, low);
    } else if f != 0 {
      PcNamesUsable(max, mmap, l, u, f);
    }
  }

  lemma PcNamesUsable(max: Word, mmap: seq<MmapEntry>, l: nat, u: nat, f: nat)
    requires PcMap(mmap, l, u) && f < max == UPPER_FRAME + NumFrames(mmap[u])
    requires f < NumFrames(mmap[l]) || UPPER_FRAME <= f
    ensures f in AvailFrames(mmap)
  {
    AvailFramesMember(mmap, f);
    EntryMembers(mmap[l]);
    EntryMembers(mmap[u]);
    assert Releases(if f < NumFrames(mmap[l]) then mmap[l] else mmap[u], f);
  }

  /** The two entries alone count for as many frames as are clear and the kernel's. */
  lemma PcSlackSuffices(max: Word, mmap: seq<MmapEntry>, l: nat, u: nat, k: KernelDescriptor)
    requires PcMap(mmap, l, u) && max == UPPER_FRAME + NumFrames(mmap[u])
    requires KernelPlaced(k, max) && AvailCount(mmap) < WORD
    ensures Wrap32(AvailCount(mmap) - KernelCount(k, BitmapWords(max))) >=
            |UsableBelow(max, NumFrames(mmap[l]), KernelTop(max, k))|
  {
    var low := NumFrames(mmap[l]);
    AvailCountTwo(mmap, l, u);
    PcKernelCount(max, k);
    UsableSize(max, low, KernelTop(max, k));
  }

  lemma PcKernelCount(max: Word, k: KernelDescriptor)
    requires KernelPlaced(k, max)
    ensures KernelCount(k, BitmapWords(max)) == KernelTop(max, k) - UPPER_FRAME
  {
    ImageFrameCount(k.physicalStart, k.physicalEnd);
  }

  lemma {:induction false} AvailCountTwo(mmap: seq<MmapEntry>, i: nat, j: nat)
    requires i < |mmap| && j < |mmap| && i != j && mmap[i].Available() && mmap[j].Available()
    ensures AvailCount(mmap) >= NumFrames(mmap[i]) + NumFrames(mmap[j])
    decreases |mmap|
  {
    var init, last := mmap[..|mmap| - 1], |mmap| - 1;
    if i == last {
      AvailCountOne(init, j);
    } else if j == last {
      AvailCountOne(init, i);
    } else {
      AvailCountTwo(init, i, j);
    }
  }

  lemma {:induction false} AvailCountOne(mmap: seq<MmapEntry>, i: nat)
    requires i < |mmap| && mmap[i].Available()
    ensures AvailCount(mmap) >= NumFrames(mmap[i])
    decreases |mmap|
  {
    if i == |mmap| - 1 {
    } else {
      AvailCountOne(mmap[..|mmap| - 1], i);
    }
  }

  /** When the entries are also disjoint and inside memory, the counter is the number of
      busy frames, less one for frame 0 if there is conventional memory. */
  lemma PcCounts(before: set<nat>, max: Word, mmap: seq<MmapEntry>, l: nat, u: nat, k: KernelDescriptor)
    requires PcMap(mmap, l, u) && max == UPPER_FRAME + NumFrames(mmap[u])
    requires max >= 993 && KernelPlaced(k, max)
    requires MapDisjoint(mmap) && MapFits(mmap, max) && NumFrames(mmap[l]) > 0
    ensures InitFrames(before, max, mmap, k).used == max - |InitFrames(before, max, mmap, k).Clear()| - 1
    ensures Complete(InitFrames(before, max, mmap, k))
  {
    PcWellFormed(max, mmap, l, u, k);
    PcSettled(before, max, mmap, l, u, k);
    PcNamesUsable(max, mmap, l, u, 0);
    PcKernelFrames(k, max, 0);
    InitCounts(before, max, mmap, k);
  }

  lemma PcWellFormed(max: Word, mmap: seq<MmapEntry>, l: nat, u: nat, k: KernelDescriptor)
    requires PcMap(mmap, l, u) && max == UPPER_FRAME + NumFrames(mmap[u])
    requires KernelPlaced(k, max) && MapDisjoint(mmap) && MapFits(mmap, max)
    ensures WellFormedBoot(max, mmap, k)
  {
    KernelCountExactIff(k, BitmapWords(max));
    forall f | f in KernelFrames(k, BitmapWords(max)) ensures f in AvailFrames(mmap) {
      PcKernelFrames(k, max, f);
      PcNamesUsable(max, mmap, l, u, f);
    }
  }

  lemma PcSettled(before: set<nat>, max: Word, mmap: seq<MmapEntry>, l: nat, u: nat, k: KernelDescriptor)
    requires PcMap(mmap, l, u) && max == UPPER_FRAME + NumFrames(mmap[u]) && max >= 993
    ensures Settled(max, mmap, k, before)
  {
    forall f | f in Unfilled(max) ensures f in AvailFrames(mmap) {
      PcNamesUsable(max, mmap, l, u, f);
    }
  }

  // ------------------------------------------------ three machines

  /** 4 MiB of memory, with the ROM below 1 MiB reported as reserved. */
  function MidMap(): seq<MmapEntry> {
    [MmapEntry(0, 0, 0x9_F000, 0, 1), MmapEntry(0xF_0000, 0, 0x1_0000, 0, 2),
     MmapEntry(0x10_0000, 0, 0x30_0000, 0, 1)]
  }

  /** Whatever the memory held, `Init` leaves clear the conventional frames but frame 0 and
      those behind the kernel's, no ROM; no run hands out anything but these, and none is
      refused while one of them is clear. */
  lemma MidPcBoots(before: set<nat>)
    ensures var s := InitFrames(before, 1024, MidMap(), KernelDescriptor(0x10_0000, 0x11_0000));
            && (forall f: nat :: f in s.Clear() <==> 1 <= f < 159 || 273 <= f < 1024)
            && Complete(s) && RunsSafely(s, MidMap(), KernelDescriptor(0x10_0000, 0x11_0000))
  {
    var k := KernelDescriptor(0x10_0000, 0x11_0000);
    MidAvail();
    PcBoots(before, 1024, MidMap(), 0, 2, k);
    assert KernelTop(1024, k) == 273;
  }

  lemma MidAvail()
    ensures AvailCount(MidMap()) == 927
  {
    var a, b, c := MidMap()[0], MidMap()[1], MidMap()[2];
    assert MidMap()[..2] == [a, b] && [a, b][..1] == [a] && [a][..0] == [];
    assert AvailCount([a]) == AvailCount([]) + 159;
    assert AvailCount([a, b]) == AvailCount([a]);
  }

  /** 2 MiB of memory. */
  function SmallMap(): seq<MmapEntry> {
    [MmapEntry(0, 0, 0x9_F000, 0, 1), MmapEntry(0xF_0000, 0, 0x1_0000, 0, 2),
     MmapEntry(0x10_0000, 0, 0x10_0000, 0, 1)]
  }

  const SMALL_KERNEL := KernelDescriptor(0x10_0000, 0x10_1000)

  lemma SmallAvail(f: nat)
    ensures AvailCount(SmallMap()) == 415
    ensures f in AvailFrames(SmallMap()) <==> f < 159 || 256 <= f < 512
  {
    var a, b, c := SmallMap()[0], SmallMap()[1], SmallMap()[2];
    assert SmallMap()[..2] == [a, b] && [a, b][..1] == [a] && [a][..0] == [];
    assert AvailFrames([a]) == AvailFrames([]) + EntryFrames(a);
    assert AvailFrames([a, b]) == AvailFrames([a]);
    assert AvailCount([a]) == AvailCount([]) + 159;
    assert AvailCount([a, b]) == AvailCount([a]);
    EntryMembers(a);
    EntryMembers(c);
  }

  lemma SmallKernel(f: nat)
    ensures f in KernelFrames(SMALL_KERNEL, BitmapWords(512)) <==> 256 <= f < 258
    ensures KernelCount(SMALL_KERNEL, BitmapWords(512)) == 2
  {
    PcKernelFrames(SMALL_KERNEL, 512, f);
    PcKernelCount(512, SMALL_KERNEL);
  }

  /** All frames but frame 0 and the kernel's two are left clear. */
  lemma SmallLeftClear()
    ensures LeftClear({}, 512, SmallMap(), SMALL_KERNEL) == UsableBelow(512, 256, 258)
  {
    forall f: nat ensures f in LeftClear({}, 512, SmallMap(), SMALL_KERNEL) <==> f in UsableBelow(512, 256, 258) {
      SmallKernel(f);
      SmallAvail(f);
    }
  }

  lemma SmallIsPc()
    ensures KilobytesToFrames(Wrap32(1024 + 1024)) == 512
    ensures PcMap(SmallMap(), 0, 2) && MapFits(SmallMap(), 512)
    ensures KernelFits(SMALL_KERNEL, BitmapWords(512), 512)
    ensures !FreeByte(SmallMap(), SMALL_KERNEL, 0xB_8000)
  {
    PcFrames(0x10_0000);
  }

  /** If the bitmap's memory was zero, the 184th call of `AllocFrame` on this machine hands
      out the console's video memory, and calls are refused while frames are clear. */
  lemma SmallPcFails() returns (ops: seq<Op>)
    ensures KilobytesToFrames(Wrap32(1024 + 1024)) == 512
    ensures PcMap(SmallMap(), 0, 2) && MapFits(SmallMap(), 512)
    ensures KernelFits(SMALL_KERNEL, BitmapWords(512), 512)
    ensures !FreeByte(SmallMap(), SMALL_KERNEL, 0xB_8000)
    ensures SmallRun(InitFrames({}, 512, SmallMap(), SMALL_KERNEL), ops)
  {
    SmallIsPc();
    SmallLeftClear();
    SmallAvail(0);
    SmallKernel(0);
    ops := SmallOutcome(SmallMap(), SMALL_KERNEL);
  }

  ghost predicate SmallRun(s: Frames, ops: seq<Op>) {
    && Allocs(ops, 184) && LegalRun(Start(s), ops) && Run(Start(s), ops).Live(0xB_8000)
    && !Complete(s)
  }

  lemma SmallOutcome(mmap: seq<MmapEntry>, k: KernelDescriptor) returns (ops: seq<Op>)
    requires LeftClear({}, 512, mmap, k) == UsableBelow(512, 256, 258)
    requires AvailCount(mmap) == 415 && KernelCount(k, BitmapWords(512)) == 2
    ensures SmallRun(InitFrames({}, 512, mmap, k), ops)
  {
    InitLeavesClear({}, 512, mmap, k);
    InitCompleteIff({}, 512, mmap, k);
    InitSlackIs({}, 512, mmap, k);
    UsableSize(512, 256, 258);
    UsableUpTo(512, 256, 258, 184);
    ops := AllocsReach(InitFrames({}, 512, mmap, k), 184);
  }

  /** 8 GiB of memory, five of them from 4 GiB on. */
  function BigMap(): seq<MmapEntry> {
    [MmapEntry(0, 0, 0x9_FC00, 0, 1), MmapEntry(0xF_0000, 0, 0x1_0000, 0, 2),
     MmapEntry(0x10_0000, 0, 0xBFEE_0000, 0, 1), MmapEntry(0, 1, 0x4000_0000, 1, 1)]
  }

  const BIG_KERNEL := KernelDescriptor(0x10_0000, 0x11_0000)

  lemma BigAvail()
    ensures AvailCount(BigMap()) == 1_048_447 && 160 in AvailFrames(BigMap())
  {
    var a, b, c, d := BigMap()[0], BigMap()[1], BigMap()[2], BigMap()[3];
    assert BigMap()[..3] == [a, b, c] && [a, b, c][..2] == [a, b] && [a, b][..1] == [a] && [a][..0] == [];
    assert AvailCount([a]) == AvailCount([]) + 159;
    assert AvailCount([a, b]) == AvailCount([a]);
    assert AvailCount([a, b, c]) == AvailCount([a, b]) + 786_144;
    assert AvailFrames(BigMap()) == AvailFrames([a, b, c]) + EntryFrames(d);
    EntryMembers(d);
  }

  /** Whatever the memory held, this machine hands out the frame at 640 KiB, of which no
      byte is described as available. */
  lemma BigPcFails(before: set<nat>)
    ensures KilobytesToFrames(Wrap32(1024 + 0xBFEE_0000 / 1024)) == 786_400
    ensures PcMap(BigMap(), 0, 2) && MapFits(BigMap(), 786_400)
    ensures KernelFits(BIG_KERNEL, BitmapWords(786_400), 786_400)
    ensures HandedOut(InitFrames(before, 786_400, BigMap(), BIG_KERNEL), 160)
    ensures forall x, i :: 0xA_0000 <= x < 0xA_1000 && 0 <= i < |BigMap()| ==> !BigMap()[i].Describes(x)
    ensures BigMap()[3].Describes(0x2_3FFF_FFFF) && !BigMap()[3].Describes(0x2_4000_0000)
  {
    PcFrames(0xBFEE_0000);
    BigAvail();
    PcKernelFrames(BIG_KERNEL, 786_400, 160);
    PcKernelCount(786_400, BIG_KERNEL);
    BigOutcome(before, BigMap(), BIG_KERNEL, 160);
  }

  lemma BigOutcome(before: set<nat>, mmap: seq<MmapEntry>, k: KernelDescriptor, f: nat)
    requires f == 160 && f in AvailFrames(mmap) && AvailCount(mmap) == 1_048_447
    requires f !in KernelFrames(k, BitmapWords(786_400)) && KernelCount(k, BitmapWords(786_400)) < 100
    ensures HandedOut(InitFrames(before, 786_400, mmap, k), f)
  {
    var clear := LeftClear(before, 786_400, mmap, k);
    UpToSize(clear, f);
    InitHandsOutIff(before, 786_400, mmap, k, f);
  }

  /** Frame 0 is never clear. */
  lemma UpToSize(clear: set<nat>, f: nat)
    requires 0 !in clear
    ensures |UpTo(clear, f)| <= f
  {
    FrameRangeMembers(1, f);
    SubsetSize(UpTo(clear, f), FrameRange(1, f));
  }
}
