/** What the allocator's initialisation computes, in closed form: the effect of each
    of its steps on the set of busy frames and on the counter. */
module FrameInit {
  import opened Bits
  import opened MemoryMap
  import opened FrameSpec

  const FRAMES_PER_DWORD := 32

  /** Addresses the boot loader passes on; only the physical ones are used by `Init`. */
  datatype KernelDescriptor = KernelDescriptor(physicalStart: Word, physicalEnd: Word)

  datatype MultibootInfo = NoInfo | Info(memUpper: Word, mmap: seq<MmapEntry>)

  // ------------------------------------------------ header arithmetic

  lemma WrappedKilobytes(kb: nat)
    ensures kb * 1024 % WORD == kb % 0x40_0000 * 1024
  {
    ModUnique(kb * 1024, WORD, kb / 0x40_0000, kb % 0x40_0000 * 1024);
  }

  /** The multiplication by 1024 wraps at 32 bits. */
  function KilobytesToFrames(memSizeKb: Word): (r: Word)
    ensures r < MAX_FRAMES && r == memSizeKb % 0x40_0000 / 4
  {
    WrapIsMod(memSizeKb * 1024);
    WrappedKilobytes(memSizeKb);
    Wrap32(memSizeKb * 1024) / FRAME_SIZE
  }

  predicate IsAligned(addr: Word, alignment: nat)
    requires 0 < alignment <= WORD
  {
    Pow2Bytes();
    And(addr, Not(alignment - 1, 32)) == 0
  }

  function Align(addr: Word, alignment: nat): (r: Word)
    requires 0 < alignment <= WORD
  {
    Pow2Bytes();
    Wrap32(And(addr, Not(alignment - 1, 32)) + alignment)
  }

  /** The mask test accepts exactly the addresses below the alignment ... */
  lemma IsAlignedIff(addr: Word, p: nat, m: nat)
    requires p == Pow2(m) && m <= 32
    ensures p <= WORD
    ensures IsAligned(addr, p) <==> addr < p
  {
    Pow2Bytes();
    AndNotLowMask(addr, p, m, 32);
    if addr < p {
      ModUnique(addr, p, 0, addr);
    }
  }

  /** ... so it means divisibility, as documented, only for 0 and for indivisible
      addresses at or above the alignment. */
  lemma IsAlignedMeansDivisibleIff(addr: Word, p: nat, m: nat)
    requires p == Pow2(m) && m <= 32
    ensures p <= WORD
    ensures (IsAligned(addr, p) <==> addr % p == 0) <==> (addr == 0 || (addr >= p && addr % p != 0))
  {
    IsAlignedIff(addr, p, m);
    if addr < p {
      ModUnique(addr, p, 0, addr);
    }
  }

  /** `Align` yields the next multiple above `addr`, even from a multiple. */
  lemma AlignIsNextMultiple(addr: Word, p: nat, m: nat)
    requires p == Pow2(m) && m <= 32
    ensures p <= WORD
    ensures Align(addr, p) == Wrap32(addr - addr % p + p)
  {
    Pow2Bytes();
    AndNotLowMask(addr, p, m, 32);
  }

  /** Number of frames `FreeRegion` marks for a region of `size` bytes. */
  function RegionCount(size: nat): (r: nat) {
    if size < FRAME_SIZE then 1 else size / FRAME_SIZE
  }

  /** The size `DeinitKernel` passes on for the bitmap, in bytes although it counts dwords. */
  function BitmapRegionSize(pmmapSize: Word): (r: Word) {
    if IsAligned(pmmapSize, FRAME_SIZE) then pmmapSize else Align(pmmapSize, FRAME_SIZE)
  }

  /** Both roundings together always give one frame more than the quotient. */
  lemma BitmapRegionCount(pmmapSize: Word)
    requires pmmapSize <= MAX_FRAMES
    ensures RegionCount(BitmapRegionSize(pmmapSize)) == pmmapSize / FRAME_SIZE + 1
  {
    Pow2Small();
    IsAlignedIff(pmmapSize, FRAME_SIZE, 12);
    AlignIsNextMultiple(pmmapSize, FRAME_SIZE, 12);
    var q := pmmapSize / FRAME_SIZE;
    assert pmmapSize - pmmapSize % FRAME_SIZE + FRAME_SIZE == FRAME_SIZE * (q + 1);
    assert FRAME_SIZE * (q + 1) < WORD;
  }

  // ------------------------------------------------ the steps, in closed form

  /** `InitRegion`: the region's frames become clear, frame 0 does not. */
  ghost function RegionReleased(s: Frames, base: Word, size: Word): Frames {
    Frames(s.max, Wrap32(s.used - size / FRAME_SIZE),
           s.busy - FrameRange(base / FRAME_SIZE, size / FRAME_SIZE) + {0})
  }

  /** `FreeRegion` marks a region, whatever its name says. */
  ghost function RegionTaken(s: Frames, base: Word, size: Word): Frames {
    Frames(s.max, Wrap32(s.used + RegionCount(size)),
           s.busy + FrameRange(base / FRAME_SIZE, RegionCount(size)))
  }

  /** `InitAvailableRegions` over the whole map. */
  ghost function Released(s: Frames, mmap: seq<MmapEntry>): Frames {
    Frames(s.max, Wrap32(s.used - AvailCount(mmap)),
           s.busy - AvailFrames(mmap) + (if AnyAvailable(mmap) then {0} else {}))
  }

  /** The frames `DeinitKernel` marks: the image, then the region after its end. */
  ghost function KernelFrames(k: KernelDescriptor, pmmapSize: nat): set<nat> {
    FrameRange(k.physicalStart / FRAME_SIZE, RegionCount(Wrap32(k.physicalEnd - k.physicalStart)))
    + FrameRange(k.physicalEnd / FRAME_SIZE, pmmapSize / FRAME_SIZE + 1)
  }

  function KernelCount(k: KernelDescriptor, pmmapSize: nat): nat {
    RegionCount(Wrap32(k.physicalEnd - k.physicalStart)) + (pmmapSize / FRAME_SIZE + 1)
  }

  /** `DeinitKernel`. */
  ghost function KernelTaken(s: Frames, k: KernelDescriptor, pmmapSize: nat): Frames {
    Frames(s.max, Wrap32(s.used + KernelCount(k, pmmapSize)), s.busy + KernelFrames(k, pmmapSize))
  }

  ghost predicate KernelFits(k: KernelDescriptor, pmmapSize: nat, limit: nat) {
    && k.physicalStart / FRAME_SIZE + RegionCount(Wrap32(k.physicalEnd - k.physicalStart)) <= limit
    && k.physicalEnd / FRAME_SIZE + (pmmapSize / FRAME_SIZE + 1) <= limit
  }

  /** Number of bitmap words for `maxFrames` frames. */
  function BitmapWords(maxFrames: nat): (r: nat)
    ensures maxFrames <= 32 * r < maxFrames + 32
  {
    maxFrames / FRAMES_PER_DWORD + (if maxFrames % FRAMES_PER_DWORD != 0 then 1 else 0)
  }

  /** The state `Init` leaves in a bitmap memory whose marked frames were `before`:
      the fill reaches only the first `8 * BitmapWords(max)` frames. */
  ghost function InitFrames(before: set<nat>, max: Word, mmap: seq<MmapEntry>, k: KernelDescriptor): Frames {
    var p := BitmapWords(max);
    var filled := Frames(max, max, before + FrameRange(0, 8 * p));
    KernelTaken(Released(filled, mmap), k, p)
  }

  /** `Init` leaves frame `f` clear, said of its arguments alone. The image takes up its
      length in frames, one at least; the region behind it starts in the frame of its end;
      the fill reaches 8 frames for every 32. */
  ghost predicate InitClears(before: set<nat>, max: Word, mmap: seq<MmapEntry>, k: KernelDescriptor, f: nat) {
    var size, words := (k.physicalEnd - k.physicalStart) % 0x1_0000_0000, (max + 31) / 32;
    && 0 < f < max
    && !(k.physicalStart / 4096 <= f < k.physicalStart / 4096 + (if size < 4096 then 1 else size / 4096))
    && !(k.physicalEnd / 4096 <= f <= k.physicalEnd / 4096 + words / 4096)
    && (Names(mmap, f) || (8 * words <= f && f !in before))
  }

  lemma AnyAvailableStep(mmap: seq<MmapEntry>, i: nat)
    requires i < |mmap|
    ensures AnyAvailable(mmap[..i + 1]) <==> AnyAvailable(mmap[..i]) || mmap[i].Available()
  {
    var longer, shorter := mmap[..i + 1], mmap[..i];
    if j :| 0 <= j < |shorter| && shorter[j].Available() {
      assert longer[j].Available();
    }
    if mmap[i].Available() {
      assert longer[i].Available();
    }
  }

  lemma ReleasedStep(s: Frames, mmap: seq<MmapEntry>, i: nat)
    requires i < |mmap|
    ensures Released(s, mmap[..i + 1]) ==
            if mmap[i].Available()
            then RegionReleased(Released(s, mmap[..i]), mmap[i].addrLow, mmap[i].lenLow)
            else Released(s, mmap[..i])
  {
    var longer, shorter, e := mmap[..i + 1], mmap[..i], mmap[i];
    assert longer[..|longer| - 1] == shorter && longer[|longer| - 1] == e;
    AnyAvailableStep(mmap, i);
    if e.Available() {
      var n := e.lenLow / FRAME_SIZE;
      WrapStep(s.used - AvailCount(shorter), -n);
      assert s.used - AvailCount(shorter) + -n == s.used - AvailCount(longer);
      assert AvailFrames(longer) == AvailFrames(shorter) + EntryFrames(e);
      assert Released(s, longer).busy == RegionReleased(Released(s, shorter), e.addrLow, e.lenLow).busy;
    }
  }

  lemma KernelTakenSplit(s: Frames, start: Word, size: Word, end: Word, bitmapSize: Word, pmmapSize: Word)
    requires size == Wrap32(end - start) && RegionCount(bitmapSize) == pmmapSize / FRAME_SIZE + 1
    ensures RegionTaken(RegionTaken(s, start, size), end, bitmapSize)
            == KernelTaken(s, KernelDescriptor(start, end), pmmapSize)
  {
    var k, n, m := KernelDescriptor(start, end), RegionCount(size), RegionCount(bitmapSize);
    CountedTwice(s.used, n, m);
    MarkedTwice(s.busy, FrameRange(start / FRAME_SIZE, n), FrameRange(end / FRAME_SIZE, m));
    assert KernelCount(k, pmmapSize) == n + m;
    assert KernelFrames(k, pmmapSize) == FrameRange(start / FRAME_SIZE, n) + FrameRange(end / FRAME_SIZE, m);
  }

  /** Counting and marking two runs of frames, one after the other. */
  lemma CountedTwice(used: int, n: nat, m: nat)
    ensures Wrap32(Wrap32(used + n) + m) == Wrap32(used + (n + m))
  {
    WrapStep(used + n, m);
    assert used + n + m == used + (n + m);
  }

  lemma MarkedTwice(busy: set<nat>, a: set<nat>, b: set<nat>)
    ensures busy + a + b == busy + (a + b)
  {
  }
}
