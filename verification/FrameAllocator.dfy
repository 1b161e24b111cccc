/** The physical frame allocator: a word bitmap and a counter, updated in place. */
module FrameAllocator {
  import opened Bits
  import opened FrameBitmap
  import opened MemoryMap
  import opened FrameSpec
  import opened FrameInit
  import opened InitTheorems

  class PhysicalFrameAllocator {
    var memSize: Word
    var maxFrames: Word
    var usedFrames: Word
    var pmmapSize: Word
    var pmmap: array<Word>

    /** `FreeFrame` and `AllocFrame` stay inside the bitmap's memory. */
    ghost predicate Valid()
      reads this
    {
      maxFrames < MAX_FRAMES && maxFrames <= 32 * pmmap.Length
    }

    /** The abstract value of the allocator. */
    ghost function Abs(): Frames
      reads this, pmmap
    {
      Frames(maxFrames, usedFrames, Busy(pmmap[..]))
    }

    constructor ()
      ensures Valid() && fresh(pmmap) && Abs() == Frames(0, 0, {})
    {
      memSize, maxFrames, usedFrames, pmmapSize := 0, 0, 0, 0;
      pmmap := new Word[0];
    }

    method InitRegion(base: Word, size: Word)
      requires 0 < pmmap.Length && base / FRAME_SIZE + size / FRAME_SIZE <= 32 * pmmap.Length
      modifies this`usedFrames, pmmap
      ensures Abs() == RegionReleased(old(Abs()), base, size)
    {
      ghost var was, first := Busy(pmmap[..]), base / FRAME_SIZE;
      var frames := size / FRAME_SIZE;
      var align := base / FRAME_SIZE;
      for i := 0 to frames
        invariant align == first + i
        invariant usedFrames == Wrap32(old(usedFrames) - i)
        invariant Busy(pmmap[..]) == was - FrameRange(first, i)
      {
        BitmapUnset(pmmap, align);
        align := align + 1;
        WrapDec(old(usedFrames), i);
        RangeRemoved(was, first, i);
        usedFrames := Wrap32(usedFrames - 1);
      }
      BitmapSet(pmmap, 0);
    }

    method FreeRegion(base: Word, size: Word)
      requires base / FRAME_SIZE + RegionCount(size) <= 32 * pmmap.Length
      modifies this`usedFrames, pmmap
      ensures Abs() == RegionTaken(old(Abs()), base, size)
    {
      ghost var was, first := Busy(pmmap[..]), base / FRAME_SIZE;
      var frames := RegionCount(size);
      var align := base / FRAME_SIZE;
      for i := 0 to frames
        invariant align == first + i
        invariant usedFrames == Wrap32(old(usedFrames) + i)
        invariant Busy(pmmap[..]) == was + FrameRange(first, i)
      {
        BitmapSet(pmmap, align);
        align := align + 1;
        WrapInc(old(usedFrames), i);
        RangeAdded(was, first, i);
        usedFrames := Wrap32(usedFrames + 1);
      }
    }

    method InitAvailableRegions(mmap: seq<MmapEntry>)
      requires 0 < pmmap.Length && MapFits(mmap, 32 * pmmap.Length)
      modifies this`usedFrames, pmmap
      ensures Abs() == Released(old(Abs()), mmap)
      ensures forall f: nat :: f > 0 ==> (f in Busy(pmmap[..]) <==> f in old(Busy(pmmap[..])) && !Names(mmap, f))
    {
      var i := 0;
      assert old(Abs()).busy - AvailFrames([]) == old(Abs()).busy;
      while i < |mmap|
        invariant 0 <= i <= |mmap|
        invariant Abs() == Released(old(Abs()), mmap[..i])
      {
        ReleasedStep(old(Abs()), mmap, i);
        if mmap[i].kind == MULTIBOOT_MEMORY_AVAILABLE {
          InitRegion(mmap[i].addrLow, mmap[i].lenLow);
        }
        i := i + 1;
      }
      assert mmap[..|mmap|] == mmap;
      forall f: nat | f > 0 ensures f in Abs().busy <==> f in old(Abs()).busy && !Names(mmap, f) {
        AvailFramesIff(mmap, f);
      }
    }

    method DeinitKernel(kernelStart: Word, kernelEnd: Word)
      requires pmmapSize <= MAX_FRAMES
      requires KernelFits(KernelDescriptor(kernelStart, kernelEnd), pmmapSize, 32 * pmmap.Length)
      modifies this`usedFrames, pmmap
      ensures Abs() == KernelTaken(old(Abs()), KernelDescriptor(kernelStart, kernelEnd), pmmapSize)
    {
      var kernelSize := Wrap32(kernelEnd - kernelStart);
      var pmmapSizeAligned := pmmapSize;
      if !IsAligned(pmmapSizeAligned, FRAME_SIZE) {
        pmmapSizeAligned := Align(pmmapSizeAligned, FRAME_SIZE);
      }
      assert pmmapSizeAligned == BitmapRegionSize(pmmapSize);
      BitmapRegionCount(pmmapSize);
      ghost var s := Abs();
      FreeRegion(kernelStart, kernelSize);
      FreeRegion(kernelEnd, pmmapSizeAligned);
      assert Abs() == RegionTaken(RegionTaken(s, kernelStart, kernelSize), kernelEnd, pmmapSizeAligned);
      KernelTakenSplit(s, kernelStart, kernelSize, kernelEnd, pmmapSizeAligned, pmmapSize);
    }

    /** The beginning of `Init`: sizes, and the fill that should mark all of memory. */
    method MarkAll(memory: array<Word>, memSizeKb: Word)
      requires BitmapWords(KilobytesToFrames(memSizeKb)) <= memory.Length
      modifies this, memory
      ensures memSize == memSizeKb && maxFrames == KilobytesToFrames(memSizeKb) && pmmap == memory
      ensures pmmapSize == BitmapWords(maxFrames)
      ensures Abs() == Frames(maxFrames, maxFrames, old(Busy(memory[..])) + FrameRange(0, 8 * pmmapSize))
    {
      memSize := memSizeKb;
      maxFrames := KilobytesToFrames(memSize);
      usedFrames := maxFrames;
      pmmap := memory;
      pmmapSize := maxFrames / FRAMES_PER_DWORD;
      if maxFrames % FRAMES_PER_DWORD != 0 {
        pmmapSize := pmmapSize + 1;
      }
      ghost var before := Busy(memory[..]);
      Memset(pmmap, 0xFF, pmmapSize);
      FilledWithOnes(before, pmmapSize, pmmap.Length);
    }

    /** `memory` is the memory at the bitmap's address, with whatever it holds. The
        only demand is that no named frame lies beyond it. */
    method Init(info: MultibootInfo, memory: array<Word>, memSizeKb: Word, kernel: KernelDescriptor)
      requires var max := KilobytesToFrames(memSizeKb);
               info.Info? ==>
                 && BitmapWords(max) <= memory.Length && 0 < memory.Length
                 && MapFits(info.mmap, 32 * memory.Length)
                 && KernelFits(kernel, BitmapWords(max), 32 * memory.Length)
      modifies this, memory
      ensures info.NoInfo? ==> unchanged(this) && unchanged(memory)
      ensures info.Info? ==>
                && Valid() && memSize == memSizeKb && pmmap == memory
                && pmmapSize == BitmapWords(maxFrames)
                && Abs() == InitFrames(old(Busy(memory[..])), KilobytesToFrames(memSizeKb), info.mmap, kernel)
      ensures info.Info? ==> forall f: nat ::
                f in Abs().Clear() <==> InitClears(old(Busy(memory[..])), maxFrames, info.mmap, kernel, f)
    {
      if info.NoInfo? {
        return;
      }
      MarkAll(memory, memSizeKb);
      InitAvailableRegions(info.mmap);
      DeinitKernel(kernel.physicalStart, kernel.physicalEnd);
      forall f: nat
        ensures f in Abs().Clear() <==> InitClears(old(Busy(memory[..])), maxFrames, info.mmap, kernel, f)
      {
        InitClearsIff(old(Busy(memory[..])), maxFrames, info.mmap, kernel, f);
      }
    }

    /** Null is 0. */
    method AllocFrame() returns (frame: Word)
      requires Valid()
      modifies this`usedFrames, pmmap
      ensures Valid()
      ensures (Abs(), frame as nat) == old(Abs()).Alloc()
    {
      UnsignedLimitTest(usedFrames, maxFrames);
      if Wrap32(usedFrames - maxFrames) <= 0 {
        return 0;
      }
      var pIndex := BitmapFirstUnset(pmmap, maxFrames);
      if pIndex == -1 {
        return 0;
      }
      BitmapSet(pmmap, pIndex);
      usedFrames := Wrap32(usedFrames + 1);
      return Wrap32(FRAME_SIZE * pIndex);
    }

    method FreeFrame(frame: Word)
      requires Valid() && (frame == 0 || frame / FRAME_SIZE < 32 * pmmap.Length)
      modifies this`usedFrames, pmmap
      ensures Valid()
      ensures Abs() == old(Abs()).Free(frame)
    {
      if frame == 0 {
        return;
      }
      var index := frame / FRAME_SIZE;
      BitmapUnset(pmmap, index);
      usedFrames := Wrap32(usedFrames - 1);
    }
  }

  /** Filling with ones marks the first `8 * size` frames. */
  lemma FilledWithOnes(before: set<nat>, size: nat, length: nat)
    requires size <= 4 * length && forall f :: f in before ==> f < 32 * length
    ensures BytesFilled(before, 0xFF, size, length) == before + FrameRange(0, 8 * size)
  {
    FrameRangeMembers(0, 8 * size);
    Pow2Small();
    forall f: nat | f < 8 * size ensures Bit(0xFF, f % 8) { BitOnes(8, f % 8); }
  }

  /** How the kernel calls `Init`: the bitmap goes to `memory`, and memory is what
      lies below 1 MiB plus the upper memory the boot loader reports. */
  method InitPhysicalFrameAllocator(falloc: PhysicalFrameAllocator, info: MultibootInfo,
                                    memory: array<Word>, kernel: KernelDescriptor)
    requires info.Info?
    requires var max := KilobytesToFrames(Wrap32(1024 + info.memUpper));
             && BitmapWords(max) <= memory.Length && 0 < memory.Length
             && MapFits(info.mmap, 32 * memory.Length)
             && KernelFits(kernel, BitmapWords(max), 32 * memory.Length)
    modifies falloc, memory
    ensures falloc.Valid() && falloc.pmmap == memory
    ensures falloc.Abs() == InitFrames(old(Busy(memory[..])), KilobytesToFrames(Wrap32(1024 + info.memUpper)),
                                       info.mmap, kernel)
  {
    var memSizeKb := Wrap32(1024 + info.memUpper);
    falloc.Init(info, memory, memSizeKb, kernel);
  }
}
