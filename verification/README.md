# Verification of the cosmo kernel's stateful parts

A Dafny 4.11 model of five parts of cosmo, a small x86 kernel, and proofs about them.
`dafny verify dfyconfig.toml` checks everything.

| files | part |
|---|---|
| `Bits.dfy` | unsigned words as natural numbers: `&`, `\|`, `~`, shifts, wrap-around |
| `CString.dfy` | C characters, terminated strings, `strlen`, `memmove` |
| `FrameBitmap.dfy`, `FrameAllocator.dfy` | the physical frame allocator, in place on an array of 32-bit words |
| `MemoryMap.dfy`, `FrameInit.dfy`, `InitTheorems.dfy`, `PcBoot.dfy` | the Multiboot memory map, what initialisation makes of it, and a PC from boot on |
| `FrameSpec.dfy`, `FrameRuns.dfy` | allocation on sets of frames, and what holds over every run |
| `Console.dfy`, `Paper.dfy`, `Controls.dfy` | the VGA text console, the roll of paper it stands for, and what each character does |
| `Logger.dfy`, `LogFormat.dfy`, `Numerals.dfy`, `ReadBack.dfy` | the logger's digit routines and format interpreter, printing on the console, and its output read back |
| `LibcPrintf.dfy` | the C library's `printf` |
| `Pic.dfy` | two 8259A interrupt controllers and the code that programs them |

## Main results

- **Allocator.** The bitmap code refines a set of frames. Over every run of calls, live
  frames never overlap each other or a frame reserved at the start. What must be reserved
  is read off the memory map with all 64 bits: frame 0, the kernel's regions, and every
  frame with a byte of the image or a byte that no available entry describes. Four
  questions are each settled by an exact condition on the inputs: does `Init` reserve all
  of this, is a byte that is not free ever handed out, can `AllocFrame` refuse while frames
  are clear, and is the kernel image fully marked. On a PC the first comes down to the amount
  of memory and to where the entries above 4 GiB lie by their lower halves; a PC that
  passes is proved safe and complete from boot over every run, and two PCs that fail are
  given (`PcBoots`, `SmallPcFails`, `BigPcFails`).
- **Console.** Video memory is always the last 25 rows of an unbounded roll of paper on
  which nothing that has scrolled off changes; any text with newlines has a closed form as
  wrapped lines; backspace, tab and return are proved by what later text looks like; the
  hardware cursor follows over every sequence of operations.
- **Logger.** Every numeral reads back as its number, and but for 0 is the only usual way
  to write it; from the text of each directive its argument can be read back. A log call adds exactly the rendering of its format to the console's roll,
  and on a cleared console to the rows of video memory.
- **printf.** The result and the bytes printed are those of a recursive rendering, under a
  budget of INT_MAX and an output that may fail at any byte; each byte is its character
  modulo 256.
- **Interrupt controllers.** Initialisation works from any state of the chips, leaves them
  in the mode the kernel needs and keeps the masks; mask calls are set operations; interrupts taken in any well-bracketed order are
  retired one by one.

## Modelling decisions

- Unsigned words are natural numbers below a power of two. The C bit operators are defined
  one binary digit at a time; additions, subtractions and products wrap where the code's do.
- The bitmap is an array of words that starts at the bitmap's address and may extend beyond
  the words the allocator uses. The demand on callers of `Init` is that no named frame lies
  beyond this array, where the code would write to foreign memory.
- A memory map is a sequence of entries of fixed size with both halves of base and length.
  As in the code only the lower halves are used to release frames; what an entry describes
  takes both.
- A `char` is a signed number, so bytes from 0x80 on print nothing on the console.
- Devices are values with a transition function: the display controller as an index and 256
  registers, a chip as an initialisation phase and its registers after the Intel 8259A data
  sheet. `io_wait` has no effect.
- Devices, characters and what a result is compared with are written as plain numbers; the
  named constants are the code's.
- A format string is a sequence that ends in its only terminator. `Logger.Printf` returns
  where the C++ loop would step over the terminator and reports this as `overrun`.
- Arguments of the logger carry the type they were constructed from, and `GetValue`
  converts as the C++ does. The writer is the console.
- `putchar` may fail after a given number of bytes; the kernel's own never does.
- Where the source repeats a loop or a check, the model has it once: the digit loop and the
  padding loop of the three number routines, and the budget check of `printf`. Long methods
  are cut at the source's own branches (`MarkAll`, `PutChar`, `Settle`, `StoreDigit`,
  `PrintPercent`, `PrintLiteral`).

## Where the code and its documentation differ

The model follows the code.

- `InitRegion` is documented to mark frames as in use and `FreeRegion` as free; they do the
  opposite.
- `memset` in `Init` is given a count of dwords where it takes bytes, so only a quarter of
  the bitmap is filled (`InitReservesIff`, `SmallPcFails`).
- The upper halves of an entry's base and length are ignored, so memory above 4 GiB releases
  frames below it (`BigPcFails`).
- `IsAligned` is true exactly below the alignment (`IsAlignedMeansDivisibleIff`).
- The comment that the linker script aligns the kernel's end is not borne out by
  `kernel/link.ld`; an aligned start suffices (`ImageReservedIff`, `ImageTailUnmarked`).
- `SetLogBufferHex` returns 1 for 0 although it stores three characters.
- The logger's `%d` and `%u` print nothing for 0 (`DefaultTextIsUsualIff`).

## Model

| member | source | states |
|---|---|---|
| `FrameBitmap.BitmapSet` | src/VirtualMemoryMgmt/PhysicalFrameAllocator/PhysicalFrameAllocator.cc:12-14 | the set of marked frames gains exactly the bit, in whatever word it lies |
| `FrameBitmap.BitmapUnset` | src/VirtualMemoryMgmt/PhysicalFrameAllocator/PhysicalFrameAllocator.cc:16-18 | the set of marked frames loses exactly the bit |
| `FrameBitmap.BitmapTest` | src/VirtualMemoryMgmt/PhysicalFrameAllocator/PhysicalFrameAllocator.cc:20-22 | the returned `int` is non-zero exactly for a marked frame, bit 31 (negative result) included |
| `FrameBitmap.BitmapFirstUnset` | src/VirtualMemoryMgmt/PhysicalFrameAllocator/PhysicalFrameAllocator.cc:24-44 | skipping full words, scanning bits and the partial last word agree with the naive scan of the set, for every bitmap and size |
| `FrameBitmap.LeastClearFinds` | src/VirtualMemoryMgmt/PhysicalFrameAllocator/PhysicalFrameAllocator.cc:24-44 | the naive scan finds the least clear index, or -1 exactly when all are set |
| `FrameBitmap.BusyInjective` | src/VirtualMemoryMgmt/PhysicalFrameAllocator/PhysicalFrameAllocator.cc:12-22 | two bitmaps of one length with the same set of marked frames are word for word equal |
| `FrameBitmap.MarkedAt` | src/VirtualMemoryMgmt/PhysicalFrameAllocator/PhysicalFrameAllocator.cc:12-22 | frame `f` is bit `f % 32` of word `f / 32` |
| `FrameBitmap.Memset` | src/libc/string/memset.c:3-8 | `size` counts bytes: after the fill exactly the bits of the first `8 * size` frames show the value, the others are kept |
| `FrameBitmap.StoreByteBits` | src/libc/string/memset.c:5-6 | a byte store inside a little-endian word replaces the eight bits of that byte only |
| `FrameInit.KilobytesToFrames` | include/VirtualMemoryMgmt/PhysicalFrameAllocator/PhysicalFrameAllocator.h:144-145 | a quarter of the size modulo 4 GiB, for every size, because the product wraps |
| `FrameInit.IsAlignedIff` | include/VirtualMemoryMgmt/PhysicalFrameAllocator/PhysicalFrameAllocator.h:150-151 | the mask test accepts exactly the addresses below the alignment |
| `FrameInit.IsAlignedMeansDivisibleIff` | include/VirtualMemoryMgmt/PhysicalFrameAllocator/PhysicalFrameAllocator.h:147-151 | it agrees with its documentation exactly for 0 and for indivisible addresses not below the alignment |
| `FrameInit.AlignIsNextMultiple` | include/VirtualMemoryMgmt/PhysicalFrameAllocator/PhysicalFrameAllocator.h:156-157 | the next multiple above the address, also from a multiple, with 32-bit wrap |
| `FrameInit.BitmapRegionCount` | src/VirtualMemoryMgmt/PhysicalFrameAllocator/PhysicalFrameAllocator.cc:98-105 | the rounding of the bitmap size always yields its quotient by the frame size plus one |
| `FrameAllocator.PhysicalFrameAllocator.InitRegion` | src/VirtualMemoryMgmt/PhysicalFrameAllocator/PhysicalFrameAllocator.cc:56-66 | releases the frames of base and size rounded down separately, counts every one of them, and marks frame 0 again without counting it |
| `FrameAllocator.PhysicalFrameAllocator.FreeRegion` | src/VirtualMemoryMgmt/PhysicalFrameAllocator/PhysicalFrameAllocator.cc:68-76 | marks the region's frames, at least one, and counts every one of them |
| `FrameAllocator.PhysicalFrameAllocator.InitAvailableRegions` | src/VirtualMemoryMgmt/PhysicalFrameAllocator/PhysicalFrameAllocator.cc:78-92 | the whole memory map at once: a frame above 0 stays marked if and only if it was and no entry of type 1 names it by base and size divided by 4096; counter less the sum, frame 0 kept |
| `FrameAllocator.PhysicalFrameAllocator.DeinitKernel` | src/VirtualMemoryMgmt/PhysicalFrameAllocator/PhysicalFrameAllocator.cc:94-106 | marks and counts the kernel image's frames and the frames from its end on |
| `FrameAllocator.PhysicalFrameAllocator.MarkAll` | src/VirtualMemoryMgmt/PhysicalFrameAllocator/PhysicalFrameAllocator.cc:121-136 | the beginning of `Init`: sizes as computed, and in addition to what was marked only the first eight frames per bitmap word |
| `FrameAllocator.PhysicalFrameAllocator.Init` | src/VirtualMemoryMgmt/PhysicalFrameAllocator/PhysicalFrameAllocator.cc:114-148 | for any prior memory content the state is the closed form, and which frames are clear is said of the arguments alone; without Multiboot information nothing changes |
| `FrameAllocator.PhysicalFrameAllocator.constructor` | src/VirtualMemoryMgmt/PhysicalFrameAllocator/PhysicalFrameAllocator.cc:46-54 | an allocator that manages no frames |
| `FrameAllocator.PhysicalFrameAllocator.AllocFrame` | src/VirtualMemoryMgmt/PhysicalFrameAllocator/PhysicalFrameAllocator.cc:150-164 | new bitmap, counter and address are those of the allocation step on sets |
| `FrameAllocator.PhysicalFrameAllocator.FreeFrame` | src/VirtualMemoryMgmt/PhysicalFrameAllocator/PhysicalFrameAllocator.cc:166-177 | new bitmap and counter are those of the release step; null changes nothing |
| `FrameAllocator.InitPhysicalFrameAllocator` | kernel/kmain.cc:81-90 | the kernel's call of `Init`: memory size is 1 MiB plus the reported upper memory |
| `FrameInit.ReleasedStep` | src/VirtualMemoryMgmt/PhysicalFrameAllocator/PhysicalFrameAllocator.cc:85-91 | one more map entry composes with the closed form for the entries before it |
| `FrameInit.KernelTakenSplit` | src/VirtualMemoryMgmt/PhysicalFrameAllocator/PhysicalFrameAllocator.cc:94-106 | the two `FreeRegion` calls add up to the closed form of `DeinitKernel` |
| `FrameAllocator.FilledWithOnes` | src/VirtualMemoryMgmt/PhysicalFrameAllocator/PhysicalFrameAllocator.cc:129-136 | the fill reaches only the first eight frames per bitmap word |
| `FrameSpec.UnsignedLimitTest` | src/VirtualMemoryMgmt/PhysicalFrameAllocator/PhysicalFrameAllocator.cc:152 | the unsigned `<= 0` means equality |
| `MemoryMap.EntryOwnsItsFramesIff` | include/Boot/multiboot.h:230-243 | all addresses of the frames released for an entry lie in the region it describes exactly when the entry is shorter than a frame, or starts below 4 GiB on a frame boundary |
| `MemoryMap.DisjointMapCount` | src/VirtualMemoryMgmt/PhysicalFrameAllocator/PhysicalFrameAllocator.cc:56-63 | for disjoint available entries the counter moves by the number of frames released |
| `MemoryMap.MapOrderIrrelevant` | src/VirtualMemoryMgmt/PhysicalFrameAllocator/PhysicalFrameAllocator.cc:78-92 | frames released, counter change and treatment of frame 0 are the same for every permutation of any map, overlaps allowed |
| `MemoryMap.AvailFramesIff` | src/VirtualMemoryMgmt/PhysicalFrameAllocator/PhysicalFrameAllocator.cc:85-91 | a frame is released if and only if some entry of type 1 names it by the lower halves of base and length, each divided by 4096 |
| `InitTheorems.InitMarks` | src/VirtualMemoryMgmt/PhysicalFrameAllocator/PhysicalFrameAllocator.cc:114-148 | frame by frame, which frames `Init` leaves marked, for arbitrary prior content |
| `InitTheorems.InitLeavesClear` | src/VirtualMemoryMgmt/PhysicalFrameAllocator/PhysicalFrameAllocator.cc:114-148 | the frames left clear: those some available entry names, and those past the filled part that were clear before; never frame 0, never the kernel's |
| `InitTheorems.InitClearsIff` | src/VirtualMemoryMgmt/PhysicalFrameAllocator/PhysicalFrameAllocator.cc:78-147 | the same in numbers: entries of type 1, the two kernel regions with their 32-bit length, and the words filled |
| `InitTheorems.InitReservesIff` | src/VirtualMemoryMgmt/PhysicalFrameAllocator/PhysicalFrameAllocator.cc:133-147 | `Init` marks frame 0, the kernel's regions and every frame with a byte of the image or a byte that no available entry describes with its 64-bit base and length, if and only if neither the frames named by the lower halves of the available entries nor the unmarked frames past the filled part include such a frame |
| `InitTheorems.AlignedEntriesHarmless` | src/VirtualMemoryMgmt/PhysicalFrameAllocator/PhysicalFrameAllocator.cc:85-91 | the entries' part of that condition holds if every available entry is frame-aligned and below 4 GiB or shorter than a frame, for every image whose own bytes are all marked |
| `InitTheorems.InitAlwaysReservesIff` | src/VirtualMemoryMgmt/PhysicalFrameAllocator/PhysicalFrameAllocator.cc:133-147 | it does so for every prior content of the memory if and only if the named frames and all frames past the filled part are harmless |
| `InitTheorems.InitClearsNamedIff` | src/VirtualMemoryMgmt/PhysicalFrameAllocator/PhysicalFrameAllocator.cc:133-147 | the frames left clear are those the entries name, without frame 0 and the kernel's, if and only if every frame past the filled part is named, the kernel's or was marked |
| `InitTheorems.InitIgnoresMemoryIff` | src/VirtualMemoryMgmt/PhysicalFrameAllocator/PhysicalFrameAllocator.cc:129-136 | the clear frames do not depend on the prior content if and only if map and kernel settle every frame the fill does not reach |
| `InitTheorems.InitOrderIrrelevant` | src/VirtualMemoryMgmt/PhysicalFrameAllocator/PhysicalFrameAllocator.cc:138-143 | the state after `Init` does not depend on the order of the map |
| `InitTheorems.ImageReservedIff` | src/VirtualMemoryMgmt/PhysicalFrameAllocator/PhysicalFrameAllocator.cc:94-106 | every byte of the kernel image is in a marked frame if and only if the start is no further into its frame than the end, or at most two frames are involved |
| `InitTheorems.ImageTailUnmarked` | src/VirtualMemoryMgmt/PhysicalFrameAllocator/PhysicalFrameAllocator.cc:94-106 | an image from 0x100800 to 0x103000 keeps an unmarked page |
| `InitTheorems.KernelFramesContiguous` | src/VirtualMemoryMgmt/PhysicalFrameAllocator/PhysicalFrameAllocator.cc:94-106 | from an aligned start the marked frames are one contiguous run, however the end is aligned |
| `InitTheorems.KernelCountExactIff` | src/VirtualMemoryMgmt/PhysicalFrameAllocator/PhysicalFrameAllocator.cc:94-106 | each of them is counted once if and only if the kernel is at least a frame long |
| `InitTheorems.InitCompleteIff` | src/VirtualMemoryMgmt/PhysicalFrameAllocator/PhysicalFrameAllocator.cc:114-164 | after `Init`, allocation over all runs is complete if and only if the 32-bit difference of released and kernel frames, as counted, covers the frames that map, kernel and prior content leave clear |
| `InitTheorems.InitCounts` | src/VirtualMemoryMgmt/PhysicalFrameAllocator/PhysicalFrameAllocator.cc:114-148 | for a well-formed map whose gap is settled the counter is the number of marked frames, less one when frame 0 was released and taken back, and allocation is complete |
| `InitTheorems.InitHandsOutIff` | src/VirtualMemoryMgmt/PhysicalFrameAllocator/PhysicalFrameAllocator.cc:114-164 | after `Init` a frame is handed out on some run if and only if it is left clear and no more clear frames come up to it than the counter lets through |
| `InitTheorems.BootRunsSafelyIff` | src/VirtualMemoryMgmt/PhysicalFrameAllocator/PhysicalFrameAllocator.cc:114-177 | from boot over every run, for any map and kernel: each byte behind a live address is described as available and no byte of the image, if and only if every frame left clear is of that kind or out of the counter's reach |
| `InitTheorems.ReservingRunsSafely` | src/VirtualMemoryMgmt/PhysicalFrameAllocator/PhysicalFrameAllocator.cc:114-177 | in particular whenever `Init` reserves what it must |
| `PcBoot.PcFrames` | kernel/kmain.cc:84 | the kernel's sizing gives 256 frames and those in upper memory |
| `PcBoot.PcReservesIff` | src/VirtualMemoryMgmt/PhysicalFrameAllocator/PhysicalFrameAllocator.cc:78-147 | on a PC with the kernel at 1 MiB, whatever else the map holds from 1 MiB on, `Init` reserves what it must for every prior content if and only if there are at least 993 frames and no available entry, read by its lower halves, reaches into the hole below 1 MiB |
| `PcBoot.PcBoots` | src/VirtualMemoryMgmt/PhysicalFrameAllocator/PhysicalFrameAllocator.cc:114-177 | such a PC from boot over every run: the clear frames in closed form, only memory described as available and outside the image is handed out, no call is refused while a frame is clear |
| `PcBoot.PcCounts` | src/VirtualMemoryMgmt/PhysicalFrameAllocator/PhysicalFrameAllocator.cc:114-148 | there, if the entries are disjoint and inside memory, the counter is one less than the number of marked frames |
| `PcBoot.MidPcBoots` | src/VirtualMemoryMgmt/PhysicalFrameAllocator/PhysicalFrameAllocator.cc:78-177 | 4 MiB with reserved ROM: for every prior content exactly frames 1 to 158 and 273 to 1023 are clear, only these are handed out, none is refused early |
| `PcBoot.SmallPcFails` | src/VirtualMemoryMgmt/PhysicalFrameAllocator/PhysicalFrameAllocator.cc:129-164 | 2 MiB, zeroed bitmap memory: the 184th call of `AllocFrame` returns the console's video memory, and calls are refused while frames are clear |
| `PcBoot.BigPcFails` | src/VirtualMemoryMgmt/PhysicalFrameAllocator/PhysicalFrameAllocator.cc:85-89 | 8 GiB: whatever the memory held, the frame at 640 KiB is handed out, no byte of which any entry describes |
| `FrameSpec.AllocTakesLeastClear` | src/VirtualMemoryMgmt/PhysicalFrameAllocator/PhysicalFrameAllocator.cc:150-164 | null exactly at the limit or when nothing is clear; otherwise the least clear frame, and no other, becomes busy |
| `FrameSpec.AllocPartitioned` | src/VirtualMemoryMgmt/PhysicalFrameAllocator/PhysicalFrameAllocator.cc:150-164 | an allocation keeps memory partitioned into reserved, live and clear frames |
| `FrameSpec.FreePartitioned` | src/VirtualMemoryMgmt/PhysicalFrameAllocator/PhysicalFrameAllocator.cc:166-177 | so does freeing a live frame or null |
| `FrameSpec.RunPartitioned` | src/VirtualMemoryMgmt/PhysicalFrameAllocator/PhysicalFrameAllocator.cc:150-177 | over every legal run the partition holds and the counter is the initial one plus the live frames |
| `FrameSpec.LiveRangesDisjoint` | src/VirtualMemoryMgmt/PhysicalFrameAllocator/PhysicalFrameAllocator.cc:150-177 | in every reachable state live 4 KiB ranges lie inside memory, above frame 0, apart from each other and from every reserved frame |
| `FrameSpec.AllocReturnsFresh` | include/VirtualMemoryMgmt/PhysicalFrameAllocator/PhysicalFrameAllocator.h:115-121 | a returned address is aligned, not live, not reserved, and live afterwards |
| `FrameRuns.AllocCompleteIff` | src/VirtualMemoryMgmt/PhysicalFrameAllocator/PhysicalFrameAllocator.cc:152-158 | no legal run ever makes `AllocFrame` refuse while a frame is clear if and only if the counter starts at least as far from the limit as there are clear frames |
| `FrameRuns.EarlyRefusal` | src/VirtualMemoryMgmt/PhysicalFrameAllocator/PhysicalFrameAllocator.cc:152-154 | otherwise that many allocations lead to a refusal with frames still clear |
| `FrameRuns.HandedOutIff` | src/VirtualMemoryMgmt/PhysicalFrameAllocator/PhysicalFrameAllocator.cc:150-177 | a frame is live in some reachable state if and only if it is clear at the start and the number of clear frames up to it is within the slack |
| `FrameRuns.AllocsReach` | src/VirtualMemoryMgmt/PhysicalFrameAllocator/PhysicalFrameAllocator.cc:150-164 | then exactly that many calls in a row hand it out |
| `FrameRuns.NullMeansFull` | include/VirtualMemoryMgmt/PhysicalFrameAllocator/PhysicalFrameAllocator.h:115-121 | then null means that every frame is busy, in every reachable state |
| `FrameRuns.CounterNeverWraps` | src/VirtualMemoryMgmt/PhysicalFrameAllocator/PhysicalFrameAllocator.cc:161 | then the counter is exact and stays at or below the number of frames |
| `FrameRuns.CounterPlusClearConserved` | src/VirtualMemoryMgmt/PhysicalFrameAllocator/PhysicalFrameAllocator.cc:160-176 | counter plus clear frames, as a 32-bit sum, is conserved over every legal run |
| `FrameRuns.ExhaustionIsOrdered` | src/VirtualMemoryMgmt/PhysicalFrameAllocator/PhysicalFrameAllocator.cc:150-164 | with k clear frames, k calls return all of them in increasing order and the next returns null |
| `FrameRuns.FreeingRestores` | src/VirtualMemoryMgmt/PhysicalFrameAllocator/PhysicalFrameAllocator.cc:150-177 | giving the frames back in any order restores bitmap set and counter |
| `CString.Memmove` | src/libc/string/memmove.c:3-14 | the destination holds the old source bytes and nothing else changes, for every overlap (section 7.24.2.2 of ISO/IEC 9899:2011) |
| `CString.Strlen` | src/libc/string/strlen.c:3-8 | the length of the text, without reading past the terminator |
| `Console.FrameBuffer.constructor` | src/FrameBuffer/FrameBuffer.cc:32-37 | the roll starts as the 25 rows that video memory shows |
| `Console.FrameBuffer.SetColor` | include/FrameBuffer/FrameBuffer.h:73-74 | later output takes the two colours, each in its half of the attribute; paper, cursor and controller stay |
| `Console.ColorByte` | include/FrameBuffer/FrameBuffer.h:73-74 | upper nibble background, lower nibble foreground |
| `Console.FrameBuffer.ScrollScreen` | src/FrameBuffer/FrameBuffer.cc:11-30 | at row 25 the 2000 cells move up by 80 and the last 80 become blanks in the current colour, one row is fed to the roll; otherwise nothing happens |
| `Console.FrameBuffer.ClearScreen` | src/FrameBuffer/FrameBuffer.cc:45-55 | all 2000 cells become blanks in the current colour, the cursor goes to the origin, older rows stay |
| `Console.FrameBuffer.MoveCursor` | src/FrameBuffer/FrameBuffer.cc:57-74 | positions on the screen are taken and shown by the hardware cursor, others change nothing |
| `Console.FrameBuffer.PlaceCursor` | src/FrameBuffer/FrameBuffer.cc:65-73 | the two port pairs set registers 14 and 15, which decode to the position, and no other |
| `Console.FrameBuffer.PrintChar` | src/FrameBuffer/FrameBuffer.cc:76-115 | video memory still shows the end of the roll, the roll made the step for the character, cursor on screen, hardware cursor in place; every cell access inside the 2000 cells |
| `Controls.BackspacesErase` | src/FrameBuffer/FrameBuffer.cc:82-84 | as many bytes 8 as characters were printed take them back: after another text as long nothing is left of them |
| `Controls.BackspaceRetypes` | src/FrameBuffer/FrameBuffer.cc:82-84 | in particular one character, a byte 8 and another character print as the other alone |
| `Controls.BackspaceAtStart` | src/FrameBuffer/FrameBuffer.cc:82-84 | at column 0 byte 8 does nothing |
| `Controls.TabMoves` | src/FrameBuffer/FrameBuffer.cc:85-87 | byte 9 goes to the least column above that is divisible by 4, and from column 76 on it is a newline |
| `Controls.ReturnOverwrites` | src/FrameBuffer/FrameBuffer.cc:88-89 | after byte 13 a second text that covers the first in the row hides it |
| `Controls.ReturnGoesBack` | src/FrameBuffer/FrameBuffer.cc:88-89 | byte 13 keeps roll and row and goes to column 0 |
| `Controls.OthersIgnored` | src/FrameBuffer/FrameBuffer.cc:82-115 | every other byte below 32 and every negative character changes nothing |
| `Controls.ColourOfCell` | src/FrameBuffer/FrameBuffer.cc:79-98 | after a change of colour the next character's cell decodes to its code, foreground and background |
| `Console.FrameBuffer.Settle` | src/FrameBuffer/FrameBuffer.cc:104-114 | end of row and end of screen as wrapping and feeding of the roll |
| `Console.FrameBuffer.PrintString` | include/FrameBuffer/FrameBuffer.h:172-182 | prints its characters in order; the hardware cursor stays in place, for the empty string too |
| `Console.FrameBuffer.PutChar` | src/FrameBuffer/FrameBuffer.cc:93-102 | the branch for printable characters writes one cell, which is the roll's write |
| `Console.CursorFollows` | src/FrameBuffer/FrameBuffer.cc:57-115 | once an operation has set the hardware cursor, registers 14 and 15 decode to the position after every further sequence of operations |
| `Console.TabStop` | src/FrameBuffer/FrameBuffer.cc:86-87 | the mask yields the next multiple of four |
| `Console.ScreenAfterNewRow` | src/FrameBuffer/FrameBuffer.cc:20-26 | appending a row to the roll is moving the screen up by 80 cells |
| `Console.ScreenAfterWrite` | src/FrameBuffer/FrameBuffer.cc:93-98 | writing on the roll changes exactly one cell of the screen |
| `Paper.Glyph` | src/FrameBuffer/FrameBuffer.cc:96-98 | a cell decodes to its character and its colour |
| `Paper.ScreenRow` | src/FrameBuffer/FrameBuffer.cc:11-30 | row r of the 2000 cells is the r-th of the roll's last 25 rows |
| `Paper.SameScreenIff` | src/FrameBuffer/FrameBuffer.cc:11-30 | two rolls show the same cells if and only if their last 25 rows agree |
| `Paper.StepValid` | src/FrameBuffer/FrameBuffer.cc:76-115 | every operation keeps the cursor on the shown part of the roll |
| `Paper.RunKeepsHistory` | src/FrameBuffer/FrameBuffer.cc:11-30 | over every sequence of operations the roll only grows and a row that has scrolled off never changes |
| `Paper.NewRowIsBlank` | src/FrameBuffer/FrameBuffer.cc:17-26 | a row that appears is blank in the colour current at that moment, and only printing makes one appear |
| `Paper.TextLayout` | src/FrameBuffer/FrameBuffer.cc:76-115 | after clearing, any text of printable characters and newlines lies on the roll as its lines, each wrapped at 80 columns, blank rows after it, the cursor behind the last character |
| `Paper.JoinLines` | src/FrameBuffer/FrameBuffer.cc:90-92 | the lines of the layout, joined by newlines, are the text, and no line contains one |
| `Paper.TextOnScreen` | src/FrameBuffer/FrameBuffer.cc:11-30 | the screen then shows the last 25 rows of that layout |
| `Paper.PrintableOnRoll` | src/FrameBuffer/FrameBuffer.cc:76-115 | closed form for printable characters alone: character i in row i / 80 and column i % 80, blanks after the last, cursor and start of the screen by the number of characters |
| `Paper.PrintableIsOneLine` | src/FrameBuffer/FrameBuffer.cc:93-108 | such a text is one line of the layout |
| `Paper.LaidCharacter` | src/FrameBuffer/FrameBuffer.cc:93-108 | a printable character extends the last piece of the layout, and a full row starts a new one at once |
| `Paper.LaidNewline` | src/FrameBuffer/FrameBuffer.cc:90-92 | a newline adds an empty piece, also behind a row that was just filled |
| `Paper.WrapExtend` | src/FrameBuffer/FrameBuffer.cc:104-108 | wrapping a line commutes with adding a character to it |
| `Paper.PrintConcat` | include/FrameBuffer/FrameBuffer.h:179-181 | printing two strings is printing their concatenation |
| `Logger.Logger.LogBufferReverse` | src/Logger/Logger.cc:5-12 | the stretch is reversed in place, the rest kept |
| `Logger.Logger.StoreDigits` | src/Logger/Logger.cc:21-28 | the digit loops store the numeral back to front |
| `Logger.Logger.Pad` | src/Logger/Logger.cc:30-32 | the padding loop adds zeros up to the required digits |
| `Logger.Logger.SetLogBufferInt` | src/Logger/Logger.cc:14-45 | for every `int` but INT_MIN and every padding that fits: buffer holds the terminated text, its length is returned, the rest is untouched |
| `Logger.Logger.SetLogBufferUInt` | src/Logger/Logger.cc:47-69 | the same for every `unsigned int` |
| `Logger.Logger.SetLogBufferHex` | src/Logger/Logger.cc:71-104 | buffer holds `0x` and the numeral; the returned value is its length if and only if the number is not 0 |
| `Logger.Logger.constructor` | include/Logger/Logger.h:248 | the buffer starts filled with terminators |
| `Logger.Logger.PrintDirective` | include/Logger/Logger.h:355-383 | prints what the directive's argument denotes, whatever the buffer held, and uses one argument for a known letter only |
| `Logger.Logger.PrintBuffer` | include/Logger/Logger.h:365 | prints the buffer up to its terminator |
| `Logger.Logger.PrintLiterals` | include/Logger/Logger.h:346-349 | the inner loop prints up to the next `%` or the terminator |
| `Logger.Logger.PrintPercent` | include/Logger/Logger.h:355-383 | a `%` and its letter advance the rendering; a `%` before the terminator ends it |
| `Logger.Logger.Printf` | include/Logger/Logger.h:341-385 | the console's roll gains exactly the rendering, as many arguments are used as there are directives, and the loop leaves the format string if and only if it dangles |
| `ReadBack.UnsignedReadsBack` | include/Logger/Logger.h:367-371 | `%u` between any two formats contributes a text that reads back as the argument modulo 2^32, in usual decimal form unless it is empty |
| `ReadBack.IntReadsBack` | include/Logger/Logger.h:362-366 | `%d`: the same for the argument as a 32-bit signed number, with byte 45 in front exactly for a negative one |
| `ReadBack.HexReadsBack` | include/Logger/Logger.h:372-377 | `%x` and `%X`: bytes 48 and 120, then digits that read back in base 16, no spare zero in front |
| `ReadBack.StringIsPrinted` | include/Logger/Logger.h:378-382 | `%s` contributes the string |
| `ReadBack.CharIsPrinted` | include/Logger/Logger.h:358-361 | `%c` contributes one character, the argument modulo 256 |
| `ReadBack.OtherLettersSilent` | include/Logger/Logger.h:357-383 | any other letter contributes nothing and takes no argument |
| `ReadBack.ConversionsKeep` | include/Logger/Logger.h:309-321 | the conversions between argument types keep the number modulo the width of the target |
| `ReadBack.TextPrintsItself` | include/Logger/Logger.h:346-349 | a format without a percent sign prints itself and takes no argument |
| `ReadBack.PrefixBytes` | include/Logger/Logger.h:327-335 | the bytes of each level's prefix |
| `Logger.Logger.Log` | include/Logger/Logger.h:323-339 | the level's prefix, byte for byte, and the rendering, hardware cursor in place; on a cleared console the 25 rows of video memory then are the last rows of the message's layout, the cursor behind it |
| `Logger.LogOnClearedConsole` | include/Logger/Logger.h:323-339 | prefix and message on a cleared console lie on the roll line by line, wrapped, and the screen shows the last 25 of these rows |
| `LogFormat.RenderConcat` | include/Logger/Logger.h:341-385 | formats compose: rendering, matching and use of arguments of a concatenation |
| `LogFormat.PercentNeedsArgument` | include/Logger/Logger.h:355-383 | `%%` is no escape: without directives no `%` is ever printed |
| `LogFormat.ProgressPercent` | include/Logger/Logger.h:355-384 | one directive, read left to right, as one step of the rendering |
| `Numerals.ParseNumeral` | src/Logger/Logger.cc:21-28 | reading a numeral back gives the number, in base 10 and 16 |
| `Numerals.NumeralParse` | src/Logger/Logger.cc:21-28 | a digit string without leading zero is the numeral of its value, so the text is the only one |
| `Numerals.DigitsAre` | src/Logger/Logger.cc:85-91 | the sixteen digits are 0 to 9 and A to F, in this order |
| `Numerals.ParseDigit` | src/Logger/Logger.cc:85-91 | each of them, read alone, is its place among the sixteen |
| `Numerals.ParseConcat` | src/Logger/Logger.cc:21-28 | reading is positional: what stands further left counts times the power of the base for what follows |
| `Numerals.NumeralLength` | src/Logger/Logger.cc:21-28 | a number has at most k digits if and only if it is below the k-th power of the base |
| `Numerals.WordNumerals` | include/Logger/Logger.h:246 | 32-bit numbers need at most ten decimal and eight hexadecimal digits, so the buffer suffices |
| `Numerals.UnsignedText` | src/Logger/Logger.cc:47-69 | the text has the larger of digit count and required digits, and no terminator inside |
| `Numerals.DecimalRoundTrip` | src/Logger/Logger.cc:14-69 | parsing the text gives the number, for every sign and padding |
| `Numerals.HexRoundTrip` | src/Logger/Logger.cc:71-104 | the text is `0x` and a numeral that parses to the number |
| `Numerals.NoSpareZeros` | src/Logger/Logger.cc:30-32 | the leading zeros are the padding and no more |
| `Numerals.UsualDecimalIff` | src/Logger/Logger.cc:14-45 | of all texts with digits, at most one minus sign, no spare leading zero and the number as their value there is exactly one: `0`, or the text the logger prints for another number |
| `Numerals.DefaultTextIsUsualIff` | include/Logger/Logger.h:255-267 | so without padding the text is the usual decimal numeral if and only if the number is not 0, which prints nothing |
| `LibcPrintf.Output.Print` | src/libc/stdio/printf.c:7-13 | hands over the bytes in order, each equal to its character modulo 256, and stops at the first failure |
| `LibcPrintf.Output.Emit` | src/libc/stdio/printf.c:30-37 | a piece that exceeds the budget or the output ends printing with a prefix of the rendering |
| `LibcPrintf.Output.PrintLiteral` | src/libc/stdio/printf.c:24-39 | a stretch of ordinary text, or of `%%` and what follows, up to the next `%` |
| `LibcPrintf.Output.PrintDirective` | src/libc/stdio/printf.c:41-75 | `%c`, `%s`, and everything from an unsupported directive on |
| `LibcPrintf.Output.Printf` | src/libc/stdio/printf.c:15-80 | not -1 if and only if the rendering has at most 2^31 - 1 bytes and fits the output; then its length, and the new bytes are its characters modulo 256, otherwise a prefix of them (section 7.21.6.3 of ISO/IEC 9899:2011, this subset) |
| `LibcPrintf.EscapeRoundTrip` | src/libc/stdio/printf.c:24-28 | a string with every `%` doubled prints as the string |
| `LibcPrintf.RenderConcat` | src/libc/stdio/printf.c:22-76 | a format of supported directives with exactly its arguments composes with any other format |
| `LibcPrintf.CharDirective` | src/libc/stdio/printf.c:43-52 | `%c` between any two formats contributes one character, which is sent as the argument modulo 256 |
| `LibcPrintf.CharBetweenTexts` | src/libc/stdio/printf.c:43-52 | between plain texts: that byte stands right behind the first text |
| `LibcPrintf.StringDirective` | src/libc/stdio/printf.c:53-63 | `%s` between any two formats contributes the string |
| `LibcPrintf.PercentDirective` | src/libc/stdio/printf.c:24-28 | `%%` between any two formats contributes one percent sign |
| `LibcPrintf.UnsupportedDirective` | src/libc/stdio/printf.c:64-75 | from any other directive on, a lone percent sign included, the format is printed as it stands |
| `LibcPrintf.TextPrintsItself` | src/libc/stdio/printf.c:24-38 | a format without a percent sign prints itself |
| `LibcPrintf.ProgressChunk` | src/libc/stdio/printf.c:24-38 | printing a stretch at once is rendering its characters one by one |
| `LibcPrintf.ProgressVerbatim` | src/libc/stdio/printf.c:64-75 | an unsupported directive makes the rest of the format its own rendering |
| `Pic.PicPair.Init` | src/ProgrammableInterruptController/ProgrammableInterruptController.cc:27-62 | the ten port writes, byte for byte; from any state of both chips, half-finished initialisations included: both ready in 8086 mode without automatic end of interrupt, wired to each other, vectors set, masks and in-service registers as before |
| `Pic.VectorBaseIff` | src/ProgrammableInterruptController/ProgrammableInterruptController.cc:39-43 | the vectors start at the given offset if and only if it is a multiple of 8 that fits a byte |
| `Pic.PicPair.SetMask` | src/ProgrammableInterruptController/ProgrammableInterruptController.cc:64-76 | inserts the line's bit into the chip's mask register and the line into the set of masked lines, changes nothing else, and writes that register alone |
| `Pic.PicPair.ClearMask` | src/ProgrammableInterruptController/ProgrammableInterruptController.cc:78-90 | the same for removing the line |
| `Pic.LastCallDecides` | src/ProgrammableInterruptController/ProgrammableInterruptController.cc:64-90 | after any sequence of mask calls a line is masked according to the last call about it |
| `Pic.PicPair.InitPic` | kernel/kmain.cc:66-79 | vectors 0x20 and 0x28, 8086 mode, end of interrupt by command, master mask 0xFD, and of all sixteen lines only line 1, the keyboard's, reaches the processor |
| `Pic.PicPair.GetIrqReg` | src/ProgrammableInterruptController/ProgrammableInterruptController.cc:8-15 | any `int` goes to both chips as a command byte; slave's register in the upper byte, master's in the lower |
| `Pic.PicPair.GetIrr` | src/ProgrammableInterruptController/ProgrammableInterruptController.cc:92-95 | asks with 0x0A and packs the request registers |
| `Pic.PicPair.GetIsr` | src/ProgrammableInterruptController/ProgrammableInterruptController.cc:97-100 | asks with 0x0B and packs the in-service registers |
| `Pic.PicPair.SendEOI` | src/ProgrammableInterruptController/ProgrammableInterruptController.cc:17-25 | byte 0x20, a non-specific end of interrupt, to the slave for its lines and always to the master |
| `Pic.EoiUndoesIff` | src/ProgrammableInterruptController/ProgrammableInterruptController.cc:17-25 | `SendEOI` retires the interrupt of its own handler and no other if and only if each chip concerned is without automatic end of interrupt or has nothing else in service |
| `Pic.EoiRetiresItsOwn` | src/ProgrammableInterruptController/ProgrammableInterruptController.cc:17-25 | on such chips, however interrupts nest and follow each other inside handlers, each `SendEOI` retires its own interrupt and the chips end as they began |
| `Pic.EoiAfterInit` | src/ProgrammableInterruptController/ProgrammableInterruptController.cc:17-62 | so on the chips as `Init` leaves them |

## Left out

- FrameAllocator.PhysicalFrameAllocator.Init: does not model where the bitmap lies. Its address adds `kernel_virtual_start` and its size is kept in dwords, so nothing is claimed about the bitmap's own storage being reserved, nor about the map being overwritten.
- FrameAllocator.PhysicalFrameAllocator.constructor: the null bitmap before `Init` is an empty array.
- Logger.Logger.Printf: is stated for the console as writer; the serial port is not modelled. A missing argument, a string for a number, a number for a string and INT_MIN for `%d` are undefined in the source and excluded.
- Logger.Logger.SetLogBufferInt: excludes INT_MIN, whose negation overflows.
- CString.Memmove: both ranges lie in one memory; pointers into different objects are not compared.
- Pic.PicPair.Init: polling, special mask mode, automatic rotation and specific end of interrupt are not part of the chips; the repository does not use them.
- Pic.PicPair.GetIrqReg: of a command byte that also asks for polling or special mask mode only the other bits take effect; the repository sends none.
- PcBoot.PcBoots: promises that no call is refused early only while the entries name fewer than 2^32 frames; beyond that the counter wraps, and `InitCompleteIff` decides.
- Pic.PicPair.SetMask: covers lines 0 to 15, the documented range.
- Interrupts in the middle of an operation: every call is atomic. The code takes no locks.
- Boot code, paging, linking, segment and interrupt descriptor tables, interrupt stubs: machine state outside the model.
- Serial port, keyboard scan codes and interrupt dispatch: straight-line port writes and finite tables.
- `memcmp`, `memcpy`, `puts`, `abort` and the kernel's logo: nothing beyond their text.
- The allocator's getters and `GetInstance`: they return what the state holds.
- Singletons, copies and moves of objects, variadic packs: C++ mechanics without state of their own.
