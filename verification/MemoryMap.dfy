/** The Multiboot memory map (Multiboot Specification 0.6.96, section 3.3) and
    the frames that the allocator's initialisation derives from it. */
module MemoryMap {
  import opened Bits

  const FRAME_SIZE := 4096
  const MULTIBOOT_MEMORY_AVAILABLE := 1

  /** One map entry: a 64-bit base and length in two halves each, and a type. */
  datatype MmapEntry = MmapEntry(addrLow: Word, addrHigh: Word, lenLow: Word, lenHigh: Word, kind: Word) {
    predicate Available() {
      kind == 1
    }

    function Base(): nat {
      addrHigh * WORD + addrLow
    }

    /** Address `a` lies in the region the entry describes. */
    predicate Describes(a: nat) {
      Base() <= a < Base() + (lenHigh * WORD + lenLow)
    }
  }

  /** `count` frames from `first` on. */
  ghost function FrameRange(first: nat, count: nat): set<nat> {
    if count == 0 then {} else FrameRange(first, count - 1) + {first + count - 1}
  }

  lemma {:induction false} FrameRangeMember(first: nat, count: nat, f: nat)
    ensures f in FrameRange(first, count) <==> first <= f < first + count
  {
    if count == 0 {
    } else {
      FrameRangeMember(first, count - 1, f);
    }
  }

  lemma {:induction false} FrameRangeSize(first: nat, count: nat)
    ensures |FrameRange(first, count)| == count
  {
    if count == 0 {
    } else {
      FrameRangeSize(first, count - 1);
      FrameRangeMember(first, count - 1, first + count - 1);
    }
  }

  lemma FrameRangeMembers(first: nat, count: nat)
    ensures forall f :: f in FrameRange(first, count) <==> first <= f < first + count
    ensures |FrameRange(first, count)| == count
  {
    forall f: nat ensures f in FrameRange(first, count) <==> first <= f < first + count {
      FrameRangeMember(first, count, f);
    }
    FrameRangeSize(first, count);
  }

  lemma RangeRemoved(busy: set<nat>, first: nat, i: nat)
    ensures busy - FrameRange(first, i) - {first + i} == busy - FrameRange(first, i + 1)
  {
  }

  lemma RangeAdded(busy: set<nat>, first: nat, i: nat)
    ensures busy + FrameRange(first, i) + {first + i} == busy + FrameRange(first, i + 1)
  {
  }

  /** The frames `InitRegion` releases for an entry: low halves only, both rounded down. */
  ghost function EntryFrames(e: MmapEntry): set<nat> {
    FrameRange(e.addrLow / FRAME_SIZE, e.lenLow / FRAME_SIZE)
  }

  /** Initialisation releases frame `f` because of entry `e`. */
  ghost predicate Releases(e: MmapEntry, f: nat) {
    e.Available() && f in EntryFrames(e)
  }

  /** The frames some available entry releases. */
  ghost function AvailFrames(mmap: seq<MmapEntry>): set<nat> {
    if mmap == [] then {}
    else
      var e := mmap[|mmap| - 1];
      AvailFrames(mmap[..|mmap| - 1]) + (if e.Available() then EntryFrames(e) else {})
  }

  lemma {:induction false} AvailFramesMember(mmap: seq<MmapEntry>, f: nat)
    ensures f in AvailFrames(mmap) <==> exists i :: 0 <= i < |mmap| && Releases(mmap[i], f)
  {
    if mmap == [] {
    } else {
      var init, last := mmap[..|mmap| - 1], |mmap| - 1;
      AvailFramesMember(init, f);
      if i :| 0 <= i < |mmap| && Releases(mmap[i], f) {
        assert i < last ==> Releases(init[i], f);
      }
      if i :| 0 <= i < |init| && Releases(init[i], f) {
        assert Releases(mmap[i], f);
      }
      if Releases(mmap[last], f) {
        assert f in AvailFrames(mmap);
      }
    }
  }

  /** Some entry of type 1 names frame `f` by the lower halves of base and length. */
  ghost predicate Names(mmap: seq<MmapEntry>, f: nat) {
    exists i :: 0 <= i < |mmap| && mmap[i].kind == 1
                && mmap[i].addrLow / 4096 <= f < mmap[i].addrLow / 4096 + mmap[i].lenLow / 4096
  }

  /** Which entries count, and for which frames. */
  lemma AvailFramesIff(mmap: seq<MmapEntry>, f: nat)
    ensures f in AvailFrames(mmap) <==> Names(mmap, f)
  {
    AvailFramesMember(mmap, f);
    if i :| 0 <= i < |mmap| && Releases(mmap[i], f) {
      FrameRangeMember(mmap[i].addrLow / FRAME_SIZE, mmap[i].lenLow / FRAME_SIZE, f);
    }
    if i :| 0 <= i < |mmap| && mmap[i].kind == 1
            && mmap[i].addrLow / 4096 <= f < mmap[i].addrLow / 4096 + mmap[i].lenLow / 4096 {
      FrameRangeMember(mmap[i].addrLow / FRAME_SIZE, mmap[i].lenLow / FRAME_SIZE, f);
      assert Releases(mmap[i], f);
    }
  }

  /** How often `InitRegion` decrements the counter over the whole map. */
  function AvailCount(mmap: seq<MmapEntry>): nat {
    if mmap == [] then 0
    else
      var e := mmap[|mmap| - 1];
      AvailCount(mmap[..|mmap| - 1]) + (if e.Available() then e.lenLow / FRAME_SIZE else 0)
  }

  ghost predicate AnyAvailable(mmap: seq<MmapEntry>) {
    exists i :: 0 <= i < |mmap| && mmap[i].Available()
  }

  /** No available entry names a frame outside a bitmap of `limit` bits. */
  ghost predicate MapFits(mmap: seq<MmapEntry>, limit: nat) {
    forall i :: 0 <= i < |mmap| && mmap[i].Available() ==>
      mmap[i].addrLow / FRAME_SIZE + mmap[i].lenLow / FRAME_SIZE <= limit
  }

  /** The available entries name pairwise disjoint sets of frames. */
  ghost predicate MapDisjoint(mmap: seq<MmapEntry>) {
    forall i, j :: 0 <= i < j < |mmap| && mmap[i].Available() && mmap[j].Available() ==>
      EntryFrames(mmap[i]) !! EntryFrames(mmap[j])
  }

  /** Rounding `base` and `size` down separately is safe exactly when the entry
      starts on a frame boundary below 4 GiB, or is too short to name a frame. */
  lemma EntryOwnsItsFramesIff(e: MmapEntry)
    ensures (forall f, a: nat :: f in EntryFrames(e) && a / FRAME_SIZE == f ==> e.Describes(a))
            <==> e.lenLow < FRAME_SIZE || (e.addrHigh == 0 && e.addrLow % FRAME_SIZE == 0)
  {
    var first := e.addrLow / FRAME_SIZE;
    FrameRangeMembers(first, e.lenLow / FRAME_SIZE);
    if e.lenLow < FRAME_SIZE {
    } else if e.addrHigh == 0 && e.addrLow % FRAME_SIZE == 0 {
      forall f, a: nat | f in EntryFrames(e) && a / FRAME_SIZE == f ensures e.Describes(a) {
      }
    } else {
      var a := FRAME_SIZE * first;
      assert first in EntryFrames(e) && a / FRAME_SIZE == first && !e.Describes(a);
    }
  }

  /** For a disjoint map the counter moves by the number of frames released. */
  lemma {:induction false} DisjointMapCount(mmap: seq<MmapEntry>)
    requires MapDisjoint(mmap)
    ensures |AvailFrames(mmap)| == AvailCount(mmap)
  {
    if mmap == [] {
    } else {
      var init, e := mmap[..|mmap| - 1], mmap[|mmap| - 1];
      DisjointMapCount(init);
      if e.Available() {
        LastEntryDisjoint(mmap);
        FrameRangeMembers(e.addrLow / FRAME_SIZE, e.lenLow / FRAME_SIZE);
        assert |AvailFrames(init) + EntryFrames(e)| == |AvailFrames(init)| + |EntryFrames(e)|;
      }
    }
  }

  lemma LastEntryDisjoint(mmap: seq<MmapEntry>)
    requires MapDisjoint(mmap) && mmap != [] && mmap[|mmap| - 1].Available()
    ensures AvailFrames(mmap[..|mmap| - 1]) !! EntryFrames(mmap[|mmap| - 1])
  {
    var init, e := mmap[..|mmap| - 1], mmap[|mmap| - 1];
    forall f | f in AvailFrames(init) ensures f !in EntryFrames(e) {
      AvailFramesMember(init, f);
      var i :| 0 <= i < |init| && Releases(init[i], f);
      assert EntryFrames(mmap[i]) !! EntryFrames(e);
    }
  }

  /** The frames released, the counter change and whether frame 0 is re-reserved
      do not depend on the order of the entries, overlapping or not. */
  lemma MapOrderIrrelevant(a: seq<MmapEntry>, b: seq<MmapEntry>)
    requires multiset(a) == multiset(b)
    ensures AvailFrames(a) == AvailFrames(b)
    ensures AvailCount(a) == AvailCount(b)
    ensures AnyAvailable(a) <==> AnyAvailable(b)
  {
    AvailFramesInclude(a, b);
    AvailFramesInclude(b, a);
    AvailCountPermutes(a, b);
  }

  lemma AvailFramesInclude(a: seq<MmapEntry>, b: seq<MmapEntry>)
    requires multiset(a) == multiset(b)
    ensures AvailFrames(a) <= AvailFrames(b)
    ensures AnyAvailable(a) ==> AnyAvailable(b)
  {
    forall i | 0 <= i < |a| ensures exists j :: 0 <= j < |b| && b[j] == a[i] {
      assert a[i] in multiset(b);
    }
    forall f | f in AvailFrames(a) ensures f in AvailFrames(b) {
      AvailFramesMember(a, f);
      AvailFramesMember(b, f);
      var i :| 0 <= i < |a| && Releases(a[i], f);
      var j :| 0 <= j < |b| && b[j] == a[i];
      assert Releases(b[j], f);
    }
  }

  lemma {:induction false} AvailCountPermutes(a: seq<MmapEntry>, b: seq<MmapEntry>)
    requires multiset(a) == multiset(b)
    ensures AvailCount(a) == AvailCount(b)
    decreases |a|
  {
    assert |a| == |multiset(a)| == |multiset(b)| == |b|;
    if a == [] {
    } else {
      var init, e := a[..|a| - 1], a[|a| - 1];
      assert a == init + [e];
      assert e in multiset(b);
      var j :| 0 <= j < |b| && b[j] == e;
      RemoveOne(b, j);
      var rest := b[..j] + b[j + 1..];
      assert multiset(init) == multiset(a) - multiset{e};
      assert multiset(rest) == multiset(b) - multiset{e};
      AvailCountPermutes(init, rest);
      AvailCountRemove(b, j);
    }
  }

  lemma RemoveOne<T>(b: seq<T>, j: nat)
    requires j < |b|
    ensures multiset(b) == multiset(b[..j] + b[j + 1..]) + multiset{b[j]}
  {
    assert b == b[..j] + [b[j]] + b[j + 1..];
  }

  lemma {:induction false} AvailCountRemove(b: seq<MmapEntry>, j: nat)
    requires j < |b|
    ensures AvailCount(b) == AvailCount(b[..j] + b[j + 1..]) + AvailCount([b[j]])
    decreases |b|
  {
    var init := b[..|b| - 1];
    if j == |b| - 1 {
      assert b[..j] + b[j + 1..] == init;
    } else {
      AvailCountRemove(init, j);
      var rest := b[..j] + b[j + 1..];
      assert rest[..|rest| - 1] == init[..j] + init[j + 1..];
    }
  }
}
