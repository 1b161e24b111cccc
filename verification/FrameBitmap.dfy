/** The frame bitmap: an array of 32-bit words in which bit `f % 32` of word
    `f / 32` says that frame `f` is in use. */
module FrameBitmap {
  import opened Bits

  /** Frame `f` is marked in the bitmap: 32 frames to a word, lowest bit first. */
  predicate Marked(words: seq<Word>, f: nat)
    requires f < 32 * |words|
  {
    if f < 32 then Bit(words[0], f) else Marked(words[1..], f - 32)
  }

  lemma {:induction false} MarkedAt(words: seq<Word>, f: nat)
    requires f < 32 * |words|
    ensures Marked(words, f) <==> Bit(words[f / 32], f % 32)
  {
    if f < 32 {
    } else {
      MarkedAt(words[1..], f - 32);
      assert words[1..][(f - 32) / 32] == words[f / 32];
    }
  }

  /** The abstract value of a bitmap: the set of marked frames. */
  ghost function Busy(words: seq<Word>): set<nat> {
    set f: nat | f < 32 * |words| && Marked(words, f)
  }

  lemma WordWidth()
    ensures Pow2(32) == WORD
    ensures forall j: nat :: j < 32 ==> Pow2(j) < WORD
  {
    Pow2Bytes();
    forall j: nat | j < 32 ensures Pow2(j) < WORD { Pow2Mono(j, 32); }
  }

  /** Replacing one word changes exactly the 32 frames of that word. */
  lemma MarkedUpdate(words: seq<Word>, i: nat, w: Word, f: nat)
    requires i < |words| && f < 32 * |words|
    ensures Marked(words[i := w], f) <==> if f / 32 == i then Bit(w, f % 32) else Marked(words, f)
  {
    MarkedAt(words, f);
    MarkedAt(words[i := w], f);
  }

  /** The word sequence is determined by the set of marked frames. */
  lemma BusyInjective(a: seq<Word>, b: seq<Word>)
    requires |a| == |b| && Busy(a) == Busy(b)
    ensures a == b
  {
    forall i | 0 <= i < |a| ensures a[i] == b[i] {
      WordWidth();
      forall k: nat | k < 32 ensures Bit(a[i], k) <==> Bit(b[i], k) {
        var f := 32 * i + k;
        assert f / 32 == i && f % 32 == k;
        assert f in Busy(a) <==> f in Busy(b);
        MarkedAt(a, f);
        MarkedAt(b, f);
      }
      BitExtensional(a[i], b[i], 32);
    }
  }

  method BitmapSet(bitmap: array<Word>, bit: nat)
    requires bit < 32 * bitmap.Length
    modifies bitmap
    ensures Busy(bitmap[..]) == old(Busy(bitmap[..])) + {bit}
  {
    WordWidth();
    ghost var was := bitmap[..];
    var w := bitmap[bit / 32];
    OrBound(w, Pow2(bit % 32), 32);
    var w': Word := Or(w, Pow2(bit % 32));
    bitmap[bit / 32] := w';
    assert bitmap[..] == was[bit / 32 := w'];
    forall f: nat | f < 32 * |was|
      ensures Marked(bitmap[..], f) <==> f == bit || Marked(was, f)
    {
      MarkedUpdate(was, bit / 32, w', f);
      MarkedAt(was, f);
      BitOr(w, Pow2(bit % 32), f % 32);
      BitPow2(bit % 32, f % 32);
    }
  }

  method BitmapUnset(bitmap: array<Word>, bit: nat)
    requires bit < 32 * bitmap.Length
    modifies bitmap
    ensures Busy(bitmap[..]) == old(Busy(bitmap[..])) - {bit}
  {
    WordWidth();
    ghost var was := bitmap[..];
    var w := bitmap[bit / 32];
    var w': Word := And(w, Not(Pow2(bit % 32), 32));
    bitmap[bit / 32] := w';
    assert bitmap[..] == was[bit / 32 := w'];
    forall f: nat | f < 32 * |was|
      ensures Marked(bitmap[..], f) <==> f != bit && Marked(was, f)
    {
      MarkedUpdate(was, bit / 32, w', f);
      MarkedAt(was, f);
      BitAnd(w, Not(Pow2(bit % 32), 32), f % 32);
      BitNot(Pow2(bit % 32), 32, f % 32);
      BitPow2(bit % 32, f % 32);
    }
  }

  /** The masked word, converted to `int` on return. */
  function BitmapTest(bitmap: array<Word>, bit: nat): (r: int)
    requires bit < 32 * bitmap.Length
    reads bitmap
    ensures r != 0 <==> bit in Busy(bitmap[..])
  {
    AndPow2(bitmap[bit / 32], bit % 32);
    MarkedAt(bitmap[..], bit);
    var w := And(bitmap[bit / 32], Pow2(bit % 32));
    if w < 0x8000_0000 then w else w - WORD
  }

  /** The naive scan: the least frame from `from` on, below `size`, that is not
      in `busy`; -1 when there is none. */
  function LeastClear(busy: set<nat>, from: nat, size: nat): (r: int)
    requires from <= size
    ensures r == -1 || from <= r < size
    decreases size - from
  {
    if from == size then -1
    else if from !in busy then from
    else LeastClear(busy, from + 1, size)
  }

  lemma {:induction false} LeastClearFinds(busy: set<nat>, from: nat, size: nat)
    requires from <= size
    ensures var r := LeastClear(busy, from, size);
            && (r == -1 <==> forall f: nat :: from <= f < size ==> f in busy)
            && (r != -1 ==> r !in busy && forall f: nat :: from <= f < r ==> f in busy)
    decreases size - from
  {
    if from == size || from !in busy {
    } else {
      LeastClearFinds(busy, from + 1, size);
    }
  }

  lemma {:induction false} LeastClearIs(busy: set<nat>, from: nat, size: nat, r: nat)
    requires from <= r < size && r !in busy
    requires forall f: nat :: from <= f < r ==> f in busy
    ensures LeastClear(busy, from, size) == r
    decreases r - from
  {
    if from == r {
    } else {
      LeastClearIs(busy, from + 1, size, r);
    }
  }

  lemma MarkedMask(words: seq<Word>, i: nat, j: nat)
    requires i < |words| && j < 32
    ensures And(words[i], Pow2(j)) != 0 <==> 32 * i + j in Busy(words)
  {
    AndPow2(words[i], j);
    MarkedAt(words, 32 * i + j);
    assert (32 * i + j) / 32 == i && (32 * i + j) % 32 == j;
  }

  lemma FullWord(words: seq<Word>, i: nat)
    requires i < |words| && words[i] == FULL
    ensures forall f: nat :: 32 * i <= f < 32 * i + 32 ==> f in Busy(words)
  {
    forall f: nat | 32 * i <= f < 32 * i + 32 ensures f in Busy(words) {
      Pow2Bytes();
      BitOnes(32, f % 32);
      MarkedAt(words, f);
    }
  }

  /** Skips full words, then scans bits, then scans the partial last word; the
      result is the naive scan's. */
  method BitmapFirstUnset(bitmap: array<Word>, size: nat) returns (r: int)
    requires size <= 32 * bitmap.Length && size < 0x8000_0000
    ensures r == LeastClear(Busy(bitmap[..]), 0, size)
  {
    ghost var busy := Busy(bitmap[..]);
    var remBits := size % 32;
    for i := 0 to size / 32
      invariant forall f: nat :: f < 32 * i ==> f in busy
    {
      if bitmap[i] != FULL {
        for j := 0 to 32
          invariant forall f: nat :: f < 32 * i + j ==> f in busy
        {
          MarkedMask(bitmap[..], i, j);
          if And(bitmap[i], Pow2(j)) == 0 {
            LeastClearIs(busy, 0, size, 32 * i + j);
            return i * 32 + j;
          }
        }
      } else {
        FullWord(bitmap[..], i);
      }
    }
    if remBits != 0 {
      for j := 0 to remBits
        invariant forall f: nat :: f < 32 * (size / 32) + j ==> f in busy
      {
        MarkedMask(bitmap[..], size / 32, j);
        if And(bitmap[size / 32], Pow2(j)) == 0 {
          LeastClearIs(busy, 0, size, 32 * (size / 32) + j);
          return size / 32 * 32 + j;
        }
      }
    }
    LeastClearFinds(busy, 0, size);
    return -1;
  }

  /** A little-endian store of byte `v` at offset `k` inside a word. */
  function StoreByte(w: Word, k: nat, v: nat): (r: Word)
    requires k < 4 && v < 256
  {
    ByteFits(k, v);
    var unit := Pow2(8 * k);
    MaskedStore(w, 255 * unit, v * unit)
  }

  function MaskedStore(w: Word, mask: nat, x: nat): (r: Word)
    requires mask < Pow2(32) == WORD && x < Pow2(32)
  {
    MaskedStoreFits(w, mask, x);
    Or(And(w, Not(mask, 32)), x)
  }

  lemma ByteFits(k: nat, v: nat)
    requires k < 4 && v < 256
    ensures 0 <= v * Pow2(8 * k) <= 255 * Pow2(8 * k) < Pow2(32) == WORD
  {
    ByteMaskFits(k);
    MulMono(v, 255, Pow2(8 * k));
  }

  lemma MaskedStoreFits(w: Word, mask: nat, x: nat)
    requires mask < Pow2(32) == WORD && x < Pow2(32)
    ensures Or(And(w, Not(mask, 32)), x) < WORD
  {
    OrBound(And(w, Not(mask, 32)), x, 32);
  }

  lemma ByteMaskFits(k: nat)
    requires k < 4
    ensures 255 * Pow2(8 * k) < Pow2(32) == WORD
  {
    Pow2Bytes();
    if k == 0 {
    } else if k == 1 {
    } else if k == 2 {
    } else {
    }
  }

  lemma MulMono(a: nat, b: nat, c: nat)
    requires a <= b
    ensures a * c <= b * c
  {
    assert b * c == a * c + (b - a) * c;
  }

  lemma MaskedStoreBits(w: Word, mask: nat, x: nat, j: nat)
    requires mask < Pow2(32) == WORD && x < Pow2(32) && j < 32
    ensures Bit(MaskedStore(w, mask, x), j) <==> Bit(x, j) || (Bit(w, j) && !Bit(mask, j))
  {
    BitOr(And(w, Not(mask, 32)), x, j);
    BitAnd(w, Not(mask, 32), j);
    BitNot(mask, 32, j);
  }

  lemma StoreByteBits(w: Word, k: nat, v: nat, j: nat)
    requires k < 4 && v < 256 && j < 32
    ensures Bit(StoreByte(w, k, v), j) <==> if j / 8 == k then Bit(v, j % 8) else Bit(w, j)
  {
    ByteFits(k, v);
    MaskedStoreBits(w, 255 * Pow2(8 * k), v * Pow2(8 * k), j);
    ShiftedByteBits(255, k, j);
    ShiftedByteBits(v, k, j);
    OnesOfByte(j % 8);
  }

  lemma OnesOfByte(j: nat)
    requires j < 8
    ensures Bit(255, j)
  {
    Pow2Small();
    BitOnes(8, j);
  }

  /** A byte moved to offset `k` has binary digits in that byte only. */
  lemma ShiftedByteBits(v: nat, k: nat, j: nat)
    requires v < 256
    ensures Bit(v * Pow2(8 * k), j) <==> j / 8 == k && Bit(v, j % 8)
  {
    BitShiftUp(v, 8 * k, j);
    if j / 8 == k {
      assert j - 8 * k == j % 8;
    } else if j >= 8 * k {
      BitAboveByte(v, j - 8 * k);
    }
  }

  lemma BitAboveByte(v: nat, j: nat)
    requires v < 256 && j >= 8
    ensures !Bit(v, j)
  {
    Pow2Small();
    if j > 8 { Pow2Mono(8, j); }
    BitHigh(v, j);
  }

  /** The frames marked in `length` words whose first `size` bytes are `value` and
      whose other bits mark `before`. */
  ghost function BytesFilled(before: set<nat>, value: nat, size: nat, length: nat): set<nat> {
    set f: nat | f < 32 * length && FilledBit(before, value, size, f)
  }

  ghost predicate FilledBit(before: set<nat>, value: nat, size: nat, f: nat) {
    if f < 8 * size then Bit(value, f % 8) else f in before
  }

  /** `memset` on the bitmap's memory: `size` counts bytes, and byte `b` of the
      memory holds the bits of frames `8 * b .. 8 * b + 8`. */
  method Memset(bitmap: array<Word>, value: nat, size: nat)
    requires value < 256 && size <= 4 * bitmap.Length
    modifies bitmap
    ensures Busy(bitmap[..]) == BytesFilled(old(Busy(bitmap[..])), value, size, bitmap.Length)
  {
    ghost var was := bitmap[..];
    for i := 0 to size
      invariant Filled(was, bitmap[..], value, i)
    {
      ghost var before := bitmap[..];
      bitmap[i / 4] := StoreByte(bitmap[i / 4], i % 4, value);
      assert bitmap[..] == before[i / 4 := StoreByte(before[i / 4], i % 4, value)];
      FilledStep(was, before, value, i);
    }
  }

  /** `now` is `was` with its first `size` bytes equal to `value`. */
  ghost predicate Filled(was: seq<Word>, now: seq<Word>, value: nat, size: nat) {
    && |was| == |now|
    && forall f: nat :: f < 32 * |was| ==>
         (Marked(now, f) <==> FilledBit(Busy(was), value, size, f))
  }

  lemma FilledStep(was: seq<Word>, now: seq<Word>, value: nat, i: nat)
    requires value < 256 && i / 4 < |now| && Filled(was, now, value, i)
    ensures Filled(was, now[i / 4 := StoreByte(now[i / 4], i % 4, value)], value, i + 1)
  {
    var w := now[i / 4];
    var w' := StoreByte(w, i % 4, value);
    var next := now[i / 4 := w'];
    forall f: nat | f < 32 * |was|
      ensures Marked(next, f) <==> FilledBit(Busy(was), value, i + 1, f)
    {
      assert Marked(now, f) <==> FilledBit(Busy(was), value, i, f);
      ByteIndex(f, i);
      MarkedUpdate(now, i / 4, w', f);
      MarkedAt(now, f);
      if f / 32 == i / 4 {
        StoreByteBits(w, i % 4, value, f % 32);
      }
    }
  }

  /** Byte `i` of the bitmap's memory is byte `i % 4` of word `i / 4`. */
  lemma ByteIndex(f: nat, i: nat)
    ensures f / 8 == i <==> f / 32 == i / 4 && f % 32 / 8 == i % 4
    ensures f % 32 % 8 == f % 8
    ensures 8 * i <= f < 8 * (i + 1) <==> f / 8 == i
  {
    var q, r := f / 32, f % 32;
    assert f / 8 == 4 * q + r / 8;
  }
}
