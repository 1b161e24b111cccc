/** Unsigned machine words as natural numbers, with the C bit operators given
    their usual meaning one binary digit at a time. */
module Bits {

  function Pow2(n: nat): (p: nat)
    ensures p >= 1
  {
    if n == 0 then 1 else 2 * Pow2(n - 1)
  }

  const WORD := 0x1_0000_0000
  const FULL := 0xFFFF_FFFF

  type Word = w: nat | w < WORD

  /** Reduction of an unbounded result to `uint32_t`, as unsigned C arithmetic does. */
  function Wrap32(x: int): (r: nat)
    ensures r < WORD
    ensures 0 <= x < WORD ==> r == x
    decreases x < 0, if x < 0 then -x else x
  {
    if x < 0 then Wrap32(x + WORD) else if x >= WORD then Wrap32(x - WORD) else x
  }

  lemma {:induction false} WrapIsMod(x: int)
    ensures Wrap32(x) == x % WORD
    decreases x < 0, if x < 0 then -x else x
  {
    if x < 0 {
      WrapIsMod(x + WORD);
    } else if x >= WORD {
      WrapIsMod(x - WORD);
    }
  }

  /** Wrapping along the way makes no difference. */
  lemma WrapStep(a: int, d: int)
    ensures Wrap32(Wrap32(a) + d) == Wrap32(a + d)
  {
    WrapIsMod(a);
    WrapIsMod(Wrap32(a) + d);
    WrapIsMod(a + d);
    ModAbsorb(a, d);
  }

  lemma ModAbsorb(a: int, d: int)
    ensures (a % WORD + d) % WORD == (a + d) % WORD
  {
  }

  lemma WrapDec(u: int, i: nat)
    ensures Wrap32(Wrap32(u - i) - 1) == Wrap32(u - (i + 1))
  {
    WrapStep(u - i, -1);
  }

  lemma WrapInc(u: int, i: nat)
    ensures Wrap32(Wrap32(u + i) + 1) == Wrap32(u + (i + 1))
  {
    WrapStep(u + i, 1);
  }

  /** Binary digit `k` of `a`. */
  predicate Bit(a: nat, k: nat) {
    if k == 0 then a % 2 == 1 else Bit(a / 2, k - 1)
  }

  /** C's `a & b` on unsigned operands. */
  function And(a: nat, b: nat): (r: nat)
    ensures r <= a && r <= b
  {
    if a == 0 || b == 0 then 0
    else 2 * And(a / 2, b / 2) + (if a % 2 == 1 && b % 2 == 1 then 1 else 0)
  }

  /** C's `a | b` on unsigned operands. */
  function Or(a: nat, b: nat): (r: nat)
    ensures a <= r && b <= r && r <= a + b
  {
    if a == 0 then b
    else if b == 0 then a
    else 2 * Or(a / 2, b / 2) + (if a % 2 == 1 || b % 2 == 1 then 1 else 0)
  }

  /** C's `~a` on an `n`-bit unsigned operand. */
  function Not(a: nat, n: nat): (r: nat)
    requires a < Pow2(n)
    ensures r < Pow2(n)
  {
    Pow2(n) - 1 - a
  }

  lemma {:induction false} BitAnd(a: nat, b: nat, k: nat)
    ensures Bit(And(a, b), k) <==> Bit(a, k) && Bit(b, k)
  {
    if a == 0 || b == 0 {
      BitZero(k);
    } else if k > 0 {
      BitAnd(a / 2, b / 2, k - 1);
    }
  }

  lemma {:induction false} BitOr(a: nat, b: nat, k: nat)
    ensures Bit(Or(a, b), k) <==> Bit(a, k) || Bit(b, k)
  {
    if a == 0 || b == 0 {
      BitZero(k);
    } else if k > 0 {
      BitOr(a / 2, b / 2, k - 1);
    }
  }

  lemma {:induction false} BitNot(a: nat, n: nat, k: nat)
    requires a < Pow2(n) && k < n
    ensures Bit(Not(a, n), k) <==> !Bit(a, k)
  {
    if k == 0 {
    } else {
      assert Not(a, n) / 2 == Not(a / 2, n - 1);
      BitNot(a / 2, n - 1, k - 1);
    }
  }

  lemma {:induction false} BitZero(k: nat)
    ensures !Bit(0, k)
  {
    if k == 0 {
    } else {
      BitZero(k - 1);
    }
  }

  /** `1 << j` has exactly the digit `j`. */
  lemma {:induction false} BitPow2(j: nat, k: nat)
    ensures Bit(Pow2(j), k) <==> j == k
  {
    if j == 0 {
      if k > 0 { BitZero(k - 1); }
    } else if k > 0 {
      BitPow2(j - 1, k - 1);
    }
  }

  /** `Pow2(n) - 1` has every digit below `n`. */
  lemma {:induction false} BitOnes(n: nat, k: nat)
    requires k < n
    ensures Bit(Pow2(n) - 1, k)
  {
    if k == 0 {
    } else {
      assert (Pow2(n) - 1) / 2 == Pow2(n - 1) - 1;
      BitOnes(n - 1, k - 1);
    }
  }

  /** A mask test against `1 << j` reads digit `j`. */
  lemma {:induction false} AndPow2(a: nat, j: nat)
    ensures And(a, Pow2(j)) == if Bit(a, j) then Pow2(j) else 0
  {
    if a == 0 {
      BitZero(j);
    } else if j == 0 {
    } else {
      AndPow2(a / 2, j - 1);
    }
  }

  /** `v << j` moves every digit up by `j`. */
  lemma {:induction false} BitShiftUp(v: nat, j: nat, k: nat)
    ensures Bit(v * Pow2(j), k) <==> k >= j && Bit(v, k - j)
  {
    if j == 0 {
    } else {
      var h := v * Pow2(j - 1);
      assert v * Pow2(j) == 2 * h;
      if k > 0 { BitShiftUp(v, j - 1, k - 1); }
    }
  }

  lemma {:induction false} BitHigh(a: nat, k: nat)
    requires a < Pow2(k)
    ensures !Bit(a, k)
  {
    if k == 0 {
    } else {
      BitHigh(a / 2, k - 1);
    }
  }

  lemma {:induction false} OrBound(a: nat, b: nat, n: nat)
    requires a < Pow2(n) && b < Pow2(n)
    ensures Or(a, b) < Pow2(n)
  {
    if a == 0 || b == 0 {
    } else {
      OrBound(a / 2, b / 2, n - 1);
    }
  }

  lemma {:induction false} Pow2Mono(i: nat, j: nat)
    requires i < j
    ensures Pow2(i) < Pow2(j)
  {
    if i + 1 == j {
    } else {
      Pow2Mono(i, j - 1);
    }
  }

  lemma {:induction false} Pow2Add(i: nat, j: nat)
    ensures Pow2(i + j) == Pow2(i) * Pow2(j)
  {
    if i == 0 {
    } else {
      Pow2Add(i - 1, j);
      assert Pow2(i + j) == 2 * Pow2(i - 1 + j);
      DoubleTimes(Pow2(i - 1), Pow2(j));
    }
  }

  lemma DoubleTimes(p: nat, q: nat)
    ensures 2 * p * q == 2 * (p * q)
  {
  }

  lemma Pow2Small()
    ensures Pow2(2) == 4 && Pow2(4) == 16 && Pow2(8) == 0x100 && Pow2(12) == 0x1000
  {
    assert Pow2(8) == 0x100;
    Pow2Add(4, 8);
  }

  lemma Pow2Bytes()
    ensures Pow2(0) == 1 && Pow2(8) == 0x100 && Pow2(16) == 0x1_0000 && Pow2(24) == 0x100_0000
    ensures Pow2(32) == WORD
  {
    assert Pow2(8) == 0x100;
    Pow2Add(8, 8);
    Pow2Add(8, 16);
    Pow2Add(8, 24);
  }

  /** Two words with the same digits are the same word. */
  lemma {:induction false} BitExtensional(a: nat, b: nat, n: nat)
    requires a < Pow2(n) && b < Pow2(n)
    requires forall k: nat :: k < n ==> (Bit(a, k) <==> Bit(b, k))
    ensures a == b
  {
    if n == 0 {
    } else {
      assert Bit(a, 0) <==> Bit(b, 0);
      forall k: nat | k < n - 1
        ensures Bit(a / 2, k) <==> Bit(b / 2, k)
      {
        assert Bit(a, k + 1) <==> Bit(b, k + 1);
      }
      BitExtensional(a / 2, b / 2, n - 1);
    }
  }

  /** `a & ~(p - 1)` for a power of two `p` rounds down to a multiple of `p`. */
  lemma AndNotLowMask(a: nat, p: nat, m: nat, n: nat)
    requires p == Pow2(m) && m <= n && a < Pow2(n)
    ensures p <= Pow2(n)
    ensures And(a, Not(p - 1, n)) == a - a % p
  {
    if m < n { Pow2Mono(m, n); }
    AndHighMask(a, m, n, Pow2(n) - p);
  }

  lemma {:induction false} AndHighMask(a: nat, m: nat, n: nat, mask: nat)
    requires m <= n && a < Pow2(n) && mask + Pow2(m) == Pow2(n)
    ensures And(a, mask) == a - a % Pow2(m)
  {
    if m == 0 {
      AndOnes(a, n);
    } else {
      var half := HalfMask(m, n, mask);
      AndHighMask(a / 2, m - 1, n - 1, half);
      AndHighMaskStep(a, Pow2(m - 1), half, And(a / 2, half));
    }
  }

  lemma HalfMask(m: nat, n: nat, mask: nat) returns (half: nat)
    requires 0 < m <= n && mask + Pow2(m) == Pow2(n)
    ensures mask == 2 * half && half + Pow2(m - 1) == Pow2(n - 1)
  {
    half := mask / 2;
  }

  lemma AndHighMaskStep(a: nat, p: nat, half: nat, x: nat)
    requires p >= 1 && x == And(a / 2, half) && x == a / 2 - a / 2 % p
    ensures And(a, 2 * half) == a - a % (2 * p)
  {
    AndEven(a, half);
    RoundDownDouble(a, p, x, 2 * x);
  }

  lemma RoundDownDouble(a: nat, p: nat, x: nat, y: nat)
    requires p >= 1 && x == a / 2 - a / 2 % p && y == 2 * x
    ensures y == a - a % (2 * p)
  {
    ModDouble(a, p);
  }

  lemma {:induction false} AndEven(a: nat, half: nat)
    ensures And(a, 2 * half) == 2 * And(a / 2, half)
  {
    if a != 0 && half != 0 {
      assert 2 * half / 2 == half && 2 * half % 2 == 0;
    }
  }

  lemma {:induction false} AndOnes(a: nat, n: nat)
    requires a < Pow2(n)
    ensures And(a, Pow2(n) - 1) == a
  {
    if a == 0 {
    } else {
      assert (Pow2(n) - 1) / 2 == Pow2(n - 1) - 1;
      AndOnes(a / 2, n - 1);
    }
  }

  /** `a & (p - 1)` for a power of two `p` is the remainder modulo `p`. */
  lemma AndLowMask(a: nat, p: nat, m: nat)
    requires p == Pow2(m)
    ensures And(a, p - 1) == a % p
  {
    AndOnesBelow(a, m);
  }

  lemma {:induction false} AndOnesBelow(a: nat, m: nat)
    ensures And(a, Pow2(m) - 1) == a % Pow2(m)
  {
    if m == 0 {
    } else if a != 0 {
      assert (Pow2(m) - 1) / 2 == Pow2(m - 1) - 1;
      AndOnesBelow(a / 2, m - 1);
      ModDouble(a, Pow2(m - 1));
    }
  }

  lemma ModDouble(a: nat, p: nat)
    requires p >= 1
    ensures a % (2 * p) == 2 * ((a / 2) % p) + a % 2
  {
    var q, r := (a / 2) / p, (a / 2) % p;
    assert a / 2 == q * p + r;
    var s := 2 * r + a % 2;
    assert a == q * (2 * p) + s;
    ModUnique(a, 2 * p, q, s);
  }

  lemma ModUnique(a: nat, b: nat, q: nat, r: nat)
    requires r < b && a == q * b + r
    ensures a / b == q && a % b == r
  {
    var q', r' := a / b, a % b;
    assert q' * b + r' == a;
    if q' > q {
      assert (q' - q) * b == q' * b - q * b;
      MulAtLeast(q' - q, b);
    } else if q' < q {
      assert (q - q') * b == q * b - q' * b;
      MulAtLeast(q - q', b);
    }
  }

  lemma DivModIdentity(n: nat, d: nat)
    requires d >= 1
    ensures n / d * d + n % d == n && n % d < d
  {
  }

  lemma MulAtLeast(k: nat, b: nat)
    requires k >= 1
    ensures k * b >= b
  {
    assert k * b == (k - 1) * b + b;
  }

  /** Fields that share no binary digit are packed by `|` as by addition. */
  lemma OrPack(hi: nat, lo: nat, p: nat, m: nat)
    requires p == Pow2(m) && lo < p
    ensures Or(hi * p, lo) == hi * p + lo
  {
    OrDisjoint(hi, lo, m);
  }

  lemma {:induction false} OrDisjoint(hi: nat, lo: nat, m: nat)
    requires lo < Pow2(m)
    ensures Or(hi * Pow2(m), lo) == hi * Pow2(m) + lo
  {
    if m == 0 {
    } else {
      var h := hi * Pow2(m - 1);
      assert hi * Pow2(m) == 2 * h;
      OrDisjoint(hi, lo / 2, m - 1);
    }
  }
}
