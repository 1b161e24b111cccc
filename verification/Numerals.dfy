/** Positional numerals: the text the logger's digit routines must produce, and its
    reading back. */
module Numerals {
  import opened Bits
  import opened CString

  const ZERO: Char := Code('0')
  const MINUS: Char := Code('-')

  function DigitChar(d: nat): (c: Char)
    requires d < 16
    ensures DigitValue(c) == d && c != NUL
    ensures c == ZERO <==> d == 0
  {
    if d < 10 then d + 48 else d + 55
  }

  /** -1 for a character that is no digit. */
  function DigitValue(c: Char): int {
    if 48 <= c <= 57 then c - 48 else if 65 <= c <= 70 then c - 55 else -1
  }

  /** The sixteen digits, upper case. */
  lemma DigitsAre(d: nat)
    requires d < 16
    ensures DigitChar(d) == Ascii("0123456789ABCDEF")[d]
  {
    assert "0123456789ABCDEF"[d] as int == if d < 10 then d + 48 else d + 55;
  }

  /** Digits of `n`, most significant first; 0 has none. */
  function Numeral(n: nat, base: nat): (s: seq<Char>)
    requires 2 <= base <= 16
    ensures NUL !in s && (n == 0 <==> s == [])
    ensures n != 0 ==> s[0] != ZERO
  {
    if n == 0 then [] else Shrinks(n, base); Numeral(n / base, base) + [DigitChar(n % base)]
  }

  lemma Shrinks(n: nat, base: nat)
    requires n > 0 && base >= 2
    ensures n / base < n
  {
    var q := n / base;
    DivModIdentity(n, base);
    assert q * base == 2 * q + q * (base - 2);
    Grows(q, base - 2);
  }

  /** The number a digit string denotes, or -1; the empty string denotes 0. */
  function Parse(s: seq<Char>, base: nat): (n: int)
    requires 2 <= base <= 16
    ensures n >= -1
  {
    if s == [] then 0
    else
      var high, low := Parse(s[..|s| - 1], base), DigitValue(s[|s| - 1]);
      if high < 0 || low < 0 || low >= base then -1
      else
        Grows(high, base);
        high * base + low
  }

  lemma Grows(high: nat, base: nat)
    ensures high * base >= 0
  {
  }

  /** Reading back a numeral gives the number. */
  lemma {:induction false} ParseNumeral(n: nat, base: nat)
    requires 2 <= base <= 16
    ensures Parse(Numeral(n, base), base) == n
  {
    if n == 0 {
    } else {
      Shrinks(n, base);
      ParseNumeral(n / base, base);
      DivModIdentity(n, base);
      var s := Numeral(n, base);
      assert s[..|s| - 1] == Numeral(n / base, base);
    }
  }

  /** A digit string without a leading zero is the numeral of the number it denotes. */
  lemma {:induction false} NumeralParse(s: seq<Char>, base: nat)
    requires 2 <= base <= 16 && Parse(s, base) >= 0 && (s == [] || s[0] != ZERO)
    ensures Numeral(Parse(s, base), base) == s
  {
    if s == [] {
    } else {
      var init, c := s[..|s| - 1], s[|s| - 1];
      NumeralParse(init, base);
      var high: nat, low: nat := Parse(init, base), DigitValue(c);
      assert s == init + [c] && DigitChar(low) == c;
      ModUnique(high * base + low, base, high, low);
      assert high * base + low != 0 by {
        if init != [] { MulAtLeast(high, base); }
      }
    }
  }

  /** A digit counts its place among the sixteen ... */
  lemma ParseDigit(d: nat, base: nat)
    requires d < base && 2 <= base <= 16
    ensures Parse([Ascii("0123456789ABCDEF")[d]], base) == d
  {
    DigitsAre(d);
    assert [DigitChar(d)][..0] == [];
  }

  /** ... times the power of the base for the digits behind it. */
  lemma {:induction false} ParseConcat(s: seq<Char>, t: seq<Char>, base: nat)
    requires 2 <= base <= 16 && Parse(s, base) >= 0 && Parse(t, base) >= 0
    ensures Parse(s + t, base) == Parse(s, base) * Pow(base, |t|) + Parse(t, base)
    decreases |t|
  {
    if t == [] {
      assert s + t == s;
    } else {
      var init, c := t[..|t| - 1], t[|t| - 1];
      ParseConcat(s, init, base);
      assert (s + t)[..|s + t| - 1] == s + init;
      ShiftedSum(Parse(s, base), Parse(init, base), DigitValue(c), base, Pow(base, |init|));
    }
  }

  lemma ShiftedSum(high: nat, low: nat, d: nat, base: nat, p: nat)
    ensures (high * p + low) * base + d == high * (base * p) + (low * base + d)
    ensures high * p + low >= 0
  {
    Grows(high, p);
    assert high * (base * p) == high * p * base;
  }

  function Pow(base: nat, k: nat): nat {
    if k == 0 then 1 else base * Pow(base, k - 1)
  }

  /** `n` has `k` digits exactly when it lies between consecutive powers of the base. */
  lemma {:induction false} NumeralLength(n: nat, base: nat, k: nat)
    requires 2 <= base <= 16
    ensures |Numeral(n, base)| <= k <==> n < Pow(base, k)
  {
    if n == 0 {
      PowPositive(base, k);
    } else if k > 0 {
      Shrinks(n, base);
      NumeralLength(n / base, base, k - 1);
      DivLess(n, base, Pow(base, k - 1));
    }
  }

  lemma {:induction false} PowPositive(base: nat, k: nat)
    requires base >= 2
    ensures Pow(base, k) >= 1
  {
    if k == 0 {
    } else {
      PowPositive(base, k - 1);
      MulAtLeast(base, Pow(base, k - 1));
    }
  }

  lemma DivLess(n: nat, base: nat, p: nat)
    requires base >= 2
    ensures n / base < p <==> n < base * p
  {
    var q, r := n / base, n % base;
    DivModIdentity(n, base);
    if q < p {
      var d := p - 1 - q;
      assert base * p == q * base + base + d * base;
      Grows(d, base);
    } else {
      var d := q - p;
      assert q * base == base * p + d * base;
      Grows(d, base);
    }
  }

  /** 32-bit numbers have at most ten decimal and eight hexadecimal digits. */
  lemma WordNumerals(n: nat)
    requires n < WORD
    ensures |Numeral(n, 10)| <= 10 && |Numeral(n, 16)| <= 8
  {
    NumeralLength(n, 10, 10);
    NumeralLength(n, 16, 8);
    assert Pow(10, 10) == 10_000_000_000;
    assert Pow(16, 8) == WORD;
  }

  /** Moving the last digit of the rest of a number to the text done so far. */
  lemma DigitStep(all: seq<Char>, rest: nat, base: nat, done: seq<Char>)
    requires 2 <= base <= 16 && rest > 0 && all == Numeral(rest, base) + done
    ensures rest / base < rest
    ensures all == Numeral(rest / base, base) + ([DigitChar(rest % base)] + done)
    ensures |Numeral(rest, base)| == |Numeral(rest / base, base)| + 1
  {
    Shrinks(rest, base);
  }

  // ------------------------------------------------ the logger's numerals

  function Zeros(k: nat): (s: seq<Char>)
    ensures |s| == k
  {
    seq(k, _ => ZERO)
  }

  lemma ZerosStep(k: nat, s: seq<Char>)
    ensures Zeros(k + 1) + s == [ZERO] + (Zeros(k) + s)
  {
  }

  function Padding(digits: nat, required: int): nat {
    if digits < required then required - digits else 0
  }

  /** Decimal text with at least `required` digits, padded with zeros. */
  function UnsignedText(n: nat, required: int): (s: seq<Char>)
    ensures NUL !in s
    ensures |s| == if |Numeral(n, 10)| < required then required else |Numeral(n, 10)|
  {
    Zeros(Padding(|Numeral(n, 10)|, required)) + Numeral(n, 10)
  }

  function SignedText(n: int, required: int): (s: seq<Char>)
    ensures NUL !in s
  {
    if n < 0 then [MINUS] + UnsignedText(-n, required) else UnsignedText(n, required)
  }

  function ParseSigned(s: seq<Char>): int {
    if s != [] && s[0] == MINUS then -Parse(s[1..], 10) else Parse(s, 10)
  }

  function HexText(n: nat): (s: seq<Char>)
    ensures NUL !in s
  {
    Ascii("0x") + (if n == 0 then [ZERO] else Numeral(n, 16))
  }

  lemma {:induction false} ParsePadded(k: nat, s: seq<Char>)
    requires Parse(s, 10) >= 0
    ensures Parse(Zeros(k) + s, 10) == Parse(s, 10)
    decreases |s|, k
  {
    var t := Zeros(k) + s;
    if s != [] {
      assert t[..|t| - 1] == Zeros(k) + s[..|s| - 1];
      ParsePadded(k, s[..|s| - 1]);
    } else if k > 0 {
      assert t[..|t| - 1] == Zeros(k - 1) + [];
      ParsePadded(k - 1, []);
    }
  }

  /** Decimal round trip, for every padding. */
  lemma DecimalRoundTrip(n: int, required: int)
    ensures ParseSigned(SignedText(n, required)) == n
  {
    var m := if n < 0 then -n else n;
    ParseNumeral(m, 10);
    ParsePadded(Padding(|Numeral(m, 10)|, required), Numeral(m, 10));
    var u := UnsignedText(m, required);
    if n < 0 {
      assert SignedText(n, required)[1..] == u;
    } else if u != [] {
      FirstIsDigit(u);
    }
  }

  lemma {:induction false} FirstIsDigit(s: seq<Char>)
    requires Parse(s, 10) >= 0 && s != []
    ensures s[0] != MINUS
  {
    if |s| == 1 {
    } else {
      FirstIsDigit(s[..|s| - 1]);
    }
  }

  /** Hexadecimal round trip. */
  lemma HexRoundTrip(n: nat)
    ensures |HexText(n)| > 2 && HexText(n)[..2] == Ascii("0x") && Parse(HexText(n)[2..], 16) == n
  {
    ParseNumeral(n, 16);
    var digits := if n == 0 then [ZERO] else Numeral(n, 16);
    assert HexText(n)[2..] == digits;
    if n == 0 {
      assert digits[..0] == [];
    }
  }

  function Unsigned(s: seq<Char>): seq<Char> {
    if s != [] && s[0] == MINUS then s[1..] else s
  }

  /** One digit at least, and no leading zero but in `0` itself. */
  predicate UsualDigits(digits: seq<Char>) {
    digits != [] && Parse(digits, 10) >= 0 && (digits[0] == ZERO ==> |digits| == 1)
  }

  /** `s` is the usual way to write `n`: usual digits, with a minus sign in front of a
      negative number only. */
  predicate UsualDecimal(s: seq<Char>, n: int) {
    UsualDigits(Unsigned(s)) && ParseSigned(s) == n && s != [MINUS, ZERO]
  }

  /** There is exactly one usual way to write a number. */
  lemma UsualDecimalIff(s: seq<Char>, n: int)
    ensures UsualDecimal(s, n) <==> s == if n == 0 then [ZERO] else SignedText(n, 0)
  {
    if n != 0 {
      SignedTextIsUsual(n);
    } else {
      assert [ZERO][..0] == [] && Parse([ZERO], 10) == 0;
    }
    if UsualDecimal(s, n) && s != [ZERO] {
      UsualIsSignedText(s, n);
    }
  }

  lemma SignedTextIsUsual(n: int)
    requires n != 0
    ensures UsualDecimal(SignedText(n, 0), n)
  {
    var m := if n < 0 then -n else n;
    ParseNumeral(m, 10);
    FirstIsDigit(Numeral(m, 10));
    DecimalRoundTrip(n, 0);
    assert UnsignedText(m, 0) == Numeral(m, 10);
    assert Unsigned(SignedText(n, 0)) == Numeral(m, 10);
  }

  lemma UsualIsSignedText(s: seq<Char>, n: int)
    requires UsualDecimal(s, n) && s != [ZERO]
    ensures n != 0 && s == SignedText(n, 0)
  {
    var digits := Unsigned(s);
    if s[0] == MINUS {
      assert s == [MINUS] + digits;
      DigitsAreNumeral(digits, -n);
    } else {
      DigitsAreNumeral(digits, n);
    }
  }

  lemma DigitsAreNumeral(digits: seq<Char>, m: int)
    requires UsualDigits(digits) && digits != [ZERO] && Parse(digits, 10) == m
    ensures m > 0 && UnsignedText(m, 0) == digits
  {
    assert digits[0] == ZERO ==> digits == [ZERO];
    NumeralParse(digits, 10);
    assert Numeral(m, 10) == digits;
  }

  /** With no required digits the text is the usual one exactly when the number is not 0. */
  lemma DefaultTextIsUsualIff(n: int)
    ensures UsualDecimal(SignedText(n, 0), n) <==> n != 0
  {
    UsualDecimalIff(SignedText(n, 0), n);
    assert SignedText(0, 0) == [];
  }

  /** The text has no leading zero that the padding does not account for. */
  lemma NoSpareZeros(n: nat, required: int)
    requires n > 0
    ensures var s := UnsignedText(n, required);
            var first := Padding(|Numeral(n, 10)|, required);
            first < |s| && s[first] != ZERO && forall k :: 0 <= k < first ==> s[k] == ZERO
  {
  }
}
