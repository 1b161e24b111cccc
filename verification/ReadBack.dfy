/** What the logger's directives print, read back: from the text alone the argument can be
    told. Letters and characters are plain numbers here. */
module ReadBack {
  import opened Bits
  import opened CString
  import opened Numerals
  import opened LogFormat

  /** The number an argument was constructed from. */
  function Stored(x: Arg): int
    requires !x.StrArg?
  {
    match x
    case CharArg(c) => c
    case IntArg(i) => i
    case UIntArg(u) => u
  }

  /** Equal up to a multiple of `m`. */
  predicate Congruent(a: int, b: int, m: int)
    requires m > 0
  {
    a % m == b % m
  }

  lemma WrapCongruent(i: int)
    ensures Congruent(Wrap32(i), i, 0x1_0000_0000)
  {
    WrapIsMod(i);
  }

  lemma SignedCongruent(i: int)
    ensures Congruent(i - 0x1_0000_0000, i, 0x1_0000_0000)
    ensures Congruent(if i % 256 < 128 then i % 256 else i % 256 - 256, i, 256)
  {
  }

  /** The conversions of `GetValue` keep the number as far as the type goes. */
  lemma ConversionsKeep(x: Arg)
    requires !x.StrArg?
    ensures Congruent(AsUInt(x), Stored(x), 0x1_0000_0000)
    ensures Congruent(AsInt(x), Stored(x), 0x1_0000_0000)
    ensures Congruent(AsChar(x), Stored(x), 256)
  {
    var n := Stored(x);
    WrapCongruent(n);
    SignedCongruent(n);
    match x
    case CharArg(c) =>
    case IntArg(i) =>
    case UIntArg(u) =>
  }

  /** A text without `%` prints itself and takes no argument. */
  lemma {:induction false} TextPrintsItself(text: seq<Char>)
    requires 37 !in text
    ensures !Dangling(text) && Directives(text) == [] && Matches(text, []) && Render(text, []) == text
    decreases |text|
  {
    if text == [] {
    } else {
      TextPrintsItself(text[1..]);
    }
  }

  /** Further arguments make no difference. */
  lemma {:induction false} MoreArguments(text: seq<Char>, args: seq<Arg>, more: seq<Arg>)
    requires Matches(text, args)
    ensures Matches(text, args + more) && Render(text, args + more) == Render(text, args)
    decreases |text|
  {
    if text == [] || text == [PERCENT] {
    } else if text[0] != PERCENT {
      MoreArguments(text[1..], args, more);
    } else if IsDirective(text[1]) {
      assert (args + more)[1..] == args[1..] + more;
      MoreArguments(text[2..], args[1..], more);
    } else {
      MoreArguments(text[2..], args, more);
    }
  }

  /** `a` is a format that does not dangle, with exactly its arguments. */
  ghost predicate Whole(a: seq<Char>, args: seq<Arg>) {
    !Dangling(a) && Matches(a, args) && |args| == |Directives(a)|
  }

  lemma JoinFormats(a: seq<Char>, argsA: seq<Arg>, b: seq<Char>, argsB: seq<Arg>)
    requires Whole(a, argsA) && Matches(b, argsB)
    ensures Matches(a + b, argsA + argsB)
    ensures Render(a + b, argsA + argsB) == Render(a, argsA) + Render(b, argsB)
  {
    MoreArguments(a, argsA, argsB);
    RenderConcat(a, b, argsA + argsB);
    assert (argsA + argsB)[|argsA|..] == argsB;
  }

  /** The text around a directive, and what the directive contributes. */
  ghost predicate Contributes(a: seq<Char>, argsA: seq<Arg>, letter: Char, arg: seq<Arg>, b: seq<Char>,
                              argsB: seq<Arg>, s: seq<Char>)
    requires Matches(a, argsA) && Matches(b, argsB)
  {
    var format, args := a + ([37, letter] + b), argsA + (arg + argsB);
    Matches(format, args) && Render(format, args) == Render(a, argsA) + (s + Render(b, argsB))
  }

  lemma DirectiveBetween(a: seq<Char>, argsA: seq<Arg>, letter: Char, x: Arg, b: seq<Char>, argsB: seq<Arg>)
    requires Whole(a, argsA) && Matches(b, argsB) && IsDirective(letter) && Accepts(letter, x)
    ensures Contributes(a, argsA, letter, [x], b, argsB, Piece(letter, x))
  {
    var rest, args := [37, letter] + b, [x] + argsB;
    assert rest[2..] == b && args[1..] == argsB;
    assert Render(rest, args) == Piece(letter, x) + Render(b, argsB);
    JoinFormats(a, argsA, rest, args);
  }

  /** The text reads back as the number, and is the usual one unless it is empty. */
  predicate Decimal(s: seq<Char>, n: int) {
    ParseSigned(s) == n && (s == [] || UsualDecimal(s, n))
  }

  lemma SignedTextIsDecimal(n: int)
    ensures Decimal(SignedText(n, 0), n)
  {
    DecimalRoundTrip(n, 0);
    DefaultTextIsUsualIff(n);
    assert SignedText(0, 0) == [];
  }

  /** `%u` is the number modulo 2^32, in its usual decimal form unless it is 0. */
  lemma UnsignedReadsBack(a: seq<Char>, argsA: seq<Arg>, x: Arg, b: seq<Char>, argsB: seq<Arg>)
    returns (s: seq<Char>, n: int)
    requires Whole(a, argsA) && Matches(b, argsB) && !x.StrArg?
    ensures Contributes(a, argsA, 117, [x], b, argsB, s) && Decimal(s, n)
    ensures 0 <= n < 0x1_0000_0000 && Congruent(n, Stored(x), 0x1_0000_0000)
    ensures x.UIntArg? ==> n == x.u
  {
    n := AsUInt(x);
    s := SignedText(n, 0);
    UnsignedPiece(x);
    DirectiveBetween(a, argsA, 117, x, b, argsB);
    ConversionsKeep(x);
    SignedTextIsDecimal(n);
  }

  lemma UnsignedPiece(x: Arg)
    requires !x.StrArg?
    ensures Piece(117, x) == SignedText(AsUInt(x), 0)
  {
  }

  /** `%d` is the number as an `int`, in its usual decimal form unless it is 0. */
  lemma IntReadsBack(a: seq<Char>, argsA: seq<Arg>, x: Arg, b: seq<Char>, argsB: seq<Arg>)
    returns (s: seq<Char>, n: int)
    requires Whole(a, argsA) && Matches(b, argsB) && !x.StrArg? && AsInt(x) != -0x8000_0000
    ensures Contributes(a, argsA, 100, [x], b, argsB, s) && Decimal(s, n)
    ensures -0x8000_0000 < n < 0x8000_0000 && Congruent(n, Stored(x), 0x1_0000_0000)
    ensures x.IntArg? ==> n == x.i
    ensures n < 0 <==> s != [] && s[0] == 45
  {
    n := AsInt(x);
    s := SignedText(n, 0);
    DirectiveBetween(a, argsA, 100, x, b, argsB);
    ConversionsKeep(x);
    SignedTextIsDecimal(n);
    NegativeFirst(n);
  }

  lemma NegativeFirst(n: int)
    ensures n < 0 <==> SignedText(n, 0) != [] && SignedText(n, 0)[0] == 45
  {
    var m := if n < 0 then -n else n;
    ParseNumeral(m, 10);
    if m != 0 { FirstIsDigit(Numeral(m, 10)); }
    assert UnsignedText(m, 0) == Numeral(m, 10);
  }

  /** `%x` and `%X` are `0x` and the number modulo 2^32 in base 16. */
  lemma HexReadsBack(a: seq<Char>, argsA: seq<Arg>, letter: Char, x: Arg, b: seq<Char>, argsB: seq<Arg>)
    returns (s: seq<Char>, n: int)
    requires Whole(a, argsA) && Matches(b, argsB) && !x.StrArg? && (letter == 120 || letter == 88)
    ensures Contributes(a, argsA, letter, [x], b, argsB, [48, 120] + s)
    ensures s != [] && Parse(s, 16) == n && (s[0] == 48 ==> |s| == 1)
    ensures 0 <= n < 0x1_0000_0000 && Congruent(n, Stored(x), 0x1_0000_0000)
    ensures x.UIntArg? ==> n == x.u
  {
    n := AsUInt(x);
    s := HexDigits(n);
    DirectiveBetween(a, argsA, letter, x, b, argsB);
    ConversionsKeep(x);
  }

  lemma HexDigits(n: nat) returns (s: seq<Char>)
    ensures HexText(n) == [48, 120] + s
    ensures s != [] && Parse(s, 16) == n && (s[0] == 48 ==> |s| == 1)
  {
    s := HexText(n)[2..];
    HexRoundTrip(n);
    assert Ascii("0x") == [48, 120];
  }

  /** `%s` is the string. */
  lemma StringIsPrinted(a: seq<Char>, argsA: seq<Arg>, str: seq<Char>, b: seq<Char>, argsB: seq<Arg>)
    requires Whole(a, argsA) && Matches(b, argsB) && |str| < 256 && 0 !in str
    ensures Contributes(a, argsA, 115, [StrArg(str)], b, argsB, str)
  {
    DirectiveBetween(a, argsA, 115, StrArg(str), b, argsB);
  }

  /** `%c` is one character, the number modulo 256. */
  lemma CharIsPrinted(a: seq<Char>, argsA: seq<Arg>, x: Arg, b: seq<Char>, argsB: seq<Arg>)
    returns (c: Char)
    requires Whole(a, argsA) && Matches(b, argsB) && !x.StrArg?
    ensures Contributes(a, argsA, 99, [x], b, argsB, [c])
    ensures Congruent(c, Stored(x), 256) && (x.CharArg? ==> c == x.c)
  {
    c := AsChar(x);
    DirectiveBetween(a, argsA, 99, x, b, argsB);
    ConversionsKeep(x);
  }

  /** Any other letter prints nothing and takes no argument. */
  lemma OtherLettersSilent(a: seq<Char>, argsA: seq<Arg>, letter: Char, b: seq<Char>, argsB: seq<Arg>)
    requires Whole(a, argsA) && Matches(b, argsB)
    requires letter !in [99, 100, 117, 120, 88, 115]
    ensures Contributes(a, argsA, letter, [], b, argsB, [])
  {
    var rest := [37, letter] + b;
    assert rest[2..] == b && [] + argsB == argsB;
    assert Render(rest, argsB) == [] + Render(b, argsB);
    JoinFormats(a, argsA, rest, argsB);
  }

  /** The bytes of each level's prefix. */
  lemma PrefixBytes(level: LogLevel)
    ensures level.Info? ==> Prefix(level) == [91, 73, 78, 70, 79, 93, 32]
    ensures level.Warn? ==> Prefix(level) == [91, 87, 65, 82, 78, 93, 32]
    ensures level.Error? ==> Prefix(level) == [91, 69, 82, 82, 79, 82, 93, 32]
    ensures level.Debug? ==> Prefix(level) == [91, 68, 69, 66, 85, 71, 93, 32]
  {
  }
}
