/** The C library's `printf`: a second format interpreter, with a budget of INT_MAX
    bytes and an output that may fail. */
module LibcPrintf {
  import opened CString

  const INT_MAX := 0x7FFF_FFFF
  const EOF := -1
  const PERCENT: Char := Code('%')

  datatype Arg = IntArg(i: int) | StrArg(s: seq<Char>)

  /** Conversion of a promoted `int` back to `char`. */
  function ToChar(i: int): Char {
    if i % 256 < 128 then i % 256 else i % 256 - 256
  }

  /** The byte `putchar` is handed for a character. */
  function ToByte(c: Char): Byte {
    if c < 0 then c + 256 else c
  }

  function ToBytes(s: seq<Char>): (b: seq<Byte>)
    ensures |b| == |s|
    ensures forall i :: 0 <= i < |s| ==> b[i] == ToByte(s[i])
  {
    seq(|s|, i requires 0 <= i < |s| => ToByte(s[i]))
  }

  // ------------------------------------------------ meaning of a format

  /** `%` followed by a second one. */
  predicate IsEscape(text: seq<Char>) {
    |text| >= 2 && text[0] == PERCENT && text[1] == PERCENT
  }

  predicate IsDirective(text: seq<Char>, letter: Char) {
    |text| >= 2 && text[0] == PERCENT && text[1] == letter
  }

  /** Every directive reached has an argument of its type. */
  predicate Matches(text: seq<Char>, args: seq<Arg>) {
    if text == [] then true
    else if text[0] != PERCENT then Matches(text[1..], args)
    else if IsEscape(text) then Matches(text[2..], args)
    else if IsDirective(text, Code('c')) then args != [] && args[0].IntArg? && Matches(text[2..], args[1..])
    else if IsDirective(text, Code('s')) then
      args != [] && args[0].StrArg? && NUL !in args[0].s && Matches(text[2..], args[1..])
    else true
  }

  /** What a format prints; from an unsupported directive on, the format itself. */
  function Render(text: seq<Char>, args: seq<Arg>): seq<Char>
    requires Matches(text, args)
  {
    if text == [] then []
    else if text[0] != PERCENT then [text[0]] + Render(text[1..], args)
    else if IsEscape(text) then [PERCENT] + Render(text[2..], args)
    else if IsDirective(text, Code('c')) then [ToChar(args[0].i)] + Render(text[2..], args[1..])
    else if IsDirective(text, Code('s')) then args[0].s + Render(text[2..], args[1..])
    else text
  }

  /** Every `%` doubled. */
  function Escape(s: seq<Char>): seq<Char> {
    if s == [] then []
    else (if s[0] == PERCENT then [PERCENT, PERCENT] else [s[0]]) + Escape(s[1..])
  }

  /** An escaped string is a format that prints the string and takes no argument. */
  lemma {:induction false} EscapeRoundTrip(s: seq<Char>)
    ensures Matches(Escape(s), []) && Render(Escape(s), []) == s
  {
    if s == [] {
    } else {
      EscapeRoundTrip(s[1..]);
      var e, rest := Escape(s), Escape(s[1..]);
      if s[0] == PERCENT {
        assert e[2..] == rest;
      } else {
        assert e[1..] == rest;
      }
    }
  }

  // ------------------------------------------------ formats and bytes in plain numbers

  /** The bytes are those of the characters, whatever the sign of `char`. */
  ghost predicate BytesOf(bytes: seq<Byte>, s: seq<Char>) {
    |bytes| == |s| && forall i :: 0 <= i < |s| ==> SameByte(bytes[i], s[i])
  }

  predicate SameByte(b: Byte, c: int) {
    (b - c) % 256 == 0
  }

  lemma BytesAppended(before: seq<Byte>, after: seq<Byte>, s: seq<Char>)
    requires after == before + ToBytes(s)
    ensures before <= after && BytesOf(after[|before|..], s)
  {
    assert after[|before|..] == ToBytes(s);
    ToBytesAre(s);
  }

  lemma ToBytesAre(s: seq<Char>)
    ensures BytesOf(ToBytes(s), s)
  {
    forall i | 0 <= i < |s| ensures SameByte(ToBytes(s)[i], s[i]) {
      assert ToBytes(s)[i] == ToByte(s[i]);
    }
  }

  /** Every `%` of the format is followed by a second one or starts `%c` or `%s`. */
  predicate Supported(text: seq<Char>) {
    if text == [] then true
    else if text[0] != 37 then Supported(text[1..])
    else |text| >= 2 && text[1] in [37, 99, 115] && Supported(text[2..])
  }

  /** How many arguments such a format takes. */
  function Needs(text: seq<Char>): nat
    requires Supported(text)
  {
    if text == [] then 0
    else if text[0] != 37 then Needs(text[1..])
    else (if text[1] == 37 then 0 else 1) + Needs(text[2..])
  }

  /** The rendering of `b` follows that of `a`. */
  ghost predicate Composes(a: seq<Char>, argsA: seq<Arg>, b: seq<Char>, argsB: seq<Arg>)
    requires Matches(a, argsA) && Matches(b, argsB)
  {
    && Matches(a + b, argsA + argsB)
    && Render(a + b, argsA + argsB) == Render(a, argsA) + Render(b, argsB)
  }

  /** A supported format with exactly its arguments composes with any other. */
  lemma {:induction false} RenderConcat(a: seq<Char>, argsA: seq<Arg>, b: seq<Char>, argsB: seq<Arg>)
    requires Supported(a) && Matches(a, argsA) && |argsA| == Needs(a) && Matches(b, argsB)
    ensures Composes(a, argsA, b, argsB)
    decreases |a|
  {
    if a == [] {
      assert a + b == b && argsA + argsB == argsB;
    } else if a[0] != 37 {
      RenderConcat(a[1..], argsA, b, argsB);
      ConcatLiteral(a, argsA, b, argsB);
    } else if a[1] == 37 {
      RenderConcat(a[2..], argsA, b, argsB);
      ConcatEscape(a, argsA, b, argsB);
    } else {
      RenderConcat(a[2..], argsA[1..], b, argsB);
      ConcatDirective(a, argsA, b, argsB);
    }
  }

  lemma LiteralFirst(text: seq<Char>, args: seq<Arg>, rest: seq<Char>)
    requires text != [] && text[0] != 37 && rest == text[1..]
    ensures Matches(text, args) <==> Matches(rest, args)
    ensures Matches(text, args) ==> Render(text, args) == [text[0]] + Render(rest, args)
  {
  }

  lemma ConcatLiteral(a: seq<Char>, argsA: seq<Arg>, b: seq<Char>, argsB: seq<Arg>)
    requires a != [] && a[0] != 37 && Matches(a, argsA) && Matches(b, argsB)
    requires Matches(a[1..], argsA) && Composes(a[1..], argsA, b, argsB)
    ensures Composes(a, argsA, b, argsB)
  {
    FirstOf(a, b);
    LiteralFirst(a, argsA, a[1..]);
    LiteralFirst(a + b, argsA + argsB, a[1..] + b);
    Regroup([a[0]], Render(a[1..], argsA), Render(b, argsB));
  }

  lemma FirstOf(a: seq<Char>, b: seq<Char>)
    requires a != []
    ensures (a + b)[1..] == a[1..] + b && (a + b)[0] == a[0]
  {
  }

  lemma ConcatEscape(a: seq<Char>, argsA: seq<Arg>, b: seq<Char>, argsB: seq<Arg>)
    requires |a| >= 2 && a[0] == a[1] == 37 && Matches(a, argsA) && Matches(b, argsB)
    requires Composes(a[2..], argsA, b, argsB)
    ensures Composes(a, argsA, b, argsB)
  {
    assert (a + b)[2..] == a[2..] + b && (a + b)[1] == a[1];
  }

  /** The argument has the directive's type. */
  predicate Fits(letter: Char, x: Arg) {
    if letter == 99 then x.IntArg? else x.StrArg? && 0 !in x.s
  }

  function Piece(x: Arg): seq<Char> {
    match x
    case IntArg(i) => [ToChar(i)]
    case StrArg(s) => s
  }

  lemma DirectiveFirst(text: seq<Char>, args: seq<Arg>, rest: seq<Char>, more: seq<Arg>)
    requires |text| >= 2 && text[0] == 37 && text[1] in [99, 115] && rest == text[2..]
    requires args != [] && more == args[1..]
    ensures Matches(text, args) <==> Fits(text[1], args[0]) && Matches(rest, more)
    ensures Matches(text, args) ==> Render(text, args) == Piece(args[0]) + Render(rest, more)
  {
  }

  lemma ConcatDirective(a: seq<Char>, argsA: seq<Arg>, b: seq<Char>, argsB: seq<Arg>)
    requires |a| >= 2 && a[0] == 37 && a[1] in [99, 115] && Matches(a, argsA) && Matches(b, argsB)
    requires argsA != [] && Matches(a[2..], argsA[1..]) && Composes(a[2..], argsA[1..], b, argsB)
    ensures Composes(a, argsA, b, argsB)
  {
    Tails(a, b, argsA, argsB);
    DirectiveFirst(a, argsA, a[2..], argsA[1..]);
    DirectiveFirst(a + b, argsA + argsB, a[2..] + b, argsA[1..] + argsB);
    Regroup(Piece(argsA[0]), Render(a[2..], argsA[1..]), Render(b, argsB));
  }

  lemma Regroup(x: seq<Char>, y: seq<Char>, z: seq<Char>)
    ensures x + (y + z) == x + y + z
  {
  }

  lemma Tails(a: seq<Char>, b: seq<Char>, argsA: seq<Arg>, argsB: seq<Arg>)
    requires |a| >= 2 && argsA != []
    ensures (a + b)[2..] == a[2..] + b && (a + b)[0] == a[0] && (a + b)[1] == a[1]
    ensures (argsA + argsB)[1..] == argsA[1..] + argsB && (argsA + argsB)[0] == argsA[0]
  {
  }

  /** The text around a directive, and what the directive contributes. */
  ghost predicate Contributes(a: seq<Char>, argsA: seq<Arg>, directive: seq<Char>, arg: seq<Arg>,
                              b: seq<Char>, argsB: seq<Arg>, s: seq<Char>)
    requires Matches(a, argsA) && Matches(b, argsB)
  {
    var format, args := a + (directive + b), argsA + (arg + argsB);
    Matches(format, args) && Render(format, args) == Render(a, argsA) + (s + Render(b, argsB))
  }

  ghost predicate Whole(a: seq<Char>, args: seq<Arg>) {
    Supported(a) && Matches(a, args) && |args| == Needs(a)
  }

  /** `%c` hands over the argument modulo 256. */
  lemma CharDirective(a: seq<Char>, argsA: seq<Arg>, i: int, b: seq<Char>, argsB: seq<Arg>)
    returns (c: Char)
    requires Whole(a, argsA) && Matches(b, argsB)
    ensures Contributes(a, argsA, [37, 99], [IntArg(i)], b, argsB, [c])
    ensures ToByte(c) == i % 256
  {
    c := ToChar(i);
    CharSent(i);
    var rest, args := [37, 99] + b, [IntArg(i)] + argsB;
    assert rest[2..] == b && args[1..] == argsB;
    assert Render(rest, args) == [c] + Render(b, argsB);
    RenderConcat(a, argsA, rest, args);
  }

  lemma CharSent(i: int)
    ensures ToByte(ToChar(i)) == i % 256
  {
  }

  /** `%s` is the string. */
  lemma StringDirective(a: seq<Char>, argsA: seq<Arg>, str: seq<Char>, b: seq<Char>, argsB: seq<Arg>)
    requires Whole(a, argsA) && Matches(b, argsB) && 0 !in str
    ensures Contributes(a, argsA, [37, 115], [StrArg(str)], b, argsB, str)
  {
    var rest, args := [37, 115] + b, [StrArg(str)] + argsB;
    assert rest[2..] == b && args[1..] == argsB;
    assert Render(rest, args) == str + Render(b, argsB);
    RenderConcat(a, argsA, rest, args);
  }

  /** `%%` is one `%`. */
  lemma PercentDirective(a: seq<Char>, argsA: seq<Arg>, b: seq<Char>, argsB: seq<Arg>)
    requires Whole(a, argsA) && Matches(b, argsB)
    ensures Contributes(a, argsA, [37, 37], [], b, argsB, [37])
  {
    var rest := [37, 37] + b;
    assert rest[2..] == b && [] + argsB == argsB;
    assert Render(rest, argsB) == [37] + Render(b, argsB);
    RenderConcat(a, argsA, rest, argsB);
  }

  /** From any other directive on, the rest of the format is printed as it stands. */
  lemma UnsupportedDirective(a: seq<Char>, argsA: seq<Arg>, rest: seq<Char>, args: seq<Arg>)
    requires Whole(a, argsA) && rest != [] && rest[0] == 37
    requires |rest| >= 2 ==> rest[1] !in [37, 99, 115]
    ensures Matches(a + rest, argsA + args) && Render(a + rest, argsA + args) == Render(a, argsA) + rest
  {
    RenderConcat(a, argsA, rest, args);
  }

  /** A text without `%` prints itself. */
  lemma {:induction false} TextPrintsItself(text: seq<Char>)
    requires 37 !in text
    ensures Whole(text, []) && Render(text, []) == text
    decreases |text|
  {
    if text == [] {
    } else {
      TextPrintsItself(text[1..]);
    }
  }

  /** For the simplest surroundings, on the bytes: the one after `a` is the argument's. */
  lemma CharBetweenTexts(a: seq<Char>, i: int, b: seq<Char>)
    requires 37 !in a && 37 !in b
    ensures var format, args := a + ([37, 99] + b), [] + ([IntArg(i)] + []);
            && Matches(format, args) && |Render(format, args)| == |a| + 1 + |b|
            && ToBytes(Render(format, args))[|a|] == i % 256
  {
    TextPrintsItself(a);
    TextPrintsItself(b);
    var c := CharDirective(a, [], i, b, []);
    ByteBetween(Render(a + ([37, 99] + b), [] + ([IntArg(i)] + [])), a, c, b);
  }

  lemma ByteBetween(out: seq<Char>, a: seq<Char>, c: Char, b: seq<Char>)
    requires out == a + ([c] + b)
    ensures |out| == |a| + 1 + |b| && ToBytes(out)[|a|] == ToByte(c)
  {
    assert out[|a|] == c;
  }

  // ------------------------------------------------ left to right

  /** After `i` characters and `k` arguments, `out` has been rendered. */
  ghost predicate Progress(text: seq<Char>, args: seq<Arg>, i: nat, k: nat, out: seq<Char>) {
    && i <= |text| && k <= |args|
    && Matches(text, args) && Matches(text[i..], args[k..])
    && Render(text, args) == out + Render(text[i..], args[k..])
  }

  lemma ProgressStart(text: seq<Char>, args: seq<Arg>)
    requires Matches(text, args)
    ensures Progress(text, args, 0, 0, [])
  {
    assert text[0..] == text && args[0..] == args;
  }

  lemma ProgressLiteral(text: seq<Char>, args: seq<Arg>, i: nat, k: nat, out: seq<Char>)
    requires Progress(text, args, i, k, out) && i < |text| && text[i] != PERCENT
    ensures Progress(text, args, i + 1, k, out + [text[i]])
  {
    assert text[i..][1..] == text[i + 1..];
  }

  lemma ProgressEscape(text: seq<Char>, args: seq<Arg>, i: nat, k: nat, out: seq<Char>)
    requires Progress(text, args, i, k, out) && IsEscape(text[i..])
    ensures Progress(text, args, i + 2, k, out + [PERCENT])
  {
    assert text[i..][2..] == text[i + 2..];
  }

  /** Characters other than `%` print themselves. */
  lemma {:induction false} ProgressLiterals(text: seq<Char>, args: seq<Arg>, i: nat, k: nat, out: seq<Char>, j: nat)
    requires Progress(text, args, i, k, out) && i <= j <= |text| && PERCENT !in text[i..j]
    ensures Progress(text, args, j, k, out + text[i..j])
    decreases j
  {
    if i == j {
      assert out + text[i..j] == out;
    } else {
      assert text[i..j] == text[i..j - 1] + [text[j - 1]];
      ProgressLiterals(text, args, i, k, out, j - 1);
      ProgressLiteral(text, args, j - 1, k, out + text[i..j - 1]);
      assert out + text[i..j - 1] + [text[j - 1]] == out + text[i..j];
    }
  }

  /** A run of text from `start` up to the next `%`; `start` skips the first half of `%%`. */
  lemma ProgressChunk(text: seq<Char>, args: seq<Arg>, i: nat, k: nat, out: seq<Char>, start: nat, end: nat)
    requires Progress(text, args, i, k, out) && i < |text|
    requires start == (if text[i] == PERCENT then i + 1 else i)
    requires text[i] == PERCENT ==> IsEscape(text[i..])
    requires start < end <= |text| && PERCENT !in text[start + 1..end]
    ensures Progress(text, args, end, k, out + text[start..end])
  {
    if text[i] == PERCENT {
      ProgressEscape(text, args, i, k, out);
    } else {
      ProgressLiteral(text, args, i, k, out);
    }
    var next := out + [text[start]];
    ProgressLiterals(text, args, start + 1, k, next, end);
    assert next + text[start + 1..end] == out + text[start..end];
  }

  lemma ProgressChar(text: seq<Char>, args: seq<Arg>, i: nat, k: nat, out: seq<Char>)
    requires Progress(text, args, i, k, out) && IsDirective(text[i..], Code('c'))
    ensures k < |args| && args[k].IntArg?
    ensures Progress(text, args, i + 2, k + 1, out + [ToChar(args[k].i)])
  {
    assert text[i..][2..] == text[i + 2..] && args[k..][1..] == args[k + 1..];
  }

  lemma ProgressString(text: seq<Char>, args: seq<Arg>, i: nat, k: nat, out: seq<Char>)
    requires Progress(text, args, i, k, out) && IsDirective(text[i..], Code('s'))
    ensures k < |args| && args[k].StrArg? && NUL !in args[k].s
    ensures Progress(text, args, i + 2, k + 1, out + args[k].s)
  {
    assert text[i..][2..] == text[i + 2..] && args[k..][1..] == args[k + 1..];
  }

  lemma ProgressVerbatim(text: seq<Char>, args: seq<Arg>, i: nat, k: nat, out: seq<Char>)
    requires Progress(text, args, i, k, out) && i < |text| && text[i] == PERCENT && !IsEscape(text[i..])
    requires !IsDirective(text[i..], Code('c')) && !IsDirective(text[i..], Code('s'))
    ensures Progress(text, args, |text|, k, out + text[i..])
  {
    assert text[|text|..] == [];
  }

  // ------------------------------------------------ the output

  /** How many more bytes an output takes before it fails. */
  datatype Capacity = Unlimited | Room(bytes: nat) {
    function Taken(n: nat): (k: nat)
      ensures k <= n
    {
      if Unlimited? || n <= bytes then n else bytes
    }

    function After(n: nat): Capacity {
      if Unlimited? then Unlimited else Room(bytes - Taken(n))
    }
  }

  /** An output that took `i` bytes takes one more or is exhausted. */
  lemma OneByteOn(c: Capacity, i: nat, n: nat)
    requires c.Taken(i) == i < n
    ensures if c.After(i).Taken(1) == 1 then c.Taken(i + 1) == i + 1 && c.After(i).After(1) == c.After(i + 1)
            else c.Taken(n) == i && c.After(i).After(1) == c.After(n)
  {
  }

  lemma OneMoreByte(s: seq<Char>, i: nat)
    requires i < |s|
    ensures ToBytes(s[..i + 1]) == ToBytes(s[..i]) + [ToByte(s[i])]
  {
  }

  class Output {
    /** Every byte handed to `putchar` and accepted. */
    var trace: seq<Byte>
    var capacity: Capacity

    constructor (c: Capacity)
      ensures trace == [] && capacity == c
    {
      trace, capacity := [], c;
    }

    method Putchar(ic: Byte) returns (r: int)
      modifies this
      ensures capacity == old(capacity).After(1)
      ensures if old(capacity).Taken(1) == 1 then r == ic && trace == old(trace) + [ic]
              else r == -1 && trace == old(trace)
    {
      if capacity == Room(0) {
        return EOF;
      }
      trace := trace + [ic];
      if capacity.Room? {
        capacity := Room(capacity.bytes - 1);
      }
      return ic;
    }

    method Print(data: seq<Char>) returns (ok: bool)
      modifies this
      ensures capacity == old(capacity).After(|data|)
      ensures trace == old(trace) + ToBytes(data[..old(capacity).Taken(|data|)])
      ensures ok <==> old(capacity).Taken(|data|) == |data|
      ensures old(trace) <= trace && BytesOf(trace[|old(trace)|..], data[..old(capacity).Taken(|data|)])
    {
      ghost var t0, c0 := trace, capacity;
      for i := 0 to |data|
        invariant c0.Taken(i) == i && capacity == c0.After(i)
        invariant trace == t0 + ToBytes(data[..i])
      {
        OneByteOn(c0, i, |data|);
        var r := Putchar(ToByte(data[i]));
        if r == EOF {
          BytesAppended(t0, trace, data[..i]);
          return false;
        }
        OneMoreByte(data, i);
      }
      assert data[..|data|] == data;
      BytesAppended(t0, trace, data);
      return true;
    }

    /** `out` has been printed since the output was as described by `t0` and `c0`. */
    ghost predicate Printed(t0: seq<Byte>, c0: Capacity, out: seq<Char>)
      reads this
    {
      && |out| <= INT_MAX && c0.Taken(|out|) == |out|
      && trace == t0 + ToBytes(out) && capacity == c0.After(|out|)
    }

    /** `all` cannot be printed, and a prefix of it was. */
    ghost predicate Failed(t0: seq<Byte>, c0: Capacity, all: seq<Char>)
      reads this
    {
      && (|all| > INT_MAX || c0.Taken(|all|) < |all|)
      && exists n :: 0 <= n <= |all| && trace == t0 + ToBytes(all[..n])
    }

    /** The check against the budget and the printing that every directive repeats. */
    method Emit(piece: seq<Char>, written: nat, ghost t0: seq<Byte>, ghost c0: Capacity,
                ghost out: seq<Char>, ghost all: seq<Char>) returns (ok: bool)
      requires Printed(t0, c0, out) && written == |out| && out + piece <= all
      modifies this
      ensures if ok then Printed(t0, c0, out + piece) else Failed(t0, c0, all)
    {
      var maxrem := INT_MAX - written;
      if maxrem < |piece| {
        assert all[..|out|] == out;
        return false;
      }
      ok := Print(piece);
      ghost var n := |out| + c0.After(|out|).Taken(|piece|);
      assert all[..n] == out + piece[..n - |out|];
      assert trace == t0 + ToBytes(all[..n]);
      assert ok ==> all[..n] == out + piece;
    }

    /** Printing has got to position `i` of the format and to argument `k`. */
    ghost predicate At(text: seq<Char>, args: seq<Arg>, t0: seq<Byte>, c0: Capacity,
                       i: nat, k: nat, written: nat, out: seq<Char>)
      reads this
    {
      Progress(text, args, i, k, out) && Printed(t0, c0, out) && written == |out|
    }

    /** The branch of `Printf` for ordinary text and `%%`: print up to the next `%`. */
    method PrintLiteral(format: seq<Char>, ghost text: seq<Char>, ghost args: seq<Arg>,
                        ghost t0: seq<Byte>, ghost c0: Capacity,
                        begun: nat, ghost k: nat, written: nat, ghost out: seq<Char>)
      returns (ok: bool, next: nat, total: nat, ghost more: seq<Char>)
      requires Holds(format, text) && |format| == |text| + 1 && At(text, args, t0, c0, begun, k, written, out)
      requires begun < |text| && (format[begun] != PERCENT || format[begun + 1] == PERCENT)
      modifies this
      ensures if ok then begun < next && At(text, args, t0, c0, next, k, total, more)
              else Failed(t0, c0, Render(text, args))
    {
      var start := begun;
      if format[start] == PERCENT {
        start := start + 1;
      }
      var amount := 1;
      while format[start + amount] != NUL && format[start + amount] != PERCENT
        invariant 1 <= amount && start + amount <= |text|
        invariant PERCENT !in text[start + 1..start + amount]
        decreases |text| - amount
      {
        assert format[start + amount] == text[start + amount];
        amount := amount + 1;
      }
      next, total := start + amount, written + amount;
      ProgressChunk(text, args, begun, k, out, start, next);
      more := out + text[start..next];
      SameStretch(format, text, start, next);
      ok := Emit(format[start..next], written, t0, c0, out, Render(text, args));
    }

    /** The branches for `%c`, `%s` and unsupported directives. */
    method PrintDirective(format: seq<Char>, ghost text: seq<Char>, args: seq<Arg>,
                          ghost t0: seq<Byte>, ghost c0: Capacity,
                          begun: nat, k: nat, written: nat, ghost out: seq<Char>)
      returns (ok: bool, next: nat, nextArg: nat, total: nat, ghost more: seq<Char>)
      requires Holds(format, text) && |format| == |text| + 1 && At(text, args, t0, c0, begun, k, written, out)
      requires begun < |text| && format[begun] == PERCENT && format[begun + 1] != PERCENT
      modifies this
      ensures if ok then begun < next && At(text, args, t0, c0, next, nextArg, total, more)
              else Failed(t0, c0, Render(text, args))
    {
      assert forall n :: 0 <= n < |text| ==> format[n] == text[n];
      if format[begun + 1] == Code('c') {
        ProgressChar(text, args, begun, k, out);
        var c := ToChar(args[k].i);
        more := out + [c];
        next, nextArg, total := begun + 2, k + 1, written + 1;
        ok := Emit([c], written, t0, c0, out, Render(text, args));
      } else if format[begun + 1] == Code('s') {
        ProgressString(text, args, begun, k, out);
        var str := args[k].s;
        var len := Strlen(str + [NUL], str);
        more := out + str;
        next, nextArg, total := begun + 2, k + 1, written + len;
        ok := Emit(str, written, t0, c0, out, Render(text, args));
      } else {
        ProgressVerbatim(text, args, begun, k, out);
        RestOfFormat(format, text, begun);
        var len := Strlen(format[begun..], text[begun..]);
        more := out + text[begun..];
        next, nextArg, total := begun + len, k, written + len;
        ok := Emit(format[begun..next], written, t0, c0, out, Render(text, args));
      }
    }

    /** The format is read up to its terminator only. The result is the length of the
        rendering, or -1; what was printed before a failure is a prefix of it. */
    method Printf(format: seq<Char>, ghost text: seq<Char>, parameters: seq<Arg>) returns (r: int)
      requires Holds(format, text) && |format| == |text| + 1 && Matches(text, parameters)
      modifies this
      ensures var out := Render(text, parameters);
              && (r != -1 <==> |out| <= 0x7FFF_FFFF && old(capacity).Taken(|out|) == |out|)
              && (r != -1 ==> r == |out| && trace == old(trace) + ToBytes(out))
              && (r == -1 ==> exists n :: 0 <= n <= |out| && trace == old(trace) + ToBytes(out[..n]))
      ensures old(trace) <= trace
      ensures r != -1 ==> BytesOf(trace[|old(trace)|..], Render(text, parameters))
    {
      ghost var t0, c0 := trace, capacity;
      ghost var out: seq<Char> := [];
      var written, i, k := 0, 0, 0;
      ProgressStart(text, parameters);
      while format[i] != NUL
        invariant 0 <= i <= |text| && At(text, parameters, t0, c0, i, k, written, out)
        decreases |text| - i
      {
        var ok;
        if format[i] != PERCENT || format[i + 1] == PERCENT {
          ok, i, written, out := PrintLiteral(format, text, parameters, t0, c0, i, k, written, out);
        } else {
          ok, i, k, written, out := PrintDirective(format, text, parameters, t0, c0, i, k, written, out);
        }
        if !ok {
          return -1;
        }
      }
      EndOfString(format, text, i);
      assert out == Render(text, parameters);
      BytesAppended(t0, trace, out);
      return written;
    }
  }

  lemma SameStretch(format: seq<Char>, text: seq<Char>, i: nat, j: nat)
    requires Holds(format, text) && i <= j <= |text|
    ensures format[i..j] == text[i..j]
  {
    forall k | i <= k < j ensures format[k] == text[k] {
      assert format[..|text|][k] == text[k];
    }
  }

  lemma RestOfFormat(format: seq<Char>, text: seq<Char>, i: nat)
    requires Holds(format, text) && |format| == |text| + 1 && i <= |text|
    ensures Holds(format[i..], text[i..]) && format[i..|text|] == text[i..]
  {
    assert format[i..][..|text| - i] == text[i..];
  }
}
