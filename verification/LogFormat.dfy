/** The meaning of the logger's format strings. */
module LogFormat {
  import opened Bits
  import opened CString
  import opened Numerals

  const INT_MIN := -0x8000_0000
  const PERCENT: Char := Code('%')

  type Int32 = i: int | INT_MIN <= i <= 0x7FFF_FFFF

  datatype LogLevel = Info | Warn | Error | Debug

  function Prefix(level: LogLevel): seq<Char> {
    match level
    case Info => Ascii("[INFO] ")
    case Warn => Ascii("[WARN] ")
    case Error => Ascii("[ERROR] ")
    case Debug => Ascii("[DEBUG] ")
  }

  /** An argument with the type it was constructed from. */
  datatype Arg = CharArg(c: Char) | IntArg(i: Int32) | UIntArg(u: Word) | StrArg(s: seq<Char>)

  // `GetValue<T>` converts the stored number to the requested type.

  function AsChar(a: Arg): Char
    requires !a.StrArg?
  {
    match a
    case CharArg(c) => c
    case IntArg(i) => if i % 256 < 128 then i % 256 else i % 256 - 256
    case UIntArg(u) => if u % 256 < 128 then u % 256 else u % 256 - 256
  }

  function AsInt(a: Arg): Int32
    requires !a.StrArg?
  {
    match a
    case CharArg(c) => c
    case IntArg(i) => i
    case UIntArg(u) => if u <= 0x7FFF_FFFF then u else u - WORD
  }

  function AsUInt(a: Arg): Word
    requires !a.StrArg?
  {
    match a
    case CharArg(c) => Wrap32(c)
    case IntArg(i) => Wrap32(i)
    case UIntArg(u) => u
  }

  /** The letters after `%` that print an argument; any other letter prints nothing. */
  predicate IsDirective(letter: Char) {
    letter == Code('c') || letter == Code('d') || letter == Code('u') ||
    letter == Code('x') || letter == Code('X') || letter == Code('s')
  }

  /** The argument has a value the directive can print. A string's type is never
      stored, its copy has room for 255 characters, and INT_MIN has no negation. */
  predicate Accepts(letter: Char, a: Arg) {
    if letter == Code('s') then a.StrArg? && |a.s| < 256 && NUL !in a.s
    else !a.StrArg? && (letter == Code('d') ==> AsInt(a) != INT_MIN)
  }

  function Piece(letter: Char, a: Arg): seq<Char>
    requires IsDirective(letter) && Accepts(letter, a)
  {
    if letter == Code('c') then [AsChar(a)]
    else if letter == Code('d') then SignedText(AsInt(a), 0)
    else if letter == Code('u') then UnsignedText(AsUInt(a), 0)
    else if letter == Code('s') then a.s
    else HexText(AsUInt(a))
  }

  /** The format ends in a `%` that introduces nothing. */
  predicate Dangling(text: seq<Char>) {
    if text == [] then false
    else if text[0] != PERCENT then Dangling(text[1..])
    else if |text| == 1 then true
    else Dangling(text[2..])
  }

  /** The argument-taking directives, in order. */
  function Directives(text: seq<Char>): seq<Char> {
    if text == [] then []
    else if text[0] != PERCENT then Directives(text[1..])
    else if |text| == 1 then []
    else if IsDirective(text[1]) then [text[1]] + Directives(text[2..])
    else Directives(text[2..])
  }

  /** There is an acceptable argument for every directive; further ones are ignored. */
  predicate Matches(text: seq<Char>, args: seq<Arg>) {
    if text == [] then true
    else if text[0] != PERCENT then Matches(text[1..], args)
    else if |text| == 1 then true
    else if IsDirective(text[1]) then
      args != [] && Accepts(text[1], args[0]) && Matches(text[2..], args[1..])
    else Matches(text[2..], args)
  }

  /** What a format string prints. */
  function Render(text: seq<Char>, args: seq<Arg>): seq<Char>
    requires Matches(text, args)
  {
    if text == [] then []
    else if text[0] != PERCENT then [text[0]] + Render(text[1..], args)
    else if |text| == 1 then []
    else if IsDirective(text[1]) then Piece(text[1], args[0]) + Render(text[2..], args[1..])
    else Render(text[2..], args)
  }

  /** `b` after `a` renders as the one and then, with the arguments left over, the other. */
  ghost predicate Composes(a: seq<Char>, b: seq<Char>, args: seq<Arg>)
    requires Matches(a, args)
  {
    var k := |Directives(a)|;
    && k <= |args|
    && (Matches(a + b, args) <==> Matches(b, args[k..]))
    && (Matches(a + b, args) ==> Render(a + b, args) == Render(a, args) + Render(b, args[k..]))
  }

  /** Formats compose: after a format that does not dangle, a second one starts afresh
      with the arguments the first has left over. */
  lemma {:induction false} RenderConcat(a: seq<Char>, b: seq<Char>, args: seq<Arg>)
    requires !Dangling(a) && Matches(a, args)
    ensures Composes(a, b, args)
    decreases |a|
  {
    if a == [] {
      assert a + b == b && args[0..] == args;
    } else if a[0] != PERCENT {
      RenderConcat(a[1..], b, args);
      ConcatLiteral(a, b, args);
    } else if IsDirective(a[1]) {
      RenderConcat(a[2..], b, args[1..]);
      ConcatDirective(a, b, args);
    } else {
      RenderConcat(a[2..], b, args);
      ConcatUnknown(a, b, args);
    }
  }

  lemma ConcatLiteral(a: seq<Char>, b: seq<Char>, args: seq<Arg>)
    requires a != [] && a[0] != PERCENT && Matches(a, args) && Composes(a[1..], b, args)
    ensures Composes(a, b, args)
  {
    assert (a + b)[1..] == a[1..] + b;
  }

  lemma ConcatDirective(a: seq<Char>, b: seq<Char>, args: seq<Arg>)
    requires |a| > 1 && a[0] == PERCENT && IsDirective(a[1]) && Matches(a, args)
    requires Composes(a[2..], b, args[1..])
    ensures Composes(a, b, args)
  {
    assert (a + b)[2..] == a[2..] + b && (a + b)[1] == a[1];
    assert args[1..][|Directives(a[2..])|..] == args[|Directives(a)|..];
  }

  lemma ConcatUnknown(a: seq<Char>, b: seq<Char>, args: seq<Arg>)
    requires |a| > 1 && a[0] == PERCENT && !IsDirective(a[1]) && Matches(a, args)
    requires Composes(a[2..], b, args)
    ensures Composes(a, b, args)
  {
    assert (a + b)[2..] == a[2..] + b && (a + b)[1] == a[1];
  }

  /** `%%` is no escape here: a format without directives never prints a `%`. */
  lemma {:induction false} PercentNeedsArgument(text: seq<Char>)
    requires Directives(text) == []
    ensures Matches(text, []) && PERCENT !in Render(text, [])
    decreases |text|
  {
    if text != [] {
      PercentNeedsArgument(if text[0] != PERCENT then text[1..] else if |text| == 1 then [] else text[2..]);
    }
  }

  // ------------------------------------------------ left to right

  /** After `i` characters and `k` arguments, `out` has been printed. */
  ghost predicate Progress(text: seq<Char>, args: seq<Arg>, i: nat, k: nat, out: seq<Char>) {
    && i <= |text| && k <= |args|
    && Matches(text, args) && Matches(text[i..], args[k..])
    && Render(text, args) == out + Render(text[i..], args[k..])
    && |Directives(text)| == k + |Directives(text[i..])|
    && (Dangling(text) <==> Dangling(text[i..]))
  }

  lemma ProgressStart(text: seq<Char>, args: seq<Arg>)
    requires Matches(text, args)
    ensures Progress(text, args, 0, 0, [])
  {
    assert text[0..] == text && args[0..] == args;
  }

  lemma ProgressLiteral(text: seq<Char>, args: seq<Arg>, i: nat, k: nat, out: seq<Char>)
    requires Progress(text, args, i, k, out) && i < |text| && text[i] != PERCENT
    ensures Progress(text, args, i + 1, k, out + [text[i]])
  {
    assert text[i..][1..] == text[i + 1..];
  }

  /** The letter after a `%` at `i`; the terminator if there is none. */
  function Letter(text: seq<Char>, i: nat): Char {
    if i + 1 < |text| then text[i + 1] else NUL
  }

  /** What a `%` at `i` prints, and the arguments it takes. */
  function Printed(text: seq<Char>, args: seq<Arg>, i: nat, k: nat): seq<Char>
    requires IsDirective(Letter(text, i)) ==> k < |args| && Accepts(Letter(text, i), args[k])
  {
    if IsDirective(Letter(text, i)) then Piece(Letter(text, i), args[k]) else []
  }

  function Taken(text: seq<Char>, i: nat): nat {
    if IsDirective(Letter(text, i)) then 1 else 0
  }

  lemma ProgressPercent(text: seq<Char>, args: seq<Arg>, i: nat, k: nat, out: seq<Char>)
    requires Progress(text, args, i, k, out) && i < |text| && text[i] == PERCENT
    ensures IsDirective(Letter(text, i)) ==> k < |args| && Accepts(Letter(text, i), args[k])
    ensures i + 1 < |text| ==>
              Progress(text, args, i + 2, k + Taken(text, i), out + Printed(text, args, i, k))
    ensures i + 1 == |text| ==>
              Dangling(text) && out + Printed(text, args, i, k) == Render(text, args)
              && k + Taken(text, i) == |Directives(text)|
  {
    if i + 1 < |text| {
      ProgressDirective(text, args, i, k, out);
    } else {
      ProgressDangling(text, args, k, out);
    }
  }

  lemma ProgressDirective(text: seq<Char>, args: seq<Arg>, i: nat, k: nat, out: seq<Char>)
    requires Progress(text, args, i, k, out) && i + 1 < |text| && text[i] == PERCENT
    ensures var c := text[i + 1];
            if IsDirective(c)
            then k < |args| && Accepts(c, args[k]) && Progress(text, args, i + 2, k + 1, out + Piece(c, args[k]))
            else Progress(text, args, i + 2, k, out)
    ensures out + [] == out
  {
    assert text[i..][2..] == text[i + 2..];
    if IsDirective(text[i + 1]) {
      assert args[k..][1..] == args[k + 1..];
    }
  }

  lemma ProgressDangling(text: seq<Char>, args: seq<Arg>, k: nat, out: seq<Char>)
    requires text != [] && text[|text| - 1] == PERCENT && Progress(text, args, |text| - 1, k, out)
    ensures Dangling(text) && out + [] == Render(text, args) && k == |Directives(text)|
  {
  }

  lemma ProgressEnd(text: seq<Char>, args: seq<Arg>, i: nat, k: nat, out: seq<Char>)
    requires i == |text| && Progress(text, args, i, k, out)
    ensures !Dangling(text) && out == Render(text, args) && k == |Directives(text)|
  {
  }
}
