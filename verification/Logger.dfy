/** The kernel logger: digit routines over a 64-byte scratch buffer and the
    interpreter of its format strings, printing on the console. */
module Logger {
  import opened Bits
  import opened CString
  import opened Numerals
  import opened Paper
  import opened Console
  import opened LogFormat
  import opened ReadBack

  const LOG_BUFFER_SIZE := 64

  function Reverse(s: seq<Char>): (r: seq<Char>)
    ensures |r| == |s|
    ensures forall k :: 0 <= k < |s| ==> r[k] == s[|s| - 1 - k]
  {
    seq(|s|, k requires 0 <= k < |s| => s[|s| - 1 - k])
  }

  lemma ReverseAppend(s: seq<Char>, c: Char)
    ensures Reverse(s + [c]) == [c] + Reverse(s)
  {
  }

  lemma PrefixIsPlain(level: LogLevel, message: seq<Char>)
    requires Plain(message)
    ensures Plain(Prefix(level) + message)
  {
    assert Printable(Prefix(level));
  }

  /** A log call on a cleared console: the message, prefix in front, lies on the roll line
      by line, wrapped at 80 columns, and the screen shows its last 25 rows. */
  lemma LogOnClearedConsole(p: Roll, q: Roll, level: LogLevel, message: seq<Char>)
    requires Cleared(p) && Plain(message) && q == Print(p, Prefix(level) + message)
    ensures q.attr == p.attr && Laid(q, p.Top(), Layout(Lines(Prefix(level) + message)), p.attr)
    ensures Displays(Screen(q.rows), q.x, q.y - q.Top(), Prefix(level) + message, p.attr)
  {
    PrefixIsPlain(level, message);
    TextOnCleared(p, Prefix(level) + message);
  }

  class Logger {
    var logBuffer: array<Char>

    ghost predicate Valid()
      reads this
    {
      logBuffer.Length == LOG_BUFFER_SIZE
    }

    constructor ()
      ensures Valid() && fresh(logBuffer) && logBuffer.Length == 64 && forall k :: 0 <= k < 64 ==> logBuffer[k] == 0
    {
      logBuffer := new Char[LOG_BUFFER_SIZE](_ => NUL);
    }

    /** Reverses the buffer from `i` to `j`, both included. */
    method LogBufferReverse(i: int, j: int)
      requires Valid() && 0 <= i <= j + 1 <= LOG_BUFFER_SIZE
      modifies logBuffer
      ensures logBuffer[i..j + 1] == Reverse(old(logBuffer[i..j + 1]))
      ensures forall k :: 0 <= k < LOG_BUFFER_SIZE && !(i <= k <= j) ==> logBuffer[k] == old(logBuffer[k])
    {
      ghost var was := logBuffer[..];
      var lo, hi := i, j;
      while lo < hi
        invariant i <= lo <= hi + 2 && hi <= j && lo - i == j - hi
        invariant forall k :: i <= k < lo || hi < k <= j ==> logBuffer[k] == was[i + j - k]
        invariant forall k :: 0 <= k < LOG_BUFFER_SIZE && !(i <= k < lo || hi < k <= j) ==> logBuffer[k] == was[k]
      {
        var tmp := logBuffer[lo];
        logBuffer[lo] := logBuffer[hi];
        logBuffer[hi] := tmp;
        lo, hi := lo + 1, hi - 1;
      }
    }

    /** The text the first `i` characters of the buffer will be once reversed. */
    ghost function Pending(i: nat): (s: seq<Char>)
      requires i <= logBuffer.Length
      reads this, logBuffer
      ensures |s| == i
    {
      Reverse(logBuffer[..i])
    }

    /** `log_buffer_[i++] = c`: the pending text grows at its front. */
    method Store(i: nat, c: Char) returns (next: nat)
      requires Valid() && i < LOG_BUFFER_SIZE
      modifies logBuffer
      ensures next == i + 1 && Pending(next) == [c] + old(Pending(i))
      ensures forall k :: next <= k < LOG_BUFFER_SIZE ==> logBuffer[k] == old(logBuffer[k])
    {
      ghost var done := logBuffer[..i];
      logBuffer[i] := c;
      ReverseAppend(done, c);
      assert logBuffer[..i + 1] == done + [c];
      return i + 1;
    }

    /** Terminate the buffer after `i` characters and put them in reading order. */
    method Finish(i: nat)
      requires Valid() && i < LOG_BUFFER_SIZE && NUL !in Pending(i)
      modifies logBuffer
      ensures Holds(logBuffer[..], old(Pending(i)))
      ensures forall k :: i < k < LOG_BUFFER_SIZE ==> logBuffer[k] == old(logBuffer[k])
    {
      ghost var text := Pending(i);
      logBuffer[i] := NUL;
      LogBufferReverse(0, i - 1);
      assert logBuffer[..i] == text;
    }

    /** The loop's character for one digit. */
    method StoreDigit(i: nat, digit: nat) returns (next: nat)
      requires Valid() && i < LOG_BUFFER_SIZE && digit < 16
      modifies logBuffer
      ensures next == i + 1 && Pending(next) == [DigitChar(digit)] + old(Pending(i))
      ensures forall k :: next <= k < LOG_BUFFER_SIZE ==> logBuffer[k] == old(logBuffer[k])
    {
      if digit < 10 {
        next := Store(i, digit + 48);
      } else {
        next := Store(i, digit + 55);
      }
    }

    /** The digit loop that all three routines share: least significant digit first. */
    method StoreDigits(n: nat, base: nat) returns (i: nat)
      requires Valid() && n < WORD && (base == 10 || base == 16)
      modifies logBuffer
      ensures i <= 10 && Pending(i) == Numeral(n, base)
      ensures forall k :: i <= k < LOG_BUFFER_SIZE ==> logBuffer[k] == old(logBuffer[k])
    {
      var rest: nat := n;
      WordNumerals(n);
      i := 0;
      while rest != 0
        invariant i + |Numeral(rest, base)| == |Numeral(n, base)|
        invariant Numeral(n, base) == Numeral(rest, base) + Pending(i)
        invariant forall k :: i <= k < LOG_BUFFER_SIZE ==> logBuffer[k] == old(logBuffer[k])
        decreases rest
      {
        DigitStep(Numeral(n, base), rest, base, Pending(i));
        i := StoreDigit(i, rest % base);
        rest := rest / base;
      }
    }

    /** The padding loop that both decimal routines share. */
    method Pad(start: nat, digitsRequired: int) returns (i: nat)
      requires Valid() && start < 64 && digitsRequired < 64
      modifies logBuffer
      ensures i == (if start < digitsRequired then digitsRequired else start)
      ensures Pending(i) == Zeros(i - start) + old(Pending(start))
      ensures forall k :: i <= k < LOG_BUFFER_SIZE ==> logBuffer[k] == old(logBuffer[k])
    {
      i := start;
      while i < digitsRequired
        invariant start <= i <= (if start < digitsRequired then digitsRequired else start)
        invariant Pending(i) == Zeros(i - start) + old(Pending(start))
        invariant forall k :: i <= k < LOG_BUFFER_SIZE ==> logBuffer[k] == old(logBuffer[k])
      {
        ZerosStep(i - start, old(Pending(start)));
        i := Store(i, ZERO);
      }
    }

    /** The signed overload. `INT_MIN` has no negation; the text must fit the buffer. */
    method SetLogBufferInt(n: int, digitsRequired: int) returns (len: nat)
      requires Valid() && INT_MIN < n <= 0x7FFF_FFFF
      requires digitsRequired < (if n < 0 then 63 else 64)
      modifies logBuffer
      ensures Holds(logBuffer[..], SignedText(n, digitsRequired)) && len == |SignedText(n, digitsRequired)|
      ensures forall k :: len < k < LOG_BUFFER_SIZE ==> logBuffer[k] == old(logBuffer[k])
    {
      var isNegative := n < 0;
      var magnitude: nat := if isNegative then -n else n;
      var i := StoreDigits(magnitude, 10);
      i := Pad(i, digitsRequired);
      assert Pending(i) == UnsignedText(magnitude, digitsRequired);
      if isNegative {
        i := Store(i, MINUS);
      }
      assert Pending(i) == SignedText(n, digitsRequired);
      Finish(i);
      return i;
    }

    /** The unsigned overload. */
    method SetLogBufferUInt(n: nat, digitsRequired: int) returns (len: nat)
      requires Valid() && n < WORD && digitsRequired < 64
      modifies logBuffer
      ensures Holds(logBuffer[..], UnsignedText(n, digitsRequired)) && len == |UnsignedText(n, digitsRequired)|
      ensures forall k :: len < k < LOG_BUFFER_SIZE ==> logBuffer[k] == old(logBuffer[k])
    {
      var i := StoreDigits(n, 10);
      i := Pad(i, digitsRequired);
      Finish(i);
      return i;
    }

    /** The returned value is documented as the text's length; it is, except for 0. */
    method SetLogBufferHex(n: nat) returns (len: nat)
      requires Valid() && n < WORD
      modifies logBuffer
      ensures Holds(logBuffer[..], HexText(n))
      ensures len == |HexText(n)| <==> n != 0
      ensures n == 0 ==> len == 1
      ensures forall k :: |HexText(n)| < k < LOG_BUFFER_SIZE ==> logBuffer[k] == old(logBuffer[k])
    {
      if n == 0 {
        logBuffer[0] := ZERO;
        logBuffer[1] := Code('x');
        logBuffer[2] := ZERO;
        logBuffer[3] := NUL;
        assert logBuffer[..3] == HexText(0);
        return 1;
      }
      var i := StoreDigits(n, 16);
      i := Store(i, Code('x'));
      i := Store(i, ZERO);
      assert Pending(i) == HexText(n);
      Finish(i);
      return i;
    }

    /** The directive `letter`: prints its argument, if it takes one, and moves on to
        the next. */
    method PrintDirective(writer: FrameBuffer, letter: Char, args: seq<Arg>, argIndex: nat) returns (next: nat)
      requires Valid() && writer.Valid() && logBuffer as object != writer.video
      requires IsDirective(letter) ==> argIndex < |args| && Accepts(letter, args[argIndex])
      modifies logBuffer, writer, writer.video
      ensures writer.Valid() && writer.video == old(writer.video)
      ensures next == argIndex + (if IsDirective(letter) then 1 else 0)
      ensures writer.Abs() ==
              Print(old(writer.Abs()), if IsDirective(letter) then Piece(letter, args[argIndex]) else [])
      ensures old(writer.Synced()) ==> writer.Synced()
    {
      if letter == Code('c') {
        PrintOne(writer.Abs(), AsChar(args[argIndex]));
        writer.PrintChar(AsChar(args[argIndex]));
      } else if letter == Code('d') {
        PrintInt(writer, AsInt(args[argIndex]));
      } else if letter == Code('u') {
        PrintUInt(writer, AsUInt(args[argIndex]));
      } else if letter == Code('x') || letter == Code('X') {
        PrintHex(writer, AsUInt(args[argIndex]));
      } else if letter == Code('s') {
        PrintText(writer, args[argIndex].s);
      } else {
        return argIndex;
      }
      return argIndex + 1;
    }

    // The branches of `PrintDirective`.

    method PrintInt(writer: FrameBuffer, n: int)
      requires Valid() && writer.Valid() && logBuffer as object != writer.video && INT_MIN < n <= 0x7FFF_FFFF
      modifies logBuffer, writer, writer.video
      ensures writer.Valid() && writer.video == old(writer.video)
      ensures writer.Abs() == Print(old(writer.Abs()), SignedText(n, 0))
      ensures old(writer.Synced()) ==> writer.Synced()
    {
      var len := SetLogBufferInt(n, 0);
      PrintBuffer(writer, SignedText(n, 0));
    }

    method PrintUInt(writer: FrameBuffer, n: Word)
      requires Valid() && writer.Valid() && logBuffer as object != writer.video
      modifies logBuffer, writer, writer.video
      ensures writer.Valid() && writer.video == old(writer.video)
      ensures writer.Abs() == Print(old(writer.Abs()), UnsignedText(n, 0))
      ensures old(writer.Synced()) ==> writer.Synced()
    {
      var len := SetLogBufferUInt(n, 0);
      PrintBuffer(writer, UnsignedText(n, 0));
    }

    method PrintHex(writer: FrameBuffer, n: Word)
      requires Valid() && writer.Valid() && logBuffer as object != writer.video
      modifies logBuffer, writer, writer.video
      ensures writer.Valid() && writer.video == old(writer.video)
      ensures writer.Abs() == Print(old(writer.Abs()), HexText(n))
      ensures old(writer.Synced()) ==> writer.Synced()
    {
      var len := SetLogBufferHex(n);
      PrintBuffer(writer, HexText(n));
    }

    method PrintText(writer: FrameBuffer, str: seq<Char>)
      requires writer.Valid() && NUL !in str
      modifies writer, writer.video
      ensures writer.Valid() && writer.video == old(writer.video)
      ensures writer.Abs() == Print(old(writer.Abs()), str)
      ensures old(writer.Synced()) ==> writer.Synced()
    {
      var len := Strlen(str + [NUL], str);
      assert str[..len] == str;
      writer.PrintString(str[..len]);
    }

    /** Print the scratch buffer up to its terminator, whatever lies behind it. */
    method PrintBuffer(writer: FrameBuffer, ghost text: seq<Char>)
      requires Valid() && writer.Valid() && Holds(logBuffer[..], text)
      modifies writer, writer.video
      ensures writer.Valid() && writer.video == old(writer.video)
      ensures writer.Abs() == Print(old(writer.Abs()), text)
      ensures old(writer.Synced()) ==> writer.Synced()
    {
      var len := Strlen(logBuffer[..], text);
      assert logBuffer[..len] == text;
      writer.PrintString(logBuffer[..len]);
    }

    /** The format is printed up to position `i`, and `k` arguments are used up. */
    ghost predicate At(writer: FrameBuffer, paper: Roll, text: seq<Char>, args: seq<Arg>,
                       i: nat, k: nat, out: seq<Char>)
      requires paper.Valid()
      reads writer, writer.video
    {
      writer.Valid() && Progress(text, args, i, k, out) && writer.Abs() == Print(paper, out)
    }

    /** One ordinary character. */
    method PrintLiteral(writer: FrameBuffer, c: Char, ghost text: seq<Char>, ghost args: seq<Arg>,
                        ghost paper: Roll, ghost i: nat, ghost k: nat, ghost out: seq<Char>)
      requires paper.Valid() && At(writer, paper, text, args, i, k, out)
      requires i < |text| && c == text[i] != PERCENT
      modifies writer, writer.video
      ensures writer.video == old(writer.video) && At(writer, paper, text, args, i + 1, k, out + [c])
      ensures writer.Synced()
    {
      ProgressLiteral(text, args, i, k, out);
      writer.PrintChar(c);
      PrintOneMore(paper, out, c);
    }

    /** The inner loop of `Printf`: ordinary characters. */
    method PrintLiterals(writer: FrameBuffer, fmt: seq<Char>, ghost text: seq<Char>, ghost args: seq<Arg>,
                         ghost paper: Roll, begun: nat, ghost k: nat, ghost before: seq<Char>)
      returns (i: nat, ghost out: seq<Char>)
      requires paper.Valid() && At(writer, paper, text, args, begun, k, before)
      requires Holds(fmt, text)
      modifies writer, writer.video
      ensures writer.video == old(writer.video) && At(writer, paper, text, args, i, k, out)
      ensures old(writer.Synced()) ==> writer.Synced()
      ensures begun <= i <= |text| && (i < |text| ==> fmt[i] == text[i] == PERCENT)
    {
      i, out := begun, before;
      while fmt[i] != NUL && fmt[i] != PERCENT
        invariant begun <= i <= |text| && At(writer, paper, text, args, i, k, out)
        invariant writer.video == old(writer.video) && (old(writer.Synced()) ==> writer.Synced())
        decreases |text| - i
      {
        assert fmt[i] == text[i];
        PrintLiteral(writer, fmt[i], text, args, paper, i, k, out);
        out := out + [fmt[i]];
        i := i + 1;
      }
      EndOfString(fmt, text, i);
      assert i < |text| ==> fmt[i] == text[i];
    }

    /** A `%` and the letter after it, be that the terminator. */
    method PrintPercent(writer: FrameBuffer, fmt: seq<Char>, ghost text: seq<Char>, args: seq<Arg>,
                        ghost paper: Roll, begun: nat, k: nat, ghost out: seq<Char>)
      returns (next: nat, nextArg: nat, ghost more: seq<Char>)
      requires Valid() && logBuffer as object != writer.video
      requires paper.Valid() && At(writer, paper, text, args, begun, k, out)
      requires Holds(fmt, text) && begun < |text| && fmt[begun] == text[begun] == PERCENT
      modifies logBuffer, writer, writer.video
      ensures writer.Valid() && writer.video == old(writer.video) && next == begun + 2
      ensures if next <= |text| then At(writer, paper, text, args, next, nextArg, more)
              else Dangling(text) && nextArg == |Directives(text)| && writer.Abs() == Print(paper, Render(text, args))
      ensures old(writer.Synced()) ==> writer.Synced()
    {
      assert fmt[begun + 1] == Letter(text, begun);
      ProgressPercent(text, args, begun, k, out);
      ghost var piece := Printed(text, args, begun, k);
      PrintConcat(paper, out, piece);
      more := out + piece;
      next := begun + 1;
      nextArg := PrintDirective(writer, fmt[next], args, k);
      next := next + 1;
    }

    /** `overrun` reports that the loop is about to read past the terminator of the
        format string: where this method stops, the C++ loop does not. */
    method Printf(writer: FrameBuffer, fmt: seq<Char>, ghost text: seq<Char>, args: seq<Arg>)
      returns (overrun: bool, argIndex: nat)
      requires Valid() && writer.Valid() && logBuffer as object != writer.video
      requires Holds(fmt, text) && |fmt| == |text| + 1 && Matches(text, args)
      modifies logBuffer, writer, writer.video
      ensures writer.Valid() && writer.video == old(writer.video)
      ensures writer.Abs() == Print(old(writer.Abs()), Render(text, args))
      ensures argIndex == |Directives(text)|
      ensures overrun <==> Dangling(text)
      ensures old(writer.Synced()) ==> writer.Synced()
    {
      argIndex := 0;
      var i := 0;
      ghost var out: seq<Char> := [];
      ghost var paper := writer.Abs();
      ProgressStart(text, args);
      while fmt[i] != NUL
        invariant i <= |text| && At(writer, paper, text, args, i, argIndex, out)
        invariant writer.video == old(writer.video) && (old(writer.Synced()) ==> writer.Synced())
        decreases |text| - i
      {
        i, out := PrintLiterals(writer, fmt, text, args, paper, i, argIndex, out);
        if fmt[i] == NUL {
          break;
        }
        i, argIndex, out := PrintPercent(writer, fmt, text, args, paper, i, argIndex, out);
        if i == |fmt| {
          return true, argIndex;
        }
      }
      EndOfString(fmt, text, i);
      ProgressEnd(text, args, i, argIndex, out);
      return false, argIndex;
    }

    /** The level's prefix, then the message. */
    method Log(writer: FrameBuffer, level: LogLevel, fmt: seq<Char>, ghost text: seq<Char>, args: seq<Arg>)
      returns (overrun: bool)
      requires Valid() && writer.Valid() && logBuffer as object != writer.video
      requires Holds(fmt, text) && |fmt| == |text| + 1 && Matches(text, args)
      modifies logBuffer, writer, writer.video
      ensures writer.Valid() && writer.video == old(writer.video)
      ensures writer.Abs() == Print(old(writer.Abs()), Prefix(level) + Render(text, args)) && writer.Synced()
      ensures level.Info? ==> Prefix(level) == [91, 73, 78, 70, 79, 93, 32]
      ensures level.Warn? ==> Prefix(level) == [91, 87, 65, 82, 78, 93, 32]
      ensures level.Error? ==> Prefix(level) == [91, 69, 82, 82, 79, 82, 93, 32]
      ensures level.Debug? ==> Prefix(level) == [91, 68, 69, 66, 85, 71, 93, 32]
      ensures Cleared(old(writer.Abs())) && Plain(Render(text, args)) ==>
                Displays(writer.video[..], writer.x, writer.y, Prefix(level) + Render(text, args), writer.attr)
      ensures overrun <==> Dangling(text)
    {
      PrefixBytes(level);
      writer.PrintString(Prefix(level));
      PrintConcat(old(writer.Abs()), Prefix(level), Render(text, args));
      var used;
      overrun, used := Printf(writer, fmt, text, args);
      if Cleared(old(writer.Abs())) && Plain(Render(text, args)) {
        LogOnClearedConsole(old(writer.Abs()), writer.Abs(), level, Render(text, args));
      }
    }
  }
}
