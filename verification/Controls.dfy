/** What each character does on the console, said in plain numbers and in terms of what
    is printed afterwards. */
module Controls {
  import opened CString
  import opened Console
  import opened Paper

  lemma PrintThree(p: Roll, a: seq<Char>, b: seq<Char>, c: seq<Char>)
    requires p.Valid()
    ensures Print(p, a + b + c) == Print(Print(Print(p, a), b), c)
  {
    PrintConcat(p, a + b, c);
    PrintConcat(p, a, b);
  }

  /** At the start of a row byte 8 does nothing. */
  lemma BackspaceAtStart(p: Roll)
    requires p.Valid() && p.x == 0
    ensures p.PrintChar(8) == p
  {
  }

  /** Byte 9 moves to the next column divisible by 4; past the last of them it is a newline. */
  lemma TabMoves(p: Roll)
    requires p.Valid()
    ensures p.x < 76 ==> var q := p.PrintChar(9); q == p.(x := q.x) && q.x % 4 == 0 && p.x < q.x <= p.x + 4
    ensures p.x >= 76 ==> p.PrintChar(9) == p.PrintChar(10)
  {
  }

  /** Every other byte below 32, and every byte from 128 on, leaves the roll alone. */
  lemma OthersIgnored(p: Roll, c: Char)
    requires p.Valid() && c < 32 && c != 8 && c != 9 && c != 10 && c != 13
    ensures p.PrintChar(c) == p
  {
  }

  /** The row with a text from column `x` on. */
  function Overlay(row: Row, x: nat, s: seq<Char>, attr: Byte): (r: Row)
    requires Printable(s)
    ensures forall i :: 0 <= i < 80 ==> r[i] == OverlayCell(row, x, s, attr, i)
  {
    seq(NUM_COLS, i requires 0 <= i < NUM_COLS => OverlayCell(row, x, s, attr, i))
  }

  function OverlayCell(row: Row, x: nat, s: seq<Char>, attr: Byte, i: nat): Cell
    requires Printable(s) && i < NUM_COLS
  {
    if x <= i < x + |s| then Glyph(s[i - x], attr) else row[i]
  }

  /** The roll with the text from the cursor on, and the cursor in column `z`. */
  function Written(p: Roll, s: seq<Char>, z: nat): Roll
    requires p.Valid() && Printable(s)
  {
    p.(rows := p.rows[p.y := Overlay(p.rows[p.y], p.x, s, p.attr)], x := z)
  }

  /** Printable text that does not reach the end of the row. */
  lemma {:induction false} ShortText(p: Roll, s: seq<Char>)
    requires p.Valid() && Printable(s) && p.x + |s| < 80
    ensures Print(p, s) == Written(p, s, p.x + |s|)
    decreases |s|
  {
    if s == [] {
      assert Overlay(p.rows[p.y], p.x, s, p.attr) == p.rows[p.y];
    } else {
      var init, c := s[..|s| - 1], s[|s| - 1];
      ShortText(p, init);
      assert s == init + [c];
      WrittenMore(p, init, c);
    }
  }

  lemma WrittenMore(p: Roll, s: seq<Char>, c: Char)
    requires p.Valid() && Printable(s) && c >= 32 && p.x + |s| < 79
    ensures Printable(s + [c])
    ensures Written(p, s, p.x + |s|).PrintChar(c) == Written(p, s + [c], p.x + |s| + 1)
  {
    OverlayMore(p.rows[p.y], p.x, s, p.attr, c);
  }

  /** A text hides another that it covers. */
  lemma Hidden(p: Roll, s: seq<Char>, z: nat, t: seq<Char>)
    requires p.Valid() && Printable(s) && Printable(t)
    requires z <= p.x && p.x + |s| <= z + |t| < 80
    ensures Print(Written(p, s, z), t) == Print(p.(x := z), t)
  {
    ShortText(Written(p, s, z), t);
    ShortText(p.(x := z), t);
    OverlayTwice(p.rows[p.y], p.x, s, z, t, p.attr);
  }

  lemma OverlayMore(row: Row, x: nat, s: seq<Char>, attr: Byte, c: Char)
    requires Printable(s) && c >= 32 && x + |s| < 79
    ensures Printable(s + [c])
    ensures Overlay(row, x, s + [c], attr) == Overlay(row, x, s, attr)[x + |s| := Glyph(c, attr)]
  {
  }

  lemma OverlayTwice(row: Row, x: nat, s: seq<Char>, z: nat, t: seq<Char>, attr: Byte)
    requires Printable(s) && Printable(t) && z <= x && x + |s| <= z + |t|
    ensures Overlay(Overlay(row, x, s, attr), z, t, attr) == Overlay(row, z, t, attr)
  {
  }

  function Backspaces(k: nat): seq<Char> {
    seq(k, _ => 8)
  }

  lemma {:induction false} BackspacesMove(p: Roll, k: nat)
    requires p.Valid() && k <= p.x
    ensures Print(p, Backspaces(k)) == p.(x := p.x - k)
  {
    if k == 0 {
    } else {
      BackspacesMove(p, k - 1);
      assert Backspaces(k) == Backspaces(k - 1) + [8];
      PrintOneMore(p, Backspaces(k - 1), 8);
    }
  }

  /** As many bytes 8 as characters were printed take them back: after another text that
      is as long nothing is left of them. */
  lemma BackspacesErase(p: Roll, s: seq<Char>, t: seq<Char>)
    requires p.Valid() && Printable(s) && Printable(t) && |s| <= |t| && p.x + |t| < 80
    ensures Print(p, s + Backspaces(|s|) + t) == Print(p, t)
  {
    PrintThree(p, s, Backspaces(|s|), t);
    WrittenAndBack(p, s, |s|);
    Hidden(p, s, p.x, t);
    assert p.(x := p.x) == p;
  }

  lemma WrittenAndBack(p: Roll, s: seq<Char>, k: nat)
    requires p.Valid() && Printable(s) && p.x + |s| < 80 && k == |s|
    ensures Print(Print(p, s), Backspaces(k)) == Written(p, s, p.x)
  {
    ShortText(p, s);
    BackspacesMove(Print(p, s), k);
  }

  lemma BackspaceRetypes(p: Roll, c: Char, d: Char)
    requires p.Valid() && p.x + 1 < 80 && c >= 32 && d >= 32
    ensures Print(p, [c, 8, d]) == Print(p, [d])
  {
    BackspacesErase(p, [c], [d]);
    assert [c] + Backspaces(1) + [d] == [c, 8, d];
  }

  /** Byte 13 goes back to the start of the row and changes nothing there ... */
  lemma ReturnGoesBack(p: Roll)
    requires p.Valid()
    ensures p.PrintChar(13) == p.(x := 0)
  {
  }

  /** ... so a second text that is as long overwrites the first. */
  lemma ReturnOverwrites(p: Roll, s: seq<Char>, t: seq<Char>)
    requires p.Valid() && Printable(s) && Printable(t) && p.x + |s| <= |t| < 80
    ensures Print(p, s + [13] + t) == Print(p.(x := 0), t)
  {
    PrintThree(p, s, [13], t);
    ShortText(p, s);
    PrintOne(Print(p, s), 13);
    Hidden(p, s, 0, t);
  }

  /** After a change of colour the next character's cell holds its code and both colours. */
  lemma ColourOfCell(p: Roll, fg: Byte, bg: Byte, c: Char)
    requires p.Valid() && fg < 16 && bg < 16 && c >= 32
    ensures ColouredCell(Run(p, [SetColorOp(ColorByte(fg, bg)), PrintCharOp(c)]), p.x, p.y, c, fg, bg)
  {
    var a, b := SetColorOp(ColorByte(fg, bg)), PrintCharOp(c);
    StepValid(p, a);
    RunTwo(p, a, b);
    PrintedCell(Step(p, a), c);
  }

  ghost predicate ColouredCell(q: Roll, x: nat, y: nat, c: Char, fg: Byte, bg: Byte) {
    && x < 80 && y < |q.rows|
    && q.rows[y][x] % 256 == c && q.rows[y][x] / 256 % 16 == fg && q.rows[y][x] / 4096 == bg
  }

  lemma RunTwo(p: Roll, a: Op, b: Op)
    requires p.Valid()
    ensures Step(p, a).Valid() && Run(p, [a, b]) == Step(Step(p, a), b)
  {
    StepValid(p, a);
    StepValid(Step(p, a), b);
    assert [a, b][1..] == [b] && [b][1..] == [];
    assert Run(Step(p, a), [b]) == Step(Step(p, a), b);
  }

  lemma PrintedCell(p: Roll, c: Char)
    requires p.Valid() && c >= 32
    ensures var q := p.PrintChar(c); p.y < |q.rows| && q.rows[p.y][p.x] == Glyph(c, p.attr)
  {
    assert p.Write(c).rows[p.y][p.x] == Glyph(c, p.attr);
  }
}
