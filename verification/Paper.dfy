/** The console's meaning: an unbounded roll of paper, 80 columns wide, of which the
    screen shows the last 25 rows. */
module Paper {
  import opened Bits
  import opened CString

  const NUM_ROWS := 25
  const NUM_COLS := 80
  const NUM_TAB := 4

  type Cell = c: nat | c < 0x1_0000

  const BACKSPACE: Char := 8
  const TAB: Char := 9
  const NEWLINE: Char := 10
  const RETURN: Char := 13
  const SPACE: Char := 32

  type Row = r: seq<Cell> | |r| == NUM_COLS witness seq(NUM_COLS, _ => 0)

  /** `c | (attr << 8)` for a printable character. */
  function Glyph(c: Char, attr: Byte): (cell: Cell)
    requires c >= 0
    ensures cell % 256 == c && cell / 256 == attr
  {
    PackedCell(c, attr);
    CellFields(c, attr);
    Or(attr * 256, c)
  }

  lemma PackedCell(c: nat, attr: Byte)
    requires c < 256
    ensures Or(attr * 256, c) == attr * 256 + c
  {
    Pow2Small();
    OrPack(attr, c, 256, 8);
  }

  lemma CellFields(c: nat, attr: nat)
    requires c < 256
    ensures (attr * 256 + c) % 256 == c && (attr * 256 + c) / 256 == attr
  {
  }

  function BlankRow(attr: Byte): Row {
    seq(NUM_COLS, _ => Glyph(SPACE, attr))
  }

  function CellAt(rows: seq<Row>, i: nat): Cell
    requires NUM_ROWS <= |rows| && i < NUM_ROWS * NUM_COLS
  {
    rows[|rows| - NUM_ROWS + i / NUM_COLS][i % NUM_COLS]
  }

  /** The last 25 rows, as the 2000 cells of video memory. */
  function Screen(rows: seq<Row>): (s: seq<Cell>)
    requires NUM_ROWS <= |rows|
    ensures |s| == NUM_ROWS * NUM_COLS
    ensures forall i :: 0 <= i < |s| ==> s[i] == CellAt(rows, i)
  {
    seq(NUM_ROWS * NUM_COLS, i requires 0 <= i < NUM_ROWS * NUM_COLS => CellAt(rows, i))
  }

  /** Row `r` of a full screen. */
  function RowAt(cells: seq<Cell>, r: nat): Row
    requires |cells| == NUM_ROWS * NUM_COLS && r < NUM_ROWS
  {
    cells[r * NUM_COLS..(r + 1) * NUM_COLS]
  }

  lemma ScreenRow(rows: seq<Row>, r: nat)
    requires NUM_ROWS <= |rows| && r < NUM_ROWS
    ensures RowAt(Screen(rows), r) == rows[|rows| - NUM_ROWS + r]
  {
    var shown, row := RowAt(Screen(rows), r), rows[|rows| - NUM_ROWS + r];
    forall c | 0 <= c < NUM_COLS ensures shown[c] == row[c] {
      CellOfRow(r, c);
      assert Screen(rows)[r * NUM_COLS + c] == CellAt(rows, r * NUM_COLS + c);
    }
  }

  lemma CellOfRow(r: nat, c: nat)
    requires r < NUM_ROWS && c < NUM_COLS
    ensures (r * NUM_COLS + c) / NUM_COLS == r && (r * NUM_COLS + c) % NUM_COLS == c
  {
  }

  /** Two rolls look the same on the screen exactly when their last 25 rows agree. */
  lemma SameScreenIff(a: seq<Row>, b: seq<Row>)
    requires NUM_ROWS <= |a| && NUM_ROWS <= |b|
    ensures Screen(a) == Screen(b) <==> a[|a| - NUM_ROWS..] == b[|b| - NUM_ROWS..]
  {
    if Screen(a) == Screen(b) {
      var lastA, lastB := a[|a| - NUM_ROWS..], b[|b| - NUM_ROWS..];
      forall r | 0 <= r < NUM_ROWS ensures lastA[r] == lastB[r] {
        ScreenRow(a, r);
        ScreenRow(b, r);
      }
    }
    if a[|a| - NUM_ROWS..] == b[|b| - NUM_ROWS..] {
      forall i | 0 <= i < NUM_ROWS * NUM_COLS ensures Screen(a)[i] == Screen(b)[i] {
        var r := i / NUM_COLS;
        assert a[|a| - NUM_ROWS..][r] == b[|b| - NUM_ROWS..][r];
        assert Screen(a)[i] == CellAt(a, i) && Screen(b)[i] == CellAt(b, i);
      }
    }
  }

  /** The roll, the cursor in absolute rows, and the colour for what comes next. */
  datatype Roll = Roll(rows: seq<Row>, x: nat, y: nat, attr: Byte) {
    ghost predicate Valid() {
      && NUM_ROWS <= |rows| && x < NUM_COLS
      && |rows| - NUM_ROWS <= y < |rows|
    }

    /** Index of the row at the top of the screen; the rows above have scrolled off. */
    function Top(): nat
      requires NUM_ROWS <= |rows|
    {
      |rows| - NUM_ROWS
    }

    function Write(c: Char): Roll
      requires c >= 0 && y < |rows| && x < NUM_COLS
    {
      this.(rows := rows[y := rows[y][x := Glyph(c, attr)]])
    }

    /** What `c` does before the end of the row and of the roll are looked at. */
    function Typed(c: Char): Roll
      requires Valid()
    {
      if c == 8 && x > 0 then this.(x := x - 1)
      else if c == 9 then this.(x := (x / 4 + 1) * 4)
      else if c == 13 then this.(x := 0)
      else if c == 10 then this.(x := 0, y := y + 1)
      else if c >= 32 then Write(c).(x := x + 1)
      else this
    }

    /** Past the last column the next row follows. */
    function Wrapped(): Roll {
      if x >= NUM_COLS then this.(x := 0, y := y + 1) else this
    }

    /** Past the last row of the roll a blank one in the current colour appears. */
    function Fed(): Roll {
      if y >= |rows| then this.(rows := rows + [BlankRow(attr)]) else this
    }

    function PrintChar(c: Char): Roll
      requires Valid()
    {
      Typed(c).Wrapped().Fed()
    }

    /** Positions off the screen are ignored. */
    function MoveCursor(row: int, col: int): Roll
      requires Valid()
    {
      if 0 <= row < NUM_ROWS && 0 <= col < NUM_COLS then this.(x := col, y := Top() + row)
      else this
    }

    function ClearScreen(): Roll
      requires Valid()
    {
      this.(rows := rows[..Top()] + seq(NUM_ROWS, _ => BlankRow(attr)), x := 0, y := Top())
    }
  }

  datatype Op =
    | PrintCharOp(c: Char)
    | MoveCursorOp(row: int, col: int)
    | ClearScreenOp
    | SetColorOp(attr: Byte)

  function Step(p: Roll, op: Op): Roll
    requires p.Valid()
  {
    match op
    case PrintCharOp(c) => p.PrintChar(c)
    case MoveCursorOp(row, col) => p.MoveCursor(row, col)
    case ClearScreenOp => p.ClearScreen()
    case SetColorOp(a) => p.(attr := a)
  }

  lemma StepValid(p: Roll, op: Op)
    requires p.Valid()
    ensures Step(p, op).Valid()
  {
  }

  ghost function Run(p: Roll, ops: seq<Op>): (r: Roll)
    requires p.Valid()
    ensures r.Valid()
    decreases |ops|
  {
    StepValid(p, if ops == [] then ClearScreenOp else ops[0]);
    if ops == [] then p else Run(Step(p, ops[0]), ops[1..])
  }

  /** The rows of `a` above its screen are rows of `b` above its screen. */
  ghost predicate HistoryKept(a: Roll, b: Roll)
    requires a.Valid() && b.Valid()
  {
    |a.rows| <= |b.rows| && b.rows[..a.Top()] == a.rows[..a.Top()]
  }

  /** Over every run the cursor stays on the screen, the roll only grows, and a row
      that has scrolled off never changes again. */
  lemma {:induction false} RunKeepsHistory(p: Roll, ops: seq<Op>)
    requires p.Valid()
    ensures HistoryKept(p, Run(p, ops))
    decreases |ops|
  {
    if ops == [] {
    } else {
      StepValid(p, ops[0]);
      RunKeepsHistory(Step(p, ops[0]), ops[1..]);
      assert HistoryKept(p, Step(p, ops[0]));
    }
  }

  /** A row that appears is blank in the colour current at that moment. */
  lemma NewRowIsBlank(p: Roll, op: Op)
    requires p.Valid()
    ensures var q := Step(p, op);
            && |q.rows| <= |p.rows| + 1
            && (|q.rows| == |p.rows| + 1 ==> op.PrintCharOp? && q.rows[|p.rows|] == BlankRow(p.attr))
  {
  }

  // ------------------------------------------------ strings

  function Print(p: Roll, text: seq<Char>): (r: Roll)
    requires p.Valid()
    ensures r.Valid()
    decreases |text|
  {
    if text == [] then p
    else
      var q := Print(p, text[..|text| - 1]);
      StepValid(q, PrintCharOp(text[|text| - 1]));
      q.PrintChar(text[|text| - 1])
  }

  lemma PrintOne(p: Roll, c: Char)
    requires p.Valid()
    ensures Print(p, [c]) == p.PrintChar(c)
  {
    assert [c][..0] == [];
  }

  lemma PrintOneMore(p: Roll, text: seq<Char>, c: Char)
    requires p.Valid()
    ensures Print(p, text + [c]) == Print(p, text).PrintChar(c)
  {
    assert (text + [c])[..|text|] == text;
  }

  lemma {:induction false} PrintConcat(p: Roll, a: seq<Char>, b: seq<Char>)
    requires p.Valid()
    ensures Print(p, a + b) == Print(Print(p, a), b)
    decreases |b|
  {
    if b == [] {
      assert a + b == a;
    } else {
      var init, c := b[..|b| - 1], b[|b| - 1];
      assert a + b == (a + init) + [c] && b == init + [c];
      PrintConcat(p, a, init);
      PrintOneMore(p, a + init, c);
      PrintOneMore(Print(p, a), init, c);
    }
  }

  // ------------------------------------------------ layout of text

  /** Text without control characters other than the newline. */
  ghost predicate Plain(text: seq<Char>) {
    forall i :: 0 <= i < |text| ==> text[i] >= 32 || text[i] == 10
  }

  ghost predicate Printable(text: seq<Char>) {
    forall i :: 0 <= i < |text| ==> text[i] >= 32
  }

  /** The lines of a text: it is these, joined by newlines. */
  function Lines(text: seq<Char>): (lines: seq<seq<Char>>)
    ensures lines != []
    ensures Plain(text) ==> forall k :: 0 <= k < |lines| ==> Printable(lines[k])
    decreases |text|
  {
    if text == [] then [[]]
    else
      var lines, c := Lines(text[..|text| - 1]), text[|text| - 1];
      if c == NEWLINE then lines + [[]]
      else lines[..|lines| - 1] + [lines[|lines| - 1] + [c]]
  }

  function Join(lines: seq<seq<Char>>): seq<Char> {
    if lines == [] then []
    else if |lines| == 1 then lines[0]
    else Join(lines[..|lines| - 1]) + [NEWLINE] + lines[|lines| - 1]
  }

  lemma {:induction false} JoinLines(text: seq<Char>)
    ensures Join(Lines(text)) == text
    ensures forall k :: 0 <= k < |Lines(text)| ==> 10 !in Lines(text)[k]
    decreases |text|
  {
    if text == [] {
    } else {
      var init, c := text[..|text| - 1], text[|text| - 1];
      var lines := Lines(init);
      JoinLines(init);
      assert text == init + [c];
      if c == NEWLINE {
        JoinNewLine(lines);
        assert Lines(text) == lines + [[]];
      } else {
        JoinLonger(lines, c);
        assert Lines(text) == lines[..|lines| - 1] + [lines[|lines| - 1] + [c]];
      }
    }
  }

  lemma JoinNewLine(lines: seq<seq<Char>>)
    requires lines != []
    ensures Join(lines + [[]]) == Join(lines) + [NEWLINE]
  {
    assert (lines + [[]])[..|lines|] == lines;
    assert Join(lines) + [NEWLINE] + [] == Join(lines) + [NEWLINE];
  }

  lemma JoinLonger(lines: seq<seq<Char>>, c: Char)
    requires lines != []
    ensures Join(lines[..|lines| - 1] + [lines[|lines| - 1] + [c]]) == Join(lines) + [c]
  {
    LongerLast(lines[..|lines| - 1], lines[|lines| - 1], c);
    JoinParts(lines, lines[..|lines| - 1] + [lines[|lines| - 1]]);
  }

  lemma JoinParts(lines: seq<seq<Char>>, parts: seq<seq<Char>>)
    requires lines != [] && parts == lines[..|lines| - 1] + [lines[|lines| - 1]]
    ensures Join(parts) == Join(lines)
  {
    assert parts == lines;
  }

  lemma LongerLast(before: seq<seq<Char>>, last: seq<Char>, c: Char)
    ensures Join(before + [last + [c]]) == Join(before + [last]) + [c]
  {
    JoinLast(before, last);
    JoinLast(before, last + [c]);
    Regroup(Join(before) + [NEWLINE], last, [c]);
  }

  lemma JoinLast(before: seq<seq<Char>>, last: seq<Char>)
    ensures Join(before + [last]) == if before == [] then last else Join(before) + [NEWLINE] + last
  {
    assert (before + [last])[..|before|] == before;
  }

  lemma Regroup(x: seq<Char>, y: seq<Char>, z: seq<Char>)
    ensures x + (y + z) == x + y + z
  {
  }

  /** A line broken after every 80 characters. The last piece may be empty: a full row
      is followed by a new one before it is known whether the line goes on. */
  function Wrap(line: seq<Char>): (pieces: seq<seq<Char>>)
    ensures |pieces| == |line| / NUM_COLS + 1
  {
    seq(|line| / NUM_COLS + 1, j requires 0 <= j <= |line| / NUM_COLS => Chunk(line, j))
  }

  function Chunk(line: seq<Char>, j: nat): (piece: seq<Char>)
    requires j <= |line| / NUM_COLS
    ensures |piece| <= NUM_COLS
  {
    if j < |line| / NUM_COLS then line[j * NUM_COLS..(j + 1) * NUM_COLS] else line[j * NUM_COLS..]
  }

  /** The rows that a text takes up. */
  function Layout(lines: seq<seq<Char>>): (pieces: seq<seq<Char>>)
    ensures lines != [] ==> pieces != []
  {
    if lines == [] then [] else Layout(lines[..|lines| - 1]) + Wrap(lines[|lines| - 1])
  }

  ghost predicate Rowlike(piece: seq<Char>) {
    |piece| <= NUM_COLS && Printable(piece)
  }

  function RowCell(piece: seq<Char>, attr: Byte, c: nat): Cell {
    if c < |piece| && piece[c] >= 0 then Glyph(piece[c], attr) else Glyph(SPACE, attr)
  }

  /** A row with the text at its left end and blanks after it. */
  function TextRow(piece: seq<Char>, attr: Byte): (row: Row)
    ensures forall c :: 0 <= c < NUM_COLS ==> row[c] == RowCell(piece, attr, c)
  {
    seq(NUM_COLS, c requires 0 <= c < NUM_COLS => RowCell(piece, attr, c))
  }

  /** The piece in row `k`; rows behind the last piece are empty. */
  function PieceAt(pieces: seq<seq<Char>>, k: nat): seq<Char> {
    if k < |pieces| then pieces[k] else []
  }

  ghost predicate HoldPieces(rows: seq<Row>, base: nat, pieces: seq<seq<Char>>, attr: Byte) {
    forall k :: base <= k < |rows| ==> rows[k] == TextRow(PieceAt(pieces, k - base), attr)
  }

  /** From row `base` on the roll holds the pieces, a row each, and blank rows to the end
      of the screen; the cursor is behind the last piece. */
  ghost predicate Laid(p: Roll, base: nat, pieces: seq<seq<Char>>, attr: Byte) {
    && p.Valid() && p.attr == attr && pieces != []
    && (forall k :: 0 <= k < |pieces| ==> Rowlike(pieces[k]))
    && p.y == base + |pieces| - 1 && p.x == |pieces[|pieces| - 1]|
    && |p.rows| == base + (if |pieces| < NUM_ROWS then NUM_ROWS else |pieces|)
    && HoldPieces(p.rows, base, pieces, attr)
  }

  /** One more character at the end of the last piece. */
  function Extend(pieces: seq<seq<Char>>, c: Char): seq<seq<Char>>
    requires pieces != []
  {
    var init, last := pieces[..|pieces| - 1], pieces[|pieces| - 1] + [c];
    if |last| < NUM_COLS then init + [last] else init + [last, []]
  }

  lemma TextRowEmpty(attr: Byte)
    ensures TextRow([], attr) == BlankRow(attr)
  {
  }

  lemma TextRowExtend(piece: seq<Char>, c: Char, attr: Byte)
    requires |piece| < NUM_COLS && c >= SPACE
    ensures TextRow(piece + [c], attr) == TextRow(piece, attr)[|piece| := Glyph(c, attr)]
  {
  }

  lemma LaidCharacter(p: Roll, base: nat, pieces: seq<seq<Char>>, attr: Byte, c: Char)
    requires Laid(p, base, pieces, attr) && c >= 32
    ensures Laid(p.PrintChar(c), base, Extend(pieces, c), attr)
  {
    var q, more, last := p.PrintChar(c), Extend(pieces, c), |pieces| - 1;
    TextRowEmpty(attr);
    TextRowExtend(pieces[last], c, attr);
    assert q.rows[p.y] == TextRow(pieces[last] + [c], attr);
    forall k | base <= k < |q.rows| ensures q.rows[k] == TextRow(PieceAt(more, k - base), attr) {
      if k < |p.rows| && k != p.y {
        assert p.rows[k] == TextRow(PieceAt(pieces, k - base), attr);
      }
    }
  }

  lemma LaidNewline(p: Roll, base: nat, pieces: seq<seq<Char>>, attr: Byte)
    requires Laid(p, base, pieces, attr)
    ensures Laid(p.PrintChar(10), base, pieces + [[]], attr)
  {
    TextRowEmpty(attr);
  }

  /** Adding a character to a line extends its last piece. */
  lemma WrapExtend(line: seq<Char>, c: Char)
    ensures Wrap(line + [c]) == Extend(Wrap(line), c)
  {
    var all, n := line + [c], |line| / NUM_COLS;
    var a, b := Wrap(all), Extend(Wrap(line), c);
    assert |Wrap(line)[n]| == |line| % NUM_COLS;
    assert |a| == |b|;
    forall j | 0 <= j < |a| ensures a[j] == b[j] {
      assert a[j] == Chunk(all, j);
      if j <= n { assert Wrap(line)[j] == Chunk(line, j); }
    }
  }

  lemma ExtendAppend(a: seq<seq<Char>>, b: seq<seq<Char>>, c: Char)
    requires b != []
    ensures Extend(a + b, c) == a + Extend(b, c)
  {
    assert (a + b)[..|a + b| - 1] == a + b[..|b| - 1];
  }

  lemma LayoutNewline(lines: seq<seq<Char>>)
    ensures Layout(lines + [[]]) == Layout(lines) + [[]]
  {
    assert (lines + [[]])[..|lines|] == lines;
    assert Wrap([]) == [[]];
  }

  lemma LayoutExtend(lines: seq<seq<Char>>, c: Char)
    requires lines != []
    ensures Layout(lines[..|lines| - 1] + [lines[|lines| - 1] + [c]]) == Extend(Layout(lines), c)
  {
    var before, last := lines[..|lines| - 1], lines[|lines| - 1];
    WrapExtend(last, c);
    ExtendAppend(Layout(before), Wrap(last), c);
    assert (before + [last + [c]])[..|before|] == before;
  }

  /** Any text of printable characters and newlines lies on a cleared console as its
      lines, each wrapped, one after the other. */
  lemma {:induction false} TextLayout(p: Roll, text: seq<Char>)
    requires p.Valid() && Plain(text)
    ensures Laid(Print(p.ClearScreen(), text), p.Top(), Layout(Lines(text)), p.attr)
    decreases |text|
  {
    if text == [] {
      LaidNothing(p);
      LayoutNothing();
    } else {
      var init, c := text[..|text| - 1], text[|text| - 1];
      var q, lines := Print(p.ClearScreen(), init), Lines(init);
      TextLayout(p, init);
      if c == NEWLINE {
        LaidNewline(q, p.Top(), Layout(lines), p.attr);
        LayoutNewline(lines);
      } else {
        LaidCharacter(q, p.Top(), Layout(lines), p.attr, c);
        LayoutExtend(lines, c);
      }
    }
  }

  lemma LaidNothing(p: Roll)
    requires p.Valid()
    ensures Laid(p.ClearScreen(), p.Top(), [[]], p.attr)
  {
    TextRowEmpty(p.attr);
  }

  lemma LayoutNothing()
    ensures Layout([[]]) == [[]]
  {
    var none: seq<seq<Char>> := [];
    LayoutNewline(none);
    assert none + [[]] == [[]];
  }

  /** How many rows a text of `n` pieces has pushed off the screen. */
  function RowsGone(n: nat): nat {
    if n < NUM_ROWS then 0 else n - NUM_ROWS
  }

  /** Row `r` of the cells shows piece `gone + r`, or is blank when there are fewer. */
  ghost predicate ShowPieces(cells: seq<Cell>, pieces: seq<seq<Char>>, gone: nat, attr: Byte) {
    && |cells| == NUM_ROWS * NUM_COLS
    && forall r :: 0 <= r < NUM_ROWS ==> RowAt(cells, r) == TextRow(PieceAt(pieces, gone + r), attr)
  }

  /** The cells show the last 25 rows of the text's layout, or all of them and blank rows
      behind, and the cursor at column `x` and row `y` of the screen is behind the text. */
  ghost predicate Displays(cells: seq<Cell>, x: int, y: int, text: seq<Char>, attr: Byte) {
    var pieces := Layout(Lines(text));
    var gone := RowsGone(|pieces|);
    ShowPieces(cells, pieces, gone, attr) && y == |pieces| - 1 - gone && x == |pieces[|pieces| - 1]|
  }

  /** What the screen then shows, row by row, and where the cursor is. */
  lemma TextOnScreen(p: Roll, text: seq<Char>)
    requires p.Valid() && Plain(text)
    ensures var q := Print(p.ClearScreen(), text);
            Displays(Screen(q.rows), q.x, q.y - q.Top(), text, p.attr)
  {
    TextLayout(p, text);
    LaidScreen(Print(p.ClearScreen(), text), p.Top(), text, p.attr);
  }

  lemma LaidScreen(q: Roll, base: nat, text: seq<Char>, attr: Byte)
    requires Laid(q, base, Layout(Lines(text)), attr)
    ensures Displays(Screen(q.rows), q.x, q.y - q.Top(), text, attr)
  {
    ScreenShowsPieces(q.rows, base, Layout(Lines(text)), attr, RowsGone(|Layout(Lines(text))|));
  }

  lemma ScreenShowsPieces(rows: seq<Row>, base: nat, pieces: seq<seq<Char>>, attr: Byte, gone: nat)
    requires HoldPieces(rows, base, pieces, attr) && |rows| == base + gone + NUM_ROWS
    ensures ShowPieces(Screen(rows), pieces, gone, attr)
  {
    var cells := Screen(rows);
    forall r | 0 <= r < NUM_ROWS ensures RowAt(cells, r) == TextRow(PieceAt(pieces, gone + r), attr) {
      ScreenRow(rows, r);
      PieceHeld(rows, base, pieces, attr, gone + r);
    }
  }

  lemma PieceHeld(rows: seq<Row>, base: nat, pieces: seq<seq<Char>>, attr: Byte, k: nat)
    requires HoldPieces(rows, base, pieces, attr) && base + k < |rows|
    ensures rows[base + k] == TextRow(PieceAt(pieces, k), attr)
  {
    assert PieceAt(pieces, k) == PieceAt(pieces, base + k - base);
  }

  /** The screen is blank and the cursor at its origin. */
  ghost predicate Cleared(p: Roll) {
    p.Valid() && p == p.ClearScreen()
  }

  lemma TextOnCleared(p: Roll, text: seq<Char>)
    requires Cleared(p) && Plain(text)
    ensures var q := Print(p, text);
            && q.attr == p.attr && Laid(q, p.Top(), Layout(Lines(text)), p.attr)
            && Displays(Screen(q.rows), q.x, q.y - q.Top(), text, p.attr)
  {
    TextLayout(p, text);
    LaidScreen(Print(p, text), p.Top(), text, p.attr);
  }

  /** Printable characters alone are one line, so they fill the rows left to right. */
  lemma PrintableIsOneLine(text: seq<Char>)
    requires Printable(text)
    ensures Lines(text) == [text] && Layout(Lines(text)) == Wrap(text)
  {
    LinesOfPrintable(text);
    LayoutOne(text);
  }

  lemma {:induction false} LinesOfPrintable(text: seq<Char>)
    requires Printable(text)
    ensures Lines(text) == [text]
    decreases |text|
  {
    if text == [] {
    } else {
      LinesOfPrintable(text[..|text| - 1]);
      assert text == text[..|text| - 1] + [text[|text| - 1]];
    }
  }

  lemma LayoutOne(line: seq<Char>)
    ensures Layout([line]) == Wrap(line)
  {
    assert [line][..0] == [];
  }

  /** Character `i` of a line is in column `i % 80` of its piece `i / 80`. */
  lemma WrapPlaces(line: seq<Char>, i: nat)
    ensures |PieceAt(Wrap(line), i / NUM_COLS)| <= NUM_COLS
    ensures i < |line| <==> i % NUM_COLS < |PieceAt(Wrap(line), i / NUM_COLS)|
    ensures i < |line| ==> PieceAt(Wrap(line), i / NUM_COLS)[i % NUM_COLS] == line[i]
  {
    var j := i / NUM_COLS;
    if j <= |line| / NUM_COLS {
      assert Wrap(line)[j] == Chunk(line, j);
    }
  }

  /** Character `i` of the text is in row `i / 80` from `base` on, in column `i % 80`; past
      its end there is a blank. The cursor is where the next character would go, and the
      screen starts as many rows further down as do not fit on it. */
  ghost predicate Fills(q: Roll, base: nat, text: seq<Char>, attr: Byte, i: nat) {
    && NUM_ROWS <= |q.rows| && Printable(text)
    && q.x == |text| % NUM_COLS && q.y == base + |text| / NUM_COLS
    && q.Top() == base + RowsGone(|text| / NUM_COLS + 1)
    && (base + i / NUM_COLS < |q.rows| ==>
          q.rows[base + i / NUM_COLS][i % NUM_COLS] == Glyph(if i < |text| then text[i] else SPACE, attr))
  }

  /** The closed form for printable characters alone. */
  lemma PrintableOnRoll(p: Roll, text: seq<Char>, i: nat)
    requires p.Valid() && Printable(text)
    ensures Fills(Print(p.ClearScreen(), text), p.Top(), text, p.attr, i)
  {
    PrintableIsOneLine(text);
    TextLayout(p, text);
    LaidLine(Print(p.ClearScreen(), text), p.Top(), text, p.attr, i);
  }

  lemma LaidLine(q: Roll, base: nat, text: seq<Char>, attr: Byte, i: nat)
    requires Printable(text) && Laid(q, base, Wrap(text), attr)
    ensures Fills(q, base, text, attr, i)
  {
    WrapPlaces(text, i);
    assert Wrap(text)[|text| / NUM_COLS] == Chunk(text, |text| / NUM_COLS);
  }
}
