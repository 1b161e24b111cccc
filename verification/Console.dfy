/** The VGA text console: 2000 cells of video memory, a cursor and the display
    controller's registers. */
module Console {
  import opened Bits
  import opened CString
  import opened Paper

  const COMMAND_PORT := 0x3D4
  const DATA_PORT := 0x3D5
  const HIGH_BYTE_COMMAND: Byte := 14
  const LOW_BYTE_COMMAND: Byte := 15

  type Registers = r: seq<Byte> | |r| == 256 witness seq(256, _ => 0)

  /** The display controller: a write to the command port selects the register that
      the next write to the data port sets. */
  datatype Crtc = Crtc(index: Byte, regs: Registers) {
    function Outb(port: nat, data: Byte): Crtc {
      if port == 0x3D4 then this.(index := data)
      else if port == 0x3D5 then this.(regs := regs[index := data])
      else this
    }

    /** The cell at which the hardware cursor blinks. */
    function Cursor(): nat {
      var high: nat, low: nat := regs[14], regs[15];
      high * 256 + low
    }
  }

  lemma LowNibble(fg: nat, mask: nat)
    requires fg < 16 && mask == 0x0F
    ensures And(fg, mask) == fg
  {
    Pow2Small();
    AndLowMask(fg, 16, 4);
  }

  lemma NibblesPack(fg: nat, bg: nat)
    requires fg < 16
    ensures Or(bg * 16, fg) == bg * 16 + fg
  {
    Pow2Small();
    OrPack(bg, fg, 16, 4);
  }

  /** `(bg << 4) | (fg & 0x0F)`, stored in a byte. */
  function ColorByte(fg: Byte, bg: Byte): (attr: Byte)
    requires fg < 16 && bg < 16
    ensures attr / 16 == bg && attr % 16 == fg
  {
    LowNibble(fg, 0x0F);
    NibblesPack(fg, bg);
    Or(bg * 16, And(fg, 0x0F))
  }

  /** `(x + 4) & ~3` is the next tab stop. */
  function TabStop(x: nat): (stop: nat)
    requires x < NUM_COLS
    ensures stop == (x / 4 + 1) * 4
  {
    var sum, low := x + NUM_TAB, NUM_TAB - 1;
    TabMask(sum, low);
    NextStop(x, sum);
    And(sum, Not(low, 32))
  }

  lemma TabMask(sum: nat, low: nat)
    requires sum < 100 && low == NUM_TAB - 1
    ensures low < Pow2(32) && And(sum, Not(low, 32)) == sum - sum % NUM_TAB
  {
    Pow2Small();
    Pow2Bytes();
    AndNotLowMask(sum, NUM_TAB, 2, 32);
  }

  lemma NextStop(x: nat, sum: nat)
    requires sum == x + NUM_TAB
    ensures sum - sum % NUM_TAB == (x / NUM_TAB + 1) * NUM_TAB
  {
  }

  lemma LowByte(a: nat)
    ensures And(a, 0xFF) == a % 256
  {
    Pow2Small();
    AndLowMask(a, 256, 8);
  }

  // ------------------------------------------------ screens of rolls

  lemma ScreenAfterWrite(p: Roll, c: Char)
    requires p.Valid() && c >= 0
    ensures Screen(p.Write(c).rows) == Screen(p.rows)[(p.y - p.Top()) * NUM_COLS + p.x := Glyph(c, p.attr)]
  {
    var at, rows := (p.y - p.Top()) * NUM_COLS + p.x, p.Write(c).rows;
    forall i | 0 <= i < NUM_ROWS * NUM_COLS
      ensures Screen(rows)[i] == Screen(p.rows)[at := Glyph(c, p.attr)][i]
    {
      assert Screen(rows)[i] == CellAt(rows, i) && Screen(p.rows)[i] == CellAt(p.rows, i);
    }
  }

  lemma ScreenAfterNewRow(rows: seq<Row>, row: Row)
    requires NUM_ROWS <= |rows|
    ensures Screen(rows + [row]) == Screen(rows)[NUM_COLS..] + row
  {
    forall i | 0 <= i < NUM_ROWS * NUM_COLS
      ensures Screen(rows + [row])[i] == (Screen(rows)[NUM_COLS..] + row)[i]
    {
      assert Screen(rows + [row])[i] == CellAt(rows + [row], i);
      if i < (NUM_ROWS - 1) * NUM_COLS {
        assert Screen(rows)[i + NUM_COLS] == CellAt(rows, i + NUM_COLS);
      }
    }
  }

  lemma ScreenAfterClear(p: Roll)
    requires p.Valid()
    ensures forall i :: 0 <= i < NUM_ROWS * NUM_COLS ==> Screen(p.ClearScreen().rows)[i] == Glyph(SPACE, p.attr)
  {
    var rows := p.ClearScreen().rows;
    forall i | 0 <= i < NUM_ROWS * NUM_COLS ensures Screen(rows)[i] == Glyph(SPACE, p.attr) {
      assert Screen(rows)[i] == CellAt(rows, i);
    }
  }

  // ------------------------------------------------ the hardware cursor

  lemma TwoBytes(pos: nat)
    requires pos < 0x1_0000
    ensures And(pos / 256, 0xFF) * 256 + And(pos, 0xFF) == pos
  {
    LowByte(pos / 256);
    LowByte(pos);
    JoinBytes(pos, pos / 256 % 256, pos % 256);
  }

  lemma JoinBytes(pos: nat, high: nat, low: nat)
    requires pos < 0x1_0000 && high == pos / 256 % 256 && low == pos % 256
    ensures high * 256 + low == pos
  {
  }

  /** The controller with its cursor registers set to the position. */
  function Placed(device: Crtc, pos: nat): (placed: Crtc)
    requires pos < 0x1_0000
    ensures placed.Cursor() == pos
  {
    TwoBytes(pos);
    var high: Byte, low: Byte := And(pos / 256, 0xFF), And(pos, 0xFF);
    Crtc(15, device.regs[14 := high][15 := low])
  }

  /** The cell of the screen where the next character goes. */
  function Position(p: Roll): (pos: nat)
    requires p.Valid()
    ensures pos < NUM_ROWS * NUM_COLS
  {
    (p.y - p.Top()) * NUM_COLS + p.x
  }

  /** The operation sets the hardware cursor. */
  predicate SetsCursor(op: Op) {
    match op
    case PrintCharOp(_) => true
    case MoveCursorOp(row, col) => 0 <= row < 25 && 0 <= col < 80
    case ClearScreenOp => true
    case SetColorOp(_) => false
  }

  /** The display controller after one operation. */
  function StepCrtc(p: Roll, device: Crtc, op: Op): Crtc
    requires p.Valid()
  {
    StepValid(p, op);
    if SetsCursor(op) then Placed(device, Position(Step(p, op))) else device
  }

  lemma StepCrtcPlaces(p: Roll, q: Roll, device: Crtc, op: Op, pos: nat)
    requires p.Valid() && q == Step(p, op) && SetsCursor(op)
    requires q.Valid() && pos == Position(q)
    ensures StepCrtc(p, device, op) == Placed(device, pos)
  {
  }

  /** What `MoveCursor` does to the controller is this step. */
  lemma StepCrtcMoves(p: Roll, device: Crtc, row: int, col: int)
    requires p.Valid()
    ensures StepCrtc(p, device, MoveCursorOp(row, col)) ==
            if 0 <= row < 25 && 0 <= col < 80 then Placed(device, row * 80 + col) else device
  {
  }

  ghost function RunCrtc(p: Roll, device: Crtc, ops: seq<Op>): Crtc
    requires p.Valid()
    decreases |ops|
  {
    if ops == [] then device
    else
      StepValid(p, ops[0]);
      RunCrtc(Step(p, ops[0]), StepCrtc(p, device, ops[0]), ops[1..])
  }

  /** Once an operation has set the hardware cursor, it is where the next character goes
      after every further sequence of operations. */
  lemma {:induction false} CursorFollows(p: Roll, device: Crtc, ops: seq<Op>)
    requires p.Valid()
    requires device.Cursor() == Position(p) || exists i :: 0 <= i < |ops| && SetsCursor(ops[i])
    ensures RunCrtc(p, device, ops).Cursor() == Position(Run(p, ops))
    decreases |ops|
  {
    if ops == [] {
    } else {
      StepValid(p, ops[0]);
      var q, d := Step(p, ops[0]), StepCrtc(p, device, ops[0]);
      if d.Cursor() != Position(q) {
        var i :| 0 <= i < |ops| && SetsCursor(ops[i]);
        assert SetsCursor(ops[1..][i - 1]);
      }
      CursorFollows(q, d, ops[1..]);
    }
  }

  /** Every row has moved up by one, and the last is blank in the colour. */
  ghost predicate Scrolled(was: seq<Cell>, now: seq<Cell>, attr: Byte) {
    && |was| == |now| == 2000
    && (forall i :: 0 <= i < 1920 ==> now[i] == was[i + 80])
    && forall i :: 1920 <= i < 2000 ==> now[i] == attr * 256 + 32
  }

  ghost predicate AllBlank(cells: seq<Cell>, attr: Byte) {
    |cells| == 2000 && forall i :: 0 <= i < 2000 ==> cells[i] == attr * 256 + 32
  }

  class FrameBuffer {
    var video: array<Cell>
    var attr: Byte
    var x: int
    var y: int
    var crtc: Crtc
    /** Every row printed so far, including those that have scrolled off. */
    ghost var rows: seq<Row>

    ghost predicate Valid()
      reads this, video
    {
      0 <= x < NUM_COLS && 0 <= y < NUM_ROWS && Showing()
    }

    /** Video memory shows the end of the roll. */
    ghost predicate Showing()
      reads this, video
    {
      NUM_ROWS <= |rows| && video.Length == NUM_ROWS * NUM_COLS && video[..] == Screen(rows)
    }

    /** The roll of paper the console stands for. */
    ghost function Abs(): Roll
      requires 0 <= x && 0 <= y && NUM_ROWS <= |rows|
      reads this
    {
      Roll(rows, x, |rows| - NUM_ROWS + y, attr)
    }

    /** The hardware cursor is where the next character goes. */
    ghost predicate Synced()
      reads this
    {
      crtc.Cursor() == y * NUM_COLS + x
    }

    /** `memory` is video memory with whatever it shows. */
    constructor (memory: array<Cell>, device: Crtc, fg: Byte, bg: Byte)
      requires memory.Length == 2000 && fg < 16 && bg < 16
      ensures Valid() && video == memory && crtc == device
      ensures x == 0 && y == 0 && attr == ColorByte(fg, bg) && |rows| == 25
    {
      video := memory;
      crtc := device;
      attr := ColorByte(fg, bg);
      x, y := 0, 0;
      ghost var cells := memory[..];
      rows := seq(NUM_ROWS, r requires 0 <= r < NUM_ROWS => RowAt(cells, r));
      new;
      forall i | 0 <= i < NUM_ROWS * NUM_COLS ensures video[i] == Screen(rows)[i] {
        assert Screen(rows)[i] == CellAt(rows, i) == RowAt(cells, i / NUM_COLS)[i % NUM_COLS];
      }
    }

    method Outb(port: nat, data: Byte)
      modifies this`crtc
      ensures crtc == old(crtc).Outb(port, data)
    {
      crtc := crtc.Outb(port, data);
    }

    method SetColor(fg: Byte, bg: Byte)
      requires Valid() && fg < 16 && bg < 16
      modifies this`attr
      ensures Valid() && Abs() == Step(old(Abs()), SetColorOp(ColorByte(fg, bg)))
      ensures attr % 16 == fg && attr / 16 == bg
      ensures Synced() <==> old(Synced())
    {
      attr := ColorByte(fg, bg);
    }

    /** The four port writes of `MoveCursor`. */
    method PlaceCursor(pos: nat)
      requires pos < 0x1_0000
      modifies this`crtc
      ensures crtc == Placed(old(crtc), pos) && crtc.Cursor() == pos
    {
      Outb(COMMAND_PORT, HIGH_BYTE_COMMAND);
      Outb(DATA_PORT, And(pos / 256, 0xFF));
      Outb(COMMAND_PORT, LOW_BYTE_COMMAND);
      Outb(DATA_PORT, And(pos, 0xFF));
    }

    method MoveCursor(row: int, col: int)
      modifies this`x, this`y, this`crtc
      ensures if 0 <= row < 25 && 0 <= col < 80
              then x == col && y == row && Synced() && crtc == Placed(old(crtc), row * 80 + col)
              else x == old(x) && y == old(y) && crtc == old(crtc)
      ensures old(Valid()) ==> Valid() && Abs() == Step(old(Abs()), MoveCursorOp(row, col))
    {
      if row < 0 || row >= NUM_ROWS || col < 0 || col >= NUM_COLS {
        return;
      }
      y := row;
      x := col;
      PlaceCursor(row * NUM_COLS + col);
    }

    /** At the bottom the roll moves up by one row. */
    method ScrollScreen()
      requires Showing() && 0 <= x && 0 <= y <= NUM_ROWS
      modifies this`y, this`rows, video
      ensures Showing() && 0 <= y < NUM_ROWS && Abs() == old(Abs()).Fed()
      ensures if old(y) < 25 then y == old(y) && video[..] == old(video[..])
              else y == 24 && Scrolled(old(video[..]), video[..], attr)
    {
      if y < NUM_ROWS {
        return;
      }
      ghost var was := video[..];
      ScreenAfterNewRow(rows, BlankRow(attr));
      var space := Glyph(SPACE, attr);
      for i := 0 to (NUM_ROWS - 1) * NUM_COLS
        invariant unchanged(this)
        invariant forall k :: 0 <= k < i ==> video[k] == was[k + NUM_COLS]
        invariant forall k :: i <= k < video.Length ==> video[k] == was[k]
      {
        video[i] := video[i + NUM_COLS];
      }
      for i := (NUM_ROWS - 1) * NUM_COLS to NUM_ROWS * NUM_COLS
        invariant unchanged(this)
        invariant forall k :: 0 <= k < (NUM_ROWS - 1) * NUM_COLS ==> video[k] == was[k + NUM_COLS]
        invariant forall k :: (NUM_ROWS - 1) * NUM_COLS <= k < i ==> video[k] == space
      {
        video[i] := space;
      }
      assert video[..] == was[NUM_COLS..] + BlankRow(attr);
      rows := rows + [BlankRow(attr)];
      y := NUM_ROWS - 1;
    }

    method ClearScreen()
      requires Valid()
      modifies this, video
      ensures Valid() && video == old(video)
      ensures Abs() == Step(old(Abs()), ClearScreenOp) && Synced()
      ensures crtc == StepCrtc(old(Abs()), old(crtc), ClearScreenOp) && Cleared(Abs())
      ensures x == 0 && y == 0 && attr == old(attr) && AllBlank(video[..], attr)
    {
      var space := Glyph(SPACE, attr);
      for i := 0 to NUM_ROWS * NUM_COLS
        invariant unchanged(this)
        invariant forall k :: 0 <= k < i ==> video[k] == space
      {
        video[i] := space;
      }
      ghost var was := Abs();
      ScreenAfterClear(was);
      rows := was.ClearScreen().rows;
      MoveCursor(0, 0);
    }

    /** The branch of `PrintChar` for printable characters. */
    method PutChar(c: Char)
      requires Valid() && c >= SPACE
      modifies this`x, this`rows, video
      ensures Showing() && x == old(x) + 1 && |rows| == |old(rows)|
      ensures rows == old(Abs()).Write(c).rows
    {
      ScreenAfterWrite(Abs(), c);
      video[y * NUM_COLS + x] := Glyph(c, attr);
      rows := Abs().Write(c).rows;
      x := x + 1;
    }

    method PrintChar(c: Char)
      requires Valid()
      modifies this, video
      ensures Valid() && video == old(video)
      ensures Abs() == Step(old(Abs()), PrintCharOp(c)) && Synced()
      ensures crtc == StepCrtc(old(Abs()), old(crtc), PrintCharOp(c))
    {
      ghost var was, device, op := Abs(), crtc, PrintCharOp(c);
      if c == BACKSPACE && x != 0 {
        x := x - 1;
      } else if c == TAB {
        x := TabStop(x);
      } else if c == RETURN {
        x := 0;
      } else if c == NEWLINE {
        x := 0;
        y := y + 1;
      } else if c >= SPACE {
        PutChar(c);
      }
      assert Showing() && Abs() == was.Typed(c);
      Settle();
      assert Abs() == Step(was, op);
      StepCrtcPlaces(was, Abs(), device, op, y * NUM_COLS + x);
    }

    /** The end of `PrintChar`, common to all characters: end of row, end of screen,
        hardware cursor. */
    method Settle()
      requires Showing() && 0 <= x && 0 <= y <= NUM_ROWS && (x >= NUM_COLS ==> y < NUM_ROWS)
      modifies this, video
      ensures Valid() && video == old(video)
      ensures Abs() == old(Abs()).Wrapped().Fed() && Synced()
      ensures crtc == Placed(old(crtc), y * NUM_COLS + x)
    {
      if x >= NUM_COLS {
        x := 0;
        y := y + 1;
      }
      ScrollScreen();
      ghost var fed := Abs();
      assert fed == old(Abs()).Wrapped().Fed();
      MoveCursor(y, x);
      assert Abs() == fed;
    }

    method PrintString(str: seq<Char>)
      requires Valid()
      modifies this, video
      ensures Valid() && video == old(video)
      ensures Abs() == Print(old(Abs()), str)
      ensures str != [] || old(Synced()) ==> Synced()
    {
      for i := 0 to |str|
        invariant Valid() && video == old(video)
        invariant Abs() == Print(old(Abs()), str[..i])
        invariant i > 0 || old(Synced()) ==> Synced()
      {
        PrintChar(str[i]);
        assert str[..i + 1][..i] == str[..i];
      }
      assert str[..|str|] == str;
    }
  }
}
