/** Two cascaded 8259A interrupt controllers, after the Intel 8259A data sheet
    ("Initialization Command Words", "Operation Command Words"), and the kernel's
    port writes that program them. */
module Pic {
  import opened Bits
  import opened CString

  const PIC1_COMMAND := 0x20
  const PIC1_DATA := 0x21
  const PIC2_COMMAND := 0xA0
  const PIC2_DATA := 0xA1
  const PIC_READ_IRR: Byte := 0x0A
  const PIC_READ_ISR: Byte := 0x0B
  const ICW1_ICW4: Byte := 0x01
  const ICW1_INIT: Byte := 0x10
  const ICW4_8086: Byte := 0x01
  const EOI: Byte := 0x20
  const KEYBOARD_LINE := 1

  /** What a chip takes the next write to its data port for. */
  datatype Phase = Ready | ExpectIcw2 | ExpectIcw3 | ExpectIcw4

  /** Clears the highest-priority bit that is set, which is the lowest one. */
  function ClearLowest(a: nat): (r: nat)
    ensures r <= a
  {
    if a == 0 then 0 else if a % 2 == 1 then a - 1 else 2 * ClearLowest(a / 2)
  }

  datatype Chip = Chip(phase: Phase, single: bool, needIcw4: bool, base: Byte, cascade: Byte,
                       mode8086: bool, autoEoi: bool, imr: Byte, irr: Byte, isr: Byte, readIsr: bool)
  {
    /** A write with A0 = 0: D4 announces ICW1, D3 alone OCW3, neither OCW2. */
    function Command(data: Byte): Chip {
      if data / 16 % 2 == 1 then Icw1(data)
      else if data / 8 % 2 == 1 then
        if data / 2 % 2 == 1 then this.(readIsr := data % 2 == 1) else this
      else if data / 32 == 1 then this.(isr := ClearLowest(isr))
      else this
    }

    /** Restarts initialisation from any phase; the mask is lost. */
    function Icw1(data: Byte): Chip {
      var c := this.(phase := ExpectIcw2, single := data / 2 % 2 == 1, needIcw4 := data % 2 == 1,
                     imr := 0, irr := 0, readIsr := false);
      if data % 2 == 1 then c else c.(mode8086 := false, autoEoi := false)
    }

    function AfterIcw3(): Phase {
      if needIcw4 then ExpectIcw4 else Ready
    }

    /** A write with A0 = 1. ICW2 carries the upper five bits of the vector only. */
    function Data(data: Byte): Chip {
      match phase
      case ExpectIcw2 => this.(base := data / 8 * 8, phase := if single then AfterIcw3() else ExpectIcw3)
      case ExpectIcw3 => this.(cascade := data, phase := AfterIcw3())
      case ExpectIcw4 => this.(mode8086 := data % 2 == 1, autoEoi := data / 2 % 2 == 1, phase := Ready)
      case Ready => this.(imr := data)
    }

    function ReadCommand(): Byte {
      if readIsr then isr else irr
    }

    function ReadData(): Byte {
      imr
    }
  }

  /** Conversion of an `int` argument to the byte that `outb` sends. */
  function ToByte(i: int): Byte {
    i % 256
  }

  /** A chip fully initialised for the 8086 with cascading, its mask as before. */
  function Programmed(c: Chip, offset: int, cascade: Byte): Chip {
    Chip(Ready, false, true, ToByte(offset) / 8 * 8, cascade, true, false, c.imr, 0, c.isr, false)
  }

  /** The vectors start at the given offset exactly when it is a multiple of 8 that
      fits a byte. */
  lemma VectorBaseIff(c: Chip, offset: int, cascade: Byte)
    ensures Programmed(c, offset, cascade).base == offset <==> 0 <= offset < 256 && offset % 8 == 0
  {
  }

  lemma Icw1Byte()
    ensures Or(ICW1_INIT, ICW1_ICW4) == 0x11
  {
    assert Or(0x10, 0x01) == 0x11;
  }

  /** The five writes that each chip sees, and their outcome from any state. */
  lemma InitSequence(c: Chip, offset: int, cascade: Byte)
    ensures c.Command(0x11).Data(ToByte(offset)).Data(cascade).Data(ICW4_8086).Data(c.imr)
            == Programmed(c, offset, cascade)
  {
  }

  /** Normal operation as the kernel needs it: 8086 vectors, two chips, end of interrupt by
      command, and requests read back. */
  predicate Normal(c: Chip) {
    c.phase.Ready? && c.mode8086 && !c.autoEoi && !c.single && !c.readIsr
  }

  datatype Pair = Pair(master: Chip, slave: Chip) {
    predicate Initialised() {
      master.phase.Ready? && slave.phase.Ready?
    }

    /** The line's own mask bit. */
    predicate Masked(line: nat)
      requires line < 16
    {
      if line < 8 then Bit(master.imr, line) else Bit(slave.imr, line - 8)
    }

    ghost function MaskedLines(): set<nat> {
      set l: nat | l < 16 && Masked(l)
    }

    /** The master expects the slave on the line that the slave answers to. */
    predicate Wired() {
      master.cascade == Pow2(slave.cascade)
    }

    /** A request on the line reaches the processor; the slave's go through line 2. */
    predicate Deliverable(line: nat)
      requires line < 16
    {
      !Masked(line) && (line >= 8 ==> !Masked(2))
    }
  }

  lemma SameMasks(p: Pair, q: Pair)
    requires p.master.imr == q.master.imr && p.slave.imr == q.slave.imr
    ensures p.MaskedLines() == q.MaskedLines()
  {
    forall l: nat | l < 16 ensures p.Masked(l) <==> q.Masked(l) {
    }
  }

  predicate SetsBit(was: Byte, now: Byte, line: nat) {
    forall k: nat :: k < 8 ==> (Bit(now, k) <==> Bit(was, k) || k == line)
  }

  predicate ClearsBit(was: Byte, now: Byte, line: nat) {
    forall k: nat :: k < 8 ==> (Bit(now, k) <==> Bit(was, k) && k != line)
  }

  lemma AllButOne(imr: Byte)
    requires forall k: nat :: k < 8 ==> (Bit(imr, k) <==> k != 1)
    ensures imr == 0xFD
  {
    Pow2Small();
    forall k: nat | k < 8 ensures Bit(0xFD, k) <==> k != 1 {
      SevenOnes(k);
    }
    BitExtensional(imr, 0xFD, 8);
  }

  lemma SevenOnes(k: nat)
    requires k < 8
    ensures Bit(0xFD, k) <==> k != 1
  {
    Pow2Small();
    BitOnes(8, k);
    BitOnes(2, 0);
    assert 0xFD / 4 == 0xFF / 4;
    if k >= 2 {
      assert Bit(0xFD, k) <==> Bit(0xFD / 2 / 2, k - 2);
      assert Bit(0xFF, k) <==> Bit(0xFF / 2 / 2, k - 2);
    } else if k == 1 {
      assert !Bit(0xFD / 2, 0);
    }
  }

  lemma MasksSet(p: Pair, q: Pair, irqLine: nat)
    requires irqLine < 16
    requires if irqLine < 8 then SetsBit(p.master.imr, q.master.imr, irqLine) && q.slave.imr == p.slave.imr
             else SetsBit(p.slave.imr, q.slave.imr, irqLine - 8) && q.master.imr == p.master.imr
    ensures q.MaskedLines() == p.MaskedLines() + {irqLine}
  {
  }

  lemma MasksCleared(p: Pair, q: Pair, irqLine: nat)
    requires irqLine < 16
    requires if irqLine < 8 then ClearsBit(p.master.imr, q.master.imr, irqLine) && q.slave.imr == p.slave.imr
             else ClearsBit(p.slave.imr, q.slave.imr, irqLine - 8) && q.master.imr == p.master.imr
    ensures q.MaskedLines() == p.MaskedLines() - {irqLine}
  {
  }

  class PicPair {
    var chips: Pair
    /** Every byte written to a port, in order. */
    ghost var writes: seq<(nat, Byte)>

    constructor (p: Pair)
      ensures chips == p && writes == []
    {
      chips := p;
      writes := [];
    }

    method Outb(port: nat, data: Byte)
      modifies this
      ensures writes == old(writes) + [(port, data)]
      ensures port == 0x20 ==> chips == old(chips).(master := old(chips).master.Command(data))
      ensures port == 0x21 ==> chips == old(chips).(master := old(chips).master.Data(data))
      ensures port == 0xA0 ==> chips == old(chips).(slave := old(chips).slave.Command(data))
      ensures port == 0xA1 ==> chips == old(chips).(slave := old(chips).slave.Data(data))
    {
      writes := writes + [(port, data)];
      if port == 0x20 {
        chips := chips.(master := chips.master.Command(data));
      } else if port == 0x21 {
        chips := chips.(master := chips.master.Data(data));
      } else if port == 0xA0 {
        chips := chips.(slave := chips.slave.Command(data));
      } else if port == 0xA1 {
        chips := chips.(slave := chips.slave.Data(data));
      }
    }

    function Inb(port: nat): Byte
      reads this
    {
      if port == 0x20 then chips.master.ReadCommand()
      else if port == 0x21 then chips.master.ReadData()
      else if port == 0xA0 then chips.slave.ReadCommand()
      else if port == 0xA1 then chips.slave.ReadData()
      else 0xFF
    }

    /** The same command word to both chips. */
    method SendCommands(data: Byte)
      modifies this
      ensures chips == Pair(old(chips).master.Command(data), old(chips).slave.Command(data))
      ensures writes == old(writes) + [(0x20, data), (0xA0, data)]
    {
      Outb(PIC1_COMMAND, data);
      Outb(PIC2_COMMAND, data);
    }

    /** A byte each to the data ports. */
    method SendData(first: Byte, second: Byte)
      modifies this
      ensures chips == Pair(old(chips).master.Data(first), old(chips).slave.Data(second))
      ensures writes == old(writes) + [(0x21, first), (0xA1, second)]
    {
      Outb(PIC1_DATA, first);
      Outb(PIC2_DATA, second);
    }

    /** From whatever state the chips are in, initialisation half done included. */
    method Init(offset1: int, offset2: int)
      modifies this
      ensures chips == Pair(Programmed(old(chips).master, offset1, 4), Programmed(old(chips).slave, offset2, 2))
      ensures chips.Initialised() && chips.Wired()
      ensures chips.MaskedLines() == old(chips.MaskedLines())
      ensures Normal(chips.master) && Normal(chips.slave) && chips.master.cascade == 4 && chips.slave.cascade == 2
      ensures chips.master.isr == old(chips).master.isr && chips.slave.isr == old(chips).slave.isr
      ensures writes == old(writes) + [(0x20, 0x11), (0xA0, 0x11), (0x21, offset1 % 256), (0xA1, offset2 % 256),
                                       (0x21, 4), (0xA1, 2), (0x21, 1), (0xA1, 1),
                                       (0x21, old(chips).master.imr), (0xA1, old(chips).slave.imr)]
    {
      var a1 := Inb(PIC1_DATA);
      var a2 := Inb(PIC2_DATA);
      Icw1Byte();
      SendCommands(Or(ICW1_INIT, ICW1_ICW4));
      SendData(ToByte(offset1), ToByte(offset2));
      SendData(4, 2);
      SendData(ICW4_8086, ICW4_8086);
      SendData(a1, a2);
      InitSequence(old(chips).master, offset1, 4);
      InitSequence(old(chips).slave, offset2, 2);
      SameMasks(old(chips), chips);
      Pow2Small();
    }

    /** The mask bit of the line is set in whichever chip has it; nothing else changes. */
    method SetMask(irqLine: nat)
      requires irqLine < 16 && chips.Initialised()
      modifies this
      ensures SameButMasks(old(chips), chips)
      ensures chips.MaskedLines() == old(chips.MaskedLines()) + {irqLine}
      ensures if irqLine < 8
              then SetsBit(old(chips.master.imr), chips.master.imr, irqLine) && chips.slave == old(chips.slave)
              else SetsBit(old(chips.slave.imr), chips.slave.imr, irqLine - 8) && chips.master == old(chips.master)
      ensures writes == old(writes) + [if irqLine < 8 then (0x21, chips.master.imr) else (0xA1, chips.slave.imr)]
    {
      var port, line := if irqLine < 8 then PIC1_DATA else PIC2_DATA, irqLine;
      if irqLine >= 8 {
        line := irqLine - 8;
      }
      ghost var was := Inb(port);
      BitInByte(line);
      OrBound(was, Pow2(line), 8);
      var value := Or(Inb(port), Pow2(line));
      Outb(port, value);
      forall k: nat | k < 8 ensures Bit(value, k) <==> Bit(was, k) || k == line {
        BitOr(was, Pow2(line), k);
        BitPow2(line, k);
      }
      MasksSet(old(chips), chips, irqLine);
    }

    method ClearMask(irqLine: nat)
      requires irqLine < 16 && chips.Initialised()
      modifies this
      ensures SameButMasks(old(chips), chips)
      ensures chips.MaskedLines() == old(chips.MaskedLines()) - {irqLine}
      ensures if irqLine < 8
              then ClearsBit(old(chips.master.imr), chips.master.imr, irqLine) && chips.slave == old(chips.slave)
              else ClearsBit(old(chips.slave.imr), chips.slave.imr, irqLine - 8) && chips.master == old(chips.master)
      ensures writes == old(writes) + [if irqLine < 8 then (0x21, chips.master.imr) else (0xA1, chips.slave.imr)]
    {
      var port, line := if irqLine < 8 then PIC1_DATA else PIC2_DATA, irqLine;
      if irqLine >= 8 {
        line := irqLine - 8;
      }
      ghost var was := Inb(port);
      BitInByte(line);
      var value := And(Inb(port), Not(Pow2(line), 8));
      Outb(port, value);
      forall k: nat | k < 8 ensures Bit(value, k) <==> Bit(was, k) && k != line {
        BitAnd(was, Not(Pow2(line), 8), k);
        BitNot(Pow2(line), 8, k);
        BitPow2(line, k);
      }
      MasksCleared(old(chips), chips, irqLine);
    }

    /** The kernel's set-up: of all sixteen lines only the keyboard's gets through. */
    method InitPic()
      modifies this
      ensures chips.Initialised() && chips.Wired()
      ensures chips.master.base == 0x20 && chips.slave.base == 0x28
      ensures Normal(chips.master) && Normal(chips.slave) && chips.master.cascade == 4 && chips.slave.cascade == 2
      ensures chips.master.isr == old(chips).master.isr && chips.slave.isr == old(chips).slave.isr
      ensures forall l: nat :: l < 16 ==>
                (chips.Masked(l) <==> if l < 8 then l != 1 else old(chips).Masked(l))
      ensures forall l: nat :: l < 16 ==> (chips.Deliverable(l) <==> l == 1)
      ensures chips.master.imr == 0xFD && chips.slave.imr == old(chips).slave.imr
    {
      Init(0x20, 0x28);
      ghost var ready := chips;
      for i := 0 to 8
        invariant chips.Initialised() && SameButMasks(ready, chips) && chips.slave.imr == ready.slave.imr
        invariant chips.MaskedLines() == old(chips.MaskedLines()) + (set l: nat | l < i && Line(l))
      {
        SetMask(i);
      }
      ClearMask(KEYBOARD_LINE);
      assert forall l: nat :: l < 16 ==> (chips.Masked(l) <==> l in chips.MaskedLines());
      assert forall l: nat :: l < 16 ==> (old(chips).Masked(l) <==> l in old(chips.MaskedLines()));
      forall k: nat | k < 8 ensures Bit(chips.master.imr, k) <==> k != 1 {
        assert Bit(chips.master.imr, k) <==> chips.Masked(k);
      }
      AllButOne(chips.master.imr);
    }

    /** Both chips take the lowest byte of `ocw3` as a command word; the result has the
        slave's selected register in its upper byte and the master's in its lower one. */
    method GetIrqReg(ocw3: int) returns (r: nat)
      modifies this
      ensures chips == Pair(old(chips).master.Command(ToByte(ocw3)), old(chips).slave.Command(ToByte(ocw3)))
      ensures r / 256 == chips.slave.ReadCommand() && r % 256 == chips.master.ReadCommand()
      ensures writes == old(writes) + [(0x20, ocw3 % 256), (0xA0, ocw3 % 256)]
    {
      SendCommands(ToByte(ocw3));
      var high: nat, low: nat := Inb(PIC2_COMMAND), Inb(PIC1_COMMAND);
      TwoBytes(high, low);
      return Or(high * 256, low);
    }

    method GetIrr() returns (r: nat)
      modifies this
      ensures r / 256 == old(chips).slave.irr && r % 256 == old(chips).master.irr
      ensures chips == Pair(old(chips).master.(readIsr := false), old(chips).slave.(readIsr := false))
      ensures writes == old(writes) + [(0x20, 0x0A), (0xA0, 0x0A)]
    {
      r := GetIrqReg(PIC_READ_IRR);
    }

    method GetIsr() returns (r: nat)
      modifies this
      ensures r / 256 == old(chips).slave.isr && r % 256 == old(chips).master.isr
      ensures chips == Pair(old(chips).master.(readIsr := true), old(chips).slave.(readIsr := true))
      ensures writes == old(writes) + [(0x20, 0x0B), (0xA0, 0x0B)]
    {
      r := GetIrqReg(PIC_READ_ISR);
    }

    method SendEOI(irq: nat)
      modifies this
      ensures chips == Retired(old(chips), irq)
      ensures writes == old(writes) + (if irq >= 8 then [(0xA0, 0x20)] else []) + [(0x20, 0x20)]
    {
      if irq >= 8 {
        Outb(PIC2_COMMAND, EOI);
      }
      Outb(PIC1_COMMAND, EOI);
    }
  }

  lemma TwoBytes(high: nat, low: nat)
    requires low < 256
    ensures Or(high * 256, low) / 256 == high && Or(high * 256, low) % 256 == low
  {
    Pow2Small();
    OrPack(high, low, 256, 8);
  }

  predicate Line(l: nat) {
    l < 16
  }

  /** The two states differ in their mask registers at most. */
  predicate SameButMasks(a: Pair, b: Pair) {
    b == Pair(a.master.(imr := b.master.imr), a.slave.(imr := b.slave.imr))
  }

  lemma BitInByte(line: nat)
    requires line < 8
    ensures Pow2(line) < Pow2(8) == 256
  {
    Pow2Small();
    Pow2Mono(line, 8);
  }

  // ------------------------------------------------ runs of mask changes

  datatype MaskOp = Set(line: nat) | Clear(line: nat)

  /** The masked lines after a sequence of `SetMask` and `ClearMask` calls. */
  ghost function ApplyMasks(masked: set<nat>, ops: seq<MaskOp>): set<nat>
    decreases |ops|
  {
    if ops == [] then masked
    else
      var before, op := ApplyMasks(masked, ops[..|ops| - 1]), ops[|ops| - 1];
      if op.Set? then before + {op.line} else before - {op.line}
  }

  /** `i` is the last call about the line. */
  ghost predicate LastAbout(ops: seq<MaskOp>, line: nat, i: nat) {
    i < |ops| && ops[i].line == line && forall j :: i < j < |ops| ==> ops[j].line != line
  }

  /** A line's mask depends on the last call about it alone. */
  lemma {:induction false} LastCallDecides(masked: set<nat>, ops: seq<MaskOp>, line: nat)
    ensures line in ApplyMasks(masked, ops) <==>
            || (exists i: nat :: LastAbout(ops, line, i) && ops[i].Set?)
            || (line in masked && forall i :: 0 <= i < |ops| ==> ops[i].line != line)
    decreases |ops|
  {
    if ops != [] {
      var init, last := ops[..|ops| - 1], |ops| - 1;
      LastCallDecides(masked, init, line);
      if ops[last].line == line {
        assert LastAbout(ops, line, last);
        assert forall i: nat :: LastAbout(ops, line, i) ==> i == last;
      } else {
        assert forall i: nat :: i < last ==> init[i] == ops[i];
        assert forall i: nat :: LastAbout(ops, line, i) <==> LastAbout(init, line, i);
      }
    }
  }

  // ------------------------------------------------ end of interrupt

  /** The chips after `SendEOI`. */
  function Retired(p: Pair, irq: nat): Pair {
    var slave := if irq >= 8 then p.slave.(isr := ClearLowest(p.slave.isr)) else p.slave;
    Pair(p.master.(isr := ClearLowest(p.master.isr)), slave)
  }

  type Irq = i: nat | i < 16

  function MasterLine(irq: Irq): nat {
    if irq < 8 then irq else 2
  }

  lemma SetIsrFits(isr: Byte, line: nat)
    requires line < 8
    ensures Or(isr, Pow2(line)) < 256
  {
    BitInByte(line);
    OrBound(isr, Pow2(line), 8);
  }

  /** The chip's part of an acknowledged request: the in-service bit is set, and with
      automatic end of interrupt it is cleared again at once. */
  function InService(c: Chip, line: nat): Chip
    requires line < 8
  {
    SetIsrFits(c.isr, line);
    if c.autoEoi then c else c.(isr := Or(c.isr, Pow2(line)))
  }

  /** The processor acknowledges the request. */
  function Serviced(p: Pair, irq: Irq): Pair {
    Pair(InService(p.master, MasterLine(irq)), if irq >= 8 then InService(p.slave, irq - 8) else p.slave)
  }

  /** A chip raises a request only above the priority of everything it has in service. */
  ghost predicate Above(isr: nat, line: nat) {
    forall j: nat :: j <= line ==> !Bit(isr, j)
  }

  ghost predicate Admissible(p: Pair, irq: Irq) {
    Above(p.master.isr, MasterLine(irq)) && (irq >= 8 ==> Above(p.slave.isr, irq - 8))
  }

  lemma {:induction false} ClearLowestUndoes(isr: nat, line: nat)
    requires Above(isr, line)
    ensures ClearLowest(Or(isr, Pow2(line))) == isr
  {
    assert !Bit(isr, 0);
    if line == 0 {
      OrOne(isr);
    } else {
      AboveHalf(isr, line);
      ClearLowestUndoes(isr / 2, line - 1);
      ClearLowestHalves(isr, Or(isr, Pow2(line)), Or(isr / 2, Pow2(line - 1)), line);
    }
  }

  lemma ClearLowestHalves(isr: nat, a: nat, half: nat, line: nat)
    requires isr % 2 == 0 && line > 0 && ClearLowest(half) == isr / 2
    requires a == Or(isr, Pow2(line)) && half == Or(isr / 2, Pow2(line - 1))
    ensures ClearLowest(a) == isr
  {
    OrPowHalves(isr, line);
    ClearLowestDouble(half);
  }

  lemma ClearLowestDouble(a: nat)
    ensures ClearLowest(2 * a) == 2 * ClearLowest(a)
  {
    assert 2 * a / 2 == a;
  }

  lemma AboveHalf(isr: nat, line: nat)
    requires Above(isr, line) && line > 0
    ensures Above(isr / 2, line - 1)
  {
    forall j: nat | j <= line - 1 ensures !Bit(isr / 2, j) {
      assert !Bit(isr, j + 1);
    }
  }

  lemma OrOne(isr: nat)
    requires isr % 2 == 0
    ensures ClearLowest(Or(isr, Pow2(0))) == isr
  {
    assert Or(isr, 1) == isr + 1;
  }

  lemma OrPowHalves(isr: nat, line: nat)
    requires isr % 2 == 0 && line > 0
    ensures Or(isr, Pow2(line)) == 2 * Or(isr / 2, Pow2(line - 1))
  {
  }

  /** What happens to the processor: an interrupt is taken, `during` happens inside its
      handler, the handler sends its end of interrupt, and `after` happens then. */
  datatype Trace = Done | Take(irq: Irq, during: Trace, after: Trace)

  /** The chips after the trace. */
  function Served(p: Pair, t: Trace): Pair
    decreases t
  {
    match t
    case Done => p
    case Take(irq, during, after) => Served(Retired(Served(Serviced(p, irq), during), irq), after)
  }

  /** Every interrupt taken has a higher priority than whatever the chips concerned have
      in service at that moment. */
  ghost predicate WellNested(p: Pair, t: Trace)
    decreases t
  {
    match t
    case Done => true
    case Take(irq, during, after) =>
      && Admissible(p, irq) && WellNested(Serviced(p, irq), during)
      && WellNested(Retired(Served(Serviced(p, irq), during), irq), after)
  }

  /** An end of interrupt by command does no harm: it is not automatic as well, or there is
      nothing in service that it could retire. */
  predicate Expects(c: Chip) {
    !c.autoEoi || c.isr == 0
  }

  /** `SendEOI` retires the interrupt of its own handler, and no other, exactly when the chips
      concerned expect it. */
  lemma EoiUndoesIff(p: Pair, irq: Irq)
    requires Admissible(p, irq)
    ensures Retired(Serviced(p, irq), irq) == p <==> Expects(p.master) && (irq >= 8 ==> Expects(p.slave))
  {
    RetiresIff(p.master, MasterLine(irq));
    if irq >= 8 {
      RetiresIff(p.slave, irq - 8);
    }
  }

  lemma RetiresIff(c: Chip, line: nat)
    requires line < 8 && Above(c.isr, line)
    ensures ClearLowest(InService(c, line).isr) == c.isr <==> Expects(c)
  {
    if c.autoEoi {
      ClearLowestChanges(c.isr);
    } else {
      ClearLowestUndoes(c.isr, line);
    }
  }

  lemma {:induction false} ClearLowestChanges(a: nat)
    ensures ClearLowest(a) == a <==> a == 0
  {
    if a == 0 || a % 2 == 1 {
    } else {
      ClearLowestChanges(a / 2);
    }
  }

  /** However interrupts nest and follow each other, every `SendEOI` retires the interrupt
      of its own handler, and the chips end up as they were. */
  lemma {:induction false} EoiRetiresItsOwn(p: Pair, t: Trace)
    requires WellNested(p, t) && Expects(p.master) && Expects(p.slave)
    ensures t.Take? ==> Retired(Served(Serviced(p, t.irq), t.during), t.irq) == p
    ensures Served(p, t) == p
    decreases t
  {
    match t
    case Done =>
    case Take(irq, during, after) =>
      EoiRetiresItsOwn(Serviced(p, irq), during);
      EoiUndoesIff(p, irq);
      EoiRetiresItsOwn(p, after);
  }

  /** In particular on the chips as `Init` leaves them, whatever they had in service. */
  lemma EoiAfterInit(p: Pair, t: Trace)
    requires Normal(p.master) && Normal(p.slave) && WellNested(p, t)
    ensures Served(p, t) == p
  {
    EoiRetiresItsOwn(p, t);
  }
}
