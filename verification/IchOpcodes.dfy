/** The software opcode table of the ICH SPI driver against the PREOP, OPTYPE and OPMENU
    registers of the chipset (ichspi.c: find_opcode, program_opcodes, generate_opcodes,
    reprogram_opcode_on_the_fly, ich_init_opcodes and the opcode search of run_opcode). */
module IchOpcodes {
  import opened Numerals
  import opened Helpers

  datatype Opcode = Opcode(opcode: octet, spiType: octet, atomic: octet)

  datatype Table = Table(preop0: octet, preop1: octet, opcode: seq<Opcode>)

  /** Register values; OPMENU is a pair of 32-bit registers. */
  datatype Registers = Registers(preop: nat, optype: nat, menu0: nat, menu1: nat)

  ghost predicate Sized(r: Registers) {
    r.preop < 0x1_0000 && r.optype < 0x1_0000 && r.menu0 < 0x1_0000_0000 && r.menu1 < 0x1_0000_0000
  }

  const READ_NO_ADDRESS: octet := 0
  const WRITE_NO_ADDRESS: octet := 1
  const READ_WITH_ADDRESS: octet := 2
  const WRITE_WITH_ADDRESS: octet := 3

  const SPI_INVALID_OPCODE := -2
  const SPI_INVALID_LENGTH := -4

  /** Eight opcodes whose types fit into the two bits the chipset has for them. */
  ghost predicate WellTyped(t: Table) {
    |t.opcode| == 8 && forall i | 0 <= i < 8 :: t.opcode[i].spiType < 4
  }

  function Types(o: seq<Opcode>): (d: seq<nat>)
    ensures |d| == |o| && forall i | 0 <= i < |o| :: d[i] == o[i].spiType
  {
    seq(|o|, i requires 0 <= i < |o| => o[i].spiType)
  }

  function Codes(o: seq<Opcode>): (d: seq<nat>)
    ensures |d| == |o| && forall i | 0 <= i < |o| :: d[i] == o[i].opcode
  {
    seq(|o|, i requires 0 <= i < |o| => o[i].opcode)
  }

  // ----- Encoding and decoding ----------------------------------------------------------

  /** The register values that stand for a table. */
  function Encode(t: Table): Registers
    requires |t.opcode| == 8
  {
    Registers(t.preop0 + 256 * t.preop1, Pack(Types(t.opcode), 4),
              Pack(Codes(t.opcode[..4]), 256), Pack(Codes(t.opcode[4..]), 256))
  }

  function MenuByte(r: Registers, i: nat): (b: nat)
    requires i < 8
    ensures b < 256
  {
    DigitBound(r.menu0, 256, i);
    if i < 4 then Digit(r.menu0, 256, i) else DigitBound(r.menu1, 256, i - 4); Digit(r.menu1, 256, i - 4)
  }

  function TypeField(r: Registers, i: nat): (b: nat)
    requires i < 8
    ensures b < 4
  {
    DigitBound(r.optype, 4, i);
    Digit(r.optype, 4, i)
  }

  function Decode(r: Registers): (t: Table)
    requires Sized(r)
    ensures WellTyped(t)
  {
    Table(r.preop % 256, r.preop / 256,
          seq(8, i requires 0 <= i < 8 => Opcode(MenuByte(r, i), TypeField(r, i), 0)))
  }

  lemma EncodedField(t: Table, i: nat)
    requires WellTyped(t) && i < 8
    ensures TypeField(Encode(t), i) == t.opcode[i].spiType
    ensures MenuByte(Encode(t), i) == t.opcode[i].opcode
  {
    DigitOfPack(Types(t.opcode), 4, i);
    if i < 4 {
      DigitOfPack(Codes(t.opcode[..4]), 256, i);
    } else {
      DigitOfPack(Codes(t.opcode[4..]), 256, i - 4);
    }
  }

  /** Decoding what was programmed gives the table back, without preopcode selection. */
  lemma DecodeEncode(t: Table)
    requires WellTyped(t)
    ensures Sized(Encode(t))
    ensures var d := Decode(Encode(t));
            && d.preop0 == t.preop0 && d.preop1 == t.preop1
            && forall i | 0 <= i < 8 :: d.opcode[i] == t.opcode[i].(atomic := 0)
  {
    PackBound(Types(t.opcode), 4);
    PackBound(Codes(t.opcode[..4]), 256);
    PackBound(Codes(t.opcode[4..]), 256);
    Powers();
    forall i | 0 <= i < 8 ensures Decode(Encode(t)).opcode[i] == t.opcode[i].(atomic := 0) {
      EncodedField(t, i);
    }
  }

  lemma Powers()
    ensures Power(4, 8) == 0x1_0000 && Power(256, 4) == 0x1_0000_0000
  {
    assert Power(4, 4) == 256;
    assert Power(256, 2) == 65536;
  }

  /** Whatever a locked chipset holds, the table read from it encodes to exactly that. */
  lemma EncodeDecode(r: Registers)
    requires Sized(r)
    ensures Encode(Decode(r)) == r
  {
    var o := Decode(r).opcode;
    Powers();
    PackOfDigits(r.optype, 4, Types(o));
    PackOfDigits(r.menu0, 256, Codes(o[..4]));
    PackOfDigits(r.menu1, 256, Codes(o[4..]));
  }

  // ----- Looking up opcodes -------------------------------------------------------------

  /** `i` is the first slot with this opcode, -1 if there is none. */
  ghost predicate FirstAt(t: Table, opcode: octet, i: int) {
    FirstIn(t.opcode, opcode, i)
  }

  ghost predicate FirstIn(o: seq<Opcode>, opcode: octet, i: int) {
    && -1 <= i < |o|
    && (i >= 0 ==> o[i].opcode == opcode)
    && forall j | 0 <= j < (if i < 0 then |o| else i) :: o[j].opcode != opcode
  }

  method FindOpcode(t: Table, opcode: octet) returns (i: int)
    requires |t.opcode| == 8
    ensures FirstAt(t, opcode, i)
  {
    for a := 0 to 8
      invariant forall j | 0 <= j < a :: t.opcode[j].opcode != opcode
    {
      if t.opcode[a].opcode == opcode {
        return a;
      }
    }
    return -1;
  }

  /** The search of ich7_run_opcode and ich9_run_opcode in the two menu registers, read as
      one 64-bit number; 8 means not found.  If the registers stand for the table, it finds
      the slot that find_opcode finds. */
  method SearchMenu(r: Registers, opcode: octet, ghost t: Table) returns (index: nat)
    requires WellTyped(t) && r == Encode(t)
    ensures index <= 8 && FirstAt(t, opcode, if index == 8 then -1 else index)
  {
    var menu := r.menu0 + 0x1_0000_0000 * r.menu1;
    ghost var w := menu;
    WideMenu(t, w);
    index := 0;
    while index < 8
      invariant index <= 8 && menu == Shifted(w, 256, index)
      invariant forall j | 0 <= j < index :: t.opcode[j].opcode != opcode
    {
      ShiftedDigit(w, 256, index);
      DigitOfPack(Codes(t.opcode), 256, index);
      if menu % 256 == opcode {
        return;
      }
      menu := menu / 256;
      index := index + 1;
    }
  }

  lemma WideMenu(t: Table, w: nat)
    requires WellTyped(t) && w == Encode(t).menu0 + 0x1_0000_0000 * Encode(t).menu1
    ensures w == Pack(Codes(t.opcode), 256)
  {
    Powers();
    PackConcat(Codes(t.opcode[..4]), Codes(t.opcode[4..]), 256);
    assert Codes(t.opcode[..4]) + Codes(t.opcode[4..]) == Codes(t.opcode);
  }

  // ----- The driver -----------------------------------------------------------------------

  const JEDEC_WREN: octet := 0x06
  const JEDEC_EWSR: octet := 0x50
  const JEDEC_BYTE_PROGRAM: octet := 0x02
  const JEDEC_READ: octet := 0x03
  const JEDEC_SE: octet := 0x20
  const JEDEC_RDSR: octet := 0x05
  const JEDEC_REMS: octet := 0x90
  const JEDEC_WRSR: octet := 0x01
  const JEDEC_RDID: octet := 0x9f
  const JEDEC_CE_C7: octet := 0xc7
  const JEDEC_BE_D8: octet := 0xd8
  const JEDEC_BE_52: octet := 0x52
  const JEDEC_AAI_WORD_PROGRAM: octet := 0xad

  /** The default table O_ST_M25P. */
  const DEFAULT_TABLE := Table(JEDEC_WREN, JEDEC_EWSR, [
    Opcode(JEDEC_BYTE_PROGRAM, WRITE_WITH_ADDRESS, 0), Opcode(JEDEC_READ, READ_WITH_ADDRESS, 0),
    Opcode(JEDEC_SE, WRITE_WITH_ADDRESS, 0), Opcode(JEDEC_RDSR, READ_NO_ADDRESS, 0),
    Opcode(JEDEC_REMS, READ_WITH_ADDRESS, 0), Opcode(JEDEC_WRSR, WRITE_NO_ADDRESS, 0),
    Opcode(JEDEC_RDID, READ_NO_ADDRESS, 0), Opcode(JEDEC_CE_C7, WRITE_NO_ADDRESS, 0)])

  /** Opcodes that can be put into the table on the fly, with their types. */
  const POSSIBLE_OPCODES: seq<Opcode> := [
    Opcode(JEDEC_BYTE_PROGRAM, WRITE_WITH_ADDRESS, 0), Opcode(JEDEC_READ, READ_WITH_ADDRESS, 0),
    Opcode(JEDEC_BE_D8, WRITE_WITH_ADDRESS, 0), Opcode(JEDEC_RDSR, READ_NO_ADDRESS, 0),
    Opcode(JEDEC_REMS, READ_WITH_ADDRESS, 0), Opcode(JEDEC_WRSR, WRITE_NO_ADDRESS, 0),
    Opcode(JEDEC_RDID, READ_NO_ADDRESS, 0), Opcode(JEDEC_CE_C7, WRITE_NO_ADDRESS, 0),
    Opcode(JEDEC_SE, WRITE_WITH_ADDRESS, 0), Opcode(JEDEC_BE_52, WRITE_WITH_ADDRESS, 0),
    Opcode(JEDEC_AAI_WORD_PROGRAM, WRITE_NO_ADDRESS, 0)]

  ghost predicate Unknown(opcode: octet) {
    forall j | 0 <= j < |POSSIBLE_OPCODES| :: POSSIBLE_OPCODES[j].opcode != opcode
  }

  /** `spiType` is what the first entry with this opcode says. */
  ghost predicate Listed(opcode: octet, spiType: octet) {
    exists i :: 0 <= i && FirstIn(POSSIBLE_OPCODES, opcode, i) && POSSIBLE_OPCODES[i].spiType == spiType
  }

  /** The type of a listed opcode; 0xFF for all others. */
  method LookupSpiType(opcode: octet) returns (spiType: octet)
    ensures Unknown(opcode) ==> spiType == 0xFF
    ensures !Unknown(opcode) ==> spiType < 4 && Listed(opcode, spiType)
  {
    for a := 0 to |POSSIBLE_OPCODES|
      invariant forall j | 0 <= j < a :: POSSIBLE_OPCODES[j].opcode != opcode
    {
      if POSSIBLE_OPCODES[a].opcode == opcode {
        assert FirstIn(POSSIBLE_OPCODES, opcode, a);
        return POSSIBLE_OPCODES[a].spiType;
      }
    }
    return 0xFF;
  }

  /** Packs fields one after the other, as the loops of program_opcodes do. */
  method PackFields(d: seq<nat>, b: nat) returns (w: nat)
    ensures w == Pack(d, b)
  {
    w := 0;
    var weight := 1;
    for a := 0 to |d|
      invariant w == Pack(d[..a], b) && weight == Power(b, a)
    {
      PackAppend(d[..a], d[a], b);
      assert d[..a] + [d[a]] == d[..a + 1];
      w := w + weight * d[a];
      weight := b * weight;
    }
    assert d[..|d|] == d;
  }

  /** Takes `n` fields apart, as the loops of generate_opcodes do. */
  method UnpackFields(w: nat, b: nat, n: nat) returns (d: seq<nat>)
    requires b > 0
    ensures |d| == n && forall i | 0 <= i < n :: d[i] == Digit(w, b, i) < b
  {
    d := [];
    var rest := w;
    for a := 0 to n
      invariant |d| == a && rest == Shifted(w, b, a)
      invariant forall i | 0 <= i < a :: d[i] == Digit(w, b, i) < b
    {
      ShiftedDigit(w, b, a);
      d := d + [rest % b];
      rest := rest / b;
    }
  }

  /** `locked` is the chipset's configuration lock; `cur` is the table in use. */
  class IchSpi {
    const locked: bool
    var regs: Registers
    var cur: Option<Table>

    /** Once there is a table, the registers stand for it. */
    ghost predicate Valid()
      reads this
    {
      Sized(regs) && (cur.Some? ==> WellTyped(cur.value) && regs == Encode(cur.value))
    }

    constructor (locked: bool, regs: Registers)
      requires Sized(regs)
      ensures Valid() && this.locked == locked && this.regs == regs && cur.None?
    {
      this.locked, this.regs, this.cur := locked, regs, None;
    }

    method ProgramOpcodes(t: Table)
      requires WellTyped(t)
      modifies this`regs
      ensures regs == Encode(t) && Sized(regs)
    {
      var optype := PackFields(Types(t.opcode), 4);
      var menu0 := PackFields(Codes(t.opcode[..4]), 256);
      var menu1 := PackFields(Codes(t.opcode[4..]), 256);
      regs := Registers(t.preop0 + 256 * t.preop1, optype, menu0, menu1);
      DecodeEncode(t);
    }

    method GenerateOpcodes() returns (t: Table)
      requires Sized(regs)
      ensures t == Decode(regs)
    {
      var types := UnpackFields(regs.optype, 4, 8);
      var low := UnpackFields(regs.menu0, 256, 4);
      var high := UnpackFields(regs.menu1, 256, 4);
      var codes := low + high;
      t := Table(regs.preop % 256, regs.preop / 256,
                 seq(8, i requires 0 <= i < 8 => Opcode(codes[i], types[i], 0)));
      assert t.opcode == Decode(regs).opcode;
    }

    method InitOpcodes() returns (ret: int)
      requires Valid()
      modifies this`regs, this`cur
      ensures Valid() && ret == 0 && cur.Some?
      ensures locked ==> regs == old(regs)
      ensures old(cur).Some? ==> cur == old(cur) && regs == old(regs)
      ensures locked && old(cur).None? ==> cur.value == Decode(old(regs))
      ensures !locked && old(cur).None? ==> cur.value == DEFAULT_TABLE
    {
      if cur.Some? {
        return 0;
      }
      if locked {
        var t := GenerateOpcodes();
        EncodeDecode(regs);
        cur := Some(t);
      } else {
        ProgramOpcodes(DEFAULT_TABLE);
        cur := Some(DEFAULT_TABLE);
      }
      return 0;
    }

    /** Puts an opcode into slot 4 of table and registers.  The type of an opcode that is not
        listed is guessed from the lengths. */
    method ReprogramOpcode(opcode: octet, writecnt: nat, readcnt: nat) returns (oppos: int)
      requires Valid() && cur.Some?
      modifies this`regs, this`cur
      ensures Valid() && cur.Some?
      ensures oppos == SPI_INVALID_LENGTH <==> NoGuess(opcode, writecnt, readcnt)
      ensures oppos == SPI_INVALID_LENGTH ==> cur == old(cur) && regs == old(regs)
      ensures oppos != SPI_INVALID_LENGTH ==> oppos >= 0 && FirstAt(cur.value, opcode, oppos)
      ensures oppos != SPI_INVALID_LENGTH && FirstAt(old(cur).value, opcode, -1) ==> oppos == 4
      ensures oppos != SPI_INVALID_LENGTH ==>
                InSlot4(old(cur).value, cur.value, opcode, writecnt, readcnt)
    {
      var spiType := LookupSpiType(opcode);
      if spiType > 3 {
        if readcnt == 0 {
          spiType := WRITE_NO_ADDRESS;
        } else if writecnt == 1 {
          spiType := READ_NO_ADDRESS;
        } else if writecnt == 4 {
          spiType := READ_WITH_ADDRESS;
        } else {
          return SPI_INVALID_LENGTH;
        }
      }
      var t := cur.value;
      var o := t.opcode[4].(opcode := opcode, spiType := spiType);
      t := t.(opcode := t.opcode[4 := o]);
      cur := Some(t);
      ProgramOpcodes(t);
      oppos := FindOpcode(t, opcode);
      assert t.opcode[4].opcode == opcode;
    }

    /** How ich_spi_send_command finds the slot of a command, and how run_opcode then finds
        it again in the registers.  A command that the table holds is found by both searches
        and nothing changes.  One that it does not hold is refused on a locked chipset;
        otherwise it goes to slot 4, unless its type cannot be guessed. */
    method ResolveOpcode(cmd: octet, writecnt: nat, readcnt: nat) returns (index: int, slot: int)
      requires Valid() && cur.Some?
      modifies this`regs, this`cur
      ensures Valid() && cur.Some? && (locked ==> regs == old(regs) && cur == old(cur))
      ensures index >= 0 ==> index == slot < 8 && cur.value.opcode[index].opcode == cmd
      ensures forall i | i >= 0 && FirstAt(old(cur).value, cmd, i) ::
                index == slot == i && cur == old(cur) && regs == old(regs)
      ensures FirstAt(old(cur).value, cmd, -1) ==>
                if locked then index == SPI_INVALID_OPCODE
                else if NoGuess(cmd, writecnt, readcnt) then
                  index == SPI_INVALID_LENGTH && cur == old(cur) && regs == old(regs)
                else
                  && index == slot == 4
                  && InSlot4(old(cur).value, cur.value, cmd, writecnt, readcnt)
    {
      slot := -1;
      index := FindOpcode(cur.value, cmd);
      if index == -1 {
        if !locked {
          index := ReprogramOpcode(cmd, writecnt, readcnt);
        }
        if index == SPI_INVALID_LENGTH {
          return;
        } else if index == -1 {
          index := SPI_INVALID_OPCODE;
          return;
        }
      }
      var opcode := cur.value.opcode[index];
      slot := SearchMenu(regs, opcode.opcode, cur.value);
    }
  }

  /** The opcode is not listed, and no type goes with these lengths. */
  ghost predicate NoGuess(opcode: octet, writecnt: nat, readcnt: nat) {
    Unknown(opcode) && readcnt > 0 && writecnt != 1 && writecnt != 4
  }

  /** Slot 4 holds the opcode with its type, listed or guessed; nothing else has changed. */
  ghost predicate InSlot4(t0: Table, t1: Table, opcode: octet, writecnt: nat, readcnt: nat)
    requires |t0.opcode| == |t1.opcode| == 8
  {
    var spiType := t1.opcode[4].spiType;
    && t1 == t0.(opcode := t0.opcode[4 := Opcode(opcode, spiType, t0.opcode[4].atomic)])
    && (!Unknown(opcode) ==> Listed(opcode, spiType))
    && (Unknown(opcode) && readcnt == 0 ==> spiType == WRITE_NO_ADDRESS)
    && (Unknown(opcode) && readcnt > 0 && writecnt == 1 ==> spiType == READ_NO_ADDRESS)
    && (Unknown(opcode) && readcnt > 0 && writecnt == 4 ==> spiType == READ_WITH_ADDRESS)
  }
}
