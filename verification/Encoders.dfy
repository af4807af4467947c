/** The instruction encoders of the code emitters, written with the sources' own
shifts, masks and ORs.  Each contract states which field ends up at which bit
position, so an encoder whose fields collide would not verify.
*/
module Encoders {
  import opened Words

  const FRONTEND_X86: u32 := 0
  const FRONTEND_AARCH64: u32 := 1
  const FRONTEND_RISCV: u32 := 2

  const NATIVE_REGS_SLOT: nat := 3
  const SLOT_COUNT: nat := 13

  const AARCH64_ESCAPE_SUBOP: nat := 0x70
  const AARCH64_CALL_SIG_BASE: nat := 0x50
  const RISCV_ESCAPE_SUBOP: nat := 0
  const RISCV_CALL_SIG_BASE: nat := 0x20

  // ----- OR of fields at different bit positions -----

  lemma {:induction false} OrCommutes(x: nat, y: nat)
    ensures Or(x, y) == Or(y, x)
  {
    if x != 0 && y != 0 {
      OrCommutes(x / 2, y / 2);
    }
  }

  lemma OrSplit(x: nat, y: nat)
    ensures Or(x, y) == 2 * Or(x / 2, y / 2) + (if x % 2 == 1 || y % 2 == 1 then 1 else 0)
  {
  }

  /** The hint base holds ones in bits 0..4, which the sub-operation does not touch. */
  lemma OrHintBase(field: nat)
    requires field < 0x80
    ensures Or(0xd503_201f, field * 0x20) == 0xd503_201f + field * 0x20
  {
    hide Or, Pow2;
    Pow2Values();
    OrSplit(0xd503_201f, field * 0x20);
    OrSplit(0xd503_201f / 2, field * 0x10);
    OrSplit(0xd503_201f / 4, field * 8);
    OrSplit(0xd503_201f / 8, field * 4);
    OrSplit(0xd503_201f / 16, field * 2);
    OrShifted(0xd503_2000 / 0x1000, 7, field);
  }

  // ----- Poly control instructions -----

  function Aarch64Control(subop: nat): (w: u32)
    ensures w == 0xd503_201f + subop % 0x80 * 0x20
  {
    OrHintBase(subop % 0x80);
    Or(0xd503_201f, subop % 0x80 * 0x20)
  }

  function RiscvControl(subop: nat): (w: u32)
    ensures w == 0x0000_700b + subop % 0x80 * 0x200_0000
  {
    OrRiscvControl(subop % 0x80);
    Or(0x0000_700b, subop % 0x80 * 0x200_0000)
  }

  lemma OrRiscvControl(field: nat)
    requires field < 0x80
    ensures Or(0x0000_700b, field * 0x200_0000) == 0x0000_700b + field * 0x200_0000
  {
    hide Or, Pow2;
    Pow2Values();
    OrCommutes(0x0000_700b, field * 0x200_0000);
    OrShifted(field, 25, 0x0000_700b);
  }

  // ----- AArch64 -----

  /** MOVZ or MOVK: a fixed opcode above bit 21, a 16-bit immediate, a register. */
  function Aarch64MoveWide(opcode: u32, imm: u64, rd: nat): (w: u32)
    requires opcode % 0x20_0000 == 0 && rd < 32
    ensures w == opcode + imm % 0x1_0000 * 0x20 + rd
  {
    OrMoveWide(opcode, imm % 0x1_0000, rd);
    Or(Or(opcode, imm % 0x1_0000 * 0x20), rd)
  }

  lemma OrMoveWide(opcode: u32, imm: nat, rd: nat)
    requires opcode % 0x20_0000 == 0 && imm < 0x1_0000 && rd < 32
    ensures Or(Or(opcode, imm * 0x20), rd) == opcode + imm * 0x20 + rd
  {
    hide Or;
    OrMoveFields(opcode / 0x20_0000, imm, rd);
  }

  lemma OrMoveFields(q: nat, imm: nat, rd: nat)
    requires imm < 0x1_0000 && rd < 32
    ensures Or(Or(q * 0x20_0000, imm * 0x20), rd) == q * 0x20_0000 + imm * 0x20 + rd
  {
    hide Or, Pow2;
    Pow2Values();
    OrShifted(q, 21, imm * 0x20);
    OrShifted(q * 0x1_0000 + imm, 5, rd);
  }

  /** MOVZ and three MOVKs, one for each 16-bit part of the value. */
  function Aarch64MovAbs(rd: nat, value: u64): (ws: seq<u32>)
    requires rd < 32
    ensures |ws| == 4
  {
    [Aarch64MoveWide(0xd280_0000, value, rd),
     Aarch64MoveWide(0xf2a0_0000, value / 0x1_0000, rd),
     Aarch64MoveWide(0xf2c0_0000, value / 0x1_0000_0000, rd),
     Aarch64MoveWide(0xf2e0_0000, value / 0x1_0000_0000_0000, rd)]
  }

  /** ADR keeps 21 bits of the offset: the low two in bits 29..30, the rest in bits 5..23. */
  function Aarch64Adr(rd: nat, offset: int): (w: u32)
    ensures var imm := offset % 0x20_0000;
      w == imm % 4 * 0x2000_0000 + 0x1000_0000 + imm / 4 * 0x20 + rd % 32
  {
    var imm := offset % 0x20_0000;
    var lo, hi, r := imm % 4, imm / 4, rd % 32;
    assert hi < 0x8_0000 && imm / 4 % 0x8_0000 == hi;
    OrAdr(lo, hi, r);
    Or(Or(Or(0x1000_0000, imm % 4 * 0x2000_0000), imm / 4 % 0x8_0000 * 0x20), rd % 32)
  }

  lemma OrAdr(lo: nat, hi: nat, rd: nat)
    requires lo < 4 && hi < 0x8_0000 && rd < 32
    ensures Or(Or(Or(0x1000_0000, lo * 0x2000_0000), hi * 0x20), rd)
         == lo * 0x2000_0000 + 0x1000_0000 + hi * 0x20 + rd
  {
    hide Or, Pow2;
    Pow2Values();
    OrCommutes(0x1000_0000, lo * 0x2000_0000);
    OrShifted(lo, 29, 0x1000_0000);
    OrShifted(lo * 0x20 + 0x10, 24, hi * 0x20);
    OrShifted(lo * 0x100_0000 + 0x80_0000 + hi, 5, rd);
  }

  // ----- RISC-V -----

  /** LD: a 12-bit immediate, the base register, funct3 of 3, the destination, opcode 0x03. */
  function RiscvLd(rd: nat, rs1: nat, imm: int): (w: u32)
    ensures w == imm % 0x1000 * 0x10_0000 + rs1 % 32 * 0x8000 + 3 * 0x1000 + rd % 32 * 0x80 + 0x03
  {
    var uimm := imm % 0x1000;
    OrLd(uimm, rs1 % 32, rd % 32);
    Or(Or(Or(Or(uimm * 0x10_0000, rs1 % 32 * 0x8000), 3 * 0x1000), rd % 32 * 0x80), 0x03)
  }

  lemma OrLd(uimm: nat, rs1: nat, rd: nat)
    requires uimm < 0x1000 && rs1 < 32 && rd < 32
    ensures Or(Or(Or(Or(uimm * 0x10_0000, rs1 * 0x8000), 3 * 0x1000), rd * 0x80), 0x03)
         == uimm * 0x10_0000 + rs1 * 0x8000 + 3 * 0x1000 + rd * 0x80 + 0x03
  {
    hide Or, Pow2;
    Pow2Values();
    OrShifted(uimm, 20, rs1 * 0x8000);
    OrShifted(uimm * 0x20 + rs1, 15, 3 * 0x1000);
    OrShifted(uimm * 0x100 + rs1 * 8 + 3, 12, rd * 0x80);
    OrShifted(uimm * 0x2000 + rs1 * 0x100 + 3 * 0x20 + rd, 7, 0x03);
  }

  /** ADDI: a 12-bit immediate, the source register, the destination, opcode 0x13. */
  function RiscvAddi(rd: nat, rs1: nat, imm: int): (w: u32)
    ensures w == imm % 0x1000 * 0x10_0000 + rs1 % 32 * 0x8000 + rd % 32 * 0x80 + 0x13
  {
    var uimm := imm % 0x1000;
    OrAddi(uimm, rs1 % 32, rd % 32);
    Or(Or(Or(uimm * 0x10_0000, rs1 % 32 * 0x8000), rd % 32 * 0x80), 0x13)
  }

  lemma OrAddi(uimm: nat, rs1: nat, rd: nat)
    requires uimm < 0x1000 && rs1 < 32 && rd < 32
    ensures Or(Or(Or(uimm * 0x10_0000, rs1 * 0x8000), rd * 0x80), 0x13)
         == uimm * 0x10_0000 + rs1 * 0x8000 + rd * 0x80 + 0x13
  {
    hide Or, Pow2;
    Pow2Values();
    OrShifted(uimm, 20, rs1 * 0x8000);
    OrShifted(uimm * 0x100 + rs1 * 8, 12, rd * 0x80);
    OrShifted(uimm * 0x2000 + rs1 * 0x100 + rd, 7, 0x13);
  }

  /** The upper part of a PC-relative offset, rounded so that the lower part is signed. */
  function Hi20(offset: int): int { (offset + 0x800) / 0x1000 }

  function RiscvAuipc(rd: nat, offset: int): (w: u32)
    ensures w == Hi20(offset) % 0x10_0000 * 0x1000 + rd % 32 * 0x80 + 0x17
  {
    var hi := Hi20(offset) % 0x10_0000;
    OrAuipc(hi, rd % 32);
    Or(Or(hi * 0x1000, rd % 32 * 0x80), 0x17)
  }

  lemma OrAuipc(hi: nat, rd: nat)
    requires hi < 0x10_0000 && rd < 32
    ensures Or(Or(hi * 0x1000, rd * 0x80), 0x17) == hi * 0x1000 + rd * 0x80 + 0x17
  {
    hide Or, Pow2;
    Pow2Values();
    OrShifted(hi, 12, rd * 0x80);
    OrShifted(hi * 0x20 + rd, 7, 0x17);
  }

  /** ADDI of the lower part that AUIPC with the same offset leaves over. */
  function RiscvAddiLow(rd: nat, rs1: nat, offset: int): u32 {
    RiscvAddi(rd, rs1, offset - Hi20(offset) * 0x1000)
  }
}
