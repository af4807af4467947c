/** The image a payload is run from: entry stub, link-register setup, the payload's code
and a stub that leads back to x86.
*/
module PayloadImage {
  import opened Words
  import opened Encoders
  import opened Emitter
  import opened Machine
  import opened CodeRuns
  import opened ElfLayout
  import Payload
  import SignalCode

  // ----- immediates -----

  /** ADR reaches an offset if and only if it fits in 21 signed bits. */
  lemma AdrReaches(rd: nat, offset: int)
    requires rd < 31
    ensures DecodeAarch64(Aarch64Adr(rd, offset)) == Adr(rd, Signed(offset % 0x20_0000, 0x10_0000))
    ensures DecodeAarch64(Aarch64Adr(rd, offset)) == Adr(rd, offset) <==> -0x10_0000 <= offset < 0x10_0000
  {
    hide Or, DecodeAarch64;
    var imm := offset % 0x20_0000;
    AdrFields(rd, imm % 4, imm / 4);
    Field(offset, offset / 0x20_0000, 0x20_0000, imm);
    if 0 <= offset < 0x10_0000 {
      Field(offset, 0, 0x20_0000, offset);
    } else if -0x10_0000 <= offset < 0 {
      Field(offset, -1, 0x20_0000, offset + 0x20_0000);
    }
  }

  lemma AdrFields(rd: nat, lo: nat, hi: nat)
    requires rd < 31 && lo < 4 && hi < 0x8_0000
    ensures DecodeAarch64(lo * 0x2000_0000 + 0x1000_0000 + hi * 0x20 + rd)
         == Adr(rd, Signed(hi * 4 + lo, 0x10_0000))
  {
    var w := lo * 0x2000_0000 + 0x1000_0000 + hi * 0x20 + rd;
    Field(w, lo * 0x100_0000 + 0x80_0000 + hi, 0x20, rd);
    Field(lo * 0x100_0000 + 0x80_0000 + hi, lo * 0x20 + 0x10, 0x8_0000, hi);
    Field(w, lo * 0x20 + 0x10, 0x100_0000, hi * 0x20 + rd);
    Field(lo * 0x20 + 0x10, lo, 0x20, 0x10);
    Field(w, lo, 0x2000_0000, 0x1000_0000 + hi * 0x20 + rd);
    Field(lo, 0, 4, lo);
  }

  /** AUIPC and ADDI recombine to the offset they were split from, for every offset whose
      rounded upper part fits in 20 signed bits. */
  lemma PairRecombines(rd: nat, offset: int)
    requires rd < 32 && -0x8000_0000 <= offset + 0x800 < 0x8000_0000
    ensures var hi := DecodeRiscv(RiscvAuipc(rd, offset));
      var lo := DecodeRiscv(RiscvAddiLow(rd, rd, offset));
      && hi.Auipc? && hi.rd == rd && lo.Addi? && lo.rd == rd && lo.rs1 == rd
      && hi.imm + lo.imm == offset
  {
    hide Or, DecodeRiscv;
    var h := Hi20(offset);
    var low := offset - h * 0x1000;
    assert -0x800 <= low < 0x800 && -0x8_0000 <= h < 0x8_0000;
    var uh := if h < 0 then h + 0x10_0000 else h;
    Field(h, if h < 0 then -1 else 0, 0x10_0000, uh);
    AuipcFields(rd, uh);
    var ul := if low < 0 then low + 0x1000 else low;
    Field(low, if low < 0 then -1 else 0, 0x1000, ul);
    AddiFields(rd, rd, ul);
  }

  lemma AuipcFields(rd: nat, hi: nat)
    requires rd < 32 && hi < 0x10_0000
    ensures DecodeRiscv(hi * 0x1000 + rd * 0x80 + 0x17) == Auipc(rd, Signed(hi, 0x8_0000) * 0x1000)
  {
    var w := hi * 0x1000 + rd * 0x80 + 0x17;
    Field(w, hi * 0x20 + rd, 0x80, 0x17);
    Field(hi * 0x20 + rd, hi, 0x20, rd);
    Field(w, hi, 0x1000, rd * 0x80 + 0x17);
  }

  lemma AddiFields(rd: nat, rs1: nat, uimm: nat)
    requires rd < 32 && rs1 < 32 && uimm < 0x1000
    ensures DecodeRiscv(uimm * 0x10_0000 + rs1 * 0x8000 + rd * 0x80 + 0x13) == Addi(rd, rs1, Signed(uimm, 0x800))
  {
    var w := uimm * 0x10_0000 + rs1 * 0x8000 + rd * 0x80 + 0x13;
    var w2 := uimm * 0x2000 + rs1 * 0x100 + rd;
    var w3 := uimm * 0x100 + rs1 * 8;
    Field(w, w2, 0x80, 0x13);
    Field(w2, w3, 0x20, rd);
    Field(w, w3, 0x1000, rd * 0x80 + 0x13);
    Field(w3, uimm * 0x20 + rs1, 8, 0);
    Field(w, uimm * 0x20 + rs1, 0x8000, w - (uimm * 0x20 + rs1) * 0x8000);
    Field(uimm * 0x20 + rs1, uimm, 0x20, rs1);
    Field(w, uimm, 0x10_0000, w - uimm * 0x10_0000);
  }

  // ----- the image -----

  /** The link register is set to the address after the payload, the syscall register to zero. */
  function SetupBytes(arch: u32, size: nat): (b: seq<u8>)
    ensures |b| == SetupSize(arch)
  {
    if arch == FRONTEND_AARCH64 then Bytes32(Aarch64Adr(30, size + 8)) + Bytes32(0xd280_0008)
    else Bytes32(RiscvAuipc(1, size + 12)) + Bytes32(RiscvAddiLow(1, 1, size + 12)) + Bytes32(0x0000_0893)
  }

  function SetupSize(arch: u32): nat { if arch == FRONTEND_AARCH64 then 8 else 12 }

  function TailBytes(finalArch: u32): (b: seq<u8>)
    ensures |b| == 5
  {
    if finalArch == FRONTEND_X86 then [0x48, 0x83, 0xc0, 0x05, 0xc3]
    else Bytes32(if finalArch == FRONTEND_AARCH64 then Aarch64Control(AARCH64_ESCAPE_SUBOP)
                 else RiscvControl(RISCV_ESCAPE_SUBOP)) + [0xc3]
  }

  predicate RawArch(arch: u32) { arch == FRONTEND_AARCH64 || arch == FRONTEND_RISCV }

  function ImageBytes(arch: u32, finalArch: u32, code: seq<u8>): (b: seq<u8>)
    requires RawArch(arch)
    ensures |b| == 16 + SetupSize(arch) + |code| + 5
  {
    SignalCode.EntryBytes(arch) + SetupBytes(arch, |code|) + code + TailBytes(finalArch)
  }

  /** Every byte of the mapping is emitted, once and in order; only raw frontends can be entered. */
  method EmitImage(arch: u32, finalArch: u32, code: seq<u8>) returns (image: CodeBuffer, ok: bool)
    ensures fresh(image) && fresh(image.bytes) && image.Valid()
    ensures ok <==> RawArch(arch)
    ensures ok ==> image.offset == image.bytes.Length && image.bytes[..] == ImageBytes(arch, finalArch, code)
  {
    hide Bytes32, Aarch64Adr, RiscvAuipc, RiscvAddiLow, Aarch64Control, RiscvControl, PenterBytes;
    var setup := if arch == FRONTEND_AARCH64 then 8 else 12;
    var penter := PenterSizeAt(3, if arch == FRONTEND_AARCH64 then FRONTEND_AARCH64 else FRONTEND_RISCV);
    image := new CodeBuffer(3 + penter + setup + |code| + 5);
    image.EmitPadding(3, 0x90);
    if !RawArch(arch) {
      return image, false;
    }
    image.EmitPenter(arch);
    assert image.Emitted() == SignalCode.EntryBytes(arch);
    EmitSetup(image, arch, |code|);
    image.EmitBytes(code);
    EmitTail(image, finalArch);
    assert image.Emitted() == image.bytes[..];
    return image, true;
  }

  method EmitSetup(image: CodeBuffer, arch: u32, size: nat)
    requires RawArch(arch) && image.Valid() && image.offset + SetupSize(arch) <= image.bytes.Length
    modifies image, image.bytes
    ensures image.Valid() && image.offset == old(image.offset) + SetupSize(arch)
    ensures image.Emitted() == old(image.Emitted()) + SetupBytes(arch, size)
  {
    hide Bytes32, Aarch64Adr, RiscvAuipc, RiscvAddiLow;
    if arch == FRONTEND_AARCH64 {
      image.EmitU32(Aarch64Adr(30, size + 8));
      image.EmitU32(0xd280_0008);
    } else {
      image.EmitU32(RiscvAuipc(1, size + 12));
      image.EmitU32(RiscvAddiLow(1, 1, size + 12));
      image.EmitU32(0x0000_0893);
    }
  }

  method EmitTail(image: CodeBuffer, finalArch: u32)
    requires image.Valid() && image.offset + 5 <= image.bytes.Length
    modifies image, image.bytes
    ensures image.Valid() && image.offset == old(image.offset) + 5
    ensures image.Emitted() == old(image.Emitted()) + TailBytes(finalArch)
  {
    hide Bytes32, Aarch64Control, RiscvControl;
    if finalArch == FRONTEND_X86 {
      image.EmitBytes([0x48, 0x83, 0xc0, 0x05]);
    } else {
      var escape := if finalArch == FRONTEND_AARCH64 then Aarch64Control(AARCH64_ESCAPE_SUBOP)
                    else RiscvControl(RISCV_ESCAPE_SUBOP);
      image.EmitU32(escape);
    }
    image.EmitByte(0xc3);
  }

  // ----- the link register at the payload's first instruction -----

  lemma ImageCode(mem: Memory, base: u64, arch: u32, finalArch: u32, code: seq<u8>)
    requires RawArch(arch) && base + |code| + 64 <= 0x8000_0000_0000
    requires CodeAt(mem, base, ImageBytes(arch, finalArch, code))
    ensures CodeAt(mem, base, SignalCode.EntryBytes(arch))
    ensures CodeAt(mem, base + 16, SetupBytes(arch, |code|))
    ensures CodeAt(mem, base + 16 + SetupSize(arch), code)
    ensures CodeAt(mem, base + 16 + SetupSize(arch) + |code|, TailBytes(finalArch))
  {
    hide CodeAt, SetupBytes, TailBytes, SignalCode.EntryBytes;
    var entry, setup := SignalCode.EntryBytes(arch), SetupBytes(arch, |code|);
    CodeSplit(mem, base, entry + setup + code, TailBytes(finalArch));
    CodeSplit(mem, base, entry + setup, code);
    CodeSplit(mem, base, entry, setup);
  }

  lemma Aarch64SetupCode(mem: Memory, a: u64, size: nat)
    requires a + 8 <= 0x8000_0000_0000 && CodeAt(mem, a, SetupBytes(FRONTEND_AARCH64, size))
    ensures CodeAt(mem, a, Bytes32(Aarch64Adr(30, size + 8))) && CodeAt(mem, a + 4, Bytes32(0xd280_0008))
  {
    hide CodeAt, Bytes32, Aarch64Adr;
    CodeSplit(mem, a, Bytes32(Aarch64Adr(30, size + 8)), Bytes32(0xd280_0008));
  }

  lemma ExecAdr(c: Cpu, rd: nat, offset: int)
    requires c.frontend == AArch64 && c.pc + 4 <= 0x8000_0000_0000
    ensures ExecAarch64(Adr(rd, offset), c)
         == Running(c.(pc := c.pc + 4, aarch64 := c.aarch64[rd := Add64(c.pc, offset)]))
  {
  }

  /** After the setup of an AArch64 payload, x30 holds the address of the tail if and only
      if the payload is smaller than 2^20 - 8 bytes; larger payloads are accepted too, and
      for them x30 lies 2^21 bytes below the tail. */
  lemma Aarch64Link(mem: Memory, base: u64, finalArch: u32, code: seq<u8>, c: Cpu)
    requires |code| <= Payload.MAX_PROGRAM_BYTES && Mapping(base, |code| + 64) && c.frontend == X86 && c.pc == base
    requires CodeAt(mem, base, ImageBytes(FRONTEND_AARCH64, finalArch, code))
    ensures var s := Run(mem, Running(c), 8);
      && s.Running? && s.cpu.frontend == AArch64 && s.cpu.pc == base + 24 && Reg(s.cpu.aarch64, 8) == 0
      && s.cpu.transitions == c.transitions
      && (Reg(s.cpu.aarch64, 30) == base + 24 + |code| <==> |code| + 8 < 0x10_0000)
      && (|code| + 8 >= 0x10_0000 ==> Reg(s.cpu.aarch64, 30) == Add64(base + 24 + |code|, -0x20_0000))
  {
    hide CodeAt, Run, ImageBytes, SetupBytes, SignalCode.EntryBytes, WindowIn;
    ImageCode(mem, base, FRONTEND_AARCH64, finalArch, code);
    EntryRuns(mem, c, FRONTEND_AARCH64);
    Aarch64SetupRuns(mem, Entered(c, FRONTEND_AARCH64), |code|);
    RunAdd(mem, Running(c), 6, 2);
  }

  lemma Aarch64SetupRuns(mem: Memory, e: Cpu, size: nat)
    requires e.frontend == AArch64 && e.pc % 4 == 0 && e.pc + 8 <= 0x8000_0000_0000 && size <= Payload.MAX_PROGRAM_BYTES
    requires CodeAt(mem, e.pc, SetupBytes(FRONTEND_AARCH64, size))
    ensures Run(mem, Running(e), 2) == Running(e.(pc := e.pc + 8,
      aarch64 := e.aarch64[30 := Add64(e.pc, Signed(size + 8, 0x10_0000))][8 := 0]))
  {
    hide CodeAt, Run, Step, SetupBytes, Aarch64Adr, Bytes32, DecodeAarch64, ExecAarch64, InsertPart;
    Aarch64SetupCode(mem, e.pc, size);
    AdrReaches(30, size + 8);
    Field(size + 8, 0, 0x20_0000, size + 8);
    var reached := Signed(size + 8, 0x10_0000);
    var c1 := e.(pc := e.pc + 4, aarch64 := e.aarch64[30 := Add64(e.pc, reached)]);
    StepAarch64(mem, e, Aarch64Adr(30, size + 8));
    ExecAdr(e, 30, reached);
    MoveWideStep(mem, c1, 0xd280_0000, 8, 0, 0);
    NoParts();
    RunOne(mem, Running(e), 2);
    RunOne(mem, Running(c1), 1);
    RunZero(mem, Step(mem, Running(c1)));
  }

  lemma NoParts()
    ensures InsertPart(0, 0, 0) == 0
  {
  }

  /** A size that the loader accepts and ADR does not reach. */
  lemma Aarch64LinkFails()
    ensures var size := 0x10_0000 - 8;
      && size % 4 == 0 && size <= Payload.MAX_PROGRAM_BYTES
      && DecodeAarch64(Aarch64Adr(30, size + 8)) == Adr(30, size + 8 - 0x20_0000)
  {
    hide Or, DecodeAarch64, Aarch64Adr;
    AdrReaches(30, 0x10_0000);
  }

  lemma RiscvSetupCode(mem: Memory, a: u64, size: nat)
    requires a + 12 <= 0x8000_0000_0000 && CodeAt(mem, a, SetupBytes(FRONTEND_RISCV, size))
    ensures CodeAt(mem, a, Bytes32(RiscvAuipc(1, size + 12)))
    ensures CodeAt(mem, a + 4, Bytes32(RiscvAddiLow(1, 1, size + 12)))
    ensures CodeAt(mem, a + 8, Bytes32(0x0000_0893))
  {
    hide CodeAt, Bytes32, RiscvAuipc, RiscvAddiLow;
    var b0, b1 := Bytes32(RiscvAuipc(1, size + 12)), Bytes32(RiscvAddiLow(1, 1, size + 12));
    CodeSplit(mem, a, b0 + b1, Bytes32(0x0000_0893));
    CodeSplit(mem, a, b0, b1);
  }

  lemma ExecZeroA7(mem: Memory, c: Cpu)
    requires c.frontend == RiscV && c.pc + 4 <= 0x8000_0000_0000
    ensures ExecRiscv(mem, DecodeRiscv(0x0000_0893), c) == Running(c.(pc := c.pc + 4, riscv := c.riscv[17 := 0]))
  {
    assert DecodeRiscv(0x0000_0893) == Addi(17, 0, 0);
  }

  /** After the setup of a RISC-V payload, ra holds the address of the tail, for every
      payload the loader accepts. */
  lemma RiscvLink(mem: Memory, base: u64, finalArch: u32, code: seq<u8>, c: Cpu)
    requires |code| <= Payload.MAX_PROGRAM_BYTES && Mapping(base, |code| + 64) && c.frontend == X86 && c.pc == base
    requires CodeAt(mem, base, ImageBytes(FRONTEND_RISCV, finalArch, code))
    ensures var s := Run(mem, Running(c), 9);
      && s.Running? && s.cpu.frontend == RiscV && s.cpu.pc == base + 28 && Reg(s.cpu.riscv, 17) == 0
      && s.cpu.transitions == c.transitions && Reg(s.cpu.riscv, 1) == base + 28 + |code|
  {
    hide CodeAt, Run, ImageBytes, SetupBytes, SignalCode.EntryBytes, WindowIn, Aligned;
    ImageCode(mem, base, FRONTEND_RISCV, finalArch, code);
    InMapping(base, |code| + 64, 16);
    EntryRuns(mem, c, FRONTEND_RISCV);
    RiscvSetupRuns(mem, Entered(c, FRONTEND_RISCV), |code|);
    RunAdd(mem, Running(c), 6, 3);
  }

  lemma RiscvSetupRuns(mem: Memory, e: Cpu, size: nat)
    requires e.frontend == RiscV && Aligned(RiscV, e.pc) && size <= Payload.MAX_PROGRAM_BYTES
    requires e.pc + size + 12 <= 0x8000_0000_0000 && CodeAt(mem, e.pc, SetupBytes(FRONTEND_RISCV, size))
    ensures Run(mem, Running(e), 3) == Running(e.(pc := e.pc + 12,
      riscv := e.riscv[1 := e.pc + size + 12][17 := 0]))
  {
    hide CodeAt, Run, Step, SetupBytes, Bytes32, DecodeRiscv, RiscvAuipc, RiscvAddiLow, ExecRiscv, Aligned, Canonical;
    RiscvSetupCode(mem, e.pc, size);
    EvenAt(e.pc);
    var offset := size + 12;
    PairRecombines(1, offset);
    var hi, lo := DecodeRiscv(RiscvAuipc(1, offset)), DecodeRiscv(RiscvAddiLow(1, 1, offset));
    var c1 := e.(pc := e.pc + 4, riscv := e.riscv[1 := Add64(e.pc, hi.imm)]);
    var c2 := e.(pc := e.pc + 8, riscv := e.riscv[1 := e.pc + offset]);
    StepRiscv(mem, e, RiscvAuipc(1, offset));
    ExecAuipc(mem, e, 1, hi.imm);
    StepRiscv(mem, c1, RiscvAddiLow(1, 1, offset));
    ExecAddi(mem, c1, 1, 1, lo.imm);
    AddAdd(e.pc, hi.imm, lo.imm);
    Field(e.pc + offset, 0, 0x1_0000_0000_0000_0000, e.pc + offset);
    assert c1.riscv[1 := e.pc + offset] == c2.riscv;
    StepRiscv(mem, c2, 0x0000_0893);
    ExecZeroA7(mem, c2);
    RunOne(mem, Running(e), 3);
    RunOne(mem, Running(c1), 2);
    RunOne(mem, Running(c2), 1);
    RunZero(mem, Step(mem, Running(c2)));
  }

  lemma EvenAt(a: u64)
    requires Aligned(RiscV, a)
    ensures a % 2 == 0 && (a + 4) % 2 == 0 && (a + 8) % 2 == 0
  {
  }

  // ----- the way back -----

  lemma EscapeTailCode(mem: Memory, a: u64, finalArch: u32)
    requires a + 5 <= 0x8000_0000_0000 && CodeAt(mem, a, TailBytes(finalArch)) && finalArch != FRONTEND_X86
    ensures CodeAt(mem, a, Bytes32(if finalArch == FRONTEND_AARCH64 then Aarch64Control(AARCH64_ESCAPE_SUBOP)
                                   else RiscvControl(RISCV_ESCAPE_SUBOP)))
    ensures ByteIs(mem, a + 4, 0xc3)
  {
    hide CodeAt, Bytes32, Aarch64Control, RiscvControl, ByteIs;
    var escape := Bytes32(if finalArch == FRONTEND_AARCH64 then Aarch64Control(AARCH64_ESCAPE_SUBOP)
                          else RiscvControl(RISCV_ESCAPE_SUBOP));
    CodeSplit(mem, a, escape, [0xc3]);
    CodeByte(mem, a + 4, [0xc3], 0);
  }

  /** At a tail for AArch64, AArch64 code returns x0 to the x86 caller if and only if the
      tail is word-aligned, and faults otherwise. */
  lemma Aarch64Tail(mem: Memory, c: Cpu)
    requires c.frontend == AArch64 && c.pc + 5 <= 0x8000_0000_0000
    requires CodeAt(mem, c.pc, TailBytes(FRONTEND_AARCH64))
    ensures Run(mem, Running(c), 2).Returned? <==> c.pc % 4 == 0
    ensures Run(mem, Running(c), 2).Fault? <==> c.pc % 4 != 0
    ensures c.pc % 4 == 0 ==> Reg(Run(mem, Running(c), 2).cpu.x86, 0) == Reg(c.aarch64, 0)
  {
    hide CodeAt, Run, TailBytes, WindowOut, DecodeAarch64, Aarch64Control, Bytes32, ExecAarch64, Reg;
    RunOne(mem, Running(c), 2);
    if c.pc % 4 == 0 {
      hide Step;
      EscapeTailCode(mem, c.pc, FRONTEND_AARCH64);
      Aarch64ControlDecodes();
      var c1 := c.(frontend := X86, pc := c.pc + 4, x86 := WindowOut(c.aarch64, 0, c.x86));
      StepAarch64(mem, c, Aarch64Control(AARCH64_ESCAPE_SUBOP));
      Aarch64Escapes(c);
      StepRet(mem, c1);
      WindowReturnsFirst(c.aarch64, 0, c.x86);
      RunOne(mem, Running(c1), 1);
      RunZero(mem, Returned(c1));
    } else {
      assert Step(mem, Running(c)) == Fault;
      RunOne(mem, Fault, 1);
      RunZero(mem, Fault);
    }
  }

  /** The sizes of code that the loader accepts for an architecture. */
  predicate ValidForArch(arch: u32, size: nat) {
    && size != 0
    && ((arch == FRONTEND_AARCH64 && size % 4 == 0) || (arch == FRONTEND_RISCV && size % 2 == 0))
  }

  /** A RISC-V payload whose program ends in the AArch64 frontend: at the tail, AArch64 code
      returns to the x86 caller if and only if the size of the payload is a multiple of four,
      and faults otherwise. */
  lemma SwitchedTail(mem: Memory, base: u64, code: seq<u8>, c: Cpu)
    requires Mapping(base, |code| + 64)
    requires CodeAt(mem, base, ImageBytes(FRONTEND_RISCV, FRONTEND_AARCH64, code))
    requires c.frontend == AArch64 && c.pc == base + 28 + |code|
    ensures Run(mem, Running(c), 2).Returned? <==> |code| % 4 == 0
    ensures Run(mem, Running(c), 2).Fault? <==> |code| % 4 != 0
    ensures |code| % 4 == 0 ==> Reg(Run(mem, Running(c), 2).cpu.x86, 0) == Reg(c.aarch64, 0)
  {
    hide *;
    RiscvTailAt(base, |code|);
    ImageCode(mem, base, FRONTEND_RISCV, FRONTEND_AARCH64, code);
    Aarch64Tail(mem, c);
  }

  lemma RiscvTailAt(base: u64, size: nat)
    requires Mapping(base, size + 64)
    ensures (base + 28 + size) % 4 == size % 4
    ensures size % 2 == 0 ==> (base + 28 + size) % 2 == 0
    ensures base + size + 64 <= 0x8000_0000_0000 && RawArch(FRONTEND_RISCV) && SetupSize(FRONTEND_RISCV) == 12
  {
    Field(base + 28 + size, base / 4 + 7 + size / 4, 4, size % 4);
    EvenWord(base);
    if size % 2 == 0 {
      Field(base + 28 + size, base / 2 + 14 + size / 2, 2, 0);
    }
  }

  /** The loader accepts a RISC-V payload of one compressed instruction, whose AArch64 tail
      no AArch64 code can run. */
  lemma SwitchedTailFails(mem: Memory, base: u64, c: Cpu)
    requires Mapping(base, 66) && CodeAt(mem, base, ImageBytes(FRONTEND_RISCV, FRONTEND_AARCH64, [0x01, 0x00]))
    requires c.frontend == AArch64 && c.pc == base + 30
    ensures ValidForArch(FRONTEND_RISCV, 2) && Run(mem, Running(c), 2).Fault?
  {
    hide CodeAt, Run, ImageBytes, Mapping;
    SwitchedTail(mem, base, [0x01, 0x00], c);
  }

  lemma RiscvTail(mem: Memory, c: Cpu)
    requires c.frontend == RiscV && c.pc % 2 == 0 && c.pc + 5 <= 0x8000_0000_0000
    requires CodeAt(mem, c.pc, TailBytes(FRONTEND_RISCV))
    ensures var s := Run(mem, Running(c), 2); s.Returned? && Reg(s.cpu.x86, 0) == Reg(c.riscv, 10)
  {
    hide CodeAt, Run, TailBytes, WindowOut, DecodeRiscv, RiscvControl, Bytes32, ExecRiscv, Reg, Step;
    EscapeTailCode(mem, c.pc, FRONTEND_RISCV);
    RiscvControlDecodes();
    var c1 := c.(frontend := X86, pc := c.pc + 4, x86 := WindowOut(c.riscv, 10, c.x86));
    StepRiscv(mem, c, RiscvControl(RISCV_ESCAPE_SUBOP));
    RiscvEscapes(mem, c);
    StepRet(mem, c1);
    WindowReturnsFirst(c.riscv, 10, c.x86);
    RunOne(mem, Running(c), 2);
    RunOne(mem, Running(c1), 1);
    RunZero(mem, Returned(c1));
  }

  /** A program that ends in x86 code has five added to its result. */
  lemma X86Tail(mem: Memory, c: Cpu)
    requires c.frontend == X86 && c.pc + 5 <= 0x8000_0000_0000 && CodeAt(mem, c.pc, TailBytes(FRONTEND_X86))
    ensures var s := Run(mem, Running(c), 2);
      s.Returned? && Reg(s.cpu.x86, 0) == Add64(Reg(c.x86, 0), 5) && s.cpu.transitions == c.transitions
  {
    hide CodeAt, Run, Step;
    var b := TailBytes(FRONTEND_X86);
    CodeByte(mem, c.pc, b, 0);
    CodeByte(mem, c.pc, b, 1);
    CodeByte(mem, c.pc, b, 2);
    CodeByte(mem, c.pc, b, 3);
    CodeByte(mem, c.pc, b, 4);
    var c1 := c.(pc := c.pc + 4, x86 := c.x86[0 := Add64(Reg(c.x86, 0), 5)]);
    StepAddFive(mem, c);
    StepRet(mem, c1);
    RunOne(mem, Running(c), 2);
    RunOne(mem, Running(c1), 1);
    RunZero(mem, Returned(c1));
  }

  lemma StepAddFive(mem: Memory, c: Cpu)
    requires c.frontend == X86 && c.pc + 4 <= 0x8000_0000_0000
    requires ByteIs(mem, c.pc, 0x48) && ByteIs(mem, c.pc + 1, 0x83)
    requires ByteIs(mem, c.pc + 2, 0xc0) && ByteIs(mem, c.pc + 3, 0x05)
    ensures Step(mem, Running(c))
         == Running(c.(pc := c.pc + 4, x86 := c.x86[0 := Add64(Reg(c.x86, 0), 5)]))
  {
  }

  /** An AArch64 payload that ends with `ret` while x30 still holds the address of the tail
      hands x0 to the x86 caller. */
  lemma Aarch64PayloadReturns(mem: Memory, c: Cpu, tail: u64)
    requires c.frontend == AArch64 && c.pc % 4 == 0 && CodeAt(mem, c.pc, Bytes32(0xd65f_03c0))
    requires Reg(c.aarch64, 30) == tail && tail % 4 == 0 && tail + 5 <= 0x8000_0000_0000
    requires CodeAt(mem, tail, TailBytes(FRONTEND_AARCH64))
    ensures var s := Run(mem, Running(c), 3); s.Returned? && Reg(s.cpu.x86, 0) == Reg(c.aarch64, 0)
  {
    hide CodeAt, Run, TailBytes, DecodeAarch64, Bytes32, Step;
    Aarch64Decodes();
    StepAarch64(mem, c, 0xd65f_03c0);
    Aarch64Tail(mem, c.(pc := tail));
    RunOne(mem, Running(c), 3);
  }

  /** From the image's first byte to the return: a payload that x30 can reach the tail from,
      and that comes to a `ret` with x30 as the setup left it, hands its x0 to the caller. */
  lemma Aarch64ImageReturns(mem: Memory, base: u64, code: seq<u8>, c: Cpu, n: nat, d: Cpu)
    requires Mapping(base, |code| + 64) && c.frontend == X86 && c.pc == base
    requires CodeAt(mem, base, ImageBytes(FRONTEND_AARCH64, FRONTEND_AARCH64, code))
    requires |code| + 8 < 0x10_0000 && |code| % 4 == 0
    requires var s := Run(mem, Running(c), 8);
      && s.Running? && Run(mem, s, n) == Running(d) && Reg(d.aarch64, 30) == Reg(s.cpu.aarch64, 30)
    requires d.frontend == AArch64 && d.pc % 4 == 0 && CodeAt(mem, d.pc, Bytes32(0xd65f_03c0))
    ensures var s := Run(mem, Running(c), 11 + n); s.Returned? && Reg(s.cpu.x86, 0) == Reg(d.aarch64, 0)
  {
    hide *;
    SmallPayload(base, |code|);
    Aarch64Link(mem, base, FRONTEND_AARCH64, code, c);
    ImageCode(mem, base, FRONTEND_AARCH64, FRONTEND_AARCH64, code);
    Aarch64PayloadReturns(mem, d, base + 24 + |code|);
    RunAdd(mem, Running(c), 8, n);
    RunAdd(mem, Running(c), 8 + n, 3);
  }

  lemma SmallPayload(base: u64, size: nat)
    requires Mapping(base, size + 64) && size + 8 < 0x10_0000 && size % 4 == 0
    ensures size <= Payload.MAX_PROGRAM_BYTES && (base + 24 + size) % 4 == 0
    ensures base + size + 64 <= 0x8000_0000_0000 && RawArch(FRONTEND_AARCH64)
    ensures SetupSize(FRONTEND_AARCH64) == 8
  {
    Field(base + 24 + size, base / 4 + 6 + size / 4, 4, 0);
  }

  /** A RISC-V payload that ends with `ret` while ra still holds the address of the tail hands
      a0 to the x86 caller. */
  lemma RiscvPayloadReturns(mem: Memory, c: Cpu, tail: u64)
    requires c.frontend == RiscV && c.pc % 2 == 0 && CodeAt(mem, c.pc, Bytes32(0x0000_8067))
    requires Reg(c.riscv, 1) == tail && tail % 2 == 0 && tail + 5 <= 0x8000_0000_0000
    requires CodeAt(mem, tail, TailBytes(FRONTEND_RISCV))
    ensures var s := Run(mem, Running(c), 3); s.Returned? && Reg(s.cpu.x86, 0) == Reg(c.riscv, 10)
  {
    hide CodeAt, Run, TailBytes, DecodeRiscv, Bytes32, Step;
    RiscvDecodes();
    StepRiscv(mem, c, 0x0000_8067);
    JumpsTo(mem, c, tail);
    RiscvTail(mem, c.(pc := tail));
    RunOne(mem, Running(c), 3);
  }

  lemma JumpsTo(mem: Memory, c: Cpu, tail: u64)
    requires c.frontend == RiscV && Reg(c.riscv, 1) == tail && tail % 2 == 0 && tail < 0x8000_0000_0000
    ensures ExecRiscv(mem, Jalr(0, 1, 0), c) == Running(c.(pc := tail))
  {
    AddZero(tail);
  }

  /** From the image's first byte to the return, for every RISC-V payload that is accepted: if
      it comes to a `ret` with ra as the setup left it, it hands its a0 to the caller. */
  lemma RiscvImageReturns(mem: Memory, base: u64, code: seq<u8>, c: Cpu, n: nat, d: Cpu)
    requires Mapping(base, |code| + 64) && c.frontend == X86 && c.pc == base
    requires CodeAt(mem, base, ImageBytes(FRONTEND_RISCV, FRONTEND_RISCV, code))
    requires ValidForArch(FRONTEND_RISCV, |code|) && |code| <= Payload.MAX_PROGRAM_BYTES
    requires var s := Run(mem, Running(c), 9);
      && s.Running? && Run(mem, s, n) == Running(d) && Reg(d.riscv, 1) == Reg(s.cpu.riscv, 1)
    requires d.frontend == RiscV && d.pc % 2 == 0 && CodeAt(mem, d.pc, Bytes32(0x0000_8067))
    ensures var s := Run(mem, Running(c), 12 + n); s.Returned? && Reg(s.cpu.x86, 0) == Reg(d.riscv, 10)
  {
    hide *;
    EvenSize(|code|);
    RiscvTailAt(base, |code|);
    RiscvLink(mem, base, FRONTEND_RISCV, code, c);
    ImageCode(mem, base, FRONTEND_RISCV, FRONTEND_RISCV, code);
    RiscvPayloadReturns(mem, d, base + 28 + |code|);
    RunAdd(mem, Running(c), 9, n);
    RunAdd(mem, Running(c), 9 + n, 3);
  }

  lemma EvenSize(size: nat)
    requires ValidForArch(FRONTEND_RISCV, size)
    ensures size % 2 == 0
  {
  }

  // ----- from the ELF file to the result -----

  /** Loads an ELF file, checks the size of its code and writes the image it is run from. */
  method LoadImage(file: seq<u8>, arch: u32, finalArch: u32, memory: bool) returns (image: CodeBuffer?, ok: bool)
    ensures var code := Payload.ElfCode(file, Payload.MachineOf(arch));
      && (ok <==> code.Some? && memory && ValidForArch(arch, |code.value|))
      && (ok ==> image != null && fresh(image) && fresh(image.bytes) && image.Valid()
                 && image.bytes[..] == ImageBytes(arch, finalArch, code.value))
  {
    hide Payload.ElfCode, ImageBytes;
    image := null;
    var payload := new Payload.CodeBytes();
    ok := payload.LoadElf(file, arch, memory);
    if !ok || !ValidForArch(arch, payload.size) {
      return null, false;
    }
    image, ok := EmitImage(arch, finalArch, payload.bytes[..payload.size]);
  }

  /** The file, spelled out as `h` and `segs`, is an executable for the architecture; `code` is
      what the first segment that covers the entry holds from the entry on, and its size is
      valid. */
  ghost predicate Holds(file: seq<u8>, h: Ehdr, segs: seq<Phdr>, arch: u32, k: nat, code: seq<u8>) {
    && Spelled(file, h, segs) && ExecutableFor(h, arch) && Code(file, h, segs, k, code)
    && ValidForArch(arch, |code|)
  }

  lemma HoldsMeans(file: seq<u8>, h: Ehdr, segs: seq<Phdr>, arch: u32, k: nat, code: seq<u8>)
    requires Holds(file, h, segs, arch, k, code)
    ensures Payload.ElfCode(file, Payload.MachineOf(arch)) == Some(code)
    ensures ValidForArch(arch, |code|) && |code| <= Payload.MAX_PROGRAM_BYTES
  {
    hide Spelled, ExecutableFor, Code, Payload.ElfCode;
    SpelledCode(file, h, segs, arch, code);
    CodeInTable(file, h, segs, k, code);
  }

  /** The whole way of a RISC-V payload, for every acceptable file: the loader takes the code
      from the entry to the end of the first segment that holds it, and if that code, run from
      its image, comes to a `ret` with ra as the setup left it, the caller gets its a0. */
  lemma RiscvElfReturns(file: seq<u8>, h: Ehdr, segs: seq<Phdr>, k: nat, code: seq<u8>,
                        mem: Memory, base: u64, c: Cpu, n: nat, d: Cpu)
    requires Holds(file, h, segs, FRONTEND_RISCV, k, code)
    requires Mapping(base, |code| + 64) && c.frontend == X86 && c.pc == base
    requires CodeAt(mem, base, ImageBytes(FRONTEND_RISCV, FRONTEND_RISCV, code))
    requires var s := Run(mem, Running(c), 9);
      && s.Running? && Run(mem, s, n) == Running(d) && Reg(d.riscv, 1) == Reg(s.cpu.riscv, 1)
    requires d.frontend == RiscV && d.pc % 2 == 0 && CodeAt(mem, d.pc, Bytes32(0x0000_8067))
    ensures Payload.ElfCode(file, Payload.MachineOf(FRONTEND_RISCV)) == Some(code)
    ensures var s := Run(mem, Running(c), 12 + n); s.Returned? && Reg(s.cpu.x86, 0) == Reg(d.riscv, 10)
  {
    hide *;
    HoldsMeans(file, h, segs, FRONTEND_RISCV, k, code);
    RiscvImageReturns(mem, base, code, c, n, d);
  }

  /** The same for an AArch64 payload whose tail ADR can reach. */
  lemma Aarch64ElfReturns(file: seq<u8>, h: Ehdr, segs: seq<Phdr>, k: nat, code: seq<u8>,
                          mem: Memory, base: u64, c: Cpu, n: nat, d: Cpu)
    requires Holds(file, h, segs, FRONTEND_AARCH64, k, code) && |code| + 8 < 0x10_0000
    requires Mapping(base, |code| + 64) && c.frontend == X86 && c.pc == base
    requires CodeAt(mem, base, ImageBytes(FRONTEND_AARCH64, FRONTEND_AARCH64, code))
    requires var s := Run(mem, Running(c), 8);
      && s.Running? && Run(mem, s, n) == Running(d) && Reg(d.aarch64, 30) == Reg(s.cpu.aarch64, 30)
    requires d.frontend == AArch64 && d.pc % 4 == 0 && CodeAt(mem, d.pc, Bytes32(0xd65f_03c0))
    ensures Payload.ElfCode(file, Payload.MachineOf(FRONTEND_AARCH64)) == Some(code)
    ensures var s := Run(mem, Running(c), 11 + n); s.Returned? && Reg(s.cpu.x86, 0) == Reg(d.aarch64, 0)
  {
    hide *;
    HoldsMeans(file, h, segs, FRONTEND_AARCH64, k, code);
    WordSize(|code|);
    Aarch64ImageReturns(mem, base, code, c, n, d);
  }

  lemma WordSize(size: nat)
    requires ValidForArch(FRONTEND_AARCH64, size)
    ensures size % 4 == 0
  {
  }
}
