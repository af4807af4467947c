/** The three-frontend machine that the emitted programs run on.

Decoding follows the RISC-V Unprivileged ISA (sections 2.4 to 2.6 and 5.3) and the
Arm Architecture Reference Manual (section C6.2); only the instructions the emitters
use are decoded, and every other encoding faults.  Frontend changes follow the
transition hardware: a target must be canonical and aligned for its frontend, a call
pushes the caller on a transition stack of eight frames and leaves a reserved cookie
in the callee's link register, and a native return to the cookie pops that frame.
*/
module Machine {
  import opened Words
  import opened Encoders

  datatype Frontend = X86 | AArch64 | RiscV

  /** What a call across frontends remembers of its caller. */
  datatype Frame = Frame(frontend: Frontend, pc: u64)

  /** A register file; a register never written reads as zero. */
  type Regs = map<nat, u64>
  type Memory = map<u64, u8>

  datatype Cpu = Cpu(
    frontend: Frontend,
    pc: u64,
    x86: Regs,
    aarch64: Regs,
    riscv: Regs,
    zero: bool,              // the Z flag of the AArch64 frontend
    tls: u64,
    slots: map<nat, nat>,    // ABI signature slots and their kinds
    transitions: seq<Frame>  // most recent call first
  )

  datatype State = Running(cpu: Cpu) | Returned(cpu: Cpu) | Fault

  const RETURN_COOKIE: u64 := 0xffff_ffff_ffff_f000
  const TRANSITION_DEPTH: nat := 8
  const NATIVE_REGS_KIND: nat := 4

  function Reg(file: Regs, r: nat): u64 {
    if r in file then file[r] else 0
  }

  // ----- memory -----

  function Fetch32(mem: Memory, a: u64): Option<u32> {
    if a in mem && Add64(a, 1) in mem && Add64(a, 2) in mem && Add64(a, 3) in mem then
      Some(FromBytes32(mem[a], mem[Add64(a, 1)], mem[Add64(a, 2)], mem[Add64(a, 3)]))
    else None
  }

  function Load64(mem: Memory, a: u64): Option<u64> {
    match (Fetch32(mem, a), Fetch32(mem, Add64(a, 4)))
    case (Some(lo), Some(hi)) => var high: int := hi; Some(lo + high * 0x1_0000_0000)
    case _ => None
  }

  predicate ByteIs(mem: Memory, a: u64, b: u8) {
    a in mem && mem[a] == b
  }

  // ----- decoding -----

  function Signed(v: nat, limit: nat): int {
    if v < limit then v else v - 2 * limit
  }

  datatype Aarch64Insn =
    | Adr(rd: nat, offset: int)
    | Movz(rd: nat, imm: nat, part: nat)
    | Movk(rd: nat, imm: nat, part: nat)
    | AddImm(rd: nat, rn: nat, imm: nat)
    | SubsImm(rd: nat, rn: nat, imm: nat)
    | BranchNe(offset: int)
    | Ret(rn: nat)
    | Aarch64Ctrl(subop: nat)
    | Aarch64Undefined

  function DecodeAarch64(w: u32): Aarch64Insn {
    var rd, rn := w % 32, w / 0x20 % 32;
    if w / 0x1000 == 0xd5032 && rd == 31 then Aarch64Ctrl(w / 0x20 % 0x80)
    else if w / 0x400 == 0x359_7c0 && rd == 0 then Ret(rn)
    else if w / 0x100_0000 == 0x54 && w % 0x20 == 1 then
      BranchNe(4 * Signed(w / 0x20 % 0x8_0000, 0x4_0000))
    else if rd == 31 then Aarch64Undefined
    else if w < 0x8000_0000 && w / 0x100_0000 % 0x20 == 0x10 then
      Adr(rd, Signed(w / 0x20 % 0x8_0000 * 4 + w / 0x2000_0000 % 4, 0x10_0000))
    else if w / 0x80_0000 == 0x1a5 then Movz(rd, w / 0x20 % 0x1_0000, w / 0x20_0000 % 4)
    else if w / 0x80_0000 == 0x1e5 then Movk(rd, w / 0x20 % 0x1_0000, w / 0x20_0000 % 4)
    else if rn == 31 then Aarch64Undefined
    else if w / 0x40_0000 == 0x244 then AddImm(rd, rn, w / 0x400 % 0x1000)
    else if w / 0x40_0000 == 0x3c4 then SubsImm(rd, rn, w / 0x400 % 0x1000)
    else Aarch64Undefined
  }

  datatype RiscvInsn =
    | Auipc(rd: nat, imm: int)
    | Addi(rd: nat, rs1: nat, imm: int)
    | Ld(rd: nat, rs1: nat, imm: int)
    | Bne(rs1: nat, rs2: nat, offset: int)
    | Jalr(rd: nat, rs1: nat, imm: int)
    | RiscvCtrl(subop: nat)
    | RiscvUndefined

  function DecodeRiscv(w: u32): RiscvInsn {
    var opcode, rd, funct3 := w % 0x80, w / 0x80 % 32, w / 0x1000 % 8;
    var rs1, imm := w / 0x8000 % 32, Signed(w / 0x10_0000, 0x800);
    if opcode == 0x17 then Auipc(rd, Signed(w / 0x1000, 0x8_0000) * 0x1000)
    else if opcode == 0x13 && funct3 == 0 then Addi(rd, rs1, imm)
    else if opcode == 0x03 && funct3 == 3 then Ld(rd, rs1, imm)
    else if opcode == 0x63 && funct3 == 1 then
      Bne(rs1, w / 0x10_0000 % 32,
          Signed(w / 0x8000_0000 * 0x1000 + rd % 2 * 0x800
                 + w / 0x200_0000 % 0x40 * 0x20 + rd / 2 * 2, 0x1000))
    else if opcode == 0x67 && funct3 == 0 then Jalr(rd, rs1, imm)
    else if w % 0x200_0000 == 0x700b then RiscvCtrl(w / 0x200_0000)
    else RiscvUndefined
  }

  // ----- frontend transitions -----

  predicate Canonical(a: u64) {
    a < 0x8000_0000_0000 || a >= 0xffff_8000_0000_0000
  }

  predicate Aligned(f: Frontend, a: u64) {
    match f
    case X86 => true
    case AArch64 => a % 4 == 0
    case RiscV => a % 2 == 0
  }

  function FrontendOf(id: u64): Option<Frontend> {
    if id == 0 then Some(X86) else if id == 1 then Some(AArch64)
    else if id == 2 then Some(RiscV) else None
  }

  /** Copies eight registers of `from`, starting at `src`, over those of `to` at `dst`. */
  function CopyArgs(from: Regs, src: nat, to: Regs, dst: nat): Regs {
    to[dst := Reg(from, src)][dst + 1 := Reg(from, src + 1)][dst + 2 := Reg(from, src + 2)]
      [dst + 3 := Reg(from, src + 3)][dst + 4 := Reg(from, src + 4)][dst + 5 := Reg(from, src + 5)]
      [dst + 6 := Reg(from, src + 6)][dst + 7 := Reg(from, src + 7)]
  }

  /** The exchange window of the null signature, entering a frontend:
      RAX, RDX, RCX, RDI, RSI, R8, R9, R10. */
  function WindowIn(x86: Regs, to: Regs, dst: nat): Regs {
    to[dst := Reg(x86, 0)][dst + 1 := Reg(x86, 2)][dst + 2 := Reg(x86, 1)]
      [dst + 3 := Reg(x86, 7)][dst + 4 := Reg(x86, 6)][dst + 5 := Reg(x86, 8)]
      [dst + 6 := Reg(x86, 9)][dst + 7 := Reg(x86, 10)]
  }

  /** The exchange window of the null signature, leaving a frontend. */
  function WindowOut(from: Regs, src: nat, x86: Regs): Regs {
    x86[0 := Reg(from, src)][2 := Reg(from, src + 1)][1 := Reg(from, src + 2)]
       [7 := Reg(from, src + 3)][6 := Reg(from, src + 4)][8 := Reg(from, src + 5)]
       [9 := Reg(from, src + 6)][10 := Reg(from, src + 7)]
  }

  /** PENTER: the frontend is named by R15, its TLS base by R13, and code follows. */
  function Enter(c: Cpu): State
    requires c.frontend == X86
  {
    var target := Add64(c.pc, 4);
    match FrontendOf(Reg(c.x86, 15))
    case None => Fault
    case Some(f) =>
      if !Canonical(target) || !Aligned(f, target) then Fault else
        var next := c.(frontend := f, pc := target, tls := Reg(c.x86, 13));
        match f
        case X86 => Running(next)
        case AArch64 => Running(next.(aarch64 := WindowIn(c.x86, c.aarch64, 0)))
        case RiscV => Running(next.(riscv := WindowIn(c.x86, c.riscv, 10)))
  }

  /** The escape back to x86 code that follows the control instruction. */
  function Escape(c: Cpu): State {
    var target := Add64(c.pc, 4);
    if !Canonical(target) then Fault else
      match c.frontend
      case X86 => Fault
      case AArch64 => Running(c.(frontend := X86, pc := target, x86 := WindowOut(c.aarch64, 0, c.x86)))
      case RiscV => Running(c.(frontend := X86, pc := target, x86 := WindowOut(c.riscv, 10, c.x86)))
  }

  /** A call through the native-register signature: x0..x7 and a0..a7 are each other's
      arguments, and within one frontend they stay where they are.  Other signature kinds and
      calls from or to x86 fault here. */
  function CallNative(c: Cpu, slot: nat, id: u64, target: u64, ret: u64): State {
    if slot !in c.slots || c.slots[slot] != NATIVE_REGS_KIND then Fault else
      match FrontendOf(id)
      case None => Fault
      case Some(f) =>
        if !Canonical(target) || !Canonical(ret) || !Aligned(f, target)
           || |c.transitions| >= TRANSITION_DEPTH then Fault else
          var next := c.(frontend := f, pc := target,
                         transitions := [Frame(c.frontend, ret)] + c.transitions);
          if c.frontend == AArch64 && f == RiscV then
            Running(next.(riscv := CopyArgs(c.aarch64, 0, c.riscv, 10)[1 := RETURN_COOKIE]))
          else if c.frontend == RiscV && f == AArch64 then
            Running(next.(aarch64 := CopyArgs(c.riscv, 10, c.aarch64, 0)[30 := RETURN_COOKIE]))
          else if c.frontend == AArch64 && f == AArch64 then
            Running(next.(aarch64 := c.aarch64[30 := RETURN_COOKIE]))
          else if c.frontend == RiscV && f == RiscV then
            Running(next.(riscv := c.riscv[1 := RETURN_COOKIE]))
          else Fault
  }

  /** A native return: to the cookie it resumes the caller, otherwise it is a jump. */
  function Return(c: Cpu, target: u64): State {
    if target != RETURN_COOKIE then Running(c.(pc := target))
    else if c.transitions == [] then Fault
    else
      var frame := c.transitions[0];
      var next := c.(frontend := frame.frontend, pc := frame.pc, transitions := c.transitions[1..]);
      if c.frontend == RiscV && frame.frontend == AArch64 then
        Running(next.(aarch64 := CopyArgs(c.riscv, 10, c.aarch64, 0)))
      else if c.frontend == AArch64 && frame.frontend == RiscV then
        Running(next.(riscv := CopyArgs(c.aarch64, 0, c.riscv, 10)))
      else if c.frontend == frame.frontend then Running(next)
      else Fault
  }

  // ----- execution -----

  function Next(c: Cpu, size: nat): Cpu { c.(pc := Add64(c.pc, size)) }

  function StepX86(mem: Memory, c: Cpu): State
    requires c.frontend == X86
  {
    var p := c.pc;
    if ByteIs(mem, p, 0x90) then Running(Next(c, 1))
    else if ByteIs(mem, p, 0xc3) then Returned(c)
    else if ByteIs(mem, p, 0x4d) && ByteIs(mem, Add64(p, 1), 0x31) && ByteIs(mem, Add64(p, 2), 0xed) then
      Running(Next(c, 3).(x86 := c.x86[13 := 0]))          // xor r13,r13
    else if ByteIs(mem, p, 0x41) && ByteIs(mem, Add64(p, 1), 0xbf) && Fetch32(mem, Add64(p, 2)).Some? then
      Running(Next(c, 6).(x86 := c.x86[15 := Fetch32(mem, Add64(p, 2)).value]))  // mov r15d,imm32
    else if ByteIs(mem, p, 0x48) && ByteIs(mem, Add64(p, 1), 0x83) && ByteIs(mem, Add64(p, 2), 0xc0)
            && ByteIs(mem, Add64(p, 3), 0x05) then
      Running(Next(c, 4).(x86 := c.x86[0 := Add64(Reg(c.x86, 0), 5)]))  // add rax,5
    else if ByteIs(mem, p, 0x0f) && ByteIs(mem, Add64(p, 1), 0x3a) && ByteIs(mem, Add64(p, 2), 0xfc)
            && ByteIs(mem, Add64(p, 3), 0x03) then
      Enter(c)
    else Fault
  }

  /** `x` with its 16-bit part number `part` replaced. */
  function InsertPart(x: u64, part: nat, imm: nat): u64
    requires part < 4 && imm < 0x1_0000
  {
    match part
    case 0 => x / 0x1_0000 * 0x1_0000 + imm
    case 1 => x / 0x1_0000_0000 * 0x1_0000_0000 + imm * 0x1_0000 + x % 0x1_0000
    case 2 => x / 0x1_0000_0000_0000 * 0x1_0000_0000_0000 + imm * 0x1_0000_0000 + x % 0x1_0000_0000
    case _ => imm * 0x1_0000_0000_0000 + x % 0x1_0000_0000_0000
  }

  function ExecAarch64(insn: Aarch64Insn, c: Cpu): State
    requires c.frontend == AArch64
    requires insn.Movz? || insn.Movk? ==> insn.part < 4 && insn.imm < 0x1_0000
  {
    match insn
    case Adr(rd, offset) => Running(Next(c, 4).(aarch64 := c.aarch64[rd := Add64(c.pc, offset)]))
    case Movz(rd, imm, part) => Running(Next(c, 4).(aarch64 := c.aarch64[rd := InsertPart(0, part, imm)]))
    case Movk(rd, imm, part) =>
      Running(Next(c, 4).(aarch64 := c.aarch64[rd := InsertPart(Reg(c.aarch64, rd), part, imm)]))
    case AddImm(rd, rn, imm) =>
      Running(Next(c, 4).(aarch64 := c.aarch64[rd := Add64(Reg(c.aarch64, rn), imm)]))
    case SubsImm(rd, rn, imm) =>
      var v := Add64(Reg(c.aarch64, rn), 0 - imm as int);
      Running(Next(c, 4).(aarch64 := c.aarch64[rd := v], zero := v == 0))
    case BranchNe(offset) => Running(if c.zero then Next(c, 4) else c.(pc := Add64(c.pc, offset)))
    case Ret(rn) => Return(c, Reg(c.aarch64, rn))
    case Aarch64Ctrl(subop) =>
      if subop == AARCH64_ESCAPE_SUBOP then Escape(c)
      else if AARCH64_CALL_SIG_BASE <= subop < AARCH64_CALL_SIG_BASE + SLOT_COUNT then
        CallNative(c, subop - AARCH64_CALL_SIG_BASE,
                   Reg(c.aarch64, 17), Reg(c.aarch64, 16), Reg(c.aarch64, 18))
      else Fault
    case Aarch64Undefined => Fault
  }

  /** Register x0 of RISC-V reads as zero and ignores writes. */
  function RiscvReg(c: Cpu, r: nat): u64 {
    if r == 0 then 0 else Reg(c.riscv, r)
  }

  function RiscvWrite(c: Cpu, rd: nat, v: u64): Cpu {
    if rd == 0 then c else c.(riscv := c.riscv[rd := v])
  }

  function ExecRiscv(mem: Memory, insn: RiscvInsn, c: Cpu): State
    requires c.frontend == RiscV
  {
    match insn
    case Auipc(rd, imm) => Running(RiscvWrite(Next(c, 4), rd, Add64(c.pc, imm)))
    case Addi(rd, rs1, imm) => Running(RiscvWrite(Next(c, 4), rd, Add64(RiscvReg(c, rs1), imm)))
    case Ld(rd, rs1, imm) =>
      (match Load64(mem, Add64(RiscvReg(c, rs1), imm))
       case None => Fault
       case Some(v) => Running(RiscvWrite(Next(c, 4), rd, v)))
    case Bne(rs1, rs2, offset) =>
      Running(if RiscvReg(c, rs1) != RiscvReg(c, rs2) then c.(pc := Add64(c.pc, offset)) else Next(c, 4))
    case Jalr(rd, rs1, imm) =>
      var target := Add64(RiscvReg(c, rs1), imm);
      Return(RiscvWrite(c, rd, Add64(c.pc, 4)), target - target % 2)
    case RiscvCtrl(subop) =>
      if subop == RISCV_ESCAPE_SUBOP then Escape(c)
      else if RISCV_CALL_SIG_BASE <= subop < RISCV_CALL_SIG_BASE + SLOT_COUNT then
        CallNative(c, subop - RISCV_CALL_SIG_BASE, RiscvReg(c, 6), RiscvReg(c, 5), RiscvReg(c, 7))
      else Fault
    case RiscvUndefined => Fault
  }

  function Step(mem: Memory, s: State): State {
    match s
    case Returned(_) => s
    case Fault => s
    case Running(c) =>
      if c.frontend == X86 then StepX86(mem, c)
      else if !Aligned(c.frontend, c.pc) then Fault
      else
        match Fetch32(mem, c.pc)
        case None => Fault
        case Some(w) =>
          if c.frontend == AArch64 then ExecAarch64(DecodeAarch64(w), c)
          else ExecRiscv(mem, DecodeRiscv(w), c)
  }

  function Run(mem: Memory, s: State, n: nat): State
    decreases n
  {
    if n == 0 then s else Run(mem, Step(mem, s), n - 1)
  }

  lemma {:induction false} RunAdd(mem: Memory, s: State, m: nat, n: nat)
    ensures Run(mem, s, m + n) == Run(mem, Run(mem, s, m), n)
    decreases m
  {
    if m != 0 {
      RunAdd(mem, Step(mem, s), m - 1, n);
    }
  }

  // ----- the exchange window -----

  /** The x86 registers that the window exchanges, in the order of the window: RAX, RDX, RCX,
      RDI, RSI, R8, R9 and R10 by their numbers. */
  const WINDOW: seq<nat> := [0, 2, 1, 7, 6, 8, 9, 10]

  /** Entering, register `dst + i` becomes the window's register `i`; no other changes. */
  lemma WindowInMeans(x86: Regs, to: Regs, dst: nat, r: nat)
    ensures Reg(WindowIn(x86, to, dst), r) ==
      if dst <= r < dst + 8 then Reg(x86, WINDOW[r - dst]) else Reg(to, r)
  {
  }

  lemma WindowOutRegs(from: Regs, src: nat, x86: Regs)
    ensures var y := WindowOut(from, src, x86);
      && Reg(y, 0) == Reg(from, src) && Reg(y, 2) == Reg(from, src + 1) && Reg(y, 1) == Reg(from, src + 2)
      && Reg(y, 7) == Reg(from, src + 3) && Reg(y, 6) == Reg(from, src + 4) && Reg(y, 8) == Reg(from, src + 5)
      && Reg(y, 9) == Reg(from, src + 6) && Reg(y, 10) == Reg(from, src + 7)
  {
  }

  lemma WindowOutOther(from: Regs, src: nat, x86: Regs, r: nat)
    requires r != 0 && r != 1 && r != 2 && r != 6 && r != 7 && r != 8 && r != 9 && r != 10
    ensures Reg(WindowOut(from, src, x86), r) == Reg(x86, r)
  {
  }

  /** Leaving, the window's register `i` becomes register `src + i`; no other changes. */
  lemma WindowOutMeans(from: Regs, src: nat, x86: Regs, i: nat, r: nat)
    requires i < 8
    ensures Reg(WindowOut(from, src, x86), WINDOW[i]) == Reg(from, src + i)
    ensures r !in WINDOW ==> Reg(WindowOut(from, src, x86), r) == Reg(x86, r)
  {
    hide WindowOut, Reg;
    WindowOutRegs(from, src, x86);
    if r !in WINDOW {
      WindowMembers(r);
      WindowOutOther(from, src, x86, r);
    }
  }

  lemma WindowMembers(r: nat)
    requires r !in WINDOW
    ensures r != 0 && r != 1 && r != 2 && r != 6 && r != 7 && r != 8 && r != 9 && r != 10
  {
    assert WINDOW[0] == 0 && WINDOW[1] == 2 && WINDOW[2] == 1 && WINDOW[3] == 7;
    assert WINDOW[4] == 6 && WINDOW[5] == 8 && WINDOW[6] == 9 && WINDOW[7] == 10;
  }

  /** What enters a frontend and leaves it at once is what it was, in every register. */
  lemma WindowRoundTrip(x86: Regs, to: Regs, dst: nat, r: nat)
    ensures Reg(WindowOut(WindowIn(x86, to, dst), dst, x86), r) == Reg(x86, r)
  {
    hide WindowIn, WindowOut, Reg;
    if i :| 0 <= i < 8 && WINDOW[i] == r {
      WindowOutMeans(WindowIn(x86, to, dst), dst, x86, i, r);
      WindowInMeans(x86, to, dst, dst + i);
    } else {
      WindowOutMeans(WindowIn(x86, to, dst), dst, x86, 0, r);
    }
  }

  // ----- the transition stack in every run -----

  /** Where a call is to return to, as the caller says. */
  function LinkOf(c: Cpu): u64 {
    if c.frontend == AArch64 then Reg(c.aarch64, 18) else RiscvReg(c, 7)
  }

  /** Where a call goes, as the caller says. */
  function TargetOf(c: Cpu): u64 {
    if c.frontend == AArch64 then Reg(c.aarch64, 16) else RiscvReg(c, 5)
  }

  function TargetFrontendOf(c: Cpu): Option<Frontend> {
    FrontendOf(if c.frontend == AArch64 then Reg(c.aarch64, 17) else RiscvReg(c, 6))
  }

  /** Register by register: the eight registers from `dst` on are those of `from` from `src`
      on, the link register, if there is one, holds the cookie, and all others are as before. */
  ghost predicate Handed(after: Regs, before: Regs, dst: nat, from: Regs, src: nat, link: Option<nat>) {
    forall r: nat :: Reg(after, r) ==
      if link == Some(r) then 0xffff_ffff_ffff_f000
      else if dst <= r < dst + 8 then Reg(from, src + (r - dst)) else Reg(before, r)
  }

  lemma CopyArgsAt(from: Regs, src: nat, to: Regs, dst: nat, r: nat)
    ensures Reg(CopyArgs(from, src, to, dst), r) ==
      if dst <= r < dst + 8 then Reg(from, src + (r - dst)) else Reg(to, r)
  {
  }

  lemma CopyArgsMeans(from: Regs, src: nat, to: Regs, dst: nat)
    ensures Handed(CopyArgs(from, src, to, dst), to, dst, from, src, None)
  {
    hide CopyArgs, Reg;
    forall r: nat
      ensures Reg(CopyArgs(from, src, to, dst), r) ==
        if dst <= r < dst + 8 then Reg(from, src + (r - dst)) else Reg(to, r)
    {
      CopyArgsAt(from, src, to, dst, r);
    }
  }

  lemma LinkedArgsMeans(from: Regs, src: nat, to: Regs, dst: nat, link: nat)
    requires link < dst || link >= dst + 8
    ensures Handed(CopyArgs(from, src, to, dst)[link := RETURN_COOKIE], to, dst, from, src, Some(link))
  {
    hide CopyArgs;
    CopyArgsMeans(from, src, to, dst);
  }

  /** One frame more, with the caller's frontend and return address.  The callee starts where
      the caller says, with the caller's eight argument registers and the cookie as its link;
      the rest of its registers, and all registers of the other frontends, are as before. */
  ghost predicate Pushes(c: Cpu, d: Cpu) {
    && |c.transitions| < TRANSITION_DEPTH && Canonical(LinkOf(c))
    && d.transitions == [Frame(c.frontend, LinkOf(c))] + c.transitions
    && d.pc == TargetOf(c) && Some(d.frontend) == TargetFrontendOf(c) && d.x86 == c.x86
    && (c.frontend == AArch64 && d.frontend == RiscV ==>
        d.aarch64 == c.aarch64 && Handed(d.riscv, c.riscv, 10, c.aarch64, 0, Some(1)))
    && (c.frontend == RiscV && d.frontend == AArch64 ==>
        d.riscv == c.riscv && Handed(d.aarch64, c.aarch64, 0, c.riscv, 10, Some(30)))
    && (c.frontend == d.frontend == AArch64 ==>
        d.riscv == c.riscv && Handed(d.aarch64, c.aarch64, 0, c.aarch64, 0, Some(30)))
    && (c.frontend == d.frontend == RiscV ==>
        d.aarch64 == c.aarch64 && Handed(d.riscv, c.riscv, 10, c.riscv, 10, Some(1)))
  }

  /** One frame less: the machine resumes where the frame says, with the eight result
      registers of the code that returned.  A RISC-V return may write its link register. */
  ghost predicate Pops(c: Cpu, d: Cpu) {
    && c.transitions != [] && d.transitions == c.transitions[1..]
    && d.frontend == c.transitions[0].frontend && d.pc == c.transitions[0].pc
    && d.x86 == c.x86
    && (c.frontend == RiscV && d.frontend == AArch64 ==>
        Handed(d.aarch64, c.aarch64, 0, d.riscv, 10, None) && exists rd, v :: d.riscv == RiscvWrite(c, rd, v).riscv)
    && (c.frontend == AArch64 && d.frontend == RiscV ==>
        Handed(d.riscv, c.riscv, 10, d.aarch64, 0, None) && d.aarch64 == c.aarch64)
    && (c.frontend == d.frontend == AArch64 ==> d.aarch64 == c.aarch64 && d.riscv == c.riscv)
    && (c.frontend == d.frontend == RiscV ==>
        d.aarch64 == c.aarch64 && exists rd, v :: d.riscv == RiscvWrite(c, rd, v).riscv)
  }

  ghost predicate Moves(c: Cpu, s: State) {
    || s.Fault? || s.cpu.transitions == c.transitions
    || (s.Running? && (Pushes(c, s.cpu) || Pops(c, s.cpu)))
  }

  lemma CallMoves(c: Cpu, slot: nat, id: u64)
    requires c.frontend != X86 && TargetFrontendOf(c) == FrontendOf(id)
    ensures Moves(c, CallNative(c, slot, id, TargetOf(c), LinkOf(c)))
  {
    hide CopyArgs, Canonical, Aligned, LinkOf, TargetOf, TargetFrontendOf, FrontendOf, Pops, Handed;
    LinkedArgsMeans(c.aarch64, 0, c.riscv, 10, 1);
    LinkedArgsMeans(c.riscv, 10, c.aarch64, 0, 30);
    SameArgsMeans(c.aarch64, 0, 30);
    SameArgsMeans(c.riscv, 10, 1);
  }

  lemma SameArgsMeans(file: Regs, at: nat, link: nat)
    requires link < at || link >= at + 8
    ensures Handed(file[link := RETURN_COOKIE], file, at, file, at, Some(link))
  {
  }

  lemma ReturnMoves(c: Cpu, target: u64)
    ensures Moves(c, Return(c, target))
  {
    hide CopyArgs, Pushes, Handed;
    CopyArgsMeans(c.riscv, 10, c.aarch64, 0);
    CopyArgsMeans(c.aarch64, 0, c.riscv, 10);
    assert RiscvWrite(c, 0, 0).riscv == c.riscv;
  }

  /** Writing the link register before the return does not matter for the stack. */
  lemma JumpMoves(c: Cpu, rd: nat, v: u64, target: u64)
    requires c.frontend == RiscV
    ensures Moves(c, Return(RiscvWrite(c, rd, v), target))
  {
    hide CopyArgs, Pushes, Handed;
    var e := RiscvWrite(c, rd, v);
    CopyArgsMeans(e.riscv, 10, e.aarch64, 0);
  }

  lemma X86Moves(mem: Memory, c: Cpu)
    requires c.frontend == X86
    ensures Moves(c, StepX86(mem, c))
  {
    hide ByteIs, Fetch32, WindowIn, Canonical, Aligned, Pushes, Pops;
  }

  lemma DecodedPartFits(w: u32)
    ensures var insn := DecodeAarch64(w);
      insn.Movz? || insn.Movk? ==> insn.part < 4 && insn.imm < 0x1_0000
  {
  }

  lemma Aarch64Moves(insn: Aarch64Insn, c: Cpu)
    requires c.frontend == AArch64
    requires insn.Movz? || insn.Movk? ==> insn.part < 4 && insn.imm < 0x1_0000
    ensures Moves(c, ExecAarch64(insn, c))
  {
    hide CallNative, Return, InsertPart, WindowOut, Canonical, Pushes, Pops;
    match insn
    case Ret(rn) => ReturnMoves(c, Reg(c.aarch64, rn));
    case Aarch64Ctrl(subop) =>
      if AARCH64_CALL_SIG_BASE <= subop < AARCH64_CALL_SIG_BASE + SLOT_COUNT {
        CallMoves(c, subop - AARCH64_CALL_SIG_BASE, Reg(c.aarch64, 17));
      }
    case _ =>
  }

  lemma RiscvMoves(mem: Memory, insn: RiscvInsn, c: Cpu)
    requires c.frontend == RiscV
    ensures Moves(c, ExecRiscv(mem, insn, c))
  {
    hide CallNative, Return, Load64, WindowOut, Canonical, Pushes, Pops;
    match insn
    case Jalr(rd, rs1, imm) =>
      var target := Add64(RiscvReg(c, rs1), imm);
      JumpMoves(c, rd, Add64(c.pc, 4), target - target % 2);
    case RiscvCtrl(subop) =>
      if RISCV_CALL_SIG_BASE <= subop < RISCV_CALL_SIG_BASE + SLOT_COUNT {
        CallMoves(c, subop - RISCV_CALL_SIG_BASE, RiscvReg(c, 6));
      }
    case _ =>
  }

  /** Whatever is in memory, a step that does not fault leaves the stack alone, pushes the
      caller or resumes the latest caller. */
  lemma StepMoves(mem: Memory, c: Cpu)
    ensures Moves(c, Step(mem, Running(c)))
  {
    hide DecodeAarch64, DecodeRiscv, ExecAarch64, ExecRiscv, StepX86, Fetch32, Aligned, Moves;
    assert Moves(c, Fault) by { FaultMoves(c); }
    if c.frontend == X86 {
      X86Moves(mem, c);
    } else if Fetch32(mem, c.pc).Some? {
      if c.frontend == AArch64 {
        DecodedPartFits(Fetch32(mem, c.pc).value);
        Aarch64Moves(DecodeAarch64(Fetch32(mem, c.pc).value), c);
      } else {
        RiscvMoves(mem, DecodeRiscv(Fetch32(mem, c.pc).value), c);
      }
    }
  }

  lemma FaultMoves(c: Cpu)
    ensures Moves(c, Fault)
  {
  }

  /** The stack is within its depth, and every return address on it is canonical. */
  predicate StackOk(s: State) {
    s.Fault? || (|s.cpu.transitions| <= 8 &&
                 forall i :: 0 <= i < |s.cpu.transitions| ==> Canonical(s.cpu.transitions[i].pc))
  }

  /** Canonical addresses are those whose upper seventeen bits are all equal. */
  lemma CanonicalMeans(a: u64)
    ensures Canonical(a) <==> a / 0x8000_0000_0000 == 0 || a / 0x8000_0000_0000 == 0x1_ffff
  {
  }

  lemma StepKeepsStackOk(mem: Memory, c: Cpu)
    requires StackOk(Running(c))
    ensures StackOk(Step(mem, Running(c)))
  {
    hide Step, Canonical, LinkOf, TargetOf, Handed;
    StepMoves(mem, c);
  }

  /** Whatever is in memory, no run overflows the transition stack or puts an address on it
      that the machine could not return to. */
  lemma {:induction false} StackStaysOk(mem: Memory, s: State, n: nat)
    requires StackOk(s)
    ensures StackOk(Run(mem, s, n))
    decreases n
  {
    hide StackOk, StepX86, ExecAarch64, ExecRiscv, Fetch32, Aligned, DecodeAarch64, DecodeRiscv;
    if n > 0 {
      if s.Running? {
        StepKeepsStackOk(mem, s.cpu);
      }
      StackStaysOk(mem, Step(mem, s), n - 1);
    }
  }

  /** The run has not returned from depth `k`: at least `k` frames are on the stack. */
  predicate AtLeast(s: State, k: nat) {
    !s.Fault? && |s.cpu.transitions| >= k
  }

  /** The oldest `k` frames. */
  function Oldest(s: State, k: nat): seq<Frame>
    requires AtLeast(s, k)
  {
    s.cpu.transitions[|s.cpu.transitions| - k..]
  }

  lemma StepKeepsOldest(mem: Memory, s: State, k: nat)
    requires AtLeast(s, k) && AtLeast(Step(mem, s), k)
    ensures Oldest(Step(mem, s), k) == Oldest(s, k)
  {
    hide StepX86, ExecAarch64, ExecRiscv, Fetch32, Aligned, DecodeAarch64, DecodeRiscv;
    hide Canonical, LinkOf, TargetOf, Handed;
    if s.Running? {
      StepMoves(mem, s.cpu);
    }
  }

  /** As long as a run stays at depth `k` or deeper, whatever it calls and returns from in
      between, the oldest `k` frames do not change. */
  lemma {:induction false} OldestStay(mem: Memory, s: State, k: nat, n: nat)
    requires forall j :: 0 <= j <= n ==> AtLeast(Run(mem, s, j), k)
    ensures AtLeast(s, k) && Oldest(Run(mem, s, n), k) == Oldest(s, k)
    decreases n
  {
    hide Step, AtLeast, Oldest, Run;
    RunZero(mem, s);
    assert AtLeast(Run(mem, s, 0), k);
    if n > 0 {
      OldestStay(mem, s, k, n - 1);
      RunLast(mem, s, n - 1);
      assert AtLeast(Run(mem, s, n), k);
      StepKeepsOldest(mem, Run(mem, s, n - 1), k);
    }
  }

  lemma RunZero(mem: Memory, s: State)
    ensures Run(mem, s, 0) == s
  {
  }

  lemma RunLast(mem: Memory, s: State, n: nat)
    ensures Run(mem, s, n + 1) == Step(mem, Run(mem, s, n))
  {
    hide Step;
    RunAdd(mem, s, n, 1);
    assert Run(mem, Run(mem, s, n), 1) == Step(mem, Run(mem, s, n));
  }

  /** State `s` is the caller `c` resumed by the step from `e`. */
  ghost predicate BackIn(c: Cpu, e: State, s: State) {
    && e.Running? && s.Running? && s.cpu.frontend == c.frontend && s.cpu.pc == LinkOf(c)
    && s.cpu.transitions == c.transitions && Pops(e.cpu, s.cpu)
  }

  /** A return undoes its call, over whole runs of any program.  Let a step of `c` be a call
      and let the run stay at the callee's depth or deeper for `n` steps, with whatever
      nested calls.  If the next step leaves that depth, the machine is back in the caller's
      frontend, at the return address the caller gave, with the caller's stack and with the
      results of the code that returned. */
  lemma ReturnUndoesCall(mem: Memory, c: Cpu, d: Cpu, n: nat)
    requires Step(mem, Running(c)) == Running(d) && |d.transitions| > |c.transitions|
    requires forall j :: 0 <= j <= n ==> AtLeast(Run(mem, Running(d), j), |c.transitions| + 1)
    requires !AtLeast(Run(mem, Running(d), n + 1), |c.transitions| + 1) && !Run(mem, Running(d), n + 1).Fault?
    ensures BackIn(c, Run(mem, Running(d), n), Run(mem, Running(d), n + 1))
  {
    hide Step, Run, Canonical, LinkOf, TargetOf, Handed;
    var k := |c.transitions| + 1;
    StepMoves(mem, c);
    assert Pushes(c, d);
    OldestStay(mem, Running(d), k, n);
    var e := Run(mem, Running(d), n);
    assert AtLeast(e, k);
    RunLast(mem, Running(d), n);
    DropIsReturn(mem, e, k);
    assert d.transitions[1..] == c.transitions;
    assert e.cpu.transitions == Oldest(e, k) == Oldest(Running(d), k) == d.transitions;
  }

  /** Only a return makes the stack shorter, and by one frame. */
  lemma DropIsReturn(mem: Memory, e: State, k: nat)
    requires AtLeast(e, k) && !Step(mem, e).Fault? && |Step(mem, e).cpu.transitions| < k
    ensures e.Running? && Step(mem, e).Running? && |e.cpu.transitions| == k && Pops(e.cpu, Step(mem, e).cpu)
  {
    hide StepX86, ExecAarch64, ExecRiscv, Fetch32, Aligned, DecodeAarch64, DecodeRiscv;
    hide Canonical, LinkOf, TargetOf, Handed;
    if e.Running? {
      StepMoves(mem, e.cpu);
    }
  }
}
