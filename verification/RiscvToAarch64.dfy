/** The RISC-V program that calls AArch64 code returns the seed plus nine, whatever the
seed, the loop count and the address it is mapped at.
*/
module RiscvToAarch64 {
  import opened Words
  import opened Encoders
  import opened Emitter
  import opened Machine
  import opened SignalCode
  import opened CodeRuns

  // ----- PC-relative loads -----

  /** Every 12-bit signed immediate survives encoding and decoding. */
  lemma LdRoundTrip(rd: nat, rs1: nat, imm: int)
    requires rd < 32 && rs1 < 32 && -0x800 <= imm < 0x800
    ensures DecodeRiscv(RiscvLd(rd, rs1, imm)) == Ld(rd, rs1, imm)
  {
    hide Or, DecodeRiscv;
    var uimm := if imm < 0 then imm + 0x1000 else imm;
    Field(imm, if imm < 0 then -1 else 0, 0x1000, uimm);
    LdFields(rd, rs1, uimm);
  }

  lemma LdFields(rd: nat, rs1: nat, uimm: nat)
    requires rd < 32 && rs1 < 32 && uimm < 0x1000
    ensures var w := uimm * 0x10_0000 + rs1 * 0x8000 + 3 * 0x1000 + rd * 0x80 + 0x03;
      DecodeRiscv(w) == Ld(rd, rs1, Signed(uimm, 0x800))
  {
    var w := uimm * 0x10_0000 + rs1 * 0x8000 + 3 * 0x1000 + rd * 0x80 + 0x03;
    var w2 := uimm * 0x2000 + rs1 * 0x100 + 3 * 0x20 + rd;
    var w3 := uimm * 0x100 + rs1 * 8 + 3;
    Field(w, w2, 0x80, 0x03);
    Field(w2, w3, 0x20, rd);
    Field(w, w3, 0x1000, rd * 0x80 + 0x03);
    Field(w3, uimm * 0x20 + rs1, 8, 3);
    Field(w, uimm * 0x20 + rs1, 0x8000, w - (uimm * 0x20 + rs1) * 0x8000);
    Field(uimm * 0x20 + rs1, uimm, 0x20, rs1);
    Field(w, uimm, 0x10_0000, w - uimm * 0x10_0000);
  }

  lemma CallerDecodes()
    ensures DecodeRiscv(0x0000_0517) == Auipc(10, 0) && DecodeRiscv(0x0000_0597) == Auipc(11, 0)
    ensures DecodeRiscv(0x0000_0297) == Auipc(5, 0) && DecodeRiscv(0x0000_0397) == Auipc(7, 0)
    ensures DecodeRiscv(RiscvAddi(6, 0, 1)) == Addi(6, 0, 1)
  {
    hide Or;
    assert RiscvAddi(6, 0, 1) == 0x0010_0313;
  }

  lemma EightBytes(v: u64)
    ensures BytesOf(v, 8) == Bytes32(v % 0x1_0000_0000) + Bytes32(v / 0x1_0000_0000)
  {
    var low, high := v % 0x1_0000_0000, v / 0x1_0000_0000;
    FourBytes(v, low, 4);
    FourBytes(high, high, 0);
    assert v / 0x1_0000_0000 == high;
  }

  lemma FourBytes(v: nat, low: u32, n: nat)
    requires low == v % 0x1_0000_0000
    ensures BytesOf(v, 4 + n) == Bytes32(low) + BytesOf(v / 0x1_0000_0000, n)
  {
    var q1 := v / 0x100;
    var q2 := q1 / 0x100;
    var q3 := q2 / 0x100;
    var q4 := q3 / 0x100;
    assert q4 == v / 0x1_0000_0000;
    var l1 := low / 0x100;
    var l2 := l1 / 0x100;
    var l3 := l2 / 0x100;
    assert low / 0x1_0000 == l2;
    assert low / 0x100_0000 == l3;
    assert v == low + 0x1_0000_0000 * q4;
    assert q1 == l1 + 0x100_0000 * q4;
    assert q2 == l2 + 0x1_0000 * q4;
    assert q3 == l3 + 0x100 * q4;
    assert l3 < 0x100;
    assert v % 0x100 == low % 0x100;
    assert q1 % 0x100 == l1 % 0x100;
    assert q2 % 0x100 == l2 % 0x100;
    assert q3 % 0x100 == l3 % 0x100;
    assert BytesOf(v, 4 + n) == [v % 256] + BytesOf(q1, 3 + n);
    assert BytesOf(q1, 3 + n) == [q1 % 256] + BytesOf(q2, 2 + n);
    assert BytesOf(q2, 2 + n) == [q2 % 256] + BytesOf(q3, 1 + n);
  }

  lemma LoadData(mem: Memory, a: u64, v: u64)
    requires a + 8 <= 0x8000_0000_0000 && CodeAt(mem, a, BytesOf(v, 8))
    ensures Load64(mem, a) == Some(v)
  {
    hide CodeAt, BytesOf, Bytes32, Fetch32;
    EightBytes(v);
    CodeSplit(mem, a, Bytes32(v % 0x1_0000_0000), Bytes32(v / 0x1_0000_0000));
    FetchCode(mem, a, v % 0x1_0000_0000);
    FetchCode(mem, a + 4, v / 0x1_0000_0000);
  }

  /** `auipc rd,0` and the load after it put the datum in `rd`. */
  lemma LoadRuns(mem: Memory, c: Cpu, auipc: u32, rd: nat, imm: int, v: u64)
    requires c.frontend == RiscV && c.pc % 2 == 0
    requires c.pc + 8 <= 0x8000_0000_0000 && c.pc + imm + 8 <= 0x8000_0000_0000
    requires 0 < rd < 32 && 0 <= imm < 0x800 && DecodeRiscv(auipc) == Auipc(rd, 0)
    requires CodeAt(mem, c.pc, Bytes32(auipc)) && CodeAt(mem, c.pc + 4, Bytes32(RiscvLd(rd, rd, imm)))
    requires CodeAt(mem, c.pc + imm, BytesOf(v, 8))
    ensures Run(mem, Running(c), 2) == Running(c.(pc := c.pc + 8, riscv := c.riscv[rd := v]))
    ensures Stays(mem, Running(c), 2, RiscV)
  {
    hide *;
    var c1 := c.(pc := c.pc + 4, riscv := c.riscv[rd := c.pc]);
    StepRiscv(mem, c, auipc);
    ExecAuipc(mem, c, rd, 0);
    AddZero(c.pc);
    LdRoundTrip(rd, rd, imm);
    StepRiscv(mem, c1, RiscvLd(rd, rd, imm));
    LoadData(mem, c.pc + imm, v);
    RegWritten(c.riscv, rd, c.pc);
    ExecLd(mem, c1, rd, imm, v);
    assert c1.riscv[rd := v] == c.riscv[rd := v];
    StaysTwo(mem, c, c1, c.(pc := c.pc + 8, riscv := c.riscv[rd := v]), RiscV);
  }

  lemma ExecLd(mem: Memory, c: Cpu, rd: nat, imm: int, v: u64)
    requires c.frontend == RiscV && c.pc + 4 <= 0x8000_0000_0000 && rd != 0
    requires 0 <= imm && Reg(c.riscv, rd) + imm <= 0x8000_0000_0000
    requires Load64(mem, Reg(c.riscv, rd) + imm) == Some(v)
    ensures ExecRiscv(mem, Ld(rd, rd, imm), c) == Running(c.(pc := c.pc + 4, riscv := c.riscv[rd := v]))
  {
    hide Load64;
  }

  // ----- the caller -----

  function CallerRegs(x: Regs, base: u64, seed: u64, loops: u64): Regs {
    x[10 := seed][11 := loops][5 := Add64(base, 68)][6 := 1][7 := Add64(base, 56)]
  }

  /** Where the program's parts lie in memory. */
  ghost predicate Placed(mem: Memory, base: u64, seed: u64, loops: u64)
    requires base + 256 <= 0x8000_0000_0000
  {
    && CodeAt(mem, base, EntryBytes(FRONTEND_RISCV))
    && CodeAt(mem, base + 16,
              RiscvCallerBytes(RiscvLd(10, 10, 88), RiscvLd(11, 11, 88), RiscvLd(5, 5, 56), RiscvLd(7, 7, 52)))
    && CodeAt(mem, base + 56, RiscvTailBytes())
    && CodeAt(mem, base + 68, Aarch64CalleeBytes())
    && CodeAt(mem, base + 88, BytesOf(Add64(base, 68), 8)) && CodeAt(mem, base + 96, BytesOf(Add64(base, 56), 8))
    && CodeAt(mem, base + 104, BytesOf(seed, 8)) && CodeAt(mem, base + 112, BytesOf(loops, 8))
  }

  lemma PartsPlaced(mem: Memory, base: u64, seed: u64, loops: u64)
    requires Mapping(base, 256) && CodeAt(mem, base, RiscvToAarch64Bytes(base, seed, loops))
    ensures Placed(mem, base, seed, loops)
  {
    hide CodeAt, EntryBytes, RiscvCallerBytes, RiscvTailBytes, Aarch64CalleeBytes, AfterCallerBytes, DataBytes;
    hide BytesOf, RiscvLd;
    var b0 := EntryBytes(FRONTEND_RISCV);
    var b1 := RiscvCallerBytes(RiscvLd(10, 10, 88), RiscvLd(11, 11, 88), RiscvLd(5, 5, 56), RiscvLd(7, 7, 52));
    CodeSplit(mem, base, b0 + b1, AfterCallerBytes(base, seed, loops));
    CodeSplit(mem, base, b0, b1);
    AfterCallerPlaced(mem, base, seed, loops);
    DataPlaced(mem, base, seed, loops);
  }

  lemma AfterCallerPlaced(mem: Memory, base: u64, seed: u64, loops: u64)
    requires base + 256 <= 0x8000_0000_0000 && CodeAt(mem, base + 56, AfterCallerBytes(base, seed, loops))
    ensures CodeAt(mem, base + 56, RiscvTailBytes()) && CodeAt(mem, base + 68, Aarch64CalleeBytes())
    ensures CodeAt(mem, base + 88, DataBytes(base, seed, loops, 68, 56))
  {
    hide CodeAt, RiscvTailBytes, Aarch64CalleeBytes, DataBytes, Nops;
    var b2, b3, b4 := RiscvTailBytes(), Nops(3), Aarch64CalleeBytes();
    CodeSplit(mem, base + 56, b2 + b3 + b4, DataBytes(base, seed, loops, 68, 56));
    CodeSplit(mem, base + 56, b2 + b3, b4);
    CodeSplit(mem, base + 56, b2, b3);
  }

  lemma DataPlaced(mem: Memory, base: u64, seed: u64, loops: u64)
    requires base + 256 <= 0x8000_0000_0000 && CodeAt(mem, base + 88, DataBytes(base, seed, loops, 68, 56))
    ensures CodeAt(mem, base + 88, BytesOf(Add64(base, 68), 8)) && CodeAt(mem, base + 96, BytesOf(Add64(base, 56), 8))
    ensures CodeAt(mem, base + 104, BytesOf(seed, 8)) && CodeAt(mem, base + 112, BytesOf(loops, 8))
  {
    hide CodeAt, BytesOf;
    var d0, d1, d2 := BytesOf(Add64(base, 68), 8), BytesOf(Add64(base, 56), 8), BytesOf(seed, 8);
    CodeSplit(mem, base + 88, d0 + d1 + d2, BytesOf(loops, 8));
    CodeSplit(mem, base + 88, d0 + d1, d2);
    CodeSplit(mem, base + 88, d0, d1);
  }

  lemma LoadsCode(mem: Memory, a: u64, w0: u32, w1: u32, w2: u32)
    requires a + 24 <= 0x8000_0000_0000 && CodeAt(mem, a, RiscvLoadsBytes(w0, w1, w2))
    ensures CodeAt(mem, a, Bytes32(0x0000_0517)) && CodeAt(mem, a + 4, Bytes32(w0))
    ensures CodeAt(mem, a + 8, Bytes32(0x0000_0597)) && CodeAt(mem, a + 12, Bytes32(w1))
    ensures CodeAt(mem, a + 16, Bytes32(0x0000_0297)) && CodeAt(mem, a + 20, Bytes32(w2))
  {
    hide CodeAt, Bytes32;
    var b0, b1, b2, b3 := Bytes32(0x0000_0517), Bytes32(w0), Bytes32(0x0000_0597), Bytes32(w1);
    var b4 := Bytes32(0x0000_0297);
    CodeSplit(mem, a, b0 + b1 + b2 + b3 + b4, Bytes32(w2));
    CodeSplit(mem, a, b0 + b1 + b2 + b3, b4);
    CodeSplit(mem, a, b0 + b1 + b2, b3);
    CodeSplit(mem, a, b0 + b1, b2);
    CodeSplit(mem, a, b0, b1);
  }

  lemma CallerCode(mem: Memory, a: u64, w0: u32, w1: u32, w2: u32, w3: u32)
    requires a + 40 <= 0x8000_0000_0000 && CodeAt(mem, a, RiscvCallerBytes(w0, w1, w2, w3))
    ensures CodeAt(mem, a, Bytes32(0x0000_0517)) && CodeAt(mem, a + 4, Bytes32(w0))
    ensures CodeAt(mem, a + 8, Bytes32(0x0000_0597)) && CodeAt(mem, a + 12, Bytes32(w1))
    ensures CodeAt(mem, a + 16, Bytes32(0x0000_0297)) && CodeAt(mem, a + 20, Bytes32(w2))
    ensures CodeAt(mem, a + 24, Bytes32(RiscvAddi(6, 0, 1)))
    ensures CodeAt(mem, a + 28, Bytes32(0x0000_0397)) && CodeAt(mem, a + 32, Bytes32(w3))
    ensures CodeAt(mem, a + 36, Bytes32(RiscvControl(RISCV_CALL_SIG_BASE + NATIVE_REGS_SLOT)))
  {
    hide CodeAt, Bytes32, RiscvAddi, RiscvControl, RiscvLoadsBytes;
    var b0, b1 := RiscvLoadsBytes(w0, w1, w2), Bytes32(RiscvAddi(6, 0, 1));
    var b2, b3 := Bytes32(0x0000_0397), Bytes32(w3);
    CodeSplit(mem, a, b0 + b1 + b2 + b3, Bytes32(RiscvControl(RISCV_CALL_SIG_BASE + NATIVE_REGS_SLOT)));
    CodeSplit(mem, a, b0 + b1 + b2, b3);
    CodeSplit(mem, a, b0 + b1, b2);
    CodeSplit(mem, a, b0, b1);
    LoadsCode(mem, a, w0, w1, w2);
  }

  lemma ExecLoadFrontend(mem: Memory, c: Cpu)
    requires c.frontend == RiscV && c.pc + 4 <= 0x8000_0000_0000
    ensures ExecRiscv(mem, Addi(6, 0, 1), c) == Running(c.(pc := c.pc + 4, riscv := c.riscv[6 := 1]))
  {
  }

  lemma CallerRuns(mem: Memory, base: u64, seed: u64, loops: u64, c: Cpu)
    requires base % 2 == 0 && base + 256 <= 0x8000_0000_0000 && c.frontend == RiscV && c.pc == base + 16
    requires Placed(mem, base, seed, loops)
    ensures Run(mem, Running(c), 9)
         == Running(c.(pc := base + 52, riscv := CallerRegs(c.riscv, base, seed, loops)))
    ensures Stays(mem, Running(c), 9, RiscV)
  {
    hide CodeAt, Bytes32, BytesOf, RiscvCallerBytes, EntryBytes, RiscvTailBytes, Aarch64CalleeBytes;
    hide RiscvLd, RiscvAddi, RiscvControl, Run, Step, DecodeRiscv, Add64, ExecRiscv, Stays;
    CallerCode(mem, base + 16, RiscvLd(10, 10, 88), RiscvLd(11, 11, 88), RiscvLd(5, 5, 56), RiscvLd(7, 7, 52));
    CallerDecodes();
    var c1 := c.(pc := base + 24, riscv := c.riscv[10 := seed]);
    var c2 := c1.(pc := base + 32, riscv := c1.riscv[11 := loops]);
    var c3 := c2.(pc := base + 40, riscv := c2.riscv[5 := Add64(base, 68)]);
    var c4 := c3.(pc := base + 44, riscv := c3.riscv[6 := 1]);
    LoadRuns(mem, c, 0x0000_0517, 10, 88, seed);
    RunAdd(mem, Running(c), 2, 7);
    LoadRuns(mem, c1, 0x0000_0597, 11, 88, loops);
    RunAdd(mem, Running(c1), 2, 5);
    LoadRuns(mem, c2, 0x0000_0297, 5, 56, Add64(base, 68));
    RunAdd(mem, Running(c2), 2, 3);
    StepRiscv(mem, c3, RiscvAddi(6, 0, 1));
    ExecLoadFrontend(mem, c3);
    RunOne(mem, Running(c3), 3);
    LoadRuns(mem, c4, 0x0000_0397, 7, 52, Add64(base, 56));
    StaysStep(mem, Running(c3), 3, RiscV);
    StaysAdd(mem, Running(c2), 2, 3, RiscV);
    StaysAdd(mem, Running(c1), 2, 5, RiscV);
    StaysAdd(mem, Running(c), 2, 7, RiscV);
  }

  lemma CallsAarch64(c: Cpu, target: u64, ret: u64)
    requires c.frontend == RiscV && Canonical(target) && Canonical(ret) && Aligned(AArch64, target)
    requires NATIVE_REGS_SLOT in c.slots && c.slots[NATIVE_REGS_SLOT] == NATIVE_REGS_KIND
    requires |c.transitions| < TRANSITION_DEPTH
    ensures CallNative(c, NATIVE_REGS_SLOT, 1, target, ret)
         == Running(c.(frontend := AArch64, pc := target,
                       aarch64 := CopyArgs(c.riscv, 10, c.aarch64, 0)[30 := RETURN_COOKIE],
                       transitions := [Frame(RiscV, ret)] + c.transitions))
  {
  }

  lemma ExecCall(mem: Memory, c: Cpu)
    requires c.frontend == RiscV
    ensures ExecRiscv(mem, RiscvCtrl(0x23), c)
         == CallNative(c, NATIVE_REGS_SLOT, Reg(c.riscv, 6), Reg(c.riscv, 5), Reg(c.riscv, 7))
  {
    hide CallNative;
  }

  lemma CallerRegsRead(x: Regs, base: u64, seed: u64, loops: u64)
    requires base + 256 <= 0x8000_0000_0000
    ensures var y := CallerRegs(x, base, seed, loops);
      && Reg(y, 10) == seed && Reg(y, 11) == loops
      && Reg(y, 5) == base + 68 && Reg(y, 6) == 1 && Reg(y, 7) == base + 56
  {
  }

  /** The callee's CPU right after the call. */
  ghost function Called(c: Cpu, base: u64, seed: u64, loops: u64): Cpu
    requires base + 256 <= 0x8000_0000_0000
  {
    var x := CallerRegs(c.riscv, base, seed, loops);
    c.(frontend := AArch64, pc := base + 68, riscv := x,
       aarch64 := CopyArgs(x, 10, c.aarch64, 0)[30 := RETURN_COOKIE],
       transitions := [Frame(RiscV, base + 56)] + c.transitions)
  }

  lemma CalledRegs(c: Cpu, base: u64, seed: u64, loops: u64)
    requires base + 256 <= 0x8000_0000_0000
    ensures var d := Called(c, base, seed, loops);
      Reg(d.aarch64, 0) == seed && Reg(d.aarch64, 1) == loops && Reg(d.aarch64, 30) == RETURN_COOKIE
  {
    hide CallerRegs, CopyArgs;
    var x := CallerRegs(c.riscv, base, seed, loops);
    CallerRegsRead(c.riscv, base, seed, loops);
    CopyArgsFirst(x, 10, c.aarch64, 0);
  }

  lemma Calls(mem: Memory, base: u64, seed: u64, loops: u64, c: Cpu)
    requires Mapping(base, 256) && c.frontend == RiscV && c.pc == base + 16
    requires NATIVE_REGS_SLOT in c.slots && c.slots[NATIVE_REGS_SLOT] == NATIVE_REGS_KIND
    requires |c.transitions| < TRANSITION_DEPTH
    requires Placed(mem, base, seed, loops)
    ensures Run(mem, Running(c), 10) == Running(Called(c, base, seed, loops))
    ensures Stays(mem, Running(c), 9, RiscV)
  {
    hide CodeAt, Bytes32, BytesOf, RiscvCallerBytes, EntryBytes, RiscvTailBytes, Aarch64CalleeBytes;
    hide RiscvLd, RiscvAddi, RiscvControl, Run, Step, DecodeRiscv, Add64, ExecRiscv, CallerRegs, Reg;
    hide Mapping, Canonical, Aligned, CallNative, CopyArgs, Stays;
    InMapping(base, 256, 68);
    InMapping(base, 256, 56);
    InMapping(base, 256, 0);
    InMapping(base, 256, 52);
    AlignedMeans(base);
    AlignedMeans(base + 52);
    var x := CallerRegs(c.riscv, base, seed, loops);
    var c1 := c.(pc := base + 52, riscv := x);
    CallerRuns(mem, base, seed, loops, c);
    CallerRegsRead(c.riscv, base, seed, loops);
    CallerCode(mem, base + 16, RiscvLd(10, 10, 88), RiscvLd(11, 11, 88), RiscvLd(5, 5, 56), RiscvLd(7, 7, 52));
    RiscvControlDecodes();
    StepRiscv(mem, c1, RiscvControl(RISCV_CALL_SIG_BASE + NATIVE_REGS_SLOT));
    ExecCall(mem, c1);
    CallsAarch64(c1, base + 68, base + 56);
    RunAdd(mem, Running(c), 9, 1);
    RunOne(mem, Running(c1), 1);
    RunZero(mem, Step(mem, Running(c1)));
  }

  lemma AlignedMeans(a: u64)
    ensures Aligned(RiscV, a) <==> a % 2 == 0
  {
  }

  // ----- the callee -----

  lemma CalleeCode(mem: Memory, a: u64)
    requires a + 20 <= 0x8000_0000_0000 && CodeAt(mem, a, Aarch64CalleeBytes())
    ensures CodeAt(mem, a, Bytes32(0x9100_0014)) && CodeAt(mem, a + 4, Bytes32(0xf100_0421))
    ensures CodeAt(mem, a + 8, Bytes32(0x54ff_ffe1)) && CodeAt(mem, a + 12, Bytes32(0x9100_2280))
    ensures CodeAt(mem, a + 16, Bytes32(0xd65f_03c0))
  {
    hide CodeAt, Bytes32;
    var b0, b1, b2 := Bytes32(0x9100_0014), Bytes32(0xf100_0421), Bytes32(0x54ff_ffe1);
    var b3, b4 := Bytes32(0x9100_2280), Bytes32(0xd65f_03c0);
    CodeSplit(mem, a, b0 + b1 + b2 + b3, b4);
    CodeSplit(mem, a, b0 + b1 + b2, b3);
    CodeSplit(mem, a, b0 + b1, b2);
    CodeSplit(mem, a, b0, b1);
  }

  /** The callee copies x0 to x20, counts x1 down and puts x20 + 8 in x0; while it counts,
      x20 holds the argument. */
  lemma CalleeRuns(mem: Memory, c: Cpu)
    requires c.frontend == AArch64 && c.pc % 4 == 0 && c.pc + 20 <= 0x8000_0000_0000
    requires CodeAt(mem, c.pc, Aarch64CalleeBytes())
    ensures var n := 2 * Iterations(Reg(c.aarch64, 1));
      var x := c.aarch64[20 := Reg(c.aarch64, 0)][1 := 0][0 := Add64(Reg(c.aarch64, 0), 8)];
      && Run(mem, Running(c), n + 2) == Running(c.(pc := c.pc + 16, aarch64 := x, zero := true))
      && (forall j :: 1 <= j <= n + 1 ==>
           Aarch64Counting(Run(mem, Running(c), j), c.(aarch64 := c.aarch64[20 := Reg(c.aarch64, 0)])))
  {
    hide *;
    CalleeCode(mem, c.pc);
    Aarch64Decodes();
    var arg, n := Reg(c.aarch64, 0), 2 * Iterations(Reg(c.aarch64, 1));
    var c1 := c.(pc := c.pc + 4, aarch64 := c.aarch64[20 := arg]);
    var c2 := c1.(pc := c.pc + 12, aarch64 := c1.aarch64[1 := 0], zero := true);
    StepAarch64(mem, c, 0x9100_0014);
    ExecAdd(c, 20, 0, 0);
    AddZero(arg);
    RegOther(c.aarch64, 20, arg, 1);
    Aarch64Loop(mem, c1);
    StepAarch64(mem, c2, 0x9100_2280);
    ExecAdd(c2, 0, 20, 8);
    RegWritten(c.aarch64, 20, arg);
    RegOther(c1.aarch64, 1, 0, 20);
    RunOne(mem, Running(c), n + 2);
    RunAdd(mem, Running(c1), n, 1);
    RunOne(mem, Running(c2), 1);
    RunZero(mem, Step(mem, Running(c2)));
    forall j | 1 <= j <= n + 1
      ensures Aarch64Counting(Run(mem, Running(c), j), c.(aarch64 := c.aarch64[20 := arg]))
    {
      RunOne(mem, Running(c), j);
      CountingIgnoresPc(Run(mem, Running(c1), j - 1), c1, c.pc);
    }
  }

  lemma CountingIgnoresPc(s: State, c: Cpu, pc: u64)
    requires Aarch64Counting(s, c)
    ensures Aarch64Counting(s, c.(pc := pc))
  {
  }

  lemma Aarch64Returns(mem: Memory, c: Cpu)
    requires c.frontend == AArch64 && c.pc % 4 == 0 && CodeAt(mem, c.pc, Bytes32(0xd65f_03c0))
    requires Reg(c.aarch64, 30) == RETURN_COOKIE
    requires |c.transitions| > 0 && c.transitions[0].frontend == RiscV
    ensures Step(mem, Running(c))
         == Running(c.(frontend := RiscV, pc := c.transitions[0].pc, transitions := c.transitions[1..],
                       riscv := CopyArgs(c.aarch64, 0, c.riscv, 10)))
  {
    hide CodeAt, Bytes32, DecodeAarch64, CopyArgs, Step;
    Aarch64Decodes();
    StepAarch64(mem, c, 0xd65f_03c0);
  }

  /** The machine runs AArch64 code whose x20 holds the seed. */
  ghost predicate HiddenAarch64(s: State, seed: u64) {
    s.Running? && s.cpu.frontend == AArch64 && Reg(s.cpu.aarch64, 20) == seed
  }

  /** From the callee's first instruction to the caller's instruction after the call. */
  lemma CallReturns(mem: Memory, base: u64, seed: u64, loops: u64, c: Cpu)
    requires Mapping(base, 256) && CodeAt(mem, base + 68, Aarch64CalleeBytes())
    ensures var n := 2 * Iterations(loops);
      var s := Run(mem, Running(Called(c, base, seed, loops)), n + 3);
      && s.Running? && s.cpu.frontend == RiscV && s.cpu.pc == base + 56
      && Reg(s.cpu.riscv, 10) == Add64(seed, 8) && s.cpu.transitions == c.transitions
    ensures forall j :: 1 <= j <= 2 * Iterations(loops) + 2 ==>
              HiddenAarch64(Run(mem, Running(Called(c, base, seed, loops)), j), seed)
  {
    hide CodeAt, Bytes32, Aarch64CalleeBytes, Run, Step, CallerRegs, CopyArgs, Iterations, Add64, Mapping;
    InMapping(base, 256, 68);
    var n := 2 * Iterations(loops);
    var d := Called(c, base, seed, loops);
    CalledRegs(c, base, seed, loops);
    CalleeCode(mem, d.pc);
    CalleeRuns(mem, d);
    var x := d.aarch64[20 := seed][1 := 0][0 := Add64(seed, 8)];
    var e := d.(pc := base + 84, aarch64 := x, zero := true);
    assert Reg(x, 30) == RETURN_COOKIE && Reg(x, 0) == Add64(seed, 8);
    Aarch64Returns(mem, e);
    CopyArgsFirst(x, 0, e.riscv, 10);
    RunAdd(mem, Running(d), n + 2, 1);
    RunOne(mem, Running(e), 1);
    RunZero(mem, Step(mem, Running(e)));
    assert e.transitions[1..] == c.transitions;
    assert HiddenAarch64(Run(mem, Running(d), n + 2), seed);
  }

  // ----- back to x86 -----

  lemma TailCode(mem: Memory, a: u64)
    requires a + 9 <= 0x8000_0000_0000 && CodeAt(mem, a, RiscvTailBytes())
    ensures CodeAt(mem, a, Bytes32(0x0015_0513))
    ensures CodeAt(mem, a + 4, Bytes32(RiscvControl(RISCV_ESCAPE_SUBOP)))
    ensures ByteIs(mem, a + 8, 0xc3)
  {
    hide CodeAt, Bytes32, RiscvControl;
    var b0, b1 := Bytes32(0x0015_0513), Bytes32(RiscvControl(RISCV_ESCAPE_SUBOP));
    CodeSplit(mem, a, b0 + b1, [0xc3]);
    CodeSplit(mem, a, b0, b1);
    CodeByte(mem, a + 8, [0xc3], 0);
  }

  lemma TailRuns(mem: Memory, c: Cpu)
    requires c.frontend == RiscV && c.pc % 2 == 0 && c.pc + 9 <= 0x8000_0000_0000
    requires CodeAt(mem, c.pc, RiscvTailBytes())
    ensures var s := Run(mem, Running(c), 3);
      s.Returned? && Reg(s.cpu.x86, 0) == Add64(Reg(c.riscv, 10), 1) && s.cpu.transitions == c.transitions
    ensures Stays(mem, Running(c), 1, RiscV) && InFrontend(Run(mem, Running(c), 2), X86)
  {
    hide *;
    TailCode(mem, c.pc);
    RiscvDecodes();
    RiscvControlDecodes();
    var v := Add64(Reg(c.riscv, 10), 1);
    var c1 := c.(pc := c.pc + 4, riscv := c.riscv[10 := v]);
    var c2 := c1.(frontend := X86, pc := c.pc + 8, x86 := WindowOut(c1.riscv, 10, c1.x86));
    StepRiscv(mem, c, 0x0015_0513);
    ExecAddi(mem, c, 10, 10, 1);
    StepRiscv(mem, c1, RiscvControl(RISCV_ESCAPE_SUBOP));
    RiscvEscapes(mem, c1);
    StepRet(mem, c2);
    RegWritten(c.riscv, 10, v);
    WindowReturnsFirst(c1.riscv, 10, c1.x86);
    RunOne(mem, Running(c), 3);
    RunOne(mem, Running(c1), 2);
    RunOne(mem, Running(c2), 1);
    RunZero(mem, Returned(c2));
    AfterTwo(mem, c, c1, c2);
  }

  /** The run at its joints: after the entry stub, after the call, after the return. */
  lemma Joints(mem: Memory, base: u64, seed: u64, loops: u64, c: Cpu)
    requires Mapping(base, 256) && AtEntry(c, base) && Placed(mem, base, seed, loops)
    ensures var e := Entered(c, FRONTEND_RISCV);
      var d := Called(e, base, seed, loops);
      && Run(mem, Running(c), 6) == Running(e) && Run(mem, Running(c), 16) == Running(d)
      && Run(mem, Running(c), 19 + 2 * Iterations(loops)) == Run(mem, Running(d), 3 + 2 * Iterations(loops))
      && Stays(mem, Running(c), 5, X86) && Stays(mem, Running(e), 9, RiscV)
  {
    hide CodeAt, Run, EntryBytes, RiscvCallerBytes, RiscvTailBytes, Aarch64CalleeBytes;
    hide CallerRegs, CopyArgs, Iterations, WindowIn, Reg, RiscvLd, BytesOf, Called, Stays;
    var e := Entered(c, FRONTEND_RISCV);
    EntryRuns(mem, c, FRONTEND_RISCV);
    Calls(mem, base, seed, loops, e);
    RunAdd(mem, Running(c), 6, 10);
    RunAdd(mem, Running(c), 16, 2 * Iterations(loops) + 3);
  }

  /** Whatever the seed, the loop count and the address, the RISC-V program returns
      seed + 9 after 22 steps and two more for each iteration of the callee's loop; the
      transition stack is back as it was, and from the callee's second instruction to its
      return the machine is in the AArch64 frontend with the seed in x20. */
  lemma RiscvToAarch64Returns(mem: Memory, base: u64, seed: u64, loops: u64, c: Cpu)
    requires Mapping(base, 256) && AtEntry(c, base)
    requires CodeAt(mem, base, RiscvToAarch64Bytes(base, seed, loops))
    ensures var s := Run(mem, Running(c), 22 + 2 * Iterations(loops));
      s.Returned? && Reg(s.cpu.x86, 0) == Add64(seed, 9) && s.cpu.transitions == c.transitions
    ensures forall j :: 17 <= j <= 18 + 2 * Iterations(loops) ==> HiddenAarch64(Run(mem, Running(c), j), seed)
  {
    hide CodeAt, Run, RiscvToAarch64Bytes, EntryBytes, RiscvCallerBytes, RiscvTailBytes, Aarch64CalleeBytes;
    hide CallerRegs, CopyArgs, Iterations, WindowIn, HiddenAarch64, Reg, RiscvLd, BytesOf, Called, Stays;
    PartsPlaced(mem, base, seed, loops);
    InMapping(base, 256, 56);
    var n := 2 * Iterations(loops);
    var e := Entered(c, FRONTEND_RISCV);
    var d := Called(e, base, seed, loops);
    Joints(mem, base, seed, loops, c);
    CallReturns(mem, base, seed, loops, e);
    var r := Run(mem, Running(d), n + 3);
    TailRuns(mem, r.cpu);
    RunAdd(mem, Running(c), n + 19, 3);
    forall j | 17 <= j <= 18 + n ensures HiddenAarch64(Run(mem, Running(c), j), seed) {
      RunAdd(mem, Running(c), 16, j - 16);
    }
  }

  /** Where the machine is at the steps at which it does not count: in x86 code up to step 5,
      in the RISC-V caller up to step 15, at the callee's first instruction with the old x20
      at step 16, back in the caller for two steps after the return and then in x86 code. */
  lemma RiscvToAarch64Elsewhere(mem: Memory, base: u64, seed: u64, loops: u64, c: Cpu, j: nat)
    requires Mapping(base, 256) && AtEntry(c, base)
    requires CodeAt(mem, base, RiscvToAarch64Bytes(base, seed, loops))
    ensures var s, n := Run(mem, Running(c), j), 2 * Iterations(loops);
      && (j <= 5 ==> InFrontend(s, X86)) && (6 <= j <= 15 ==> InFrontend(s, RiscV))
      && (j == 16 ==> InFrontend(s, AArch64) && Reg(s.cpu.aarch64, 20) == Reg(c.aarch64, 20))
      && (19 + n <= j <= 20 + n ==> InFrontend(s, RiscV)) && (j == 21 + n ==> InFrontend(s, X86))
      && (22 + n <= j ==> s.Returned?)
  {
    hide CodeAt, Run, RiscvToAarch64Bytes, EntryBytes, RiscvCallerBytes, RiscvTailBytes, Aarch64CalleeBytes;
    hide CallerRegs, CopyArgs, Iterations, WindowIn, HiddenAarch64, Reg, RiscvLd, BytesOf;
    var n := 2 * Iterations(loops);
    var e := Entered(c, FRONTEND_RISCV);
    PartsPlaced(mem, base, seed, loops);
    Joints(mem, base, seed, loops, c);
    if 6 <= j <= 15 {
      RunAdd(mem, Running(c), 6, j - 6);
    } else if j == 16 {
      var x := CallerRegs(e.riscv, base, seed, loops);
      CopyArgsOther(x, 10, e.aarch64, 0, 20);
      RegOther(CopyArgs(x, 10, e.aarch64, 0), 30, RETURN_COOKIE, 20);
    } else if 19 + n <= j {
      InMapping(base, 256, 56);
      CallReturns(mem, base, seed, loops, e);
      var r := Run(mem, Running(c), 19 + n);
      TailRuns(mem, r.cpu);
      RunAdd(mem, Running(c), 19 + n, j - (19 + n));
      AfterReturn(mem, r, 3, j - (19 + n));
    }
  }
}
