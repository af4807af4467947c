/** The AArch64 program that calls RISC-V code returns the seed plus ten, whatever the
seed, the loop count and the address it is mapped at.
*/
module Aarch64ToRiscv {
  import opened Words
  import opened Encoders
  import opened Emitter
  import opened Machine
  import opened SignalCode
  import opened CodeRuns

  lemma Aarch64CallerCode(mem: Memory, a: u64, base: u64, seed: u64, loops: u64, target: nat, ret: nat)
    requires a + 72 <= 0x8000_0000_0000 && CodeAt(mem, a, Aarch64CallerBytes(base, seed, loops, target, ret))
    ensures CodeAt(mem, a, MovAbsBytes(0, seed)) && CodeAt(mem, a + 16, MovAbsBytes(1, loops))
    ensures CodeAt(mem, a + 32, MovAbsBytes(16, Add64(base, target)))
    ensures CodeAt(mem, a + 48, Bytes32(0xd280_0051))
    ensures CodeAt(mem, a + 52, MovAbsBytes(18, Add64(base, ret)))
    ensures CodeAt(mem, a + 68, Bytes32(Aarch64Control(AARCH64_CALL_SIG_BASE + NATIVE_REGS_SLOT)))
  {
    hide CodeAt, MovAbsBytes, Bytes32, Aarch64Control;
    var b0, b1, b2 := MovAbsBytes(0, seed), MovAbsBytes(1, loops), MovAbsBytes(16, Add64(base, target));
    var b3, b4 := Bytes32(0xd280_0051), MovAbsBytes(18, Add64(base, ret));
    CodeSplit(mem, a, b0 + b1 + b2 + b3 + b4,
      Bytes32(Aarch64Control(AARCH64_CALL_SIG_BASE + NATIVE_REGS_SLOT)));
    CodeSplit(mem, a, b0 + b1 + b2 + b3, b4);
    CodeSplit(mem, a, b0 + b1 + b2, b3);
    CodeSplit(mem, a, b0 + b1, b2);
    CodeSplit(mem, a, b0, b1);
  }

  /** The caller's registers when it reaches the call. */
  function CallerRegs(x: Regs, base: u64, seed: u64, loops: u64, target: nat, ret: nat): Regs {
    x[0 := seed][1 := loops][16 := Add64(base, target)][17 := 2][18 := Add64(base, ret)]
  }

  lemma Aarch64CallerRuns(mem: Memory, c: Cpu, base: u64, seed: u64, loops: u64, target: nat, ret: nat)
    requires c.frontend == AArch64 && c.pc % 4 == 0 && c.pc + 72 <= 0x8000_0000_0000
    requires CodeAt(mem, c.pc, Aarch64CallerBytes(base, seed, loops, target, ret))
    ensures Run(mem, Running(c), 17)
         == Running(c.(pc := c.pc + 68, aarch64 := CallerRegs(c.aarch64, base, seed, loops, target, ret)))
    ensures Stays(mem, Running(c), 17, AArch64)
  {
    hide CodeAt, MovAbsBytes, Bytes32, Aarch64Control, Step, DecodeAarch64, Run, Add64, Stays;
    Aarch64CallerCode(mem, c.pc, base, seed, loops, target, ret);
    Aarch64Decodes();
    var c1 := c.(pc := c.pc + 16, aarch64 := c.aarch64[0 := seed]);
    var c2 := c1.(pc := c.pc + 32, aarch64 := c1.aarch64[1 := loops]);
    var c3 := c2.(pc := c.pc + 48, aarch64 := c2.aarch64[16 := Add64(base, target)]);
    var c4 := c3.(pc := c.pc + 52, aarch64 := c3.aarch64[17 := 2]);
    MovAbsRuns(mem, c, 0, seed);
    RunAdd(mem, Running(c), 4, 13);
    MovAbsRuns(mem, c1, 1, loops);
    RunAdd(mem, Running(c1), 4, 9);
    MovAbsRuns(mem, c2, 16, Add64(base, target));
    RunAdd(mem, Running(c2), 4, 5);
    MoveWideStep(mem, c3, 0xd280_0000, 17, 2, 0);
    RunOne(mem, Running(c3), 5);
    MovAbsRuns(mem, c4, 18, Add64(base, ret));
    StaysStep(mem, Running(c3), 5, AArch64);
    StaysAdd(mem, Running(c2), 4, 5, AArch64);
    StaysAdd(mem, Running(c1), 4, 9, AArch64);
    StaysAdd(mem, Running(c), 4, 13, AArch64);
  }

  lemma Aarch64Calls(mem: Memory, c: Cpu, base: u64, seed: u64, loops: u64, target: nat, ret: nat)
    requires Mapping(base, 256) && target < 256 && ret < 256 && target % 4 == 0 && ret % 4 == 0
    requires c.frontend == AArch64 && c.pc % 4 == 0 && c.pc + 72 <= 0x8000_0000_0000
    requires NATIVE_REGS_SLOT in c.slots && c.slots[NATIVE_REGS_SLOT] == NATIVE_REGS_KIND
    requires |c.transitions| < TRANSITION_DEPTH
    requires CodeAt(mem, c.pc, Aarch64CallerBytes(base, seed, loops, target, ret))
    ensures var x := CallerRegs(c.aarch64, base, seed, loops, target, ret);
      Run(mem, Running(c), 18)
      == Running(c.(frontend := RiscV, pc := base + target, aarch64 := x,
                    riscv := CopyArgs(x, 0, c.riscv, 10)[1 := RETURN_COOKIE],
                    transitions := [Frame(AArch64, base + ret)] + c.transitions))
    ensures Stays(mem, Running(c), 17, AArch64)
  {
    hide *;
    InMapping(base, 256, target);
    InMapping(base, 256, ret);
    var x := CallerRegs(c.aarch64, base, seed, loops, target, ret);
    var c1 := c.(pc := c.pc + 68, aarch64 := x);
    CallerRegsRead(c.aarch64, base, seed, loops, target, ret);
    Aarch64CallerRuns(mem, c, base, seed, loops, target, ret);
    RunAdd(mem, Running(c), 17, 1);
    RunOne(mem, Running(c1), 1);
    RunZero(mem, Step(mem, Running(c1)));
    Aarch64CallerCode(mem, c.pc, base, seed, loops, target, ret);
    Aarch64ControlDecodes();
    StepAarch64(mem, c1, Aarch64Control(AARCH64_CALL_SIG_BASE + NATIVE_REGS_SLOT));
    ExecCall(c1);
    CallsRiscv(c1, base + target, base + ret);
  }

  lemma CallerRegsRead(x: Regs, base: u64, seed: u64, loops: u64, target: nat, ret: nat)
    requires Mapping(base, 256) && target < 256 && ret < 256
    ensures var y := CallerRegs(x, base, seed, loops, target, ret);
      && Reg(y, 0) == seed && Reg(y, 1) == loops
      && Reg(y, 16) == base + target && Reg(y, 17) == 2 && Reg(y, 18) == base + ret
  {
  }

  lemma ExecCall(c: Cpu)
    requires c.frontend == AArch64
    ensures ExecAarch64(Aarch64Ctrl(0x53), c)
         == CallNative(c, NATIVE_REGS_SLOT, Reg(c.aarch64, 17), Reg(c.aarch64, 16), Reg(c.aarch64, 18))
  {
    hide CallNative;
  }

  lemma CallsRiscv(c: Cpu, target: u64, ret: u64)
    requires c.frontend == AArch64 && Canonical(target) && Canonical(ret) && Aligned(RiscV, target)
    requires NATIVE_REGS_SLOT in c.slots && c.slots[NATIVE_REGS_SLOT] == NATIVE_REGS_KIND
    requires |c.transitions| < TRANSITION_DEPTH
    ensures CallNative(c, NATIVE_REGS_SLOT, 2, target, ret)
         == Running(c.(frontend := RiscV, pc := target,
                       riscv := CopyArgs(c.aarch64, 0, c.riscv, 10)[1 := RETURN_COOKIE],
                       transitions := [Frame(AArch64, ret)] + c.transitions))
  {
  }

  lemma RiscvCalleeCode(mem: Memory, a: u64)
    requires a + 20 <= 0x8000_0000_0000 && CodeAt(mem, a, RiscvCalleeBytes())
    ensures CodeAt(mem, a, Bytes32(0x0005_0a13)) && CodeAt(mem, a + 4, Bytes32(0xfff5_8593))
    ensures CodeAt(mem, a + 8, Bytes32(0xfe05_9ee3)) && CodeAt(mem, a + 12, Bytes32(0x009a_0513))
    ensures CodeAt(mem, a + 16, Bytes32(0x0000_8067))
  {
    hide CodeAt, Bytes32;
    var b0, b1, b2 := Bytes32(0x0005_0a13), Bytes32(0xfff5_8593), Bytes32(0xfe05_9ee3);
    var b3, b4 := Bytes32(0x009a_0513), Bytes32(0x0000_8067);
    CodeSplit(mem, a, b0 + b1 + b2 + b3, b4);
    CodeSplit(mem, a, b0 + b1 + b2, b3);
    CodeSplit(mem, a, b0 + b1, b2);
    CodeSplit(mem, a, b0, b1);
  }

  /** The callee copies a0 to s4, counts a1 down, puts s4 + 9 in a0 and returns through
      the cookie in ra; while it counts, s4 holds the argument. */
  lemma RiscvCalleeRuns(mem: Memory, c: Cpu)
    requires c.frontend == RiscV && c.pc % 2 == 0 && c.pc + 20 <= 0x8000_0000_0000
    requires CodeAt(mem, c.pc, RiscvCalleeBytes())
    ensures var n := 2 * Iterations(Reg(c.riscv, 11));
      var x := c.riscv[20 := Reg(c.riscv, 10)][11 := 0][10 := Add64(Reg(c.riscv, 10), 9)];
      && Run(mem, Running(c), n + 2) == Running(c.(pc := c.pc + 16, riscv := x))
      && (forall j :: 1 <= j <= n + 1 ==>
           RiscvCounting(Run(mem, Running(c), j), c.(riscv := c.riscv[20 := Reg(c.riscv, 10)])))
  {
    hide *;
    RiscvCalleeCode(mem, c.pc);
    RiscvDecodes();
    var arg, n := Reg(c.riscv, 10), 2 * Iterations(Reg(c.riscv, 11));
    var c1 := c.(pc := c.pc + 4, riscv := c.riscv[20 := arg]);
    var c2 := c1.(pc := c.pc + 12, riscv := c1.riscv[11 := 0]);
    StepRiscv(mem, c, 0x0005_0a13);
    ExecAddi(mem, c, 20, 10, 0);
    AddZero(arg);
    RegOther(c.riscv, 20, arg, 11);
    RiscvLoop(mem, c1);
    StepRiscv(mem, c2, 0x009a_0513);
    ExecAddi(mem, c2, 10, 20, 9);
    RegWritten(c.riscv, 20, arg);
    RegOther(c1.riscv, 11, 0, 20);
    RunOne(mem, Running(c), n + 2);
    RunAdd(mem, Running(c1), n, 1);
    RunOne(mem, Running(c2), 1);
    RunZero(mem, Step(mem, Running(c2)));
    forall j | 1 <= j <= n + 1
      ensures RiscvCounting(Run(mem, Running(c), j), c.(riscv := c.riscv[20 := arg]))
    {
      RunOne(mem, Running(c), j);
      CountingIgnoresPc(Run(mem, Running(c1), j - 1), c1, c.pc);
    }
  }

  lemma CountingIgnoresPc(s: State, c: Cpu, pc: u64)
    requires RiscvCounting(s, c)
    ensures RiscvCounting(s, c.(pc := pc))
  {
  }

  /** A native return of RISC-V code to the cookie resumes the AArch64 caller, whose
      x0..x7 are then the callee's a0..a7. */
  lemma RiscvReturns(mem: Memory, c: Cpu)
    requires c.frontend == RiscV && c.pc % 2 == 0 && CodeAt(mem, c.pc, Bytes32(0x0000_8067))
    requires Reg(c.riscv, 1) == RETURN_COOKIE
    requires |c.transitions| > 0 && c.transitions[0].frontend == AArch64
    ensures Step(mem, Running(c))
         == Running(c.(frontend := AArch64, pc := c.transitions[0].pc, transitions := c.transitions[1..],
                       aarch64 := CopyArgs(c.riscv, 10, c.aarch64, 0)))
  {
    hide CodeAt, Bytes32, DecodeRiscv, CopyArgs, Step;
    RiscvDecodes();
    StepRiscv(mem, c, 0x0000_8067);
  }

  lemma Aarch64TailCode(mem: Memory, a: u64)
    requires a + 9 <= 0x8000_0000_0000 && CodeAt(mem, a, Aarch64TailBytes())
    ensures CodeAt(mem, a, Bytes32(0x9100_0400))
    ensures CodeAt(mem, a + 4, Bytes32(Aarch64Control(AARCH64_ESCAPE_SUBOP)))
    ensures ByteIs(mem, a + 8, 0xc3)
  {
    hide CodeAt, Bytes32, Aarch64Control;
    var b0, b1 := Bytes32(0x9100_0400), Bytes32(Aarch64Control(AARCH64_ESCAPE_SUBOP));
    CodeSplit(mem, a, b0 + b1, [0xc3]);
    CodeSplit(mem, a, b0, b1);
    CodeByte(mem, a + 8, [0xc3], 0);
  }

  lemma Aarch64TailRuns(mem: Memory, c: Cpu)
    requires c.frontend == AArch64 && c.pc % 4 == 0 && c.pc + 9 <= 0x8000_0000_0000
    requires CodeAt(mem, c.pc, Aarch64TailBytes())
    ensures var s := Run(mem, Running(c), 3);
      s.Returned? && Reg(s.cpu.x86, 0) == Add64(Reg(c.aarch64, 0), 1) && s.cpu.transitions == c.transitions
    ensures Stays(mem, Running(c), 1, AArch64) && InFrontend(Run(mem, Running(c), 2), X86)
  {
    hide *;
    Aarch64TailCode(mem, c.pc);
    Aarch64Decodes();
    Aarch64ControlDecodes();
    var v := Add64(Reg(c.aarch64, 0), 1);
    var c1 := c.(pc := c.pc + 4, aarch64 := c.aarch64[0 := v]);
    var c2 := c1.(frontend := X86, pc := c.pc + 8, x86 := WindowOut(c1.aarch64, 0, c1.x86));
    StepAarch64(mem, c, 0x9100_0400);
    ExecAdd(c, 0, 0, 1);
    StepAarch64(mem, c1, Aarch64Control(AARCH64_ESCAPE_SUBOP));
    Aarch64Escapes(c1);
    StepRet(mem, c2);
    RegWritten(c.aarch64, 0, v);
    WindowReturnsFirst(c1.aarch64, 0, c1.x86);
    RunOne(mem, Running(c), 3);
    RunOne(mem, Running(c1), 2);
    RunOne(mem, Running(c2), 1);
    RunZero(mem, Returned(c2));
    AfterTwo(mem, c, c1, c2);
  }

  lemma Aarch64ToRiscvCode(mem: Memory, base: u64, seed: u64, loops: u64)
    requires Mapping(base, 256) && CodeAt(mem, base, Aarch64ToRiscvBytes(base, seed, loops))
    ensures CodeAt(mem, base, EntryBytes(FRONTEND_AARCH64))
    ensures CodeAt(mem, base + 16, Aarch64CallerBytes(base, seed, loops, 100, 88))
    ensures CodeAt(mem, base + 88, Aarch64TailBytes()) && CodeAt(mem, base + 100, RiscvCalleeBytes())
  {
    hide CodeAt, EntryBytes, Aarch64CallerBytes, Aarch64TailBytes, RiscvCalleeBytes, Nops;
    var b0, b1 := EntryBytes(FRONTEND_AARCH64), Aarch64CallerBytes(base, seed, loops, 100, 88);
    CodeSplit(mem, base, b0 + b1 + Aarch64TailBytes() + Nops(3), RiscvCalleeBytes());
    CodeSplit(mem, base, b0 + b1 + Aarch64TailBytes(), Nops(3));
    CodeSplit(mem, base, b0 + b1, Aarch64TailBytes());
    CodeSplit(mem, base, b0, b1);
  }

  /** The machine runs RISC-V code whose s4 holds the seed. */
  ghost predicate HiddenRiscv(s: State, seed: u64) {
    s.Running? && s.cpu.frontend == RiscV && Reg(s.cpu.riscv, 20) == seed
  }

  /** The callee's CPU right after the call. */
  ghost function CalledRiscv(c: Cpu, base: u64, seed: u64, loops: u64): Cpu
    requires base < 0x8000_0000_0000
  {
    var x := CallerRegs(c.aarch64, base, seed, loops, 100, 88);
    c.(frontend := RiscV, pc := base + 100, aarch64 := x,
       riscv := CopyArgs(x, 0, c.riscv, 10)[1 := RETURN_COOKIE],
       transitions := [Frame(AArch64, base + 88)] + c.transitions)
  }

  lemma CalledRiscvRegs(c: Cpu, base: u64, seed: u64, loops: u64)
    requires Mapping(base, 256)
    ensures var d := CalledRiscv(c, base, seed, loops);
      Reg(d.riscv, 10) == seed && Reg(d.riscv, 11) == loops && Reg(d.riscv, 1) == RETURN_COOKIE
  {
    hide CallerRegs, CopyArgs;
    var x := CallerRegs(c.aarch64, base, seed, loops, 100, 88);
    CallerRegsRead(c.aarch64, base, seed, loops, 100, 88);
    CopyArgsFirst(x, 0, c.riscv, 10);
  }

  /** From the callee's first instruction to the caller's instruction after the call. */
  lemma RiscvCallReturns(mem: Memory, base: u64, seed: u64, loops: u64, c: Cpu)
    requires Mapping(base, 256) && CodeAt(mem, base + 100, RiscvCalleeBytes())
    ensures var n := 2 * Iterations(loops);
      var s := Run(mem, Running(CalledRiscv(c, base, seed, loops)), n + 3);
      && s.Running? && s.cpu.frontend == AArch64 && s.cpu.pc == base + 88
      && Reg(s.cpu.aarch64, 0) == Add64(seed, 9) && s.cpu.transitions == c.transitions
    ensures forall j :: 1 <= j <= 2 * Iterations(loops) + 2 ==>
              HiddenRiscv(Run(mem, Running(CalledRiscv(c, base, seed, loops)), j), seed)
  {
    hide CodeAt, Bytes32, RiscvCalleeBytes, Run, Step, CallerRegs, CopyArgs, Iterations, Add64, Mapping;
    InMapping(base, 256, 100);
    var n := 2 * Iterations(loops);
    var d := CalledRiscv(c, base, seed, loops);
    CalledRiscvRegs(c, base, seed, loops);
    RiscvCalleeCode(mem, d.pc);
    RiscvCalleeRuns(mem, d);
    var x := d.riscv[20 := seed][11 := 0][10 := Add64(seed, 9)];
    var e := d.(pc := base + 116, riscv := x);
    assert Reg(x, 1) == RETURN_COOKIE && Reg(x, 10) == Add64(seed, 9);
    RiscvReturns(mem, e);
    CopyArgsFirst(x, 10, e.aarch64, 0);
    RunAdd(mem, Running(d), n + 2, 1);
    RunOne(mem, Running(e), 1);
    RunZero(mem, Step(mem, Running(e)));
    assert e.transitions[1..] == c.transitions;
    assert HiddenRiscv(Run(mem, Running(d), n + 2), seed);
  }

  /** The run at its joints: after the entry stub, after the call, after the return. */
  lemma Joints(mem: Memory, base: u64, seed: u64, loops: u64, c: Cpu)
    requires Mapping(base, 256) && AtEntry(c, base)
    requires CodeAt(mem, base, Aarch64ToRiscvBytes(base, seed, loops))
    ensures var e := Entered(c, FRONTEND_AARCH64);
      var d := CalledRiscv(e, base, seed, loops);
      && Run(mem, Running(c), 6) == Running(e) && Run(mem, Running(c), 24) == Running(d)
      && Run(mem, Running(c), 27 + 2 * Iterations(loops)) == Run(mem, Running(d), 3 + 2 * Iterations(loops))
      && Stays(mem, Running(c), 5, X86) && Stays(mem, Running(e), 17, AArch64)
  {
    hide CodeAt, Run, Aarch64ToRiscvBytes, EntryBytes, Aarch64CallerBytes, RiscvCalleeBytes, Aarch64TailBytes;
    hide CallerRegs, CopyArgs, Iterations, WindowIn, Reg, Stays;
    Aarch64ToRiscvCode(mem, base, seed, loops);
    InMapping(base, 256, 16);
    var e := Entered(c, FRONTEND_AARCH64);
    EntryRuns(mem, c, FRONTEND_AARCH64);
    Aarch64Calls(mem, e, base, seed, loops, 100, 88);
    RunAdd(mem, Running(c), 6, 18);
    RunAdd(mem, Running(c), 24, 2 * Iterations(loops) + 3);
  }

  /** Whatever the seed, the loop count and the address, the AArch64 program returns
      seed + 10 after 30 steps and two more for each iteration of the callee's loop; the
      transition stack is back as it was, and from the callee's second instruction to its
      return the machine is in the RISC-V frontend with the seed in s4. */
  lemma Aarch64ToRiscvReturns(mem: Memory, base: u64, seed: u64, loops: u64, c: Cpu)
    requires Mapping(base, 256) && AtEntry(c, base)
    requires CodeAt(mem, base, Aarch64ToRiscvBytes(base, seed, loops))
    ensures var s := Run(mem, Running(c), 30 + 2 * Iterations(loops));
      s.Returned? && Reg(s.cpu.x86, 0) == Add64(seed, 10) && s.cpu.transitions == c.transitions
    ensures forall j :: 25 <= j <= 26 + 2 * Iterations(loops) ==> HiddenRiscv(Run(mem, Running(c), j), seed)
  {
    hide CodeAt, Run, Aarch64ToRiscvBytes, EntryBytes, Aarch64CallerBytes, RiscvCalleeBytes, Aarch64TailBytes;
    hide CallerRegs, CopyArgs, Iterations, WindowIn, HiddenRiscv, Reg, Stays;
    Aarch64ToRiscvCode(mem, base, seed, loops);
    InMapping(base, 256, 88);
    var n := 2 * Iterations(loops);
    var e := Entered(c, FRONTEND_AARCH64);
    var d := CalledRiscv(e, base, seed, loops);
    Joints(mem, base, seed, loops, c);
    RiscvCallReturns(mem, base, seed, loops, e);
    var r := Run(mem, Running(d), n + 3);
    Aarch64TailRuns(mem, r.cpu);
    RunAdd(mem, Running(c), n + 27, 3);
    forall j | 25 <= j <= 26 + n ensures HiddenRiscv(Run(mem, Running(c), j), seed) {
      RunAdd(mem, Running(c), 24, j - 24);
    }
  }

  /** Where the machine is at the steps at which it does not count: in x86 code up to step 5,
      in the AArch64 caller up to step 23, at the callee's first instruction with the old s4
      at step 24, back in the caller for two steps after the return and then in x86 code. */
  lemma Aarch64ToRiscvElsewhere(mem: Memory, base: u64, seed: u64, loops: u64, c: Cpu, j: nat)
    requires Mapping(base, 256) && AtEntry(c, base)
    requires CodeAt(mem, base, Aarch64ToRiscvBytes(base, seed, loops))
    ensures var s, n := Run(mem, Running(c), j), 2 * Iterations(loops);
      && (j <= 5 ==> InFrontend(s, X86)) && (6 <= j <= 23 ==> InFrontend(s, AArch64))
      && (j == 24 ==> InFrontend(s, RiscV) && Reg(s.cpu.riscv, 20) == Reg(c.riscv, 20))
      && (27 + n <= j <= 28 + n ==> InFrontend(s, AArch64)) && (j == 29 + n ==> InFrontend(s, X86))
      && (30 + n <= j ==> s.Returned?)
  {
    hide CodeAt, Run, Aarch64ToRiscvBytes, EntryBytes, Aarch64CallerBytes, RiscvCalleeBytes, Aarch64TailBytes;
    hide CallerRegs, CopyArgs, Iterations, WindowIn, HiddenRiscv, Reg;
    var n := 2 * Iterations(loops);
    var e := Entered(c, FRONTEND_AARCH64);
    Joints(mem, base, seed, loops, c);
    if 6 <= j <= 23 {
      RunAdd(mem, Running(c), 6, j - 6);
    } else if j == 24 {
      var x := CallerRegs(e.aarch64, base, seed, loops, 100, 88);
      CopyArgsOther(x, 0, e.riscv, 10, 20);
      RegOther(CopyArgs(x, 0, e.riscv, 10), 1, RETURN_COOKIE, 20);
    } else if 27 + n <= j {
      Aarch64ToRiscvCode(mem, base, seed, loops);
      InMapping(base, 256, 88);
      RiscvCallReturns(mem, base, seed, loops, e);
      var r := Run(mem, Running(c), 27 + n);
      Aarch64TailRuns(mem, r.cpu);
      RunAdd(mem, Running(c), 27 + n, j - (27 + n));
      AfterReturn(mem, r, 3, j - (27 + n));
    }
  }
}
