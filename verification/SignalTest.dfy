/** The cross-frontend signal tests as a whole: the emitted program, the alarms that
interrupt it and the check of what the alarms saw.
*/
module SignalTest {
  import opened Words
  import opened Encoders
  import opened Machine
  import opened CodeRuns
  import opened Alarm
  import SignalCode
  import Aarch64ToRiscv
  import RiscvToAarch64

  function ModeOf(f: Frontend): u32 {
    match f case X86 => FRONTEND_X86 case AArch64 => FRONTEND_AARCH64 case RiscV => FRONTEND_RISCV
  }

  /** What a handler that interrupts the machine in state `s` reads from the exported state. */
  ghost predicate Interrupts(d: Delivery, s: State) {
    && s.Running?
    && (d.snapshot.transitionFlags / 512 % 2 == 1 <==> s.cpu.frontend != X86)
    && d.snapshot.targetMode == ModeOf(s.cpu.frontend)
    && d.snapshot.aarch64X20 == Reg(s.cpu.aarch64, 20) && d.snapshot.riscvX20 == Reg(s.cpu.riscv, 20)
  }

  /** Each alarm interrupts the run at its step. */
  ghost predicate During(mem: Memory, c: Cpu, alarms: seq<Delivery>, steps: seq<nat>) {
    |alarms| == |steps| && forall k :: 0 <= k < |steps| ==> Interrupts(alarms[k], Run(mem, Running(c), steps[k]))
  }

  /** The steps at which an alarm finds what it should: those from the callee's second
      instruction to its return, and its first one if the register held the seed before. */
  predicate InWindow(step: nat, first: nat, last: nat, early: bool) {
    first <= step <= last || (early && step + 1 == first)
  }

  /** The test as a whole.  Whatever the seed, the loop count and the address, and at
      whatever steps of the run alarms land: the program returns, and the check passes if
      and only if there is an alarm and every alarm lands in the window. */
  lemma Aarch64ToRiscvPasses(mem: Memory, base: u64, seed: u64, loops: u64, c: Cpu,
                             x: Settings, alarms: seq<Delivery>, steps: seq<nat>)
    requires Mapping(base, 256) && AtEntry(c, base)
    requires CodeAt(mem, base, SignalCode.Aarch64ToRiscvBytes(base, seed, loops))
    requires x.mode == FRONTEND_RISCV && x.expectation == RiscvX20 && x.value == seed
    requires During(mem, c, alarms, steps)
    ensures var s, n := Run(mem, Running(c), 30 + 2 * Iterations(loops)), 2 * Iterations(loops);
      && s.Returned?
      && (Passes(x, seed, 10, Reg(s.cpu.x86, 0), alarms) <==>
          |alarms| > 0 && forall k :: 0 <= k < |steps| ==> InWindow(steps[k], 25, 26 + n, Reg(c.riscv, 20) == seed))
  {
    hide Run, CodeAt, SignalCode.Aarch64ToRiscvBytes, Iterations, Mapping, AtEntry, Add64, Reg;
    Aarch64ToRiscv.Aarch64ToRiscvReturns(mem, base, seed, loops, c);
    var n := 2 * Iterations(loops);
    forall k | 0 <= k < |alarms|
      ensures Good(x, alarms[k]) <==> InWindow(steps[k], 25, 26 + n, Reg(c.riscv, 20) == seed)
    {
      var s := Run(mem, Running(c), steps[k]);
      assert Interrupts(alarms[k], s);
      if 25 <= steps[k] <= 26 + n {
        assert Aarch64ToRiscv.HiddenRiscv(s, seed);
      } else {
        Aarch64ToRiscv.Aarch64ToRiscvElsewhere(mem, base, seed, loops, c, steps[k]);
      }
    }
  }

  /** The same for the RISC-V program that calls AArch64 code. */
  lemma RiscvToAarch64Passes(mem: Memory, base: u64, seed: u64, loops: u64, c: Cpu,
                             x: Settings, alarms: seq<Delivery>, steps: seq<nat>)
    requires Mapping(base, 256) && AtEntry(c, base)
    requires CodeAt(mem, base, SignalCode.RiscvToAarch64Bytes(base, seed, loops))
    requires x.mode == FRONTEND_AARCH64 && x.expectation == Aarch64X20 && x.value == seed
    requires During(mem, c, alarms, steps)
    ensures var s, n := Run(mem, Running(c), 22 + 2 * Iterations(loops)), 2 * Iterations(loops);
      && s.Returned?
      && (Passes(x, seed, 9, Reg(s.cpu.x86, 0), alarms) <==>
          |alarms| > 0 && forall k :: 0 <= k < |steps| ==> InWindow(steps[k], 17, 18 + n, Reg(c.aarch64, 20) == seed))
  {
    hide Run, CodeAt, SignalCode.RiscvToAarch64Bytes, Iterations, Mapping, AtEntry, Add64, Reg;
    RiscvToAarch64.RiscvToAarch64Returns(mem, base, seed, loops, c);
    var n := 2 * Iterations(loops);
    forall k | 0 <= k < |alarms|
      ensures Good(x, alarms[k]) <==> InWindow(steps[k], 17, 18 + n, Reg(c.aarch64, 20) == seed)
    {
      var s := Run(mem, Running(c), steps[k]);
      assert Interrupts(alarms[k], s);
      if 17 <= steps[k] <= 18 + n {
        assert RiscvToAarch64.HiddenAarch64(s, seed);
      } else {
        RiscvToAarch64.RiscvToAarch64Elsewhere(mem, base, seed, loops, c, steps[k]);
      }
    }
  }

  /** The theorems speak of something: at every word-aligned address either program can be
      mapped, with a CPU that is about to enter it. */
  lemma ProgramsCanBeMapped(base: u64, seed: u64, loops: u64)
    requires Mapping(base, 256)
    ensures exists mem, c :: AtEntry(c, base) && CodeAt(mem, base, SignalCode.Aarch64ToRiscvBytes(base, seed, loops))
    ensures exists mem, c :: AtEntry(c, base) && CodeAt(mem, base, SignalCode.RiscvToAarch64Bytes(base, seed, loops))
  {
    hide CodeAt, SignalCode.Aarch64CallerBytes, SignalCode.RiscvCallerBytes, SignalCode.EntryBytes;
    var c := Cpu(X86, base, map[], map[], map[], false, 0, map[NATIVE_REGS_SLOT := NATIVE_REGS_KIND], []);
    assert AtEntry(c, base);
    var m1 := CodeCanBeMapped(base, SignalCode.Aarch64ToRiscvBytes(base, seed, loops));
    var m2 := CodeCanBeMapped(base, SignalCode.RiscvToAarch64Bytes(base, seed, loops));
  }
}
