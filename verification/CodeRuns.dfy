/** What the emitted programs do when the machine runs them. */
module CodeRuns {
  import opened Words
  import opened Encoders
  import opened Emitter
  import opened Machine
  import SignalCode

  /** `bytes` lie in memory from address `a` on. */
  ghost predicate CodeAt(mem: Memory, a: u64, bytes: seq<u8>) {
    forall i :: 0 <= i < |bytes| ==> ByteIs(mem, Add64(a, i), bytes[i])
  }

  /** Any bytes can be mapped at any address below their wrap-around. */
  lemma {:induction false} CodeCanBeMapped(a: u64, bytes: seq<u8>) returns (mem: Memory)
    requires a + |bytes| <= TWO_64
    ensures CodeAt(mem, a, bytes)
    decreases bytes
  {
    if bytes == [] {
      mem := map[];
    } else {
      var n := |bytes| - 1;
      var rest := CodeCanBeMapped(a, bytes[..n]);
      mem := rest[a + n := bytes[n]];
      forall i | 0 <= i < |bytes| ensures ByteIs(mem, Add64(a, i), bytes[i]) {
        assert i < n ==> ByteIs(rest, Add64(a, i), bytes[..n][i]);
      }
    }
  }

  lemma CodeSplit(mem: Memory, a: u64, p: seq<u8>, q: seq<u8>)
    requires CodeAt(mem, a, p + q)
    ensures CodeAt(mem, a, p) && CodeAt(mem, Add64(a, |p|), q)
  {
    forall i | 0 <= i < |p| ensures ByteIs(mem, Add64(a, i), p[i]) {
      assert (p + q)[i] == p[i];
    }
    forall i | 0 <= i < |q| ensures ByteIs(mem, Add64(Add64(a, |p|), i), q[i]) {
      assert (p + q)[|p| + i] == q[i];
      AddAdd(a, |p|, i);
    }
  }

  lemma FetchCode(mem: Memory, a: u64, w: u32)
    requires CodeAt(mem, a, Bytes32(w))
    ensures Fetch32(mem, a) == Some(w)
  {
    var b := Bytes32(w);
    assert ByteIs(mem, Add64(a, 0), b[0]) && Add64(a, 0) == a;
    assert ByteIs(mem, Add64(a, 1), b[1]) && ByteIs(mem, Add64(a, 2), b[2]) && ByteIs(mem, Add64(a, 3), b[3]);
    Bytes32RoundTrip(w);
  }

  lemma StepAarch64(mem: Memory, c: Cpu, w: u32)
    requires c.frontend == AArch64 && c.pc % 4 == 0 && CodeAt(mem, c.pc, Bytes32(w))
    ensures Step(mem, Running(c)) == ExecAarch64(DecodeAarch64(w), c)
  {
    FetchCode(mem, c.pc, w);
  }

  lemma StepRiscv(mem: Memory, c: Cpu, w: u32)
    requires c.frontend == RiscV && c.pc % 2 == 0 && CodeAt(mem, c.pc, Bytes32(w))
    ensures Step(mem, Running(c)) == ExecRiscv(mem, DecodeRiscv(w), c)
  {
    FetchCode(mem, c.pc, w);
  }

  lemma RunOne(mem: Memory, s: State, n: nat)
    requires n > 0
    ensures Run(mem, s, n) == Run(mem, Step(mem, s), n - 1)
  {
  }

  // ----- which frontend runs -----

  ghost predicate InFrontend(s: State, f: Frontend) {
    s.Running? && s.cpu.frontend == f
  }

  /** The machine runs and is in frontend `f` now and after each of the next `n` steps. */
  ghost predicate Stays(mem: Memory, s: State, n: nat, f: Frontend) {
    forall j :: 0 <= j <= n ==> InFrontend(Run(mem, s, j), f)
  }

  lemma StaysNow(mem: Memory, s: State, f: Frontend)
    requires InFrontend(s, f)
    ensures Stays(mem, s, 0, f)
  {
    hide InFrontend;
    forall j | 0 <= j <= 0 ensures InFrontend(Run(mem, s, j), f) {
      RunZero(mem, s);
    }
  }

  lemma StaysStep(mem: Memory, s: State, n: nat, f: Frontend)
    requires n > 0 && InFrontend(s, f) && Stays(mem, Step(mem, s), n - 1, f)
    ensures Stays(mem, s, n, f)
  {
    hide InFrontend, Run, Step;
    RunZero(mem, s);
    forall j | 0 <= j <= n ensures InFrontend(Run(mem, s, j), f) {
      if j > 0 {
        RunOne(mem, s, j);
      }
    }
  }

  lemma StaysAdd(mem: Memory, s: State, m: nat, n: nat, f: Frontend)
    requires Stays(mem, s, m, f) && Stays(mem, Run(mem, s, m), n, f)
    ensures Stays(mem, s, m + n, f)
  {
    hide InFrontend, Run;
    forall j | 0 <= j <= m + n ensures InFrontend(Run(mem, s, j), f) {
      if j > m {
        RunAdd(mem, s, m, j - m);
      }
    }
  }

  lemma StaysOne(mem: Memory, c: Cpu, d: Cpu, f: Frontend)
    requires Step(mem, Running(c)) == Running(d) && c.frontend == d.frontend == f
    ensures Stays(mem, Running(c), 1, f)
  {
    hide Run, Step, Stays;
    StaysNow(mem, Running(d), f);
    StaysStep(mem, Running(c), 1, f);
  }

  /** Two straight steps. */
  lemma StaysTwo(mem: Memory, c: Cpu, d: Cpu, e: Cpu, f: Frontend)
    requires Step(mem, Running(c)) == Running(d) && Step(mem, Running(d)) == Running(e)
    requires c.frontend == d.frontend == e.frontend == f
    ensures Run(mem, Running(c), 2) == Running(e) && Stays(mem, Running(c), 2, f)
  {
    hide Run, Step, Stays;
    RunOne(mem, Running(c), 2);
    RunOne(mem, Running(d), 1);
    RunZero(mem, Running(e));
    StaysNow(mem, Running(e), f);
    StaysStep(mem, Running(d), 1, f);
    StaysStep(mem, Running(c), 2, f);
  }

  /** One step within a frontend and one out of it. */
  lemma AfterTwo(mem: Memory, c: Cpu, d: Cpu, e: Cpu)
    requires Step(mem, Running(c)) == Running(d) && Step(mem, Running(d)) == Running(e)
    requires c.frontend == d.frontend
    ensures Stays(mem, Running(c), 1, c.frontend) && InFrontend(Run(mem, Running(c), 2), e.frontend)
  {
    hide Run, Step, Stays;
    RunOne(mem, Running(c), 2);
    RunOne(mem, Running(d), 1);
    RunZero(mem, Running(e));
    StaysOne(mem, c, d, c.frontend);
  }

  /** A machine that has returned stays as it is. */
  lemma {:induction false} AfterReturn(mem: Memory, s: State, m: nat, n: nat)
    requires Run(mem, s, m).Returned?
    ensures m <= n ==> Run(mem, s, n) == Run(mem, s, m)
    decreases n
  {
    hide StepX86, ExecAarch64, ExecRiscv, Fetch32, Aligned, DecodeAarch64, DecodeRiscv, Run;
    if m < n {
      AfterReturn(mem, s, m, n - 1);
      RunLast(mem, s, n - 1);
    }
  }

  // ----- loading an absolute value -----

  lemma DecodeMoveWide(opcode: u32, rd: nat, imm: nat, part: nat)
    requires rd < 31 && imm < 0x1_0000 && part < 4
    requires opcode == 0xd280_0000 || opcode == 0xf280_0000
    ensures var w := opcode + part * 0x20_0000 + imm * 0x20 + rd;
      DecodeAarch64(w) == if opcode == 0xd280_0000 then Movz(rd, imm, part) else Movk(rd, imm, part)
  {
    var w: u32 := opcode + part * 0x20_0000 + imm * 0x20 + rd;
    var top := if opcode == 0xd280_0000 then 0x1a5 else 0x1e5;
    MoveWideFields(top, rd, imm, part);
    assert top * 0x80_0000 <= w < top * 0x80_0000 + 0x80_0000;
  }

  lemma MoveWideFields(top: nat, rd: nat, imm: nat, part: nat)
    requires rd < 31 && imm < 0x1_0000 && part < 4
    ensures var w := top * 0x80_0000 + part * 0x20_0000 + imm * 0x20 + rd;
      && w / 0x80_0000 == top && w % 32 == rd && w / 0x20 % 0x1_0000 == imm && w / 0x20_0000 % 4 == part
  {
    var w := top * 0x80_0000 + part * 0x20_0000 + imm * 0x20 + rd;
    var upper := top * 4 + part;
    Field(w, top, 0x80_0000, part * 0x20_0000 + imm * 0x20 + rd);
    Field(w, upper * 0x1_0000 + imm, 32, rd);
    Field(upper * 0x1_0000 + imm, upper, 0x1_0000, imm);
    Field(w, upper, 0x20_0000, imm * 0x20 + rd);
    Field(upper, top, 4, part);
  }

  lemma MoveWideStep(mem: Memory, c: Cpu, opcode: u32, rd: nat, imm: nat, part: nat)
    requires c.frontend == AArch64 && c.pc % 4 == 0 && c.pc + 4 <= 0x8000_0000_0000
    requires rd < 31 && imm < 0x1_0000 && part < 4
    requires opcode == 0xd280_0000 || opcode == 0xf280_0000
    requires CodeAt(mem, c.pc, Bytes32(opcode + part * 0x20_0000 + imm * 0x20 + rd))
    ensures var was := if opcode == 0xd280_0000 then 0 else Reg(c.aarch64, rd);
      Step(mem, Running(c))
      == Running(c.(pc := c.pc + 4, aarch64 := c.aarch64[rd := InsertPart(was, part, imm)]))
  {
    hide DecodeAarch64, Step, CodeAt, Bytes32, InsertPart;
    DecodeMoveWide(opcode, rd, imm, part);
    StepAarch64(mem, c, opcode + part * 0x20_0000 + imm * 0x20 + rd);
  }

  /** Splitting a value into 16-bit parts and inserting them again gives it back. */
  lemma PartsRebuild(a: nat, b: nat, c: nat, d: nat)
    requires a < 0x1_0000 && b < 0x1_0000 && c < 0x1_0000 && d < 0x1_0000
    ensures InsertPart(0, 0, a) == a
    ensures InsertPart(a, 1, b) == a + b * 0x1_0000
    ensures InsertPart(a + b * 0x1_0000, 2, c) == a + b * 0x1_0000 + c * 0x1_0000_0000
    ensures InsertPart(a + b * 0x1_0000 + c * 0x1_0000_0000, 3, d)
         == a + b * 0x1_0000 + c * 0x1_0000_0000 + d * 0x1_0000_0000_0000
  {
  }

  lemma Parts(value: u64)
    ensures value == value % 0x1_0000 + value / 0x1_0000 % 0x1_0000 * 0x1_0000
      + value / 0x1_0000_0000 % 0x1_0000 * 0x1_0000_0000
      + value / 0x1_0000_0000_0000 % 0x1_0000 * 0x1_0000_0000_0000
  {
    var rest1 := value / 0x1_0000;
    var rest2 := rest1 / 0x1_0000;
    var rest3 := rest2 / 0x1_0000;
    assert rest2 == value / 0x1_0000_0000;
    assert rest3 == value / 0x1_0000_0000_0000;
    assert rest3 < 0x1_0000;
  }

  lemma MovAbsCode(mem: Memory, a: u64, rd: nat, value: u64)
    requires rd < 31 && a + 16 <= 0x8000_0000_0000 && CodeAt(mem, a, MovAbsBytes(rd, value))
    ensures CodeAt(mem, a, Bytes32(0xd280_0000 + value % 0x1_0000 * 0x20 + rd))
    ensures CodeAt(mem, a + 4, Bytes32(0xf2a0_0000 + value / 0x1_0000 % 0x1_0000 * 0x20 + rd))
    ensures CodeAt(mem, a + 8, Bytes32(0xf2c0_0000 + value / 0x1_0000_0000 % 0x1_0000 * 0x20 + rd))
    ensures CodeAt(mem, a + 12, Bytes32(0xf2e0_0000 + value / 0x1_0000_0000_0000 % 0x1_0000 * 0x20 + rd))
  {
    hide CodeAt, Bytes32, Aarch64MoveWide;
    var ws := Aarch64MovAbs(rd, value);
    CodeSplit(mem, a, Bytes32(ws[0]) + Bytes32(ws[1]) + Bytes32(ws[2]), Bytes32(ws[3]));
    CodeSplit(mem, a, Bytes32(ws[0]) + Bytes32(ws[1]), Bytes32(ws[2]));
    CodeSplit(mem, a, Bytes32(ws[0]), Bytes32(ws[1]));
  }

  lemma MovePair(mem: Memory, c: Cpu, opcode: u32, rd: nat, part: nat, imm1: nat, imm2: nat, v1: u64, v2: u64)
    requires c.frontend == AArch64 && c.pc % 4 == 0 && c.pc + 8 <= 0x8000_0000_0000
    requires rd < 31 && imm1 < 0x1_0000 && imm2 < 0x1_0000 && part < 3
    requires opcode == 0xd280_0000 || opcode == 0xf280_0000
    requires CodeAt(mem, c.pc, Bytes32(opcode + part * 0x20_0000 + imm1 * 0x20 + rd))
    requires CodeAt(mem, c.pc + 4, Bytes32(0xf280_0000 + (part + 1) * 0x20_0000 + imm2 * 0x20 + rd))
    requires v1 == InsertPart(if opcode == 0xd280_0000 then 0 else Reg(c.aarch64, rd), part, imm1)
    requires v2 == InsertPart(v1, part + 1, imm2)
    ensures Run(mem, Running(c), 2) == Running(c.(pc := c.pc + 8, aarch64 := c.aarch64[rd := v2]))
    ensures Stays(mem, Running(c), 2, AArch64)
  {
    hide CodeAt, Step, InsertPart, Bytes32, Run, Stays;
    var c1 := c.(pc := c.pc + 4, aarch64 := c.aarch64[rd := v1]);
    var c2 := c.(pc := c.pc + 8, aarch64 := c.aarch64[rd := v2]);
    MoveWideStep(mem, c, opcode, rd, imm1, part);
    MoveWideStep(mem, c1, 0xf280_0000, rd, imm2, part + 1);
    assert c1.aarch64[rd := v2] == c.aarch64[rd := v2];
    StaysTwo(mem, c, c1, c2, AArch64);
  }

  /** Four moves that build a value from its parts. */
  lemma MovePartsRun(mem: Memory, c: Cpu, rd: nat, p0: nat, p1: nat, p2: nat, p3: nat, v1: u64, v2: u64, value: u64)
    requires c.frontend == AArch64 && c.pc % 4 == 0 && c.pc + 16 <= 0x8000_0000_0000 && rd < 31
    requires p0 < 0x1_0000 && p1 < 0x1_0000 && p2 < 0x1_0000 && p3 < 0x1_0000
    requires p0 == InsertPart(0, 0, p0) && v1 == InsertPart(p0, 1, p1)
    requires v2 == InsertPart(v1, 2, p2) && value == InsertPart(v2, 3, p3)
    requires CodeAt(mem, c.pc, Bytes32(0xd280_0000 + p0 * 0x20 + rd))
    requires CodeAt(mem, c.pc + 4, Bytes32(0xf2a0_0000 + p1 * 0x20 + rd))
    requires CodeAt(mem, c.pc + 8, Bytes32(0xf2c0_0000 + p2 * 0x20 + rd))
    requires CodeAt(mem, c.pc + 12, Bytes32(0xf2e0_0000 + p3 * 0x20 + rd))
    ensures Run(mem, Running(c), 4) == Running(c.(pc := c.pc + 16, aarch64 := c.aarch64[rd := value]))
    ensures Stays(mem, Running(c), 4, AArch64)
  {
    hide *;
    var c2 := c.(pc := c.pc + 8, aarch64 := c.aarch64[rd := v1]);
    RegWritten(c.aarch64, rd, v1);
    MovePair(mem, c, 0xd280_0000, rd, 0, p0, p1, p0, v1);
    MovePair(mem, c2, 0xf280_0000, rd, 2, p2, p3, v2, value);
    assert c2.aarch64[rd := value] == c.aarch64[rd := value];
    RunAdd(mem, Running(c), 2, 2);
    StaysAdd(mem, Running(c), 2, 2, AArch64);
  }

  /** MOVZ and three MOVKs load any 64-bit value. */
  lemma MovAbsRuns(mem: Memory, c: Cpu, rd: nat, value: u64)
    requires c.frontend == AArch64 && c.pc % 4 == 0 && c.pc + 16 <= 0x8000_0000_0000 && rd < 31
    requires CodeAt(mem, c.pc, MovAbsBytes(rd, value))
    ensures Run(mem, Running(c), 4) == Running(c.(pc := c.pc + 16, aarch64 := c.aarch64[rd := value]))
    ensures Stays(mem, Running(c), 4, AArch64)
  {
    hide *;
    MovAbsCode(mem, c.pc, rd, value);
    var p0, p1, p2, p3, v1, v2 := PartsOf(value);
    MovePartsRun(mem, c, rd, p0, p1, p2, p3, v1, v2, value);
  }

  /** The parts of a value and what the moves have built after each of them. */
  lemma PartsOf(value: u64) returns (p0: nat, p1: nat, p2: nat, p3: nat, v1: u64, v2: u64)
    ensures p0 == value % 0x1_0000 && p1 == value / 0x1_0000 % 0x1_0000
    ensures p2 == value / 0x1_0000_0000 % 0x1_0000 && p3 == value / 0x1_0000_0000_0000 % 0x1_0000
    ensures p0 < 0x1_0000 && p1 < 0x1_0000 && p2 < 0x1_0000 && p3 < 0x1_0000
    ensures p0 == InsertPart(0, 0, p0) && v1 == InsertPart(p0, 1, p1)
    ensures v2 == InsertPart(v1, 2, p2) && value == InsertPart(v2, 3, p3)
  {
    hide InsertPart;
    Parts(value);
    p0, p1 := value % 0x1_0000, value / 0x1_0000 % 0x1_0000;
    p2, p3 := value / 0x1_0000_0000 % 0x1_0000, value / 0x1_0000_0000_0000 % 0x1_0000;
    PartsRebuild(p0, p1, p2, p3);
    v1 := p0 + p1 * 0x1_0000;
    v2 := v1 + p2 * 0x1_0000_0000;
  }

  // ----- entering a frontend -----

  /** A word-aligned mapping of `size` bytes in the lower canonical half. */
  predicate Mapping(base: u64, size: nat) {
    base % 4 == 0 && base + size <= 0x8000_0000_0000
  }

  lemma TwiceIsEven(k: int)
    ensures (2 * k) % 2 == 0
  {
  }

  lemma EvenWord(a: u64)
    requires a % 4 == 0
    ensures a % 2 == 0
  {
    var k := 2 * (a / 4);
    assert a == 2 * k;
    TwiceIsEven(k);
  }

  lemma InMapping(base: u64, size: nat, k: nat)
    requires Mapping(base, size) && k < size && k % 4 == 0
    ensures base + size <= 0x8000_0000_0000 && Canonical(base + k)
    ensures Aligned(AArch64, base + k) && Aligned(RiscV, base + k)
  {
    EvenWord(base + k);
  }

  /** The CPU once the entry stub has run: R13 and R15 are set, the frontend has its TLS
      base and its exchange window, and the next instruction is the one after the stub. */
  function Entered(c: Cpu, frontend: u32): Cpu
    requires c.pc + 16 <= 0x8000_0000_0000
    requires frontend == FRONTEND_AARCH64 || frontend == FRONTEND_RISCV
  {
    var x := c.x86[13 := 0][15 := frontend];
    var next := c.(pc := c.pc + 16, x86 := x, tls := 0);
    if frontend == FRONTEND_AARCH64
    then next.(frontend := AArch64, aarch64 := WindowIn(x, c.aarch64, 0))
    else next.(frontend := RiscV, riscv := WindowIn(x, c.riscv, 10))
  }

  lemma EntryLayout(frontend: u32)
    requires frontend == FRONTEND_AARCH64 || frontend == FRONTEND_RISCV
    ensures SignalCode.EntryBytes(frontend)
         == [0x90, 0x90, 0x90, 0x4d, 0x31, 0xed, 0x41, 0xbf, frontend, 0, 0, 0, 0x0f, 0x3a, 0xfc, 0x03]
  {
    assert PenterSizeAt(3, frontend) == PENTER_BYTES;
    assert Nops(3) == [0x90, 0x90, 0x90];
    assert Bytes32(frontend) == [frontend, 0, 0, 0];
  }

  lemma EntryCode(mem: Memory, p: u64, frontend: u32)
    requires frontend == FRONTEND_AARCH64 || frontend == FRONTEND_RISCV
    requires p + 16 <= 0x8000_0000_0000 && CodeAt(mem, p, SignalCode.EntryBytes(frontend))
    ensures ByteIs(mem, p, 0x90) && ByteIs(mem, p + 1, 0x90) && ByteIs(mem, p + 2, 0x90)
    ensures ByteIs(mem, p + 3, 0x4d) && ByteIs(mem, p + 4, 0x31) && ByteIs(mem, p + 5, 0xed)
    ensures ByteIs(mem, p + 6, 0x41) && ByteIs(mem, p + 7, 0xbf) && Fetch32(mem, p + 8) == Some(frontend)
    ensures ByteIs(mem, p + 12, 0x0f) && ByteIs(mem, p + 13, 0x3a)
    ensures ByteIs(mem, p + 14, 0xfc) && ByteIs(mem, p + 15, 0x03)
  {
    hide CodeAt, SignalCode.EntryBytes;
    EntryLayout(frontend);
    var b := SignalCode.EntryBytes(frontend);
    CodeByte(mem, p, b, 0);
    CodeByte(mem, p, b, 1);
    CodeByte(mem, p, b, 2);
    CodeByte(mem, p, b, 3);
    CodeByte(mem, p, b, 4);
    CodeByte(mem, p, b, 5);
    CodeByte(mem, p, b, 6);
    CodeByte(mem, p, b, 7);
    CodeByte(mem, p, b, 8);
    CodeByte(mem, p, b, 9);
    CodeByte(mem, p, b, 10);
    CodeByte(mem, p, b, 11);
    CodeByte(mem, p, b, 12);
    CodeByte(mem, p, b, 13);
    CodeByte(mem, p, b, 14);
    CodeByte(mem, p, b, 15);
  }

  lemma CodeByte(mem: Memory, a: u64, bytes: seq<u8>, i: nat)
    requires i < |bytes| && a + |bytes| <= TWO_64 && CodeAt(mem, a, bytes)
    ensures ByteIs(mem, a + i, bytes[i])
  {
    assert Add64(a, i) == a + i;
  }

  lemma StepNop(mem: Memory, c: Cpu)
    requires c.frontend == X86 && c.pc + 1 <= 0x8000_0000_0000 && ByteIs(mem, c.pc, 0x90)
    ensures Step(mem, Running(c)) == Running(c.(pc := c.pc + 1))
  {
  }

  lemma StepZeroTls(mem: Memory, c: Cpu)
    requires c.frontend == X86 && c.pc + 3 <= 0x8000_0000_0000
    requires ByteIs(mem, c.pc, 0x4d) && ByteIs(mem, c.pc + 1, 0x31) && ByteIs(mem, c.pc + 2, 0xed)
    ensures Step(mem, Running(c)) == Running(c.(pc := c.pc + 3, x86 := c.x86[13 := 0]))
  {
  }

  lemma StepFrontend(mem: Memory, c: Cpu, frontend: u32)
    requires c.frontend == X86 && c.pc + 6 <= 0x8000_0000_0000
    requires ByteIs(mem, c.pc, 0x41) && ByteIs(mem, c.pc + 1, 0xbf) && Fetch32(mem, c.pc + 2) == Some(frontend)
    ensures Step(mem, Running(c)) == Running(c.(pc := c.pc + 6, x86 := c.x86[15 := frontend]))
  {
    hide Fetch32;
  }

  lemma StepEnter(mem: Memory, c: Cpu)
    requires c.frontend == X86 && c.pc + 4 <= 0x8000_0000_0000
    requires ByteIs(mem, c.pc, 0x0f) && ByteIs(mem, c.pc + 1, 0x3a)
    requires ByteIs(mem, c.pc + 2, 0xfc) && ByteIs(mem, c.pc + 3, 0x03)
    ensures Step(mem, Running(c)) == Enter(c)
  {
    hide Enter;
  }

  /** The three NOPs and the clearing of the TLS base. */
  lemma EntryStarts(mem: Memory, c: Cpu)
    requires c.frontend == X86 && c.pc + 6 <= 0x8000_0000_0000
    requires ByteIs(mem, c.pc, 0x90) && ByteIs(mem, c.pc + 1, 0x90) && ByteIs(mem, c.pc + 2, 0x90)
    requires ByteIs(mem, c.pc + 3, 0x4d) && ByteIs(mem, c.pc + 4, 0x31) && ByteIs(mem, c.pc + 5, 0xed)
    ensures Run(mem, Running(c), 4) == Running(c.(pc := c.pc + 6, x86 := c.x86[13 := 0]))
    ensures Stays(mem, Running(c), 4, X86)
  {
    hide *;
    var p := c.pc;
    var c1, c2, c3 := c.(pc := p + 1), c.(pc := p + 2), c.(pc := p + 3);
    var c4 := c.(pc := p + 6, x86 := c.x86[13 := 0]);
    StepNop(mem, c);
    StepNop(mem, c1);
    StepNop(mem, c2);
    StepZeroTls(mem, c3);
    StaysTwo(mem, c, c1, c2, X86);
    StaysTwo(mem, c2, c3, c4, X86);
    RunAdd(mem, Running(c), 2, 2);
    StaysAdd(mem, Running(c), 2, 2, X86);
  }

  lemma EntryRuns(mem: Memory, c: Cpu, frontend: u32)
    requires frontend == FRONTEND_AARCH64 || frontend == FRONTEND_RISCV
    requires c.frontend == X86 && Mapping(c.pc, 20)
    requires CodeAt(mem, c.pc, SignalCode.EntryBytes(frontend))
    ensures Run(mem, Running(c), 6) == Running(Entered(c, frontend))
    ensures Stays(mem, Running(c), 5, X86)
  {
    hide *;
    InMapping(c.pc, 20, 16);
    EntryCode(mem, c.pc, frontend);
    var p := c.pc;
    var c4 := c.(pc := p + 6, x86 := c.x86[13 := 0]);
    var c5 := c4.(pc := p + 12, x86 := c4.x86[15 := frontend]);
    EntryStarts(mem, c);
    StepFrontend(mem, c4, frontend);
    StepEnter(mem, c5);
    Enters(c, c5, frontend);
    StaysOne(mem, c4, c5, X86);
    StaysAdd(mem, Running(c), 4, 1, X86);
    RunAdd(mem, Running(c), 4, 2);
    RunOne(mem, Running(c4), 2);
    RunOne(mem, Running(c5), 1);
    RunZero(mem, Step(mem, Running(c5)));
  }

  lemma Enters(c: Cpu, d: Cpu, frontend: u32)
    requires frontend == FRONTEND_AARCH64 || frontend == FRONTEND_RISCV
    requires c.frontend == X86 && c.pc + 20 <= 0x8000_0000_0000 && Canonical(c.pc + 16)
    requires Aligned(AArch64, c.pc + 16) && Aligned(RiscV, c.pc + 16)
    requires d == c.(pc := c.pc + 12, x86 := c.x86[13 := 0][15 := frontend])
    ensures Enter(d) == Running(Entered(c, frontend))
  {
    hide WindowIn, Canonical, Aligned;
  }

  // ----- the countdown loops of the callees -----

  /** How often a countdown that tests for zero after decrementing runs. */
  function Iterations(count: u64): nat {
    if count == 0 then TWO_64 else count
  }

  lemma RiscvDecodes()
    ensures DecodeRiscv(0x0005_0a13) == Addi(20, 10, 0)
    ensures DecodeRiscv(0xfff5_8593) == Addi(11, 11, -1)
    ensures DecodeRiscv(0xfe05_9ee3) == Bne(11, 0, -4)
    ensures DecodeRiscv(0x009a_0513) == Addi(10, 20, 9)
    ensures DecodeRiscv(0x0000_8067) == Jalr(0, 1, 0)
    ensures DecodeRiscv(0x0015_0513) == Addi(10, 10, 1)
  {
  }

  lemma Aarch64Decodes()
    ensures DecodeAarch64(0x9100_0014) == AddImm(20, 0, 0)
    ensures DecodeAarch64(0xf100_0421) == SubsImm(1, 1, 1)
    ensures DecodeAarch64(0x54ff_ffe1) == BranchNe(-4)
    ensures DecodeAarch64(0x9100_2280) == AddImm(0, 20, 8)
    ensures DecodeAarch64(0xd65f_03c0) == Ret(30)
    ensures DecodeAarch64(0x9100_0400) == AddImm(0, 0, 1)
    ensures DecodeAarch64(0xd280_0051) == Movz(17, 2, 0)
  {
  }

  lemma RegWritten(file: Regs, r: nat, v: u64)
    ensures Reg(file[r := v], r) == v
  {
  }

  lemma ExecAddi(mem: Memory, c: Cpu, rd: nat, rs1: nat, imm: int)
    requires c.frontend == RiscV && c.pc + 4 <= 0x8000_0000_0000 && rd != 0 && rs1 != 0
    ensures ExecRiscv(mem, Addi(rd, rs1, imm), c)
         == Running(c.(pc := c.pc + 4, riscv := c.riscv[rd := Add64(Reg(c.riscv, rs1), imm)]))
  {
  }

  lemma ExecAuipc(mem: Memory, c: Cpu, rd: nat, imm: int)
    requires c.frontend == RiscV && c.pc + 4 <= 0x8000_0000_0000 && rd != 0
    ensures ExecRiscv(mem, Auipc(rd, imm), c)
         == Running(c.(pc := c.pc + 4, riscv := c.riscv[rd := Add64(c.pc, imm)]))
  {
  }

  lemma ExecBackIfNonzero(mem: Memory, c: Cpu, r: nat)
    requires c.frontend == RiscV && 4 <= c.pc && c.pc + 4 <= 0x8000_0000_0000 && r != 0
    ensures ExecRiscv(mem, Bne(r, 0, -4), c)
         == Running(c.(pc := if Reg(c.riscv, r) != 0 then c.pc - 4 else c.pc + 4))
  {
  }

  lemma ExecAdd(c: Cpu, rd: nat, rn: nat, imm: nat)
    requires c.frontend == AArch64 && c.pc + 4 <= 0x8000_0000_0000
    ensures ExecAarch64(AddImm(rd, rn, imm), c)
         == Running(c.(pc := c.pc + 4, aarch64 := c.aarch64[rd := Add64(Reg(c.aarch64, rn), imm)]))
  {
  }

  lemma ExecSubs(c: Cpu, rd: nat, rn: nat, imm: nat)
    requires c.frontend == AArch64 && c.pc + 4 <= 0x8000_0000_0000
    ensures var left := Add64(Reg(c.aarch64, rn), 0 - imm as int);
      ExecAarch64(SubsImm(rd, rn, imm), c)
      == Running(c.(pc := c.pc + 4, aarch64 := c.aarch64[rd := left], zero := left == 0))
  {
  }

  lemma ExecBackIfNotZero(c: Cpu)
    requires c.frontend == AArch64 && 4 <= c.pc && c.pc + 4 <= 0x8000_0000_0000
    ensures ExecAarch64(BranchNe(-4), c) == Running(c.(pc := if c.zero then c.pc + 4 else c.pc - 4))
  {
  }

  lemma RiscvIteration(mem: Memory, c: Cpu)
    requires c.frontend == RiscV && c.pc % 2 == 0 && c.pc + 8 <= 0x8000_0000_0000
    requires CodeAt(mem, c.pc, Bytes32(0xfff5_8593)) && CodeAt(mem, c.pc + 4, Bytes32(0xfe05_9ee3))
    ensures var left := Add64(Reg(c.riscv, 11), -1);
      && Step(mem, Running(c)) == Running(c.(pc := c.pc + 4, riscv := c.riscv[11 := left]))
      && Step(mem, Step(mem, Running(c)))
         == Running(c.(pc := if left == 0 then c.pc + 8 else c.pc, riscv := c.riscv[11 := left]))
  {
    hide *;
    RiscvDecodes();
    var left := Add64(Reg(c.riscv, 11), -1);
    var c1 := c.(pc := c.pc + 4, riscv := c.riscv[11 := left]);
    StepRiscv(mem, c, 0xfff5_8593);
    ExecAddi(mem, c, 11, 11, -1);
    StepRiscv(mem, c1, 0xfe05_9ee3);
    ExecBackIfNonzero(mem, c1, 11);
    RegWritten(c.riscv, 11, left);
  }

  /** In the loop the frontend is RISC-V, the caller is on the transition stack, and every
      register but the counter keeps its value, whichever step is looked at. */
  ghost predicate RiscvCounting(s: State, c: Cpu) {
    && s.Running? && s.cpu.frontend == RiscV && s.cpu.transitions == c.transitions
    && forall r :: r != 11 ==> Reg(s.cpu.riscv, r) == Reg(c.riscv, r)
  }

  lemma {:induction false} RiscvLoop(mem: Memory, c: Cpu)
    requires c.frontend == RiscV && c.pc % 2 == 0 && c.pc + 8 <= 0x8000_0000_0000
    requires CodeAt(mem, c.pc, Bytes32(0xfff5_8593)) && CodeAt(mem, c.pc + 4, Bytes32(0xfe05_9ee3))
    ensures var n := 2 * Iterations(Reg(c.riscv, 11));
      && Run(mem, Running(c), n) == Running(c.(pc := c.pc + 8, riscv := c.riscv[11 := 0]))
      && forall j :: 0 <= j <= n ==> RiscvCounting(Run(mem, Running(c), j), c)
    decreases Iterations(Reg(c.riscv, 11))
  {
    hide CodeAt, Bytes32, Step;
    RiscvIteration(mem, c);
    var n := 2 * Iterations(Reg(c.riscv, 11));
    var left := Add64(Reg(c.riscv, 11), -1);
    var next := c.(pc := if left == 0 then c.pc + 8 else c.pc, riscv := c.riscv[11 := left]);
    RunAdd(mem, Running(c), 2, n - 2);
    assert Run(mem, Running(c), 2) == Running(next);
    if left != 0 {
      RiscvLoop(mem, next);
      assert next.riscv[11 := 0] == c.riscv[11 := 0];
    }
    forall j | 0 <= j <= n ensures RiscvCounting(Run(mem, Running(c), j), c) {
      if j >= 2 {
        RunAdd(mem, Running(c), 2, j - 2);
      } else if j == 1 {
        RunOne(mem, Running(c), 1);
      }
    }
  }

  lemma Aarch64Iteration(mem: Memory, c: Cpu)
    requires c.frontend == AArch64 && c.pc % 4 == 0 && c.pc + 8 <= 0x8000_0000_0000
    requires CodeAt(mem, c.pc, Bytes32(0xf100_0421)) && CodeAt(mem, c.pc + 4, Bytes32(0x54ff_ffe1))
    ensures var left := Add64(Reg(c.aarch64, 1), -1);
      && Step(mem, Running(c))
         == Running(c.(pc := c.pc + 4, aarch64 := c.aarch64[1 := left], zero := left == 0))
      && Step(mem, Step(mem, Running(c)))
         == Running(c.(pc := if left == 0 then c.pc + 8 else c.pc, aarch64 := c.aarch64[1 := left], zero := left == 0))
  {
    hide *;
    Aarch64Decodes();
    var left := Add64(Reg(c.aarch64, 1), -1);
    var c1 := c.(pc := c.pc + 4, aarch64 := c.aarch64[1 := left], zero := left == 0);
    StepAarch64(mem, c, 0xf100_0421);
    ExecSubs(c, 1, 1, 1);
    StepAarch64(mem, c1, 0x54ff_ffe1);
    ExecBackIfNotZero(c1);
  }

  ghost predicate Aarch64Counting(s: State, c: Cpu) {
    && s.Running? && s.cpu.frontend == AArch64 && s.cpu.transitions == c.transitions
    && forall r :: r != 1 ==> Reg(s.cpu.aarch64, r) == Reg(c.aarch64, r)
  }

  lemma {:induction false} Aarch64Loop(mem: Memory, c: Cpu)
    requires c.frontend == AArch64 && c.pc % 4 == 0 && c.pc + 8 <= 0x8000_0000_0000
    requires CodeAt(mem, c.pc, Bytes32(0xf100_0421)) && CodeAt(mem, c.pc + 4, Bytes32(0x54ff_ffe1))
    ensures var n := 2 * Iterations(Reg(c.aarch64, 1));
      && Run(mem, Running(c), n)
         == Running(c.(pc := c.pc + 8, aarch64 := c.aarch64[1 := 0], zero := true))
      && forall j :: 0 <= j <= n ==> Aarch64Counting(Run(mem, Running(c), j), c)
    decreases Iterations(Reg(c.aarch64, 1))
  {
    hide CodeAt, Bytes32, Step;
    Aarch64Iteration(mem, c);
    var n := 2 * Iterations(Reg(c.aarch64, 1));
    var left := Add64(Reg(c.aarch64, 1), -1);
    var next := c.(pc := if left == 0 then c.pc + 8 else c.pc, aarch64 := c.aarch64[1 := left], zero := left == 0);
    RunAdd(mem, Running(c), 2, n - 2);
    assert Run(mem, Running(c), 2) == Running(next);
    if left != 0 {
      Aarch64Loop(mem, next);
      assert next.aarch64[1 := 0] == c.aarch64[1 := 0];
    }
    forall j | 0 <= j <= n ensures Aarch64Counting(Run(mem, Running(c), j), c) {
      if j >= 2 {
        RunAdd(mem, Running(c), 2, j - 2);
      } else if j == 1 {
        RunOne(mem, Running(c), 1);
      }
    }
  }

  // ----- register files, control instructions and the way back to x86 -----

  lemma AddZero(x: u64)
    ensures Add64(x, 0) == x
  {
  }

  lemma RegOther(file: Regs, r: nat, v: u64, q: nat)
    requires q != r
    ensures Reg(file[r := v], q) == Reg(file, q)
  {
  }

  lemma CopyArgsFirst(from: Regs, src: nat, to: Regs, dst: nat)
    ensures var y := CopyArgs(from, src, to, dst);
      Reg(y, dst) == Reg(from, src) && Reg(y, dst + 1) == Reg(from, src + 1)
  {
  }

  lemma CopyArgsOther(from: Regs, src: nat, to: Regs, dst: nat, q: nat)
    requires q < dst || q >= dst + 8
    ensures Reg(CopyArgs(from, src, to, dst), q) == Reg(to, q)
  {
  }

  lemma WindowReturnsFirst(from: Regs, src: nat, x86: Regs)
    ensures Reg(WindowOut(from, src, x86), 0) == Reg(from, src)
  {
  }

  lemma StepRet(mem: Memory, c: Cpu)
    requires c.frontend == X86 && ByteIs(mem, c.pc, 0xc3)
    ensures Step(mem, Running(c)) == Returned(c)
  {
  }

  lemma Aarch64ControlDecodes()
    ensures DecodeAarch64(Aarch64Control(AARCH64_CALL_SIG_BASE + NATIVE_REGS_SLOT)) == Aarch64Ctrl(0x53)
    ensures DecodeAarch64(Aarch64Control(AARCH64_ESCAPE_SUBOP)) == Aarch64Ctrl(AARCH64_ESCAPE_SUBOP)
  {
    hide Or;
    assert Aarch64Control(AARCH64_CALL_SIG_BASE + NATIVE_REGS_SLOT) == 0xd503_2a7f;
    assert Aarch64Control(AARCH64_ESCAPE_SUBOP) == 0xd503_2e1f;
  }

  lemma RiscvControlDecodes()
    ensures DecodeRiscv(RiscvControl(RISCV_CALL_SIG_BASE + NATIVE_REGS_SLOT)) == RiscvCtrl(0x23)
    ensures DecodeRiscv(RiscvControl(RISCV_ESCAPE_SUBOP)) == RiscvCtrl(RISCV_ESCAPE_SUBOP)
  {
    hide Or;
    assert RiscvControl(RISCV_CALL_SIG_BASE + NATIVE_REGS_SLOT) == 0x4600_700b;
    assert RiscvControl(RISCV_ESCAPE_SUBOP) == 0x0000_700b;
  }

  lemma Aarch64Escapes(c: Cpu)
    requires c.frontend == AArch64 && c.pc + 4 < 0x8000_0000_0000
    ensures ExecAarch64(Aarch64Ctrl(AARCH64_ESCAPE_SUBOP), c)
         == Running(c.(frontend := X86, pc := c.pc + 4, x86 := WindowOut(c.aarch64, 0, c.x86)))
  {
    hide WindowOut;
  }

  lemma RiscvEscapes(mem: Memory, c: Cpu)
    requires c.frontend == RiscV && c.pc + 4 < 0x8000_0000_0000
    ensures ExecRiscv(mem, RiscvCtrl(RISCV_ESCAPE_SUBOP), c)
         == Running(c.(frontend := X86, pc := c.pc + 4, x86 := WindowOut(c.riscv, 10, c.x86)))
  {
    hide WindowOut;
  }

  /** The CPU about to run a program at `base`, with the native-register signature in its
      slot and room for one more transition. */
  predicate AtEntry(c: Cpu, base: u64) {
    && c.frontend == X86 && c.pc == base
    && NATIVE_REGS_SLOT in c.slots && c.slots[NATIVE_REGS_SLOT] == 4
    && |c.transitions| < 8
  }
}
