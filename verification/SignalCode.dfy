/** The two cross-frontend programs of the signal test, as the bytes they consist of
and as the methods that emit them.  `base` is the address the buffer is mapped at.
*/
module SignalCode {
  import opened Words
  import opened Encoders
  import opened Emitter

  const CODE_SIZE: nat := 256

  /** Three NOPs and the entry stub; the frontend's code starts at offset 16. */
  function EntryBytes(frontend: u32): (b: seq<u8>)
    ensures EntryAlignment(frontend) == 4 ==> |b| == 16
  {
    Nops(3) + PenterBytes(3, frontend)
  }

  method EmitEntry(frontend: u32) returns (code: CodeBuffer)
    requires EntryAlignment(frontend) == 4
    ensures fresh(code) && fresh(code.bytes) && code.Valid() && code.bytes.Length == CODE_SIZE
    ensures code.Emitted() == EntryBytes(frontend)
  {
    code := new CodeBuffer(CODE_SIZE);
    code.EmitPadding(3, 0x90);
    code.EmitPenter(frontend);
  }

  // ----- AArch64 code that calls RISC-V code -----

  function Aarch64CallerBytes(base: u64, seed: u64, loops: u64, target: nat, ret: nat): (b: seq<u8>)
    ensures |b| == 72
  {
    MovAbsBytes(0, seed) + MovAbsBytes(1, loops)
    + MovAbsBytes(16, Add64(base, target)) + Bytes32(0xd280_0051)  // movz x17,#2
    + MovAbsBytes(18, Add64(base, ret))
    + Bytes32(Aarch64Control(AARCH64_CALL_SIG_BASE + NATIVE_REGS_SLOT))
  }

  /** add x0,x0,#1; escape; ret */
  function Aarch64TailBytes(): (b: seq<u8>)
    ensures |b| == 9
  {
    Bytes32(0x9100_0400) + Bytes32(Aarch64Control(AARCH64_ESCAPE_SUBOP)) + [0xc3]
  }

  /** addi s4,a0,0; addi a1,a1,-1; bnez a1,-4; addi a0,s4,9; ret */
  function RiscvCalleeBytes(): (b: seq<u8>)
    ensures |b| == 20
  {
    Bytes32(0x0005_0a13) + Bytes32(0xfff5_8593) + Bytes32(0xfe05_9ee3)
    + Bytes32(0x009a_0513) + Bytes32(0x0000_8067)
  }

  function Aarch64ToRiscvBytes(base: u64, seed: u64, loops: u64): seq<u8> {
    EntryBytes(FRONTEND_AARCH64) + Aarch64CallerBytes(base, seed, loops, 100, 88)
    + Aarch64TailBytes() + Nops(3) + RiscvCalleeBytes()
  }

  /** The return and target offsets are computed before the code they name is emitted;
      both turn out to be where that code starts. */
  method EmitAarch64ToRiscv(base: u64, seed: u64, loops: u64)
    returns (code: CodeBuffer, returnOffset: nat, targetOffset: nat)
    ensures fresh(code) && fresh(code.bytes) && code.Valid() && code.bytes.Length == CODE_SIZE
    ensures code.Emitted() == Aarch64ToRiscvBytes(base, seed, loops)
    ensures returnOffset == |EntryBytes(FRONTEND_AARCH64)|
            + |Aarch64CallerBytes(base, seed, loops, targetOffset, returnOffset)|
    ensures targetOffset == returnOffset + |Aarch64TailBytes()| + 3
    ensures returnOffset % 4 == 0 && targetOffset % 4 == 0
  {
    hide Aarch64CallerBytes, Aarch64TailBytes, RiscvCalleeBytes, EntryBytes;
    code := EmitEntry(FRONTEND_AARCH64);
    returnOffset := code.offset + 16 + 16 + 16 + 4 + 16 + 4;
    targetOffset := (returnOffset + 8 + 1 + 3) / 4 * 4;
    EmitAarch64Caller(code, base, seed, loops, targetOffset, returnOffset);
    assert code.offset == returnOffset;

    EmitAarch64Tail(code);
    code.EmitPadding(targetOffset - code.offset, 0x90);
    assert code.offset == targetOffset;
    EmitRiscvCallee(code);
  }

  method EmitAarch64Caller(code: CodeBuffer, base: u64, seed: u64, loops: u64, target: nat, ret: nat)
    requires code.Valid() && code.offset + 72 <= code.bytes.Length
    modifies code, code.bytes
    ensures code.Valid() && code.offset == old(code.offset) + 72
    ensures code.Emitted() == old(code.Emitted()) + Aarch64CallerBytes(base, seed, loops, target, ret)
  {
    hide MovAbsBytes, Bytes32, Aarch64Control, Add64;
    code.EmitMovAbs(0, seed);
    code.EmitMovAbs(1, loops);
    code.EmitMovAbs(16, Add64(base, target));
    code.EmitU32(0xd280_0051);
    code.EmitMovAbs(18, Add64(base, ret));
    code.EmitU32(Aarch64Control(AARCH64_CALL_SIG_BASE + NATIVE_REGS_SLOT));
  }

  method EmitAarch64Tail(code: CodeBuffer)
    requires code.Valid() && code.offset + 9 <= code.bytes.Length
    modifies code, code.bytes
    ensures code.Valid() && code.offset == old(code.offset) + 9
    ensures code.Emitted() == old(code.Emitted()) + Aarch64TailBytes()
  {
    code.EmitU32(0x9100_0400);
    code.EmitU32(Aarch64Control(AARCH64_ESCAPE_SUBOP));
    code.EmitByte(0xc3);
  }

  method EmitRiscvCallee(code: CodeBuffer)
    requires code.Valid() && code.offset + 20 <= code.bytes.Length
    modifies code, code.bytes
    ensures code.Valid() && code.offset == old(code.offset) + 20
    ensures code.Emitted() == old(code.Emitted()) + RiscvCalleeBytes()
  {
    code.EmitU32(0x0005_0a13);
    code.EmitU32(0xfff5_8593);
    code.EmitU32(0xfe05_9ee3);
    code.EmitU32(0x009a_0513);
    code.EmitU32(0x0000_8067);
  }

  // ----- RISC-V code that calls AArch64 code -----

  /** Three times auipc rd,0 followed by a load from the datum; the loads are given as words. */
  function RiscvLoadsBytes(ldSeed: u32, ldLoops: u32, ldTarget: u32): (b: seq<u8>)
    ensures |b| == 24
  {
    Bytes32(0x0000_0517) + Bytes32(ldSeed) + Bytes32(0x0000_0597) + Bytes32(ldLoops)
    + Bytes32(0x0000_0297) + Bytes32(ldTarget)
  }

  function RiscvCallerBytes(ldSeed: u32, ldLoops: u32, ldTarget: u32, ldRet: u32): (b: seq<u8>)
    ensures |b| == 40
  {
    RiscvLoadsBytes(ldSeed, ldLoops, ldTarget) + Bytes32(RiscvAddi(6, 0, 1))
    + Bytes32(0x0000_0397) + Bytes32(ldRet)
    + Bytes32(RiscvControl(RISCV_CALL_SIG_BASE + NATIVE_REGS_SLOT))
  }

  /** addi a0,a0,1; escape; ret */
  function RiscvTailBytes(): (b: seq<u8>)
    ensures |b| == 9
  {
    Bytes32(0x0015_0513) + Bytes32(RiscvControl(RISCV_ESCAPE_SUBOP)) + [0xc3]
  }

  /** add x20,x0,#0; subs x1,x1,#1; b.ne -4; add x0,x20,#8; ret */
  function Aarch64CalleeBytes(): (b: seq<u8>)
    ensures |b| == 20
  {
    Bytes32(0x9100_0014) + Bytes32(0xf100_0421) + Bytes32(0x54ff_ffe1)
    + Bytes32(0x9100_2280) + Bytes32(0xd65f_03c0)
  }

  function DataBytes(base: u64, seed: u64, loops: u64, target: nat, ret: nat): (b: seq<u8>)
    ensures |b| == 32
  {
    BytesOf(Add64(base, target), 8) + BytesOf(Add64(base, ret), 8) + BytesOf(seed, 8) + BytesOf(loops, 8)
  }

  function AfterCallerBytes(base: u64, seed: u64, loops: u64): (b: seq<u8>)
    ensures |b| == 64
  {
    RiscvTailBytes() + Nops(3) + Aarch64CalleeBytes() + DataBytes(base, seed, loops, 68, 56)
  }

  /** Everything but the four load words, which are parameters. */
  function RiscvToAarch64With(base: u64, seed: u64, loops: u64,
                              ldSeed: u32, ldLoops: u32, ldTarget: u32, ldRet: u32): seq<u8> {
    EntryBytes(FRONTEND_RISCV) + RiscvCallerBytes(ldSeed, ldLoops, ldTarget, ldRet)
    + AfterCallerBytes(base, seed, loops)
  }

  /** The finished program: each load word holds the distance from its AUIPC to its datum. */
  function RiscvToAarch64Bytes(base: u64, seed: u64, loops: u64): seq<u8> {
    RiscvToAarch64With(base, seed, loops,
      RiscvLd(10, 10, 104 - 16), RiscvLd(11, 11, 112 - 24), RiscvLd(5, 5, 88 - 32), RiscvLd(7, 7, 96 - 44))
  }

  /** Overwriting a load word of the caller changes that word and nothing else. */
  lemma PatchCaller(a: u32, b: u32, c: u32, d: u32, w: u32)
    ensures var code := RiscvCallerBytes(a, b, c, d);
      && code[..4] + Bytes32(w) + code[8..] == RiscvCallerBytes(w, b, c, d)
      && code[..12] + Bytes32(w) + code[16..] == RiscvCallerBytes(a, w, c, d)
      && code[..20] + Bytes32(w) + code[24..] == RiscvCallerBytes(a, b, w, d)
      && code[..32] + Bytes32(w) + code[36..] == RiscvCallerBytes(a, b, c, w)
  {
    hide Bytes32, RiscvAddi, RiscvControl;
  }

  lemma PatchInside(p: seq<u8>, k: seq<u8>, q: seq<u8>, at: nat, b: seq<u8>)
    requires at + |b| <= |k|
    ensures var code := p + k + q;
      code[..|p| + at] + b + code[|p| + at + |b|..] == p + (k[..at] + b + k[at + |b|..]) + q
  {
  }

  lemma PatchLoads(base: u64, seed: u64, loops: u64, a: u32, b: u32, c: u32, d: u32, w: u32)
    ensures var code := RiscvToAarch64With(base, seed, loops, a, b, c, d);
      && |code| == 120
      && code[..20] + Bytes32(w) + code[24..] == RiscvToAarch64With(base, seed, loops, w, b, c, d)
      && code[..28] + Bytes32(w) + code[32..] == RiscvToAarch64With(base, seed, loops, a, w, c, d)
      && code[..36] + Bytes32(w) + code[40..] == RiscvToAarch64With(base, seed, loops, a, b, w, d)
      && code[..48] + Bytes32(w) + code[52..] == RiscvToAarch64With(base, seed, loops, a, b, c, w)
  {
    hide EntryBytes, RiscvCallerBytes, AfterCallerBytes, Bytes32;
    var p, k, q := EntryBytes(FRONTEND_RISCV), RiscvCallerBytes(a, b, c, d), AfterCallerBytes(base, seed, loops);
    PatchCaller(a, b, c, d, w);
    PatchInside(p, k, q, 4, Bytes32(w));
    PatchInside(p, k, q, 12, Bytes32(w));
    PatchInside(p, k, q, 20, Bytes32(w));
    PatchInside(p, k, q, 32, Bytes32(w));
  }

  /** Emits placeholders for the loads, then the callee and the data, and only then
      stores the load words, whose offsets are known by that time. */
  method EmitRiscvToAarch64(base: u64, seed: u64, loops: u64)
    returns (code: CodeBuffer, returnOffset: nat, targetOffset: nat)
    ensures fresh(code) && fresh(code.bytes) && code.Valid() && code.bytes.Length == CODE_SIZE
    ensures code.Emitted() == RiscvToAarch64Bytes(base, seed, loops)
    ensures returnOffset == |EntryBytes(FRONTEND_RISCV)| + |RiscvCallerBytes(0, 0, 0, 0)|
    ensures targetOffset == returnOffset + |RiscvTailBytes()| + 3
    ensures returnOffset % 4 == 0 && targetOffset % 4 == 0
  {
    hide EntryBytes, RiscvCallerBytes, AfterCallerBytes, RiscvTailBytes, RiscvLd, Bytes32;
    code := EmitEntry(FRONTEND_RISCV);
    var pc := code.offset;
    EmitRiscvCaller(code);
    returnOffset := code.offset;
    var data;
    targetOffset, data := EmitAfterCaller(code, base, seed, loops, returnOffset);
    FillLoads(code, pc, data, base, seed, loops);
  }

  /** The tail, the callee and the data, each aligned for its reader. */
  method EmitAfterCaller(code: CodeBuffer, base: u64, seed: u64, loops: u64, returnOffset: nat)
    returns (targetOffset: nat, data: nat)
    requires code.Valid() && code.offset == returnOffset == 56 && 120 <= code.bytes.Length
    modifies code, code.bytes
    ensures code.Valid() && code.offset == 120 && targetOffset == 68 && data == 88
    ensures code.Emitted() == old(code.Emitted()) + AfterCallerBytes(base, seed, loops)
  {
    hide RiscvTailBytes, Aarch64CalleeBytes, DataBytes;
    EmitRiscvTail(code);
    code.EmitPadding((4 - code.offset % 4) % 4, 0x90);
    targetOffset := code.offset;
    EmitAarch64Callee(code);
    code.EmitPadding((8 - code.offset % 8) % 8, 0);
    data := code.offset;
    EmitData(code, base, seed, loops, targetOffset, returnOffset);
  }

  /** Stores the four load words over their placeholders. */
  method FillLoads(code: CodeBuffer, pc: nat, data: nat, ghost base: u64, ghost seed: u64, ghost loops: u64)
    requires code.Valid() && pc == 16 && data == 88
    requires code.Emitted() == RiscvToAarch64With(base, seed, loops, 0, 0, 0, 0)
    modifies code.bytes
    ensures code.Emitted() == RiscvToAarch64Bytes(base, seed, loops)
    ensures forall i :: code.offset <= i < code.bytes.Length ==> code.bytes[i] == old(code.bytes[i])
  {
    hide RiscvToAarch64With, RiscvLd, Bytes32;
    PatchLoads(base, seed, loops, 0, 0, 0, 0, RiscvLd(10, 10, 88));
    code.StoreU32(pc + 4, RiscvLd(10, 10, data + 16 - pc));
    PatchLoads(base, seed, loops, RiscvLd(10, 10, 88), 0, 0, 0, RiscvLd(11, 11, 88));
    code.StoreU32(pc + 12, RiscvLd(11, 11, data + 24 - (pc + 8)));
    PatchLoads(base, seed, loops, RiscvLd(10, 10, 88), RiscvLd(11, 11, 88), 0, 0, RiscvLd(5, 5, 56));
    code.StoreU32(pc + 20, RiscvLd(5, 5, data - (pc + 16)));
    PatchLoads(base, seed, loops, RiscvLd(10, 10, 88), RiscvLd(11, 11, 88), RiscvLd(5, 5, 56), 0, RiscvLd(7, 7, 52));
    code.StoreU32(pc + 32, RiscvLd(7, 7, data + 8 - (pc + 28)));
  }

  method EmitRiscvCaller(code: CodeBuffer)
    requires code.Valid() && code.offset + 40 <= code.bytes.Length
    modifies code, code.bytes
    ensures code.Valid() && code.offset == old(code.offset) + 40
    ensures code.Emitted() == old(code.Emitted()) + RiscvCallerBytes(0, 0, 0, 0)
  {
    hide Bytes32, RiscvAddi, RiscvControl, RiscvLoadsBytes;
    EmitRiscvLoads(code);
    code.EmitU32(RiscvAddi(6, 0, 1));
    EmitLoadPlaceholder(code, 0x0000_0397);
    code.EmitU32(RiscvControl(RISCV_CALL_SIG_BASE + NATIVE_REGS_SLOT));
  }

  method EmitRiscvLoads(code: CodeBuffer)
    requires code.Valid() && code.offset + 24 <= code.bytes.Length
    modifies code, code.bytes
    ensures code.Valid() && code.offset == old(code.offset) + 24
    ensures code.Emitted() == old(code.Emitted()) + RiscvLoadsBytes(0, 0, 0)
  {
    hide Bytes32;
    EmitLoadPlaceholder(code, 0x0000_0517);
    EmitLoadPlaceholder(code, 0x0000_0597);
    EmitLoadPlaceholder(code, 0x0000_0297);
  }

  /** An AUIPC and room for the load that will follow it. */
  method EmitLoadPlaceholder(code: CodeBuffer, auipc: u32)
    requires code.Valid() && code.offset + 8 <= code.bytes.Length
    modifies code, code.bytes
    ensures code.Valid() && code.offset == old(code.offset) + 8
    ensures code.Emitted() == old(code.Emitted()) + (Bytes32(auipc) + Bytes32(0))
  {
    hide Bytes32;
    code.EmitU32(auipc);
    code.EmitU32(0);
  }

  method EmitRiscvTail(code: CodeBuffer)
    requires code.Valid() && code.offset + 9 <= code.bytes.Length
    modifies code, code.bytes
    ensures code.Valid() && code.offset == old(code.offset) + 9
    ensures code.Emitted() == old(code.Emitted()) + RiscvTailBytes()
  {
    code.EmitU32(0x0015_0513);
    code.EmitU32(RiscvControl(RISCV_ESCAPE_SUBOP));
    code.EmitByte(0xc3);
  }

  method EmitAarch64Callee(code: CodeBuffer)
    requires code.Valid() && code.offset + 20 <= code.bytes.Length
    modifies code, code.bytes
    ensures code.Valid() && code.offset == old(code.offset) + 20
    ensures code.Emitted() == old(code.Emitted()) + Aarch64CalleeBytes()
  {
    hide Bytes32;
    code.EmitU32(0x9100_0014);
    code.EmitU32(0xf100_0421);
    code.EmitU32(0x54ff_ffe1);
    code.EmitU32(0x9100_2280);
    code.EmitU32(0xd65f_03c0);
  }

  method EmitData(code: CodeBuffer, base: u64, seed: u64, loops: u64, target: nat, ret: nat)
    requires code.Valid() && code.offset + 32 <= code.bytes.Length
    modifies code, code.bytes
    ensures code.Valid() && code.offset == old(code.offset) + 32
    ensures code.Emitted() == old(code.Emitted()) + DataBytes(base, seed, loops, target, ret)
  {
    hide BytesOf;
    code.EmitU64(Add64(base, target));
    code.EmitU64(Add64(base, ret));
    code.EmitU64(seed);
    code.EmitU64(loops);
  }
}
