# Verified model of the Poly frontend tools

Poly is an x86-64 processor with two further instruction decoders, its *frontends*, for
AArch64 and RISC-V. Control instructions enter a frontend (PENTER), call code of another
frontend through an ABI signature slot (PCALL) and go back to x86 (the escape). A call
leaves a return cookie in the callee's link register; an ordinary native return to the
cookie pops the hardware transition stack.

The user-space tools of the repository write such code byte by byte, load it from ELF files,
run it, handle its system calls, interrupt it with alarms, check a CRC against the AArch64
CRC instructions, and clean and check the exported processor state. This project models
that logic and proves what it is for.

## What is proved

- **Emitted programs.** `Machine` gives the instructions that the tools emit a meaning as a
  state machine; `SignalCode` emits the two cross-frontend programs of the signal test into
  a byte buffer. For every seed, loop count and address the bytes run to a return of
  seed + 10 or seed + 9, with the transition stack restored, and from the callee's second
  instruction to its return the machine is in the callee's frontend with the seed in its
  hidden register (`Aarch64ToRiscvReturns`, `RiscvToAarch64Returns`). A loop count of 0 means
  2^64 iterations. Together with the alarm handler's counters this gives the test as a whole:
  wherever in the run the alarms land, it passes if and only if there is one and each of them
  lands in an exactly given window of steps (`SignalTest`, where `ProgramsCanBeMapped` shows
  that the hypotheses can be met at every word-aligned address). Over every run of every
  program the transition stack keeps within its depth, and the first step that leaves a
  callee's depth resumes the caller of that callee, whatever was called in between
  (`ReturnUndoesCall`).
- **Payload loading.** The growing buffer, the ELF loader and the image that a payload is
  run from: which file bytes are taken, where the link register points, and what comes back,
  joined from the bytes of the ELF file to the returned register (`RiscvElfReturns`).
- **CRC.** Folding bytes into a register is the remainder of (C x^(8n) + M x^32) by the
  generator polynomial, and that remainder is unique; bursts of up to 32 bits are always
  detected, and odd numbers of wrong bits exactly by generators with an even number of terms;
  up to four bytes can be taken in at once.
- **System calls.** The I/O vector copy against a fixed list of destinations; what each
  emulated call answers and which addresses it writes; and whole runs of traps: which packet
  is kept, where a run ends, and that the order of the four groups of system calls does not
  matter.
- **State.** Scrubbing of the exported state, signature control words, the layout check and
  the CPUID contract.

Some properties hold only under a condition that the code does not check. Each of these has
its exact condition:

- The link register of an AArch64 payload points at the tail if and only if the payload has
  fewer than 2^20 - 8 bytes, although payloads of up to 2^20 bytes are accepted
  (`Aarch64Link`, `Aarch64LinkFails`).
- A RISC-V payload may have any even size. If its program ends in the AArch64 frontend, the
  tail returns to the caller if and only if the size is a multiple of four, and faults
  otherwise (`SwitchedTail`, `SwitchedTailFails`).
- Scrubbing leaves the header flags, the reserved areas of four records and the one at the
  end as they were; two accepted states become the same if and only if they agree there
  (`ScrubbingForgets`, `ReservedSurvives`). States that the processor exports always do.
- The layout check compares 32-bit ends: an accepted table is in order if and only if no row
  other than the last wraps (`WrapDecides`, `WrapHidesOverlap`).
- The step of the CRC loses no information, and bursts of 32 bits are detected, if and only
  if bit 31 of the polynomial is set (`StepBijective`, `BurstsAreDetected`). Odd numbers of
  wrong bits are detected with CRC-32C and not with CRC-32 (`OddErrorsAreDetected`).
- The I/O vector copy reads each entry after it has written to the destinations before it,
  so a destination on the table can change what is copied (`TableCanBeOverwritten`). It reads
  every entry as the table held it if and only if whatever the destinations before an entry
  put on its bytes is what was there (`ReadAsHeldMeans`).

## How the model is built

| file | models |
|---|---|
| Words, Encoders | machine words as bounded integers, little-endian bytes, instruction encoders |
| Machine | the frontends, their control instructions and the instructions the tools emit |
| Emitter, SignalCode | the code buffer and the two emitted programs |
| CodeRuns, Aarch64ToRiscv, RiscvToAarch64, SignalTest | what the emitted bytes do |
| Alarm | the alarm handler and the check of its counters |
| Payload, ElfLayout, PayloadImage | the payload buffer, the ELF loader, the ELF format and the payload image |
| Crc, CrcPoly | the CRC loop on bit strings and on polynomials over GF(2) |
| Iov, Traps, SysCalls | the I/O vector helpers, the trap dispatcher and the system calls |
| Signature, Scrub, Layout | control words, state scrubbing, layout table and CPUID contract |

64-bit and 32-bit arithmetic is written out modulo 2^64 and 2^32. Shifts are products and
quotients by powers of two, masks are remainders, and bitwise OR is a function of its own,
so that OR of encoded fields is shown to be their sum rather than taken to be.

The meaning of the control instructions is taken from the RTL and from the design document:
entry, escape, canonical and aligned targets and a full stack from
rtl/poly_frontend_handoff.sv, the cookie from rtl/poly_return_cookie_recover.sv, the stack
from rtl/poly_transition_stack.sv, the exchange window and the rule for return addresses
from docs/poly-isa-design-directions.md. What a native-register call copies is taken from
the checks in tools/programs/nativecheck.c. The RTL treats a call within one frontend like any
other; that its arguments and results then stay in their registers is an assumption of the
model, which the programs here do not depend on. The native-register signature is in slot 3,
since the test's setup refuses any other slot (tools/programs/polysignal.c, line 315).

What the tools get from outside are parameters: the address of a mapping, whether an
allocation succeeds, the contents of a file, the event frames that the hardware writes, the
answers of the kernel to a mapping call, the snapshots that alarms see, and CPUID.

## Model

| member | source | states |
|---|---|---|
| `SignalTest.Aarch64ToRiscvPasses` | tools/programs/polysignal.c:1099-1104 | The whole test, for every seed, loop count, address and any alarms at any steps of the run: the program returns, and the check passes if and only if there is an alarm and each lands at a step from 25 to 26 + n, or at 24 if s4 held the seed before (n is twice the iterations). |
| `SignalTest.RiscvToAarch64Passes` | tools/programs/polysignal.c:1105-1110 | The same for the RISC-V program that calls AArch64 code, with the steps 17 to 18 + n, or 16 if x20 held the seed before. |
| `Aarch64ToRiscv.Aarch64ToRiscvReturns` | tools/programs/polysignal.c:763-811 | The emitted bytes return seed + 10 modulo 2^64 after 30 + 2·iterations steps for every seed, count and base; the transition stack is restored; from the callee's second instruction to its return the frontend is RISC-V and s4 holds the seed. |
| `Aarch64ToRiscv.Aarch64ToRiscvElsewhere` | tools/programs/polysignal.c:763-811 | Every other step of the run: x86 code, the AArch64 caller, the callee's first instruction with the old s4, the caller again, x86 code, returned. |
| `RiscvToAarch64.RiscvToAarch64Returns` | tools/programs/polysignal.c:813-889 | The same with seed + 9, 22 + 2·iterations steps, AArch64 and x20. |
| `RiscvToAarch64.RiscvToAarch64Elsewhere` | tools/programs/polysignal.c:813-889 | The same for the other program. |
| `SignalCode.EmitAarch64ToRiscv` | tools/programs/polysignal.c:763-811 | The buffer holds exactly the specified program; the return and target offsets computed before emission are where that code starts, both word-aligned, all below 256. |
| `SignalCode.EmitRiscvToAarch64` | tools/programs/polysignal.c:813-889 | The same for the program with backpatched loads. |
| `SignalCode.EmitAfterCaller` | tools/programs/polysignal.c:850-873 | Tail, padding to four, callee, padding to eight and the four data words, at the offsets that the loads will use. |
| `SignalCode.FillLoads` | tools/programs/polysignal.c:875-882 | The four stores turn the placeholders into loads of their data and change nothing else, neither in the program nor after it. |
| `SignalCode.PatchLoads` | tools/programs/polysignal.c:875-882 | Overwriting any of the four placeholder words changes that word only. |
| `RiscvToAarch64.LdRoundTrip` | tools/programs/polysignal.c:477-481 | Every register pair and every signed 12-bit immediate survives encoding and decoding. |
| `RiscvToAarch64.LoadRuns` | tools/programs/polysignal.c:831-847 | AUIPC with 0 and the patched load put the 64-bit datum into the register. |
| `RiscvToAarch64.CalleeRuns` | tools/programs/polysignal.c:858-862 | The AArch64 callee adds 8 to its argument after counting down; x20 holds the argument while it counts. |
| `Aarch64ToRiscv.RiscvCalleeRuns` | tools/programs/polysignal.c:800-804 | The RISC-V callee adds 9 to its argument after counting down; s4 holds the argument while it counts. |
| `CodeRuns.RiscvLoop` | tools/programs/polysignal.c:801-802 | The countdown ends after count iterations, or 2^64 of them for a count of 0, and touches only the counter. |
| `CodeRuns.Aarch64Loop` | tools/programs/polysignal.c:859-860 | The same for SUBS and B.NE. |
| `CodeRuns.MovAbsRuns` | tools/programs/polysignal.c:466-475 | MOVZ and three MOVKs load any 64-bit value into any register and stay in the frontend. |
| `CodeRuns.EntryRuns` | tools/programs/polysignal.c:441-451 | Three NOPs and the entry stub reach the frontend's first instruction with zero TLS base and the exchange window in its argument registers. |
| `Emitter.PenterPaddingIsLeast` | tools/programs/polysignal.c:419-431 | The predicted stub size is the emitted one, aligns the code after the stub for its frontend, and no shorter padding does. |
| `Emitter.CodeBuffer.EmitPenter` | tools/programs/polyapp.c:658-676 | Emission advances by exactly the predicted size and appends the stub. |
| `Emitter.CodeBuffer.EmitU32` | tools/programs/polysignal.c:399-404 | Appends the four bytes of a word, least significant first; later bytes stay. |
| `Emitter.CodeBuffer.EmitU64` | tools/programs/polysignal.c:406-409 | Appends the eight bytes of a word, least significant first; later bytes stay. |
| `Emitter.CodeBuffer.EmitMovAbs` | tools/programs/polysignal.c:466-475 | Appends the four move-wide words of a value. |
| `Emitter.CodeBuffer.StoreU32` | tools/programs/polysignal.c:459-464 | Replaces four bytes in place and no others. |
| `Encoders.Aarch64Control` | tools/include/polycpuid.h:8-9 | The OR of hint base and sub-operation is their sum: the fields do not overlap. |
| `Encoders.RiscvControl` | tools/include/polycpuid.h:10-11 | The same for the RISC-V control word. |
| `Encoders.Aarch64MoveWide` | tools/programs/polysignal.c:466-475 | Opcode, 16-bit part and register do not overlap. |
| `Encoders.RiscvLd` | tools/programs/polysignal.c:477-481 | The fields of the load do not overlap, for positive and negative immediates. |
| `Encoders.RiscvAddi` | tools/programs/polysignal.c:483-487 | The fields of the addition do not overlap. |
| `Encoders.Aarch64Adr` | tools/programs/polyapp.c:723-726 | The word keeps the offset modulo 2^21, split into its low two and high nineteen bits. |
| `Encoders.RiscvAuipc` | tools/programs/polyapp.c:728-731 | The word keeps the rounded upper part modulo 2^20. |
| `Machine.StackStaysOk` | docs/poly-isa-design-directions.md:143-145 | In every run of any program the transition stack stays within its depth of eight (rtl/poly_transition_stack.sv), and every return address on it is canonical, as the design document requires of calls. |
| `Machine.ReturnUndoesCall` | rtl/poly_return_cookie_recover.sv:37-59 | Over runs of any program, with calls across frontends or within one: after a call, as long as the stack does not drop below the callee's depth, whatever is called and returned from in between; the first step that does drop below it resumes the caller's frontend, return address and stack, with the eight results in its registers and its other registers as they were. |
| `Machine.StepMoves` | rtl/poly_transition_stack.sv:72-119 | Whatever is in memory, a step that does not fault leaves the stack, or pushes the caller's frontend and return address, or pops one frame and resumes what it says; register by register, the eight arguments or results are handed over, the link register of a callee holds the cookie, and every other register is as before. |
| `Machine.OldestStay` | rtl/poly_transition_stack.sv:72-119 | As long as a run stays at depth k or deeper, its oldest k frames do not change. |
| `Machine.CopyArgsMeans` | tools/programs/nativecheck.c:9807-9952 | A call through the native-register signature copies exactly the eight argument registers, each to its counterpart. |
| `Machine.WindowInMeans` | docs/poly-isa-design-directions.md:82-91 | Entering a frontend, its first eight argument registers are RAX, RDX, RCX, RDI, RSI, R8, R9 and R10, and no other register changes. |
| `Machine.WindowOutMeans` | docs/poly-isa-design-directions.md:82-91 | Leaving a frontend, the same eight x86 registers are its argument registers, and no other x86 register changes. |
| `Machine.WindowRoundTrip` | docs/poly-isa-design-directions.md:82-91 | What enters a frontend and leaves it at once is what it was, in every x86 register. |
| `Machine.CanonicalMeans` | rtl/poly_frontend_handoff.sv:70-74 | An address is canonical if and only if its upper seventeen bits are all equal. |
| `Alarm.AlarmState.HandleAlarm` | tools/programs/polysignal.c:506-533 | One alarm changes the six counters as specified. |
| `Alarm.AlarmState.CheckArch` | tools/programs/polysignal.c:891-926 | Succeeds if and only if the timer was armed, the result is right, an alarm landed and every alarm saw the expected mode and hidden register. |
| `Alarm.CountersAdd` | tools/programs/polysignal.c:489-533 | Over any alarms, each of the six counters grows by the number of alarms it stands for: all, good, not good, right mode but not good, without the expected state key, not on the alternate stack. |
| `Alarm.OneRegisterCounts` | tools/programs/polysignal.c:489-504 | A good alarm has the expected value in the one register that is looked at; the other registers do not matter. |
| `Alarm.Conserved` | tools/programs/polysignal.c:489-533 | Signals are transitions plus bad transitions, and wrong snapshots are at most the bad transitions, after any run. |
| `Alarm.DeliveryIsImplied` | tools/programs/polysignal.c:911-923 | The separate "not delivered" test never decides: it is implied by the transition test. |
| `Alarm.FinalChecks` | tools/programs/polysignal.c:1114-1125 | Over any sequence of tests with their own expectations, the two last checks pass if and only if every alarm ran on the alternate stack and found the state key of its time. |
| `Payload.CodeBytes.GrownCapacity` | tools/programs/polyapp.c:751-759 | The capacity is the least of 64, 128, ... that fits; cutting it to the limit changes nothing and the second size error is unreachable. |
| `Payload.CodeBytes.Append` | tools/programs/polyapp.c:740-771 | Accepted input is appended, a failed append changes nothing, and it fails exactly on the size limit or a failed allocation. |
| `Payload.CodeBytes.AppendInsn` | tools/programs/polyapp.c:773-781 | The same for one instruction word. |
| `Payload.CodeBytes.AppendInsns` | tools/programs/polyapp.c:1001-1011 | Over any list of instruction lines the buffer is what it was followed by the accepted words, which end at the first failure. |
| `Payload.WordBytesDecode` | tools/programs/polyapp.c:773-781 | Every appended word is read back little-endian. |
| `Payload.TestMeansHolds` | tools/programs/polyapp.c:847-850 | The wrapping test takes a segment if and only if it is an executable PT_LOAD whose file range, lying below 2^64, contains the entry. |
| `Payload.SegmentInFile` | tools/programs/polyapp.c:837-846 | Every program header of an accepted table lies in the file. |
| `Payload.ElfCodeMeans` | tools/programs/polyapp.c:813-877 | The result is the file bytes from the entry to the end of the first segment that holds the entry, if and only if header, table and segment are acceptable. |
| `ElfLayout.SegmentSpelled` | tools/programs/polyapp.c:845-846 | A program header written field by field in the order of the ELF-64 format is read back field by field. |
| `ElfLayout.HeaderSpelled` | tools/programs/polyapp.c:825-838 | The same for the file header, with the exact condition on identification, type and machine. |
| `ElfLayout.SpelledCode` | tools/programs/polyapp.c:813-877 | For a file spelled out byte by byte: the loader takes code if and only if the file is a little-endian 64-bit executable for machine 183 (AArch64) or 243 (RISC-V) and the code is file[p_offset + e_entry - p_vaddr .. p_offset + p_filesz] of the first executable PT_LOAD that covers the entry, inside the file and not too big. |
| `ElfLayout.EveryFileIsSpelled` | tools/programs/polyapp.c:819-842 | Every file whose header and table lie in it has such a spelling. |
| `Payload.CodeBytes.LoadElf` | tools/programs/polyapp.c:813-877 | Loads exactly that code for the machine of the payload's architecture; a rejected file leaves the contents, and a failed allocation leaves none. |
| `PayloadImage.EmitImage` | tools/programs/polyapp.c:1156-1201 | Emission fills the mapping from its first to its last byte, once each, with entry, setup, payload and tail; other architectures are refused. |
| `PayloadImage.AdrReaches` | tools/programs/polyapp.c:723-726 | ADR decodes to its offset if and only if the offset fits in 21 signed bits; otherwise it is off by a multiple of 2^21. |
| `PayloadImage.PairRecombines` | tools/programs/polyapp.c:728-738 | AUIPC and ADDI add up to the offset under sign extension. |
| `PayloadImage.Aarch64Link` | tools/programs/polyapp.c:1173-1176 | At the payload's first instruction x30 is the address of the tail if and only if the size is below 2^20 - 8; otherwise it is 2^21 below it. |
| `PayloadImage.Aarch64LinkFails` | tools/programs/polyapp.c:1173-1176 | A concrete accepted size for which ADR misses the tail. |
| `PayloadImage.RiscvLink` | tools/programs/polyapp.c:1177-1182 | At the payload's first instruction ra is the address of the tail, for every accepted size. |
| `PayloadImage.Aarch64Tail` | tools/programs/polyapp.c:1191-1201 | AArch64 code at its tail returns x0 to the x86 caller if and only if the tail is word-aligned, and faults otherwise. |
| `PayloadImage.SwitchedTail` | tools/programs/polyapp.c:1156-1201 | For the image of a RISC-V payload that ends in AArch64 code, the tail returns x0 if and only if the payload's size is a multiple of four, and faults otherwise. |
| `PayloadImage.SwitchedTailFails` | tools/programs/polyapp.c:783-791 | A payload of two bytes, which is accepted, whose AArch64 tail faults. |
| `PayloadImage.X86Tail` | tools/programs/polyapp.c:1191-1201 | A program that ends in x86 code returns its result plus five. |
| `PayloadImage.RiscvTail` | tools/programs/polyapp.c:1191-1201 | RISC-V code at its tail returns a0 to the x86 caller. |
| `PayloadImage.Aarch64PayloadReturns` | tools/programs/polyapp.c:1191-1201 | A native return through x30 reaches the tail and hands x0 to the caller. |
| `PayloadImage.Aarch64ImageReturns` | tools/programs/polyapp.c:1156-1213 | From the first byte of the image: a payload small enough for ADR that comes to a native return with x30 unchanged hands x0 to the caller. |
| `PayloadImage.RiscvPayloadReturns` | tools/programs/polyapp.c:1191-1201 | A native return through ra reaches the tail and hands a0 to the caller. |
| `PayloadImage.RiscvImageReturns` | tools/programs/polyapp.c:1156-1213 | From the first byte of the image, for every accepted RISC-V payload: if it comes to a native return with ra unchanged, it hands a0 to the caller. |
| `PayloadImage.LoadImage` | tools/programs/polyapp.c:1020-1026 | Succeeds if and only if the file holds code for the architecture, its size is valid for it and the allocation succeeds; the image is then that of the file's code. |
| `PayloadImage.RiscvElfReturns` | tools/programs/polyapp.c:813-877 | From the bytes of the ELF file to the result, for every acceptable RISC-V file spelled out field by field: the code taken is that from the entry to the end of the first segment that covers it, and if it comes to a native return with ra unchanged the caller gets its a0. |
| `PayloadImage.Aarch64ElfReturns` | tools/programs/polyapp.c:813-877 | The same for AArch64 files whose tail ADR reaches, with x0. |
| `Crc.CrcUpdate` | tools/fixtures/polycall/polycall_aarch64_crc_real.c:60-68 | The nested loops fold the low bytes of the value into the register. |
| `Crc.FoldIsStream` | tools/fixtures/polycall/polycall_aarch64_crc_real.c:60-68 | Byte by byte is bit by bit, low bits first, for messages of any length. |
| `Crc.WordForm` | tools/fixtures/polycall/polycall_aarch64_crc_real.c:60-68 | Up to 32 bits can be added to the register before any step. |
| `Crc.WordAtOnce` | tools/fixtures/polycall/polycall_aarch64_crc_real.c:60-68 | For up to four bytes the update is 8n steps on the register with the low 8n bits of the value added at once. |
| `Crc.UpdateLinear` | tools/fixtures/polycall/polycall_aarch64_crc_real.c:60-68 | The update is linear under exclusive or. |
| `Crc.UpdateSplits` | tools/fixtures/polycall/polycall_aarch64_crc_real.c:60-68 | An update of m + n bytes is one of m bytes and one of n bytes of the shifted value. |
| `Crc.StepBijective` | tools/fixtures/polycall/polycall_aarch64_crc_real.c:60-68 | The one-bit step is a bijection if and only if bit 31 of the polynomial is set. |
| `Crc.BurstsAreDetected` | tools/fixtures/polycall/polycall_aarch64_crc_real.c:60-68 | Messages of equal length that differ only inside a window of 32 bits never have the same CRC, if and only if bit 31 of the polynomial is set, from whatever register. |
| `Crc.OddErrorsAreDetected` | tools/fixtures/polycall/polycall_aarch64_crc_real.c:60-68 | Messages of equal length that differ in an odd number of bits never have the same CRC, if and only if the polynomial word has an odd number of ones, from whatever register. |
| `Crc.PolynomialsInUse` | tools/fixtures/polycall/polycall_aarch64_crc_real.c:78-94 | Both polynomials in use have bit 31 set; that of CRC-32C has an odd number of ones, that of CRC-32 an even one. |
| `CrcPoly.StepPoly` | tools/fixtures/polycall/polycall_aarch64_crc_real.c:64-65 | A step multiplies by x and subtracts the generator when x^32 appears. |
| `CrcPoly.FoldIsRemainder` | tools/fixtures/polycall/polycall_aarch64_crc_real.c:60-68 | Folding n bytes M into C gives (C x^(8n) + M x^32) mod G over GF(2), for all C, M and polynomial words. |
| `CrcPoly.RemainderIsUnique` | tools/fixtures/polycall/polycall_aarch64_crc_real.c:60-68 | There is only one such remainder. |
| `CrcPoly.FoldIsTheRemainder` | tools/fixtures/polycall/polycall_aarch64_crc_real.c:60-68 | A register is the result if and only if its polynomial is the remainder. |
| `CrcPoly.GeneratorTerms` | tools/fixtures/polycall/polycall_aarch64_crc_real.c:60-68 | The words with an odd number of ones are those whose generator has an even number of terms. |
| `CrcPoly.StandardGenerators` | tools/fixtures/polycall/polycall_aarch64_crc_real.c:78-94 | The generators of the two words are those of CRC-32 (IEEE 802.3) and CRC-32C, term by term. |
| `Iov.RawMemory.WriteU64` | tools/programs/polyapp.c:121-125 | Stores the eight bytes of a value. |
| `Iov.RawMemory.ReadU64` | tools/programs/polyapp.c:127-133 | ORing the shifted bytes gives the number that they spell. |
| `Iov.StoredValue` | tools/programs/polyapp.c:121-133 | A value that was written is read back. |
| `Iov.RawMemory.CopyToIov` | tools/programs/polyapp.c:135-151 | The loop is the entry-by-entry copy of at most sixteen entries, each read from the memory its predecessors left. |
| `Iov.ReadAsHeldMeans` | tools/programs/polyapp.c:135-151 | For any table and input, every entry is read as the table held it if and only if the last byte put on each address of an entry still to be read is the byte that was there; the copy is then the copy to the destinations fixed beforehand. |
| `Iov.ScatterToCell` | tools/programs/polyapp.c:135-151 | After the copy to fixed destinations every address holds the byte of the last destination that covers it, or what it held. |
| `Iov.AvoidingSuffices` | tools/programs/polyapp.c:135-151 | It is enough that no destination covers an entry still to be read. |
| `Iov.ScatterMeans` | tools/programs/polyapp.c:135-151 | With disjoint destinations that keep the entries still to be read, the copy moves min(input size, sum of lengths) bytes, the destinations then spell that prefix of the input, and no other address changes; entries already read may be overwritten. |
| `Iov.TableCanBeOverwritten` | tools/programs/polyapp.c:135-151 | A destination on the table changes how much is copied. |
| `Iov.RawMemory.SumIovLengths` | tools/programs/polyapp.c:153-162 | The sum of the lengths of at most sixteen entries, modulo 2^64. |
| `Iov.ScatterAgreesWithSum` | tools/programs/polyapp.c:135-162 | The copy and the sum agree when the entries still to be read are kept and the sum does not wrap. |
| `Traps.Runtime.Dispatch` | tools/programs/polyapp.c:463-507 | One dispatch updates packets and memory and answers as specified; it asks with the packet's number and arguments. |
| `Traps.OnlyItsGroupAnswers` | tools/programs/polyapp.c:222-460 | The four groups of system calls accept disjoint sets of numbers. |
| `Traps.AskMeans` | tools/programs/polyapp.c:486-503 | Asking any list of groups in turn is asking the one group that owns the number, if it is listed. |
| `Traps.OrderDoesNotMatter` | tools/programs/polyapp.c:486-503 | Asking the groups in any order gives the outcome of the order in the code. |
| `Traps.HandleMeans` | tools/programs/polyapp.c:463-507 | From the fields of the frame: a trap ends the run exactly on a valid exit call; it replaces exactly the packet of its kind, whose number is the frame's selector, whose selector is its fault status, and so on; a break is answered with 0x4c000000, frontend and selector, an unowned call with 0x53000000, selector and frontend; an invalid frame changes nothing and gets -38. |
| `Traps.AnsweredCall` | tools/programs/polyapp.c:485-503 | A call that its group answers gets that group's result and memory. |
| `Traps.ValidFields` | tools/programs/polyapp.c:185-194 | Which value of each field makes a valid frame invalid, for every field that is looked at. |
| `Traps.ErrnoMeans` | tools/programs/polyapp.c:466-466 | An error number is returned as its negative in two's complement. |
| `SysCalls.TrapAnswers` | tools/programs/polyapp.c:218-220 | For small numbers the answers to breaks and unowned calls spell mode and number side by side, as in 0x4c000105 and 0x5303ff01. |
| `SysCalls.ReadTrap` | tools/programs/polyapp.c:299-308 | A read trap from the frame to the result: the count, and the text at the buffer with every other address as before. |
| `SysCalls.ReadMeans` | tools/programs/polyapp.c:299-308 | Read puts the first bytes of its text, at most four, in the buffer and nothing elsewhere; other files are declined. |
| `SysCalls.ReadvMeans` | tools/programs/polyapp.c:313-319 | Readv moves min(4, sum of lengths) bytes, the buffers then spell that prefix of its text, and no other address changes. |
| `SysCalls.WriteMeans` | tools/programs/polyapp.c:309-323 | Write and writev answer with the length, or its sum modulo 2^64, and change nothing. |
| `SysCalls.ScalarTable` | tools/programs/polyapp.c:222-261 | The calls with fixed answers, as a table, with the two conditional ones. |
| `SysCalls.NameMeans` | tools/programs/polyapp.c:272-348 | The working directory, link and system name calls write exactly their texts. |
| `SysCalls.StatMeans` | tools/programs/polyapp.c:332-343 | Both status calls write exactly their mark. |
| `SysCalls.RandomMeans` | tools/programs/polyapp.c:426-433 | The random call writes the first bytes of its data, at most eight. |
| `SysCalls.DirectoryMeans` | tools/programs/polyapp.c:285-296 | The directory call writes its one entry and answers 24. |
| `SysCalls.FileMeans` | tools/programs/polyapp.c:279-298 | Open, close and seek know exactly the one file. |
| `SysCalls.TimesMeans` | tools/programs/polyapp.c:363-425 | The clock, resource, time, system and limit calls write two 64-bit values side by side and nothing else. |
| `SysCalls.ProcessorMeans` | tools/programs/polyapp.c:377-383 | The processor call writes its two values to two words that do not overlap. |
| `SysCalls.MappingMeans` | tools/programs/polyapp.c:398-418 | Break, unmap, protect and map answer as their arguments say; an anonymous mapping is the kernel's answer. |
| `Traps.RunEndsAtFirstExit` | tools/programs/polyapp.c:443-460 | A run of any length ends at its first exit call with that call's first argument, and not otherwise. |
| `Traps.PacketIsLatest` | tools/programs/polyapp.c:463-507 | After any run each saved packet reports, field by field, the latest valid event of its kind, or is the initial one. |
| `Traps.InvalidFramesDoNothing` | tools/programs/polyapp.c:463-466 | An invalid frame can be left out anywhere in a run; only its answer -38 is lost. |
| `Signature.FlagsAccumulate` | tools/include/polycpuid.h:730-738 | Adding flags twice is adding their union once, for every 64-bit word. |
| `Signature.PlainValueHasNoFlags` | tools/include/polycpuid.h:721-738 | The plain control value is the one with no flags. |
| `Signature.WordDetermines` | tools/programs/nativecheck.c:1052-1058 | For every kind with a map and flags 0 or TLS, the word gives back kind, map and flag and is never taken for an error number. |
| `Signature.MapsAreNumbered` | tools/include/polycpuid.h:658-719 | The kinds with a register map take the maps 0 to 27, each once and in increasing order; no other kind has one. |
| `Signature.WordIs` | tools/include/polycpuid.h:730-738 | The word of a kind with a map is kind, map and flag side by side. |
| `Signature.KnownWords` | tools/include/polycpuid.h:721-738 | The words of kinds 0, 1, 4 and 28, and of kind 4 with the TLS flag. |
| `Scrub.ClearXsaveState` | tools/programs/polybinfmt_exec.c:38-97 | Imports nothing if the header is not accepted; otherwise imports, with the old residue, an empty start state field by field: x86 modes, no trap vector, zero registers, three empty return stacks of depth 8, exchange slots and the supported words of the processor. |
| `Scrub.ClearSlots` | tools/programs/polybinfmt_exec.c:77-81 | The loop sets all thirteen slots to the exchange kind and its map. |
| `Scrub.StartFillsImage` | tools/include/polycpuid.h:943-968 | The fields of an empty start state and the untouched areas add up to the 8192 bytes of the image. |
| `Scrub.ScrubbingForgets` | tools/programs/polybinfmt_exec.c:38-97 | Two accepted states are scrubbed to the same state if and only if their residues agree. |
| `Scrub.ExportedResidue` | tools/programs/nativecheck.c:8363-8445 | All exported states have one and the same residue. |
| `Scrub.ScrubbingIsNonInterfering` | tools/programs/polybinfmt_exec.c:38-97 | All exported states are scrubbed to one state, which is an empty start state, meets the export conditions, matches every slot's map to its kind and is not changed by scrubbing again. |
| `Scrub.ScrubbingIsIdempotent` | tools/programs/polybinfmt_exec.c:38-97 | Scrubbing twice is scrubbing once, for every state. |
| `Scrub.ReservedSurvives` | tools/programs/polybinfmt_exec.c:83-91 | A word in a reserved area that no export sets would survive. |
| `Layout.CheckRows` | tools/programs/polylayout.c:62-99 | The single pass accepts if and only if all extents agree, no row starts below its predecessor's 32-bit end and the size is right. |
| `Layout.NeighboursSuffice` | tools/programs/polylayout.c:62-83 | Without wrapping, comparing neighbours accepts exactly the tables in which every region lies before all later ones. |
| `Layout.WrapDecides` | tools/programs/polylayout.c:62-83 | An accepted table is in order if and only if no row but the last wraps. |
| `Layout.OrderedIsDisjoint` | tools/programs/polylayout.c:62-83 | Regions of a table in order are pairwise disjoint. |
| `Layout.WrapHidesOverlap` | tools/programs/polylayout.c:62-83 | A concrete accepted table with an overlap. |
| `Layout.VerifyContract` | tools/include/polycpuid.h:2180-2225 | For any table and any CPUID function, succeeds if and only if every test passes and otherwise reports the first that fails, with its actual and expected values. |
| `Layout.ContractMeans` | tools/include/polycpuid.h:2164-2225 | Passing means, for any processor: every check of the table, bit 20 set and at least 20480 in leaf 0xd, and (8192, 0x3000, 2, 0) in its sub-leaf 20. |

## Left out

- Machine: only the instructions that the tools emit; flags other than Z, stores, compressed RISC-V instructions and the stack pointer and flags in transition frames are not modelled.
- ReturnUndoesCall: signature kinds other than the native-register one, calls from or to x86 and returns to x86 callers fault in the model, while the processor resumes such callers too; the tools' programs do not use them here. So nothing is claimed about which frontends wait on the stack: the processor also pushes x86 callers.
- CrcUpdate: at most eight bytes, since larger shifts are undefined in C; the CRC of longer messages is the fold over their bytes.
- CheckArch: the alarms are those delivered while the call runs; counters are unbounded.
- ClearXsaveState: register files, frames and the trap-restore area are byte or word strings of their sizes, not further divided into fields.
- The floating-point variants of the signal programs, which need a model of IEEE 754 arithmetic.
- The payload description parser, environment files and the other text processing.
- Processes, mounts, signals, files and other operating-system plumbing.
- The constant CPUID leaves and static layout assertions, which the compiler already settles.
- The other fixtures (AES, SHA, SM3, SM4, vector operations, atomics, libc imports), which compare an instruction with fixed vectors or one-line references.
