/** Scrubbing of the exported processor state before another program is started.

The state is the 8 KiB image that the export instruction writes and the import instruction
reads.  Scrubbing overwrites part of it in place; what it does not overwrite decides whether
anything of the previous program is left.
*/
module Scrub {
  import opened Words
  import opened Encoders
  import opened Signature

  const XSAVE_MAGIC: u32 := 0x3159_4c50
  const XSAVE_BYTES: u32 := 8192
  const HEADER_BYTES: u16 := 0x40
  const LAYOUT_VERSION: u16 := 12
  const RETURN_DEPTH: u64 := 8
  const MODE_X86: u32 := 0
  const KIND_EXCHANGE: u32 := 0
  const LANDING_SUPPORTED: u64 := 3
  const STATE_KEY_EXPLICIT: u64 := 1
  const NATIVE_FLAGS_SUPPORTED: u64 := 1
  /** The capability word of the state component, which export puts in the header. */
  const EXPORT_FLAGS: u64 := 0x1ff7c

  datatype Header = Header(magic: u32, layoutVersion: u16, headerBytes: u16, totalBytes: u32,
    currentMode: u32, flags: u64, foreignPc: u64, foreignTlsBase: u64, trapVectorPc: u64,
    trapVectorMode: u32, spillReason: u32, reserved: u64)

  datatype Transition = Transition(active: seq<u8>, reserved: seq<u8>)
  datatype Status = Status(words: seq<u64>, reserved: seq<u64>)
  datatype ReturnStack = ReturnStack(top: u64, depth: u64, frames: seq<seq<u8>>, reserved: seq<u8>)
  datatype NativeReturn = NativeReturn(activeValid: u64, top: u64, depth: u64, supported: u64,
    active: seq<u8>, frames: seq<seq<u8>>, reserved: seq<u8>)
  datatype Slot = Slot(kind: u32, registerMap: u32)
  datatype Signatures = Signatures(slotCount: u64, flags: u64, slots: seq<Slot>, reserved: seq<u8>)
  datatype FrontendTls = FrontendTls(flags: u64, activeMode: u64, aarch64Base: u64,
    riscvBase: u64, reserved: seq<u64>)
  datatype LandingPolicy = LandingPolicy(flags: u64, supported: u64, reserved: seq<u64>)
  datatype StateKey = StateKey(flags: u64, explicitKey: u64, supported: u64, reserved: seq<u64>)

  datatype Image = Image(
    header: Header, eventRecord: seq<u8>, eventArgs: seq<u64>, transition: Transition,
    aarch64Gpr: seq<u64>, aarch64Fp: seq<u64>, aarch64Status: Status,
    riscvGpr: seq<u64>, riscvFp: seq<u64>, riscvStatus: Status,
    importReturn: ReturnStack, signatures: Signatures, crossReturn: ReturnStack,
    frontendTls: FrontendTls, landingPolicy: LandingPolicy, stateKey: StateKey,
    preTrapReserved: seq<u8>, trapRestore: seq<u8>, nativeReturn: NativeReturn,
    reserved: seq<u8>)

  /** Zero bytes, or zero words. */
  function Zeros(n: nat): (z: seq<u8>)
    ensures |z| == n && forall i :: 0 <= i < n ==> z[i] == 0
  {
    seq(n, i => 0)
  }

  function ZeroFrames(n: nat, bytes: nat): (z: seq<seq<u8>>)
    ensures |z| == n && forall i :: 0 <= i < n ==> z[i] == Zeros(bytes)
  {
    seq(n, i => Zeros(bytes))
  }

  function ExchangeSlots(): (slots: seq<Slot>)
    ensures |slots| == SLOT_COUNT && forall i :: 0 <= i < SLOT_COUNT ==> slots[i] == Slot(KIND_EXCHANGE, 0)
  {
    seq(SLOT_COUNT, i => Slot(KIND_EXCHANGE, 0))
  }

  predicate AllZero(s: seq<u64>) {
    forall i :: 0 <= i < |s| ==> s[i] == 0
  }

  /** The sizes of the areas that scrubbing leaves alone. */
  ghost predicate Sized(s: Image) {
    && |s.signatures.slots| == SLOT_COUNT && |s.signatures.reserved| == 8
    && |s.frontendTls.reserved| == 4 && |s.landingPolicy.reserved| == 6
    && |s.stateKey.reserved| == 5 && |s.reserved| == 0x580
  }

  predicate HeaderAccepted(h: Header) {
    && h.magic == XSAVE_MAGIC && h.totalBytes == XSAVE_BYTES
    && h.headerBytes == HEADER_BYTES && h.layoutVersion == LAYOUT_VERSION
  }

  // ----- specification -----

  /** What scrubbing leaves as it was. */
  datatype Residue = Residue(flags: u64, signatures: seq<u8>, frontendTls: seq<u64>,
    landingPolicy: seq<u64>, stateKey: seq<u64>, reserved: seq<u8>)

  function ResidueOf(s: Image): Residue {
    Residue(s.header.flags, s.signatures.reserved, s.frontendTls.reserved,
            s.landingPolicy.reserved, s.stateKey.reserved, s.reserved)
  }

  /** The state a new program starts from, up to the residue. */
  function Fresh(r: Residue): Image {
    Image(
      Header(XSAVE_MAGIC, LAYOUT_VERSION, HEADER_BYTES, XSAVE_BYTES, MODE_X86, r.flags,
             0, 0, 0, MODE_X86, 0, 0),
      Zeros(64), Zeros(8), Transition(Zeros(32), Zeros(32)),
      Zeros(32), Zeros(64), Status(Zeros(5), Zeros(11)),
      Zeros(32), Zeros(64), Status(Zeros(3), Zeros(13)),
      ReturnStack(0, RETURN_DEPTH, ZeroFrames(8, 128), Zeros(240)),
      Signatures(SLOT_COUNT, 0, ExchangeSlots(), r.signatures),
      ReturnStack(0, RETURN_DEPTH, ZeroFrames(8, 32), Zeros(16)),
      FrontendTls(1, MODE_X86, 0, 0, r.frontendTls),
      LandingPolicy(0, LANDING_SUPPORTED, r.landingPolicy),
      StateKey(0, 0, STATE_KEY_EXPLICIT, r.stateKey),
      Zeros(160), Zeros(2048),
      NativeReturn(0, 0, RETURN_DEPTH, NATIVE_FLAGS_SUPPORTED, Zeros(64), ZeroFrames(8, 64), Zeros(32)),
      r.reserved)
  }

  function Scrubbed(s: Image): Image {
    if HeaderAccepted(s.header) then Fresh(ResidueOf(s)) else s
  }

  /** Frames from the top of a stack on are unused. */
  predicate UnusedAreZero(top: u64, frames: seq<seq<u8>>) {
    top <= |frames| && forall i :: top <= i < |frames| ==> AllZero(frames[i])
  }

  /** What every exported image meets. */
  ghost predicate Exported(s: Image) {
    && Sized(s) && HeaderAccepted(s.header) && s.header.flags == EXPORT_FLAGS
    && s.header.reserved == 0
    && AllZero(s.transition.reserved) && AllZero(s.aarch64Status.reserved)
    && AllZero(s.riscvStatus.reserved)
    && s.importReturn.top <= RETURN_DEPTH && UnusedAreZero(s.importReturn.top, s.importReturn.frames)
    && AllZero(s.importReturn.reserved)
    && s.crossReturn.top <= RETURN_DEPTH && UnusedAreZero(s.crossReturn.top, s.crossReturn.frames)
    && AllZero(s.crossReturn.reserved)
    && s.nativeReturn.activeValid <= 1 && s.nativeReturn.top <= RETURN_DEPTH
    && s.nativeReturn.depth == RETURN_DEPTH && s.nativeReturn.supported == NATIVE_FLAGS_SUPPORTED
    && (s.nativeReturn.activeValid == 0 ==> AllZero(s.nativeReturn.active))
    && UnusedAreZero(s.nativeReturn.top, s.nativeReturn.frames) && AllZero(s.nativeReturn.reserved)
    && s.signatures.slotCount == SLOT_COUNT && AllZero(s.signatures.reserved)
    && AllZero(s.frontendTls.reserved)
    && s.landingPolicy.supported == LANDING_SUPPORTED && AllZero(s.landingPolicy.reserved)
    && AllZero(s.stateKey.reserved)
    && AllZero(s.preTrapReserved) && AllZero(s.trapRestore) && AllZero(s.reserved)
  }

  // ----- the state that a program starts from -----

  ghost predicate ZeroBytes(s: seq<u8>, n: nat) {
    |s| == n && AllZero(s)
  }

  ghost predicate ZeroRegisters(s: seq<u64>, n: nat) {
    |s| == n && AllZero(s)
  }

  ghost predicate ZeroFrameBytes(frames: seq<seq<u8>>, n: nat, bytes: nat) {
    |frames| == n && forall i :: 0 <= i < n ==> ZeroBytes(frames[i], bytes)
  }

  /** x86 code is running, no foreign program is suspended and no trap vector is set. */
  ghost predicate X86Header(h: Header) {
    && h.magic == 0x3159_4c50 && h.layoutVersion == 12 && h.headerBytes == 64 && h.totalBytes == 8192
    && h.currentMode == 0 && h.foreignPc == 0 && h.foreignTlsBase == 0
    && h.trapVectorPc == 0 && h.trapVectorMode == 0 && h.spillReason == 0 && h.reserved == 0
  }

  /** Every register and status word of both foreign frontends is zero. */
  ghost predicate NoRegisters(s: Image) {
    && ZeroRegisters(s.aarch64Gpr, 32) && ZeroRegisters(s.aarch64Fp, 64)
    && ZeroRegisters(s.aarch64Status.words, 5) && ZeroRegisters(s.aarch64Status.reserved, 11)
    && ZeroRegisters(s.riscvGpr, 32) && ZeroRegisters(s.riscvFp, 64)
    && ZeroRegisters(s.riscvStatus.words, 3) && ZeroRegisters(s.riscvStatus.reserved, 13)
  }

  ghost predicate EmptyStack(s: ReturnStack, bytes: nat, reserved: nat) {
    s.top == 0 && s.depth == 8 && ZeroFrameBytes(s.frames, 8, bytes) && ZeroBytes(s.reserved, reserved)
  }

  ghost predicate NoNativeReturn(s: NativeReturn) {
    && s.activeValid == 0 && s.top == 0 && s.depth == 8 && s.supported == 1
    && ZeroBytes(s.active, 64) && ZeroFrameBytes(s.frames, 8, 64) && ZeroBytes(s.reserved, 32)
  }

  /** All thirteen signature slots exchange registers, each with the map of its kind. */
  ghost predicate ExchangeOnly(s: Signatures) {
    && s.slotCount == 13 && s.flags == 0 && |s.slots| == 13
    && forall i :: 0 <= i < 13 ==> s.slots[i].kind == 0 && s.slots[i].registerMap == RegisterMap(0)
  }

  /** The empty state of a program that has run nothing yet, field by field. */
  ghost predicate Starts(s: Image) {
    && X86Header(s.header) && ZeroBytes(s.eventRecord, 64) && ZeroRegisters(s.eventArgs, 8)
    && ZeroBytes(s.transition.active, 32) && ZeroBytes(s.transition.reserved, 32) && NoRegisters(s)
    && EmptyStack(s.importReturn, 128, 240) && EmptyStack(s.crossReturn, 32, 16) && NoNativeReturn(s.nativeReturn)
    && ExchangeOnly(s.signatures)
    && s.frontendTls.flags == 1 && s.frontendTls.activeMode == 0
    && s.frontendTls.aarch64Base == 0 && s.frontendTls.riscvBase == 0
    && s.landingPolicy.flags == 0 && s.landingPolicy.supported == 3
    && s.stateKey.flags == 0 && s.stateKey.explicitKey == 0 && s.stateKey.supported == 1
    && ZeroBytes(s.preTrapReserved, 160) && ZeroBytes(s.trapRestore, 2048)
  }

  lemma FreshStarts(r: Residue)
    ensures Starts(Fresh(r)) && ResidueOf(Fresh(r)) == r
  {
    hide Zeros, ZeroFrames, ExchangeSlots;
    FreshFrames(128);
    FreshFrames(32);
    FreshFrames(64);
  }

  lemma FreshFrames(bytes: nat)
    ensures ZeroFrameBytes(ZeroFrames(8, bytes), 8, bytes)
  {
  }

  /** The bytes that an image takes: 64 of header, 64 of event record, eight for each word. */
  function ImageBytes(s: Image): nat {
    64 + |s.eventRecord| + 8 * |s.eventArgs| + |s.transition.active| + |s.transition.reserved|
    + 8 * (|s.aarch64Gpr| + |s.aarch64Fp| + |s.aarch64Status.words| + |s.aarch64Status.reserved|)
    + 8 * (|s.riscvGpr| + |s.riscvFp| + |s.riscvStatus.words| + |s.riscvStatus.reserved|)
    + 16 + FrameBytes(s.importReturn.frames) + |s.importReturn.reserved|
    + 16 + 8 * |s.signatures.slots| + |s.signatures.reserved|
    + 16 + FrameBytes(s.crossReturn.frames) + |s.crossReturn.reserved|
    + 32 + 8 * |s.frontendTls.reserved| + 16 + 8 * |s.landingPolicy.reserved| + 24 + 8 * |s.stateKey.reserved|
    + |s.preTrapReserved| + |s.trapRestore|
    + 32 + |s.nativeReturn.active| + FrameBytes(s.nativeReturn.frames) + |s.nativeReturn.reserved|
    + |s.reserved|
  }

  function FrameBytes(frames: seq<seq<u8>>): nat {
    if frames == [] then 0 else |frames[0]| + FrameBytes(frames[1..])
  }

  lemma {:induction false} EqualFrames(frames: seq<seq<u8>>, bytes: nat)
    requires forall i :: 0 <= i < |frames| ==> |frames[i]| == bytes
    ensures FrameBytes(frames) == |frames| * bytes
  {
    if frames != [] {
      EqualFrames(frames[1..], bytes);
    }
  }

  /** An empty state with the untouched areas of an image fills the 8 KiB exactly. */
  lemma StartFillsImage(s: Image)
    requires Starts(s) && Sized(s)
    ensures ImageBytes(s) == 8192
  {
    hide AllZero, RegisterMap;
    EqualFrames(s.importReturn.frames, 128);
    EqualFrames(s.crossReturn.frames, 32);
    EqualFrames(s.nativeReturn.frames, 64);
  }

  // ----- the code -----

  /** The exported image is scrubbed in a local structure, field by field; the result is
      what is imported again, if anything is. */
  method ClearXsaveState(exported: Image) returns (imported: Option<Image>)
    requires Sized(exported)
    ensures imported == if HeaderAccepted(exported.header) then Some(Scrubbed(exported)) else None
    ensures imported.Some? <==>
      && exported.header.magic == 0x3159_4c50 && exported.header.totalBytes == 8192
      && exported.header.headerBytes == 64 && exported.header.layoutVersion == 12
    ensures imported.Some? ==> Starts(imported.value) && ResidueOf(imported.value) == ResidueOf(exported)
  {
    hide Zeros, ZeroFrames, Starts;
    FreshStarts(ResidueOf(exported));
    if exported.header.magic != XSAVE_MAGIC || exported.header.totalBytes != XSAVE_BYTES ||
       exported.header.headerBytes != HEADER_BYTES || exported.header.layoutVersion != LAYOUT_VERSION {
      return None;
    }
    var state := Wipe(exported);
    state := state.(header := state.header.(totalBytes := XSAVE_BYTES, currentMode := MODE_X86, foreignPc := 0,
      foreignTlsBase := 0, trapVectorPc := 0, trapVectorMode := MODE_X86, spillReason := 0, reserved := 0));
    state := state.(importReturn := state.importReturn.(depth := RETURN_DEPTH));
    state := state.(signatures := state.signatures.(slotCount := SLOT_COUNT, flags := 0));
    var slots := ClearSlots(state.signatures.slots);
    state := state.(signatures := state.signatures.(slots := slots));
    state := state.(crossReturn := state.crossReturn.(depth := RETURN_DEPTH));
    state := state.(frontendTls :=
      state.frontendTls.(flags := 1, activeMode := MODE_X86, aarch64Base := 0, riscvBase := 0));
    state := state.(landingPolicy := state.landingPolicy.(flags := 0, supported := LANDING_SUPPORTED));
    state := state.(stateKey :=
      state.stateKey.(flags := 0, explicitKey := 0, supported := STATE_KEY_EXPLICIT));
    state := state.(nativeReturn :=
      state.nativeReturn.(depth := RETURN_DEPTH, supported := NATIVE_FLAGS_SUPPORTED));
    imported := Some(state);
  }

  /** The regions that are set to zero as a whole. */
  function Wipe(s: Image): Image {
    s.(eventRecord := Zeros(64), eventArgs := Zeros(8),
       transition := Transition(Zeros(32), Zeros(32)),
       aarch64Gpr := Zeros(32), aarch64Fp := Zeros(64),
       aarch64Status := Status(Zeros(5), Zeros(11)),
       riscvGpr := Zeros(32), riscvFp := Zeros(64),
       riscvStatus := Status(Zeros(3), Zeros(13)),
       importReturn := ReturnStack(0, 0, ZeroFrames(8, 128), Zeros(240)),
       crossReturn := ReturnStack(0, 0, ZeroFrames(8, 32), Zeros(16)),
       trapRestore := Zeros(2048),
       nativeReturn := NativeReturn(0, 0, 0, 0, Zeros(64), ZeroFrames(8, 64), Zeros(32)),
       preTrapReserved := Zeros(160))
  }

  method ClearSlots(slots: seq<Slot>) returns (cleared: seq<Slot>)
    requires |slots| == SLOT_COUNT
    ensures cleared == ExchangeSlots()
  {
    cleared := slots;
    for slot := 0 to SLOT_COUNT
      invariant |cleared| == SLOT_COUNT
      invariant forall i :: 0 <= i < slot ==> cleared[i] == Slot(KIND_EXCHANGE, 0)
    {
      cleared := cleared[slot := Slot(KIND_EXCHANGE, 0)];
    }
  }

  // ----- properties -----

  /** Two accepted states are scrubbed to the same state exactly when their residues agree:
      nothing outside the residue of what ran before can be told from the result. */
  lemma ScrubbingForgets(a: Image, b: Image)
    requires HeaderAccepted(a.header) && HeaderAccepted(b.header)
    ensures Scrubbed(a) == Scrubbed(b) <==> ResidueOf(a) == ResidueOf(b)
  {
    ResidueStays(ResidueOf(a));
    ResidueStays(ResidueOf(b));
  }

  lemma ResidueStays(r: Residue)
    ensures ResidueOf(Fresh(r)) == r && HeaderAccepted(Fresh(r).header)
  {
  }

  lemma ZerosAreUnique(s: seq<u64>)
    ensures AllZero(s) <==> s == Zeros(|s|)
  {
  }

  /** The residue of every exported image is the same. */
  const CLEAN: Residue := Residue(EXPORT_FLAGS, Zeros(8), Zeros(4), Zeros(6), Zeros(5), Zeros(0x580))

  lemma ExportedResidue(s: Image)
    requires Exported(s)
    ensures ResidueOf(s) == CLEAN
  {
    ZerosAreUnique(s.signatures.reserved);
    ZerosAreUnique(s.frontendTls.reserved);
    ZerosAreUnique(s.landingPolicy.reserved);
    ZerosAreUnique(s.stateKey.reserved);
    ZerosAreUnique(s.reserved);
  }

  /** Whatever ran before, scrubbing an exported state gives one and the same state.  That
      state again meets what exported states meet, each of its signature slots has the map
      of its kind, and scrubbing it once more changes nothing. */
  lemma ScrubbingIsNonInterfering(a: Image, b: Image)
    requires Exported(a) && Exported(b)
    ensures Scrubbed(a) == Scrubbed(b) && Exported(Scrubbed(a)) && Starts(Scrubbed(a))
    ensures forall i :: 0 <= i < SLOT_COUNT ==>
      Scrubbed(a).signatures.slots[i].registerMap == RegisterMap(Scrubbed(a).signatures.slots[i].kind)
    ensures Scrubbed(Scrubbed(a)) == Scrubbed(a)
  {
    ExportedResidue(a);
    ExportedResidue(b);
    ResidueStays(CLEAN);
    FreshStarts(CLEAN);
    FreshIsExported();
  }

  lemma FreshIsExported()
    ensures Exported(Fresh(CLEAN))
  {
  }

  /** Outside the exported states scrubbing can leave something behind: a word in a reserved
      area that scrubbing does not reach survives. */
  lemma ReservedSurvives(s: Image, word: u64)
    requires Exported(s) && word != 0
    ensures var t := s.(stateKey := s.stateKey.(reserved := [word] + Zeros(4)));
      HeaderAccepted(t.header) && Scrubbed(t) != Scrubbed(s) && !Exported(t)
  {
    var t := s.(stateKey := s.stateKey.(reserved := [word] + Zeros(4)));
    ScrubbingForgets(s, t);
    assert t.stateKey.reserved[0] == word;
    assert s.stateKey.reserved[0] == 0;
  }

  lemma ScrubbingIsIdempotent(s: Image)
    ensures Scrubbed(Scrubbed(s)) == Scrubbed(s)
  {
    ResidueStays(ResidueOf(s));
  }
}
