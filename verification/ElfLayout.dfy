/** ELF files spelled out byte by byte, as the ELF-64 object file format lays them out, and
what the loader makes of them.
*/
module ElfLayout {
  import opened Words
  import opened Encoders
  import opened Payload

  /** The file header: sixteen bytes of identification, then the fields in file order. */
  datatype Ehdr = Ehdr(
    ident: seq<u8>, kind: u16, machine: u16, version: u32, entry: u64, phoff: u64, shoff: u64, flags: u32,
    ehsize: u16, phentsize: u16, phnum: u16, shentsize: u16, shnum: u16, shstrndx: u16)

  /** A program header. */
  datatype Phdr = Phdr(
    kind: u32, flags: u32, offset: u64, vaddr: u64, paddr: u64, filesz: u64, memsz: u64, align: u64)

  function PhdrBytes(s: Phdr): (b: seq<u8>)
    ensures |b| == PHDR_BYTES
  {
    BytesOf(s.kind, 4) + BytesOf(s.flags, 4) + BytesOf(s.offset, 8) + BytesOf(s.vaddr, 8)
    + BytesOf(s.paddr, 8) + BytesOf(s.filesz, 8) + BytesOf(s.memsz, 8) + BytesOf(s.align, 8)
  }

  function EhdrHead(h: Ehdr): seq<u8> {
    h.ident + BytesOf(h.kind, 2) + BytesOf(h.machine, 2) + BytesOf(h.version, 4)
    + BytesOf(h.entry, 8) + BytesOf(h.phoff, 8) + BytesOf(h.shoff, 8)
  }

  function EhdrBytes(h: Ehdr): seq<u8> {
    EhdrHead(h) + BytesOf(h.flags, 4) + BytesOf(h.ehsize, 2) + BytesOf(h.phentsize, 2)
    + BytesOf(h.phnum, 2) + BytesOf(h.shentsize, 2) + BytesOf(h.shnum, 2) + BytesOf(h.shstrndx, 2)
  }

  // ----- reading the fields back -----

  /** A field that lies at `a` in a part of the file lies at `p + a` in the file. */
  lemma FieldAt(file: seq<u8>, p: nat, part: seq<u8>, a: nat, v: nat, n: nat)
    requires p + |part| <= |file| && file[p..p + |part|] == part
    requires a + n <= |part| && part[a..a + n] == BytesOf(v, n) && v < Pow2(8 * n)
    ensures At(file, p + a, n) == v
  {
    hide BytesOf, FromBytes, Pow2;
    forall i | 0 <= i < n ensures file[p + a..p + a + n][i] == BytesOf(v, n)[i] {
      assert file[p + a + i] == file[p..p + |part|][a + i] == part[a..a + n][i];
    }
    assert file[p + a..p + a + n] == BytesOf(v, n);
    BytesRoundTrip(v, n);
  }

  lemma Widths()
    ensures Pow2(8 * 2) == 0x1_0000 && Pow2(8 * 4) == TWO_32 && Pow2(8 * 8) == TWO_64
  {
    Pow2Values();
    Pow2Byte(1);
  }

  lemma PhdrFields(s: Phdr)
    ensures var b := PhdrBytes(s);
      && b[0..4] == BytesOf(s.kind, 4) && b[4..8] == BytesOf(s.flags, 4) && b[8..16] == BytesOf(s.offset, 8)
      && b[16..24] == BytesOf(s.vaddr, 8) && b[32..40] == BytesOf(s.filesz, 8)
  {
    hide BytesOf;
  }

  /** A program header is read as it is spelled. */
  lemma SegmentSpelled(file: seq<u8>, p: nat, s: Phdr)
    requires p + PHDR_BYTES <= |file| && file[p..p + PHDR_BYTES] == PhdrBytes(s)
    ensures SegmentAt(file, p) == Segment(s.kind, s.flags, s.offset, s.vaddr, s.filesz)
  {
    hide PhdrBytes, BytesOf, Pow2, At;
    var b := PhdrBytes(s);
    Widths();
    PhdrFields(s);
    FieldAt(file, p, b, 0, s.kind, 4);
    FieldAt(file, p, b, 4, s.flags, 4);
    FieldAt(file, p, b, 8, s.offset, 8);
    FieldAt(file, p, b, 16, s.vaddr, 8);
    FieldAt(file, p, b, 32, s.filesz, 8);
  }

  lemma HeadFields(h: Ehdr)
    requires |h.ident| == 16
    ensures var b := EhdrHead(h);
      && |b| == 48 && b[0..16] == h.ident && b[16..18] == BytesOf(h.kind, 2) && b[18..20] == BytesOf(h.machine, 2)
      && b[24..32] == BytesOf(h.entry, 8) && b[32..40] == BytesOf(h.phoff, 8)
  {
    hide BytesOf;
  }

  lemma TailFields(h: Ehdr)
    requires |h.ident| == 16
    ensures var b := EhdrBytes(h);
      && |b| == EHDR_BYTES && b[0..48] == EhdrHead(h)
      && b[54..56] == BytesOf(h.phentsize, 2) && b[56..58] == BytesOf(h.phnum, 2)
  {
    hide BytesOf, EhdrHead;
    HeadFields(h);
  }

  /** The file header is read as it is spelled. */
  lemma HeaderSpelled(file: seq<u8>, h: Ehdr, machine: nat)
    requires |h.ident| == 16 && |file| >= EHDR_BYTES && file[..EHDR_BYTES] == EhdrBytes(h)
    ensures HeaderOf(file) == Header(h.entry, h.phoff, h.phentsize, h.phnum)
    ensures Identified(file, machine) <==>
      h.ident[..6] == [0x7f, 0x45, 0x4c, 0x46, 2, 1] && h.kind == 2 && h.machine == machine
  {
    hide EhdrBytes, EhdrHead, BytesOf, Pow2, At;
    var b, head := EhdrBytes(h), EhdrHead(h);
    Widths();
    HeadFields(h);
    TailFields(h);
    assert file[0..64] == b && file[0..48] == file[0..64][0..48] == head;
    FieldAt(file, 0, head, 16, h.kind, 2);
    FieldAt(file, 0, head, 18, h.machine, 2);
    FieldAt(file, 0, head, 24, h.entry, 8);
    FieldAt(file, 0, head, 32, h.phoff, 8);
    FieldAt(file, 0, b, 54, h.phentsize, 2);
    FieldAt(file, 0, b, 56, h.phnum, 2);
    assert forall i :: 0 <= i < 16 ==> file[i] == file[0..48][i] == head[0..16][i] == h.ident[i];
    assert h.ident[..6] == [h.ident[0], h.ident[1], h.ident[2], h.ident[3], h.ident[4], h.ident[5]];
  }

  // ----- whole files -----

  predicate SpelledAt(file: seq<u8>, p: nat, s: Phdr) {
    p + PHDR_BYTES <= |file| && file[p..p + PHDR_BYTES] == PhdrBytes(s)
  }

  /** The file has header `h` and, in its table, the program headers `segs`. */
  ghost predicate Spelled(file: seq<u8>, h: Ehdr, segs: seq<Phdr>) {
    && |h.ident| == 16 && |file| >= EHDR_BYTES && file[..EHDR_BYTES] == EhdrBytes(h)
    && h.phnum == |segs| && h.phentsize >= PHDR_BYTES && h.phoff + h.phnum * h.phentsize <= |file|
    && forall i :: 0 <= i < |segs| ==> SpelledAt(file, h.phoff + i * h.phentsize, segs[i])
  }

  /** A 64-bit little-endian executable for the architecture: machine 183 is AArch64 and
      machine 243 is RISC-V. */
  predicate ExecutableFor(h: Ehdr, arch: u32)
    requires |h.ident| == 16
  {
    && h.ident[..6] == [0x7f, 0x45, 0x4c, 0x46, 2, 1] && h.kind == 2
    && h.machine == (if arch == FRONTEND_AARCH64 then 183 else 243)
  }

  /** A loadable executable segment with the entry in its file-backed part. */
  predicate Covers(s: Phdr, entry: u64) {
    s.kind == 1 && s.flags % 2 == 1 && s.vaddr <= entry < s.vaddr + s.filesz < TWO_64
  }

  ghost predicate FirstCover(h: Ehdr, segs: seq<Phdr>, k: nat) {
    k < |segs| && Covers(segs[k], h.entry) && forall i :: 0 <= i < k ==> !Covers(segs[i], h.entry)
  }

  /** The file has the bytes of the segment, and those from the entry on are not too many. */
  predicate Loadable(size: nat, s: Phdr, entry: u64) {
    s.offset + s.filesz <= size && s.vaddr + s.filesz - entry <= MAX_PROGRAM_BYTES
  }

  /** `code` is what segment `k`, the first to cover the entry, holds from the entry on. */
  ghost predicate Code(file: seq<u8>, h: Ehdr, segs: seq<Phdr>, k: nat, code: seq<u8>) {
    && FirstCover(h, segs, k) && Loadable(|file|, segs[k], h.entry)
    && code == file[segs[k].offset + (h.entry - segs[k].vaddr)..segs[k].offset + segs[k].filesz]
  }

  lemma SpelledTable(file: seq<u8>, h: Ehdr, segs: seq<Phdr>)
    requires Spelled(file, h, segs)
    ensures TableInFile(HeaderOf(file), |file|) && HeaderOf(file) == Header(h.entry, h.phoff, h.phentsize, |segs|)
  {
    hide HeaderOf, EhdrBytes, SpelledAt;
    HeaderSpelled(file, h, 0);
  }

  lemma SegmentRead(file: seq<u8>, h: Ehdr, segs: seq<Phdr>, i: nat)
    requires Spelled(file, h, segs) && i < |segs|
    ensures TableInFile(HeaderOf(file), |file|) && HeaderOf(file).phnum == |segs|
    ensures SegmentOf(file, i)
         == Segment(segs[i].kind, segs[i].flags, segs[i].offset, segs[i].vaddr, segs[i].filesz)
    ensures HoldsEntry(SegmentOf(file, i), h.entry) <==> Covers(segs[i], h.entry)
  {
    hide HeaderOf, EhdrBytes, PhdrBytes, SegmentAt;
    SpelledTable(file, h, segs);
    assert SpelledAt(file, h.phoff + i * h.phentsize, segs[i]);
    SegmentSpelled(file, h.phoff + i * h.phentsize, segs[i]);
  }

  lemma FirstCoverIsHolder(file: seq<u8>, h: Ehdr, segs: seq<Phdr>, k: nat)
    requires Spelled(file, h, segs) && k < |segs|
    ensures TableInFile(HeaderOf(file), |file|) && HeaderOf(file).phnum == |segs|
    ensures FirstHolder(file, k) <==> FirstCover(h, segs, k)
  {
    hide HeaderOf, SegmentOf, HoldsEntry, Covers, EhdrBytes, SpelledAt;
    SpelledTable(file, h, segs);
    forall i | 0 <= i < |segs|
      ensures HoldsEntry(SegmentOf(file, i), h.entry) <==> Covers(segs[i], h.entry)
    {
      SegmentRead(file, h, segs, i);
    }
  }

  lemma HolderCodeIs(file: seq<u8>, h: Ehdr, segs: seq<Phdr>, k: nat, code: seq<u8>)
    requires Spelled(file, h, segs) && k < |segs|
    ensures TableInFile(HeaderOf(file), |file|) && HeaderOf(file).phnum == |segs|
    ensures HolderCode(file, k, code) <==> Code(file, h, segs, k, code)
  {
    hide HeaderOf, SegmentOf, FirstCover, EhdrBytes, SpelledAt;
    SpelledTable(file, h, segs);
    FirstCoverIsHolder(file, h, segs, k);
    SegmentRead(file, h, segs, k);
  }

  /** What the loader takes from a file, field by field of the file: it takes `code` if and only
      if the file is an executable for the architecture and `code` are the bytes from the entry
      to the end of the first segment that covers the entry, which lie in the file. */
  lemma SpelledCode(file: seq<u8>, h: Ehdr, segs: seq<Phdr>, arch: u32, code: seq<u8>)
    requires Spelled(file, h, segs)
    ensures |h.ident| == 16
    ensures ElfCode(file, MachineOf(arch)) == Some(code) <==>
      ExecutableFor(h, arch) && exists k: nat :: Code(file, h, segs, k, code)
  {
    hide ElfCode, HeaderOf, HolderCode, Code, Identified, EhdrBytes, SpelledAt;
    var machine := MachineOf(arch);
    SpelledTable(file, h, segs);
    HeaderSpelled(file, h, machine);
    ElfCodeMeans(file, machine, code);
    forall k | 0 <= k < |segs| ensures HolderCode(file, k, code) <==> Code(file, h, segs, k, code) {
      HolderCodeIs(file, h, segs, k, code);
    }
    forall k: nat | Code(file, h, segs, k, code) ensures k < |segs| {
      CodeInTable(file, h, segs, k, code);
    }
  }

  lemma CodeInTable(file: seq<u8>, h: Ehdr, segs: seq<Phdr>, k: nat, code: seq<u8>)
    requires Code(file, h, segs, k, code)
    ensures k < |segs| && 0 < |code| <= MAX_PROGRAM_BYTES
  {
  }

  // ----- every file has a spelling -----

  lemma {:induction false} BytesOfNumber(b: seq<u8>)
    ensures BytesOf(FromBytes(b), |b|) == b
  {
    if b != [] {
      BytesOfNumber(b[1..]);
      Field(FromBytes(b), FromBytes(b[1..]), 256, b[0]);
      assert b == [b[0]] + b[1..];
    }
  }

  /** The number in `n` bytes of the file from `a` on spells those bytes. */
  lemma NumberAt(file: seq<u8>, a: nat, n: nat) returns (v: nat)
    requires a + n <= |file|
    ensures v < Pow2(8 * n) && BytesOf(v, n) == file[a..a + n]
  {
    v := FromBytes(file[a..a + n]);
    FromBytesBound(file[a..a + n]);
    BytesOfNumber(file[a..a + n]);
  }

  lemma Split(file: seq<u8>, a: nat, b: nat, c: nat)
    requires a <= b <= c <= |file|
    ensures file[a..c] == file[a..b] + file[b..c]
  {
  }

  lemma SpellPhdr(file: seq<u8>, p: nat) returns (s: Phdr)
    requires p + PHDR_BYTES <= |file|
    ensures SpelledAt(file, p, s)
  {
    hide BytesOf, Pow2;
    Widths();
    var v0 := NumberAt(file, p, 4);
    var v1 := NumberAt(file, p + 4, 4);
    var v2 := NumberAt(file, p + 8, 8);
    var v3 := NumberAt(file, p + 16, 8);
    var v4 := NumberAt(file, p + 24, 8);
    var v5 := NumberAt(file, p + 32, 8);
    var v6 := NumberAt(file, p + 40, 8);
    var v7 := NumberAt(file, p + 48, 8);
    s := Phdr(v0, v1, v2, v3, v4, v5, v6, v7);
    Split(file, p, p + 4, p + 8);
    Split(file, p, p + 8, p + 16);
    Split(file, p, p + 16, p + 24);
    Split(file, p, p + 24, p + 32);
    Split(file, p, p + 32, p + 40);
    Split(file, p, p + 40, p + 48);
    Split(file, p, p + 48, p + 56);
  }

  lemma SpellHead(file: seq<u8>) returns (h: Ehdr)
    requires |file| >= EHDR_BYTES
    ensures |h.ident| == 16 && EhdrHead(h) == file[..48]
  {
    hide BytesOf, Pow2;
    Widths();
    var kind := NumberAt(file, 16, 2);
    var machine := NumberAt(file, 18, 2);
    var version := NumberAt(file, 20, 4);
    var entry := NumberAt(file, 24, 8);
    var phoff := NumberAt(file, 32, 8);
    var shoff := NumberAt(file, 40, 8);
    h := Ehdr(file[..16], kind, machine, version, entry, phoff, shoff, 0, 0, 0, 0, 0, 0, 0);
    assert file[0..16] == file[..16] && file[0..48] == file[..48];
    Split(file, 0, 16, 18);
    Split(file, 0, 18, 20);
    Split(file, 0, 20, 24);
    Split(file, 0, 24, 32);
    Split(file, 0, 32, 40);
    Split(file, 0, 40, 48);
  }

  lemma SpellEhdr(file: seq<u8>) returns (h: Ehdr)
    requires |file| >= EHDR_BYTES
    ensures |h.ident| == 16 && EhdrBytes(h) == file[..EHDR_BYTES]
  {
    hide BytesOf, Pow2;
    Widths();
    var head := SpellHead(file);
    var flags := NumberAt(file, 48, 4);
    var ehsize := NumberAt(file, 52, 2);
    var phentsize := NumberAt(file, 54, 2);
    var phnum := NumberAt(file, 56, 2);
    var shentsize := NumberAt(file, 58, 2);
    var shnum := NumberAt(file, 60, 2);
    var shstrndx := NumberAt(file, 62, 2);
    h := head.(flags := flags, ehsize := ehsize, phentsize := phentsize, phnum := phnum,
               shentsize := shentsize, shnum := shnum, shstrndx := shstrndx);
    assert EhdrHead(h) == EhdrHead(head);
    hide EhdrHead;
    assert file[0..48] == file[..48] && file[0..64] == file[..64];
    Split(file, 0, 48, 52);
    Split(file, 0, 52, 54);
    Split(file, 0, 54, 56);
    Split(file, 0, 56, 58);
    Split(file, 0, 58, 60);
    Split(file, 0, 60, 62);
    Split(file, 0, 62, 64);
  }

  lemma {:induction false} SpellTable(file: seq<u8>, h: Header, n: nat) returns (segs: seq<Phdr>)
    requires TableInFile(h, |file|) && n <= h.phnum
    ensures |segs| == n && forall i :: 0 <= i < n ==> SpelledAt(file, h.phoff + i * h.phentsize, segs[i])
  {
    hide SpelledAt;
    if n == 0 {
      segs := [];
    } else {
      var rest := SpellTable(file, h, n - 1);
      SegmentInFile(h, |file|, n - 1);
      var s := SpellPhdr(file, h.phoff + (n - 1) * h.phentsize);
      segs := rest + [s];
    }
  }

  /** Every file whose header and table lie in it has a spelling, so that `SpelledCode` speaks
      of all of them; the others are refused. */
  lemma EveryFileIsSpelled(file: seq<u8>) returns (h: Ehdr, segs: seq<Phdr>)
    requires |file| >= EHDR_BYTES && TableInFile(HeaderOf(file), |file|)
    ensures Spelled(file, h, segs)
  {
    hide EhdrBytes, SpelledAt, HeaderOf;
    h := SpellEhdr(file);
    HeaderSpelled(file, h, 0);
    segs := SpellTable(file, HeaderOf(file), HeaderOf(file).phnum);
  }
}
