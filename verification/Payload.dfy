/** The growable code buffer of a payload and the two ways of filling it: instruction
words one at a time, and the executable segment of an ELF file.
*/
module Payload {
  import opened Words
  import opened Encoders

  const MAX_PROGRAM_BYTES: nat := 0x10_0000

  // ----- instruction words -----

  /** The bytes of a sequence of words, each least significant byte first. */
  function WordBytes(words: seq<u32>): (b: seq<u8>)
    ensures |b| == 4 * |words|
  {
    if words == [] then [] else WordBytes(words[..|words| - 1]) + Bytes32(words[|words| - 1])
  }

  /** Every appended word can be read back. */
  lemma {:induction false} WordBytesDecode(words: seq<u32>, j: nat)
    requires j < |words|
    ensures var b := WordBytes(words);
      FromBytes32(b[4 * j], b[4 * j + 1], b[4 * j + 2], b[4 * j + 3]) == words[j]
  {
    hide Bytes32, FromBytes32;
    var n := |words| - 1;
    if j == n {
      Bytes32RoundTrip(words[n]);
    } else {
      WordBytesDecode(words[..n], j);
    }
  }

  // ----- ELF files -----

  function At(file: seq<u8>, offset: nat, n: nat): nat
    requires offset + n <= |file|
  {
    FromBytes(file[offset..offset + n])
  }

  datatype Header = Header(entry: u64, phoff: u64, phentsize: u16, phnum: u16)

  datatype Segment = Segment(kind: u32, flags: u32, offset: u64, vaddr: u64, filesz: u64)

  const EHDR_BYTES: nat := 64
  const PHDR_BYTES: nat := 56

  /** The ELF machine of a payload's architecture. */
  function MachineOf(arch: u32): nat {
    if arch == FRONTEND_AARCH64 then 183 else 243
  }

  function HeaderOf(file: seq<u8>): Header
    requires |file| >= EHDR_BYTES
  {
    FieldsFit(file, 24, 32, 54, 56);
    Header(At(file, 24, 8), At(file, 32, 8), At(file, 54, 2), At(file, 56, 2))
  }

  lemma FieldsFit(file: seq<u8>, a: nat, b: nat, c: nat, d: nat)
    requires a + 8 <= |file| && b + 8 <= |file| && c + 2 <= |file| && d + 2 <= |file|
    ensures At(file, a, 8) < TWO_64 && At(file, b, 8) < TWO_64
    ensures At(file, c, 2) < 0x1_0000 && At(file, d, 2) < 0x1_0000
  {
    Pow2Values();
    FromBytesBound(file[a..a + 8]);
    FromBytesBound(file[b..b + 8]);
    FromBytesBound(file[c..c + 2]);
    FromBytesBound(file[d..d + 2]);
    Pow2Byte(1);
  }

  lemma SegmentFits(file: seq<u8>, p: nat)
    requires p + PHDR_BYTES <= |file|
    ensures At(file, p, 4) < TWO_32 && At(file, p + 4, 4) < TWO_32
    ensures At(file, p + 8, 8) < TWO_64 && At(file, p + 16, 8) < TWO_64 && At(file, p + 32, 8) < TWO_64
  {
    Pow2Values();
    Pow2Byte(3);
    FromBytesBound(file[p..p + 4]);
    FromBytesBound(file[p + 4..p + 8]);
    FromBytesBound(file[p + 8..p + 16]);
    FromBytesBound(file[p + 16..p + 24]);
    FromBytesBound(file[p + 32..p + 40]);
  }

  function SegmentAt(file: seq<u8>, p: nat): Segment
    requires p + PHDR_BYTES <= |file|
  {
    SegmentFits(file, p);
    Segment(At(file, p, 4), At(file, p + 4, 4), At(file, p + 8, 8), At(file, p + 16, 8), At(file, p + 32, 8))
  }

  /** Magic, 64-bit class, little-endian data, executable type and the expected machine. */
  predicate Identified(file: seq<u8>, machine: nat)
    requires |file| >= EHDR_BYTES
  {
    && file[0] == 0x7f && file[1] == 0x45 && file[2] == 0x4c && file[3] == 0x46
    && file[4] == 2 && file[5] == 1 && At(file, 16, 2) == 2 && At(file, 18, 2) == machine
  }

  predicate TableInFile(h: Header, size: nat) {
    h.phentsize >= PHDR_BYTES && h.phoff <= size && h.phnum * h.phentsize <= size - h.phoff
  }

  predicate Accepted(file: seq<u8>, machine: nat) {
    && |file| >= EHDR_BYTES && Identified(file, machine)
    && TableInFile(HeaderOf(file), |file|)
  }

  /** Every program header of an accepted file lies inside the file. */
  lemma SegmentInFile(h: Header, size: nat, n: nat)
    requires TableInFile(h, size) && n < h.phnum
    ensures h.phoff + n * h.phentsize + PHDR_BYTES <= size
  {
    MulMonotone(n + 1, h.phnum, h.phentsize);
    assert (n + 1) * h.phentsize == n * h.phentsize + h.phentsize;
  }

  lemma MulMonotone(m: nat, n: nat, k: nat)
    requires m <= n
    ensures m * k <= n * k
  {
    assert (n - m) * k >= 0;
  }

  /** Program header `n` of the table that the file header `h` describes. */
  function TableEntry(file: seq<u8>, h: Header, n: nat): Segment
    requires TableInFile(h, |file|) && n < h.phnum
  {
    SegmentInFile(h, |file|, n);
    SegmentAt(file, h.phoff + n * h.phentsize)
  }

  function SegmentOf(file: seq<u8>, n: nat): Segment
    requires |file| >= EHDR_BYTES && TableInFile(HeaderOf(file), |file|) && n < HeaderOf(file).phnum
  {
    TableEntry(file, HeaderOf(file), n)
  }

  /** The reference notion: an executable PT_LOAD segment whose file-backed range, which
      lies below 2^64, contains the entry point. */
  predicate HoldsEntry(s: Segment, entry: u64) {
    && s.kind == 1 && s.flags % 2 == 1
    && s.vaddr <= entry < s.vaddr + s.filesz < TWO_64
  }

  /** The loader's test, with its 64-bit sum. */
  predicate Skipped(s: Segment, entry: u64) {
    || s.kind != 1 || s.flags % 2 == 0
    || entry < s.vaddr || entry >= Add64(s.vaddr, s.filesz)
  }

  /** A segment is taken exactly if it holds the entry: one whose end wraps is not. */
  lemma TestMeansHolds(s: Segment, entry: u64)
    ensures !Skipped(s, entry) <==> HoldsEntry(s, entry)
  {
  }

  /** The part of a segment from the entry on, if it lies in the file and is not too big. */
  function EntryBytes(file: seq<u8>, s: Segment, entry: u64): Option<seq<u8>>
    requires HoldsEntry(s, entry)
  {
    if s.offset + s.filesz > |file| || s.vaddr + s.filesz - entry > MAX_PROGRAM_BYTES then None
    else Some(file[s.offset + (entry - s.vaddr)..s.offset + s.filesz])
  }

  /** The first segment from number `n` on that holds the entry decides. */
  function FirstEntry(file: seq<u8>, n: nat): Option<seq<u8>>
    requires |file| >= EHDR_BYTES && TableInFile(HeaderOf(file), |file|) && n <= HeaderOf(file).phnum
    decreases HeaderOf(file).phnum - n
  {
    var h := HeaderOf(file);
    if n == h.phnum then None
    else if HoldsEntry(SegmentOf(file, n), h.entry) then EntryBytes(file, SegmentOf(file, n), h.entry)
    else FirstEntry(file, n + 1)
  }

  /** The code an ELF file holds for a machine. */
  function ElfCode(file: seq<u8>, machine: nat): Option<seq<u8>> {
    if Accepted(file, machine) then FirstEntry(file, 0) else None
  }

  /** What a successful load yields: the file bytes of the first segment that holds the
      entry, from the entry to the end of the segment's file data. */
  lemma ElfCodeMeans(file: seq<u8>, machine: nat, code: seq<u8>)
    ensures ElfCode(file, machine) == Some(code) <==>
      && Accepted(file, machine)
      && exists n :: 0 <= n < HeaderOf(file).phnum && HolderCode(file, n, code)
  {
    hide Accepted, HeaderOf, SegmentOf, EntryBytes, HoldsEntry;
    if Accepted(file, machine) {
      AcceptedMeans(file, machine);
      FirstEntryMeans(file, 0, code);
    }
  }

  lemma AcceptedMeans(file: seq<u8>, machine: nat)
    requires Accepted(file, machine)
    ensures |file| >= EHDR_BYTES && TableInFile(HeaderOf(file), |file|)
  {
  }

  ghost predicate FirstHolder(file: seq<u8>, n: nat)
    requires |file| >= EHDR_BYTES && TableInFile(HeaderOf(file), |file|) && n < HeaderOf(file).phnum
  {
    var entry := HeaderOf(file).entry;
    HoldsEntry(SegmentOf(file, n), entry) && forall m :: 0 <= m < n ==> !HoldsEntry(SegmentOf(file, m), entry)
  }

  /** Segment `n` is the first that holds the entry, and `code` is its part from the entry on. */
  ghost predicate HolderCode(file: seq<u8>, n: nat, code: seq<u8>)
    requires |file| >= EHDR_BYTES && TableInFile(HeaderOf(file), |file|) && n < HeaderOf(file).phnum
  {
    FirstHolder(file, n) && EntryBytes(file, SegmentOf(file, n), HeaderOf(file).entry) == Some(code)
  }

  lemma {:induction false} FirstEntryMeans(file: seq<u8>, k: nat, code: seq<u8>)
    requires |file| >= EHDR_BYTES && TableInFile(HeaderOf(file), |file|) && k <= HeaderOf(file).phnum
    requires forall m :: 0 <= m < k ==> !HoldsEntry(SegmentOf(file, m), HeaderOf(file).entry)
    ensures FirstEntry(file, k) == Some(code) <==>
      exists n :: 0 <= n < HeaderOf(file).phnum && HolderCode(file, n, code)
    decreases HeaderOf(file).phnum - k
  {
    hide HeaderOf, SegmentOf, EntryBytes, HoldsEntry;
    if k < HeaderOf(file).phnum {
      if HoldsEntry(SegmentOf(file, k), HeaderOf(file).entry) {
        assert FirstHolder(file, k);
        assert HolderCode(file, k, code) <==> FirstEntry(file, k) == Some(code);
        forall n | 0 <= n < HeaderOf(file).phnum && HolderCode(file, n, code) ensures n == k {
          assert FirstHolder(file, n);
        }
      } else {
        FirstEntryMeans(file, k + 1, code);
      }
    }
  }

  // ----- the buffer -----

  /** The capacities in use: 64, 128, 256 and so on. */
  predicate Doubled(n: nat) {
    n == 64 || (n > 64 && n % 2 == 0 && Doubled(n / 2))
  }

  lemma {:induction false} DoubledIsApart(m: nat, n: nat)
    requires Doubled(m) && Doubled(n) && m < n
    ensures 64 <= m && 2 * m <= n && Doubled(2 * m)
  {
    if m != 64 {
      DoubledIsApart(m / 2, n / 2);
    }
  }

  lemma LimitIsDoubled()
    ensures Doubled(MAX_PROGRAM_BYTES)
  {
    assert Doubled(0x100) && Doubled(0x400);
    assert Doubled(0x1000) && Doubled(0x4000) && Doubled(0x1_0000);
    assert Doubled(0x4_0000);
  }

  class CodeBytes {
    var bytes: array<u8>  // its length is the capacity
    var size: nat

    ghost predicate Valid()
      reads this
    {
      size <= bytes.Length <= MAX_PROGRAM_BYTES && (bytes.Length == 0 || Doubled(bytes.Length))
    }

    ghost function Contents(): seq<u8>
      requires Valid()
      reads this, bytes
    {
      bytes[..size]
    }

    constructor ()
      ensures Valid() && fresh(bytes) && Contents() == []
    {
      bytes := new u8[0];
      size := 0;
    }

    /** Doubles the capacity until `needed` fits.  The result is the least capacity of the
        series that does; the limit belongs to the series, so cutting the result down to it
        changes nothing, and the second "too much code" report cannot be reached. */
    method GrownCapacity(needed: nat) returns (capacity: nat)
      requires Valid() && bytes.Length < needed <= MAX_PROGRAM_BYTES
      ensures needed <= capacity <= MAX_PROGRAM_BYTES && Doubled(capacity)
      ensures forall c: nat :: Doubled(c) && needed <= c ==> capacity <= c
    {
      LimitIsDoubled();
      capacity := if bytes.Length > 0 then bytes.Length * 2 else 64;
      if bytes.Length > 0 {
        DoubledIsApart(bytes.Length, MAX_PROGRAM_BYTES);
      }
      while capacity < needed && capacity < MAX_PROGRAM_BYTES
        invariant Doubled(capacity) && 64 <= capacity <= MAX_PROGRAM_BYTES
        invariant capacity == 64 || capacity / 2 < needed
        decreases MAX_PROGRAM_BYTES - capacity
      {
        DoubledIsApart(capacity, MAX_PROGRAM_BYTES);
        capacity := capacity * 2;
      }
      if capacity > MAX_PROGRAM_BYTES {
        capacity := MAX_PROGRAM_BYTES;
      }
      if capacity < needed {
        assert false;
      }
      forall c: nat | Doubled(c) && needed <= c
        ensures capacity <= c
      {
        if c < capacity {
          DoubledIsApart(c, capacity);
        }
      }
    }

    /** `memory` says whether a reallocation, if one is needed, succeeds. */
    method Append(input: seq<u8>, memory: bool) returns (ok: bool)
      requires Valid()
      modifies this, bytes
      ensures Valid() && (bytes == old(bytes) || fresh(bytes))
      ensures ok <==> input == [] || (old(size) + |input| <= MAX_PROGRAM_BYTES
                                      && (memory || old(size) + |input| <= old(bytes.Length)))
      ensures Contents() == if ok then old(Contents()) + input else old(Contents())
    {
      hide Doubled;
      if |input| == 0 {
        return true;
      }
      if size > MAX_PROGRAM_BYTES || |input| > MAX_PROGRAM_BYTES - size {
        return false;
      }
      var needed := size + |input|;
      if needed > bytes.Length {
        var grown := Grow(needed, memory);
        if !grown {
          return false;
        }
      }
      CopyInto(bytes, size, input);
      size := needed;
      return true;
    }

    /** The reallocation: more room, the same contents. */
    method Grow(needed: nat, memory: bool) returns (ok: bool)
      requires Valid() && bytes.Length < needed <= MAX_PROGRAM_BYTES
      modifies this`bytes
      ensures Valid() && ok == memory && Contents() == old(Contents())
      ensures if ok then fresh(bytes) && needed <= bytes.Length else bytes == old(bytes)
    {
      hide Doubled;
      var capacity := GrownCapacity(needed);
      if !memory {
        return false;
      }
      var grown := new u8[capacity](_ => 0);
      CopyInto(grown, 0, bytes[..size]);
      bytes := grown;
      return true;
    }

    static method CopyInto(target: array<u8>, at: nat, input: seq<u8>)
      requires at + |input| <= target.Length
      modifies target
      ensures target[..] == old(target[..at]) + input + old(target[at + |input|..])
    {
      for n := 0 to |input|
        invariant target[..] == old(target[..at]) + input[..n] + old(target[at + n..])
      {
        target[at + n] := input[n];
      }
    }

    method AppendInsn(insn: u32, memory: bool) returns (ok: bool)
      requires Valid()
      modifies this, bytes
      ensures Valid() && (bytes == old(bytes) || fresh(bytes))
      ensures ok <==> old(size) + 4 <= MAX_PROGRAM_BYTES && (memory || old(size) + 4 <= old(bytes.Length))
      ensures Contents() == if ok then old(Contents()) + Bytes32(insn) else old(Contents())
    {
      ok := Append([insn % 256, insn / 0x100 % 256, insn / 0x1_0000 % 256, insn / 0x100_0000 % 256], memory);
    }

    /** The instruction lines of a payload: appended until the first failure, so what is in
        the buffer is always what was there, followed by the words accepted so far. */
    method AppendInsns(insns: seq<u32>, memory: seq<bool>) returns (accepted: nat)
      requires Valid() && |memory| == |insns|
      modifies this, bytes
      ensures Valid() && accepted <= |insns|
      ensures Contents() == old(Contents()) + WordBytes(insns[..accepted])
      ensures |old(Contents())| + 4 * |insns| <= MAX_PROGRAM_BYTES && (forall k :: 0 <= k < |memory| ==> memory[k])
              ==> accepted == |insns|
      ensures accepted < |insns| && (forall k :: 0 <= k < |memory| ==> memory[k])
              ==> |old(Contents())| + 4 * (accepted + 1) > MAX_PROGRAM_BYTES
    {
      hide WordBytes, Bytes32;
      accepted := 0;
      WordBytesNone();
      while accepted < |insns|
        invariant Valid() && accepted <= |insns| && (bytes == old(bytes) || fresh(bytes))
        invariant Contents() == old(Contents()) + WordBytes(insns[..accepted])
      {
        var ok := AppendInsn(insns[accepted], memory[accepted]);
        if !ok {
          return;
        }
        WordBytesMore(insns[..accepted], insns[accepted]);
        assert insns[..accepted + 1] == insns[..accepted] + [insns[accepted]];
        accepted := accepted + 1;
      }
    }

    /** Replaces the contents by the code of an ELF file for the payload's architecture.  A
        file that is not acceptable leaves them; if only the allocation fails they are gone. */
    method LoadElf(file: seq<u8>, arch: u32, memory: bool) returns (ok: bool)
      requires Valid()
      modifies this, bytes
      ensures Valid()
      ensures ok <==> ElfCode(file, MachineOf(arch)).Some? && memory
      ensures Contents() == match ElfCode(file, MachineOf(arch))
                            case None => old(Contents())
                            case Some(code) => if memory then code else []
    {
      var machine := MachineOf(arch);
      hide HeaderOf, SegmentOf, SegmentAt, Identified, HoldsEntry, Skipped, FirstEntry, TableInFile;
      if |file| < EHDR_BYTES || !Identified(file, machine) {
        return false;
      }
      var h := HeaderOf(file);
      if !TableInFile(h, |file|) {
        return false;
      }
      var n: nat := 0;
      while n < h.phnum
        invariant n <= h.phnum && Valid() && size == old(size) && bytes == old(bytes)
        invariant Contents() == old(Contents())
        invariant ElfCode(file, machine) == FirstEntry(file, n)
      {
        SegmentInFile(h, |file|, n);
        var s := SegmentOf(file, n);
        TestMeansHolds(s, h.entry);
        FirstEntryStep(file, n);
        if !Skipped(s, h.entry) {
          HoldsBounds(s, h.entry);
          var entryOffset := h.entry - s.vaddr;
          var entrySize := s.filesz - entryOffset;
          if entrySize == 0 || entrySize > MAX_PROGRAM_BYTES || s.offset > |file| || s.filesz > |file| - s.offset {
            return false;
          }
          bytes := new u8[0];
          size := 0;
          ok := Append(file[s.offset + entryOffset..s.offset + entryOffset + entrySize], memory);
          return;
        }
        n := n + 1;
      }
      FirstEntryNone(file);
      return false;
    }
  }

  lemma WordBytesNone()
    ensures WordBytes([]) == []
  {
  }

  lemma WordBytesMore(words: seq<u32>, w: u32)
    ensures WordBytes(words + [w]) == WordBytes(words) + Bytes32(w)
  {
    hide Bytes32;
    assert (words + [w])[..|words|] == words;
  }

  lemma HoldsBounds(s: Segment, entry: u64)
    requires HoldsEntry(s, entry)
    ensures s.vaddr <= entry < s.vaddr + s.filesz
  {
  }

  lemma FirstEntryStep(file: seq<u8>, n: nat)
    requires |file| >= EHDR_BYTES && TableInFile(HeaderOf(file), |file|) && n < HeaderOf(file).phnum
    ensures var s := SegmentOf(file, n);
      FirstEntry(file, n) == if HoldsEntry(s, HeaderOf(file).entry)
                             then EntryBytes(file, s, HeaderOf(file).entry) else FirstEntry(file, n + 1)
  {
    hide HeaderOf, SegmentOf, EntryBytes, HoldsEntry;
  }

  lemma FirstEntryNone(file: seq<u8>)
    requires |file| >= EHDR_BYTES && TableInFile(HeaderOf(file), |file|)
    ensures FirstEntry(file, HeaderOf(file).phnum) == None
  {
    hide HeaderOf, SegmentOf, EntryBytes, HoldsEntry;
  }
}
