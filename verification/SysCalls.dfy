/** What the emulated system calls answer and write, address by address.

The texts that they write are given as texts here; every address that is not written keeps
its byte.
*/
module SysCalls {
  import opened Words
  import opened Iov
  import opened Traps

  predicate Ascii(s: string) {
    forall i :: 0 <= i < |s| ==> s[i] as int < 128
  }

  function Text(s: string): (b: seq<u8>)
    requires Ascii(s)
    ensures |b| == |s|
  {
    seq(|s|, i requires 0 <= i < |s| => s[i] as int)
  }

  /** `w` is `m` with `bytes` from address `a` on, going round at 2^64. */
  ghost predicate Writes(m: Cells, w: Cells, a: u64, bytes: seq<u8>) {
    forall x: u64 :: Cell(w, x) == if Distance(a, x) < |bytes| then bytes[Distance(a, x)] else Cell(m, x)
  }

  lemma StoreWrites(m: Cells, a: u64, bytes: seq<u8>)
    requires |bytes| <= TWO_64
    ensures Writes(m, Store(m, a, bytes), a, bytes)
  {
    hide Store, Cell, Distance;
    forall x: u64
      ensures Cell(Store(m, a, bytes), x) == if Distance(a, x) < |bytes| then bytes[Distance(a, x)] else Cell(m, x)
    {
      StoreCell(m, a, bytes, x);
    }
  }

  lemma {:induction false} StoreConcat(m: Cells, a: u64, s: seq<u8>, t: seq<u8>)
    ensures Store(Store(m, a, s), Add64(a, |s|), t) == Store(m, a, s + t)
    decreases s
  {
    if s == [] {
      assert s + t == t;
      assert Add64(a, 0) == a;
    } else {
      assert (s + t)[1..] == s[1..] + t && (s + t)[0] == s[0];
      StoreConcat(m[a := s[0]], Add64(a, 1), s[1..], t);
      AddAdd(a, 1, |s| - 1);
    }
  }

  // ----- calls with fixed answers -----

  const SCALARS: map<u64, u64> := map[
    25 := 0, 29 := 0, 48 := 0, 96 := 4243, 98 := 0, 99 := 0, 134 := 0, 135 := 0, 155 := 4242, 156 := 4242,
    172 := 4242, 173 := 4241, 174 := 1000, 175 := 1000, 176 := 1000, 177 := 1000, 178 := 4243, 233 := 0, 293 := 0]

  /** The calls that touch no memory; the two that ask for another process are declined. */
  lemma ScalarTable(c: SysCall)
    ensures ScalarCall(c) ==
      if c.number in SCALARS && !(c.number in {155, 156} && c.args[0] != 0)
      then Answered(SCALARS[c.number], c.cells) else Declined
  {
  }

  // ----- reading and writing -----

  function ReadText(fd: u64): seq<u8> {
    if fd == 3 then Text("FD!!") else Text("RX!!")
  }

  function ReadvText(fd: u64): seq<u8> {
    if fd == 3 then Text("FV!!") else Text("RV!!")
  }

  /** `read` of standard input or the open file puts the first bytes of its text in the buffer,
      at most four of them, and nothing anywhere else. */
  lemma ReadMeans(c: SysCall)
    requires c.number == 63
    ensures var effect, count := FileCall(c), Min(c.args[2], 4);
      if c.args[0] == 0 || c.args[0] == 3
      then effect.Answered? && effect.result == count
           && Writes(c.cells, effect.cells, c.args[1], ReadText(c.args[0])[..count])
      else effect == Declined
  {
    hide Store, Writes;
    var count := Min(c.args[2], 4);
    assert ReadText(c.args[0]) == ReadInput(c.args[0], if c.args[0] == 3 then 0x44 else 0x58);
    StoreWrites(c.cells, c.args[1], ReadText(c.args[0])[..count]);
  }

  /** `readv` spreads its text over the buffers of the vector. */
  lemma ReadvMeans(c: SysCall)
    requires c.number == 65 && (c.args[0] == 0 || c.args[0] == 3)
    requires var d := Dests(c.cells, c.args[1], 0, Min(c.args[2], 16));
      KeepsUnread(c.cells, c.args[1], d, 0, ReadvText(c.args[0])) && Disjoint(d, 4)
    ensures var effect, d := FileCall(c), Dests(c.cells, c.args[1], 0, Min(c.args[2], 16));
      && effect.Answered? && effect.result == Min(4, TotalLen(d))
      && Gather(effect.cells, d, 4) == ReadvText(c.args[0])[..effect.result]
      && forall x: u64 :: Avoids(d, 4, x, x + 1) ==> Cell(effect.cells, x) == Cell(c.cells, x)
  {
    hide Scatter, Dests, KeepsUnread, Disjoint, Gather, Avoids, TotalLen, Cell, Store, Slice;
    assert ReadvText(c.args[0]) == ReadInput(c.args[0], 0x56);
    ScatterMeans(c.cells, c.args[1], Min(c.args[2], 16), ReadvText(c.args[0]));
  }

  /** `write` and `writev` answer with the length they were given and change nothing. */
  lemma WriteMeans(c: SysCall)
    ensures c.number == 64 ==> FileCall(c) == if c.args[0] == 1 then Answered(c.args[2], c.cells) else Declined
    ensures c.number == 66 ==>
      FileCall(c) == if c.args[0] == 1 || c.args[0] == 2
                     then Answered(TotalLen(Dests(c.cells, c.args[1], 0, Min(c.args[2], 16))) % TWO_64, c.cells)
                     else Declined
  {
    hide Scatter, Dests, TotalLen, Store, Slice;
  }

  // ----- names -----

  /** The calls that write a text: the working directory, a link, the system's name, the two
      kinds of file status, and random bytes. */
  lemma NameMeans(c: SysCall)
    ensures var effect, a := FileCall(c), c.args;
      && (c.number == 17 && a[1] >= 6 ==>
          effect.Answered? && effect.result == 6 && Writes(c.cells, effect.cells, a[0], Text("/poly\0")))
      && (c.number == 17 && a[1] < 6 ==> effect == Answered(Errno(34), c.cells))
      && (c.number == 78 && a[2] != 0 && a[3] != 0 ==>
          effect.Answered? && effect.result == Min(5, a[3])
          && Writes(c.cells, effect.cells, a[2], Text("poly!")[..Min(5, a[3])]))
      && (c.number == 78 && (a[2] == 0 || a[3] == 0) ==> effect == Declined)
      && (c.number == 160 ==>
          effect.Answered? && effect.result == 0 && Writes(c.cells, effect.cells, a[0], Text("Linux\0")))
  {
    hide Store, Writes, Scatter, Dests, TotalLen, Slice;
    var a := c.args;
    assert CWD == Text("/poly\0") && SYSNAME == Text("Linux\0");
    assert POLY_NAME[..5] == Text("poly!");
    var n := Min(5, a[3]);
    assert POLY_NAME[..n] == Text("poly!")[..n];
    StoreWrites(c.cells, a[0], CWD);
    StoreWrites(c.cells, a[2], POLY_NAME[..n]);
    StoreWrites(c.cells, a[0], SYSNAME);
  }

  lemma StatMeans(c: SysCall)
    ensures var effect, a := FileCall(c), c.args;
      && (c.number == 79 && a[2] != 0 ==>
          effect.Answered? && effect.result == 0 && Writes(c.cells, effect.cells, a[2], Text("PSTAT!!\0")))
      && (c.number == 80 && a[1] != 0 && a[0] <= 3 ==>
          effect.Answered? && effect.result == 0 && Writes(c.cells, effect.cells, a[1], Text("PSTAT!!\0")))
      && (c.number == 79 && a[2] == 0 ==> effect == Declined)
      && (c.number == 80 && (a[1] == 0 || a[0] > 3) ==> effect == Declined)
  {
    hide Store, Writes, Scatter, Dests, TotalLen, Slice;
    assert STAT_MAGIC == Text("PSTAT!!\0");
    StoreWrites(c.cells, c.args[2], STAT_MAGIC);
    StoreWrites(c.cells, c.args[1], STAT_MAGIC);
  }

  lemma RandomMeans(c: SysCall)
    requires c.number == 278
    ensures var effect, count := MemoryCall(c), Min(c.args[1], 8);
      if c.args[0] != 0
      then effect.Answered? && effect.result == count
           && Writes(c.cells, effect.cells, c.args[0], Text("PRND!!\0\0")[..count])
      else effect == Declined
  {
    hide Store, Writes;
    assert RANDOM_DATA == Text("PRND!!\0\0");
    StoreWrites(c.cells, c.args[0], RANDOM_DATA[..Min(c.args[1], 8)]);
  }

  /** A directory has one entry: inode 1, offset 1, length 24, a directory, named ".". */
  lemma DirectoryMeans(c: SysCall)
    requires c.number == 61
    ensures var effect, a := FileCall(c), c.args;
      if a[1] != 0 && a[2] >= 24 && a[0] <= 3
      then effect.Answered? && effect.result == 24
           && Writes(c.cells, effect.cells, a[1], BytesOf(1, 8) + BytesOf(1, 8) + BytesOf(24, 2) + [4] + Text(".\0"))
      else effect == Declined
  {
    hide Store, Writes, BytesOf;
    var m, a := c.cells, c.args[1];
    var one, tail: seq<u8> := BytesOf(1, 8), [24, 0, 4, 0x2e, 0];
    ShortNumber();
    assert BytesOf(24, 2) + [4] + Text(".\0") == tail;
    StoreConcat(m, a, one, one);
    StoreConcat(m, a, one + one, tail);
    assert one + one + BytesOf(24, 2) + [4] + Text(".\0") == one + one + tail;
    StoreWrites(m, a, one + one + tail);
  }

  lemma ShortNumber()
    ensures BytesOf(24, 2) == [24, 0]
  {
    assert BytesOf(0, 1) == [0] + BytesOf(0, 0);
  }

  // ----- files -----

  lemma FileMeans(c: SysCall)
    ensures c.number == 56 ==>
      FileCall(c) == Answered(if c.args[1] != 0 && Slice(c.cells, c.args[1], 6) == Text("poly!\0")
                              then 3 else Errno(2), c.cells)
    ensures c.number == 57 ==> FileCall(c) == Answered(if c.args[0] == 3 then 0 else Errno(9), c.cells)
    ensures c.number == 62 ==>
      FileCall(c) == Answered(if c.args[0] == 3 && c.args[2] <= 2 then c.args[1] else Errno(9), c.cells)
  {
    hide Store, Slice, Scatter, Dests, TotalLen;
    assert POLY_NAME == Text("poly!\0");
  }

  // ----- times and limits -----

  /** Two 64-bit values side by side, and nothing else. */
  ghost predicate Pair(m: Cells, effect: Effect, a: u64, x: u64, y: u64) {
    && effect.Answered? && effect.result == 0
    && U64At(effect.cells, a) == x && U64At(effect.cells, Add64(a, 8)) == y
    && forall z: u64 :: Distance(a, z) >= 16 ==> Cell(effect.cells, z) == Cell(m, z)
  }

  lemma TwoIsPair(c: SysCall, a: u64, x: u64, y: u64)
    ensures Pair(c.cells, Two(c, a, x, y), a, x, y)
  {
    hide Store, BytesOf, U64At, Cell, Distance, Slice;
    var m1 := Store(c.cells, a, BytesOf(x, 8));
    var m2 := Store(m1, Add64(a, 8), BytesOf(y, 8));
    StoredValue(m1, Add64(a, 8), y);
    StoredValue(c.cells, a, x);
    SameValue(m2, m1, a);
    forall i | 0 <= i < 8 ensures Cell(m2, Add64(a, i)) == Cell(m1, Add64(a, i)) {
      StoreCell(m1, Add64(a, 8), BytesOf(y, 8), Add64(a, i));
      Before(a, i);
    }
    forall z: u64 | Distance(a, z) >= 16 ensures Cell(m2, z) == Cell(c.cells, z) {
      StoreCell(m1, Add64(a, 8), BytesOf(y, 8), z);
      StoreCell(c.cells, a, BytesOf(x, 8), z);
      Beyond(a, z);
    }
  }

  lemma Before(a: u64, i: nat)
    requires i < 8
    ensures Distance(Add64(a, 8), Add64(a, i)) >= 8
  {
  }

  lemma Beyond(a: u64, z: u64)
    requires Distance(a, z) >= 16
    ensures Distance(Add64(a, 8), z) >= 8
  {
  }

  /** Clock, resource use, time of day, system information and resource limits. */
  lemma TimesMeans(c: SysCall)
    ensures var effect, a, m := MemoryCall(c), c.args, c.cells;
      && (c.number == 113 && a[0] == 0 && a[1] != 0 ==> Pair(m, effect, a[1], 123, 456789))
      && (c.number == 165 && a[0] == 0 && a[1] != 0 ==> Pair(m, effect, a[1], 321, 654321))
      && (c.number == 169 && a[0] != 0 && a[1] == 0 ==> Pair(m, effect, a[0], 246, 13579))
      && (c.number == 179 && a[0] != 0 ==> Pair(m, effect, a[0], 98765, 111))
      && (c.number == 261 && a[3] != 0 ==> Pair(m, effect, a[3], 8388608, TWO_64 - 1))
      && (c.number in {113, 165} && (a[0] != 0 || a[1] == 0) ==> effect == Declined)
      && (c.number == 169 && (a[0] == 0 || a[1] != 0) ==> effect == Declined)
      && (c.number == 179 && a[0] == 0 ==> effect == Declined)
      && (c.number == 168 && (a[0] == 0 || a[1] == 0) ==> effect == Declined)
      && (c.number == 261 && a[3] == 0 ==> effect == Declined)
  {
    hide Pair, Two;
    var a := c.args;
    TwoIsPair(c, a[1], 123, 456789);
    TwoIsPair(c, a[1], 321, 654321);
    TwoIsPair(c, a[0], 246, 13579);
    TwoIsPair(c, a[0], 98765, 111);
    TwoIsPair(c, a[3], 8388608, TWO_64 - 1);
  }

  /** The processor and node numbers, in two words that do not overlap. */
  lemma ProcessorMeans(c: SysCall)
    requires c.number == 168 && c.args[0] != 0 && c.args[1] != 0
    requires Distance(c.args[0], c.args[1]) >= 8 && Distance(c.args[1], c.args[0]) >= 8
    ensures var effect, a := MemoryCall(c), c.args;
      && effect.Answered? && effect.result == 0
      && U64At(effect.cells, a[0]) == 12 && U64At(effect.cells, a[1]) == 34
  {
    hide Store, BytesOf, U64At, Cell, Slice;
    var p, q := c.args[0], c.args[1];
    var m1 := Store(c.cells, p, BytesOf(12, 8));
    var m2 := Store(m1, q, BytesOf(34, 8));
    StoredValue(c.cells, p, 12);
    StoredValue(m1, q, 34);
    SameValue(m2, m1, p);
    forall i | 0 <= i < 8 ensures Cell(m2, Add64(p, i)) == Cell(m1, Add64(p, i)) {
      StoreCell(m1, q, BytesOf(34, 8), Add64(p, i));
      Apart(p, q, i);
    }
  }

  lemma Apart(p: u64, q: u64, i: nat)
    requires i < 8 && Distance(p, q) >= 8 && Distance(q, p) >= 8
    ensures Distance(q, Add64(p, i)) >= 8
  {
  }

  // ----- mappings -----

  /** The calls about memory change none; an anonymous mapping is the kernel's answer. */
  lemma MappingMeans(c: SysCall)
    ensures c.number == 214 ==> MemoryCall(c) == Answered(if c.args[0] != 0 then c.args[0] else c.args[1], c.cells)
    ensures c.number in {215, 226} ==>
      MemoryCall(c) == if c.args[0] != 0 && c.args[1] != 0 then Answered(0, c.cells) else Declined
    ensures c.number == 222 ==>
      MemoryCall(c) == if c.args[0] != 0 then Declined
                       else if c.args[1] >= 4096 && c.args[2..6] == [3, 34, TWO_64 - 1, 0]
                       then Answered(c.mapping, c.cells)
                       else if c.args[3..6] == [34, 5, 7]
                       then Answered((c.args[1] + c.args[2] + 46) % TWO_64, c.cells)
                       else Answered(c.args[1], c.cells)
  {
    hide Two;
    var a := c.args;
    assert a[2..6] == [a[2], a[3], a[4], a[5]] && a[3..6] == [a[3], a[4], a[5]];
    if c.number == 222 {
      assert a[2..6] == [3, 34, TWO_64 - 1, 0] <==> a[2] == 3 && a[3] == 34 && a[4] == TWO_64 - 1 && a[5] == 0;
    }
  }

  // ----- the answers of whole traps -----

  /** A break with a small number and a call that nobody knows. */
  lemma TrapAnswers(s: State, t: Event)
    requires ValidFrame(t.frame)
    ensures IsKind(t, Break) && t.frame.selector < 256 ==>
      Handle(s, t, true).1 == Resumed(0x4c00_0000 + t.frame.frontend * 256 + t.frame.selector)
    ensures IsKind(t, Syscall) && t.frame.selector < 0x1_0000 && GroupOf(t.frame.selector).None? ==>
      Handle(s, t, true).1 == Resumed(0x5300_0000 + t.frame.selector * 256 + t.frame.frontend)
  {
    hide Handle, Or64, GroupOf, Reports;
    HandleMeans(s, t);
    AnswersSpell(t.frame.frontend, t.frame.selector);
  }

  /** A `read` trap from first to last: the caller gets the count and finds the text. */
  lemma ReadTrap(s: State, t: Event)
    requires IsKind(t, Syscall) && t.frame.selector == 63 && t.frame.args[0] in {0, 3}
    ensures var (after, outcome), count := Handle(s, t, true), Min(t.frame.args[2], 4);
      && outcome == Resumed(count)
      && Writes(s.cells, after.cells, t.frame.args[1], ReadText(t.frame.args[0])[..count])
  {
    hide Handle, FileCall, Writes, IsKind;
    AnsweredCall(s, t, File);
    ReadMeans(Call(63, t.frame.args, s.cells, true, t.mapping));
  }
}
