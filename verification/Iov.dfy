/** Raw memory and the scatter copy of the runtime's vectored reads.

Every 64-bit address holds a byte.  A table of destinations lies in the same memory as
the destinations, and each entry is read only when its turn comes, so a copy can change
the entries that follow it; what the copy promises therefore depends on where its
destinations lie.
*/
module Iov {
  import opened Words
  import opened Encoders

  type Cells = map<u64, u8>

  function Cell(m: Cells, a: u64): u8 { if a in m then m[a] else 0 }

  function Slice(m: Cells, a: u64, n: nat): (s: seq<u8>)
    ensures |s| == n
    decreases n
  {
    if n == 0 then [] else [Cell(m, a)] + Slice(m, Add64(a, 1), n - 1)
  }

  function Store(m: Cells, a: u64, bytes: seq<u8>): Cells
    decreases bytes
  {
    if bytes == [] then m else Store(m[a := bytes[0]], Add64(a, 1), bytes[1..])
  }

  function U64At(m: Cells, a: u64): u64 {
    Pow2Values();
    FromBytesBound(Slice(m, a, 8));
    FromBytes(Slice(m, a, 8))
  }

  // ----- what a store changes -----

  /** How far `x` lies above `a`, going round at 2^64. */
  function Distance(a: u64, x: u64): u64 {
    if a <= x then x - a else x + TWO_64 - a
  }

  lemma DistanceOf(a: u64, n: nat)
    requires n < TWO_64
    ensures Distance(a, Add64(a, n)) == n
  {
  }

  lemma DistanceBack(a: u64, x: u64)
    ensures Add64(a, Distance(a, x)) == x
  {
  }

  lemma DistanceStep(a: u64, x: u64)
    ensures Distance(a, x) == 0 <==> x == a
    ensures x != a ==> Distance(Add64(a, 1), x) == Distance(a, x) - 1
    ensures Distance(Add64(a, 1), a) == TWO_64 - 1
  {
  }

  lemma {:induction false} StoreCell(m: Cells, a: u64, bytes: seq<u8>, x: u64)
    requires |bytes| <= TWO_64
    ensures Cell(Store(m, a, bytes), x)
         == if Distance(a, x) < |bytes| then bytes[Distance(a, x)] else Cell(m, x)
    decreases bytes
  {
    hide Distance, Add64;
    if bytes != [] {
      StoreCell(m[a := bytes[0]], Add64(a, 1), bytes[1..], x);
      DistanceStep(a, x);
    }
  }

  lemma {:induction false} SliceCell(m: Cells, a: u64, n: nat, i: nat)
    requires i < n
    ensures Slice(m, a, n)[i] == Cell(m, Add64(a, i))
    decreases n
  {
    hide Cell;
    if i > 0 {
      SliceCell(m, Add64(a, 1), n - 1, i - 1);
      AddAdd(a, 1, i - 1);
    }
  }

  lemma SliceOfStore(m: Cells, a: u64, bytes: seq<u8>)
    requires |bytes| <= TWO_64
    ensures Slice(Store(m, a, bytes), a, |bytes|) == bytes
  {
    hide Cell, Store, Slice, Distance, Add64;
    forall i | 0 <= i < |bytes| ensures Slice(Store(m, a, bytes), a, |bytes|)[i] == bytes[i] {
      SliceCell(Store(m, a, bytes), a, |bytes|, i);
      StoreCell(m, a, bytes, Add64(a, i));
      DistanceOf(a, i);
    }
  }

  lemma SliceSame(m: Cells, w: Cells, a: u64, n: nat)
    requires forall i :: 0 <= i < n ==> Cell(m, Add64(a, i)) == Cell(w, Add64(a, i))
    ensures Slice(m, a, n) == Slice(w, a, n)
  {
    hide Cell, Slice, Add64;
    forall i | 0 <= i < n ensures Slice(m, a, n)[i] == Slice(w, a, n)[i] {
      SliceCell(m, a, n, i);
      SliceCell(w, a, n, i);
    }
  }

  /** A 64-bit value that was written can be read back. */
  lemma StoredValue(m: Cells, a: u64, v: u64)
    ensures U64At(Store(m, a, BytesOf(v, 8)), a) == v
  {
    hide Store, BytesOf, Slice, FromBytes, Pow2;
    SliceOfStore(m, a, BytesOf(v, 8));
    Pow2Values();
    BytesRoundTrip(v, 8);
  }

  // ----- the destinations -----

  datatype Dest = Dest(base: u64, len: u64)

  function DestAt(m: Cells, table: u64, i: nat): Dest {
    Dest(U64At(m, Add64(table, 16 * i)), U64At(m, Add64(table, 16 * i + 8)))
  }

  /** Entries `i` to `n` of the table as memory holds them. */
  function Dests(m: Cells, table: u64, i: nat, n: nat): (d: seq<Dest>)
    requires i <= n
    ensures |d| == n - i
    decreases n - i
  {
    if i == n then [] else [DestAt(m, table, i)] + Dests(m, table, i + 1, n)
  }

  function Min(a: nat, b: nat): nat { if a < b then a else b }

  function TotalLen(d: seq<Dest>): nat {
    if d == [] then 0 else d[0].len + TotalLen(d[1..])
  }

  /** The copy: each entry is read from the memory its predecessors have left. */
  function Scatter(m: Cells, table: u64, i: nat, n: nat, input: seq<u8>): (r: (Cells, nat))
    requires i <= n
    ensures r.1 <= |input|
    decreases n - i
  {
    if i == n || input == [] then (m, 0) else
      var d := DestAt(m, table, i);
      var count := Min(d.len, |input|);
      var (after, rest) := Scatter(Store(m, d.base, input[..count]), table, i + 1, n, input[count..]);
      (after, count + rest)
  }

  /** The copy to a list of destinations that is fixed beforehand. */
  function ScatterTo(m: Cells, d: seq<Dest>, input: seq<u8>): (r: (Cells, nat))
    ensures r.1 <= |input|
    decreases d
  {
    if d == [] || input == [] then (m, 0) else
      var count := Min(d[0].len, |input|);
      var (after, rest) := ScatterTo(Store(m, d[0].base, input[..count]), d[1..], input[count..]);
      (after, count + rest)
  }

  /** None of the regions that `size` bytes go to meets the addresses from `lo` to `hi`. */
  predicate Avoids(d: seq<Dest>, size: nat, lo: nat, hi: nat)
    decreases d
  {
    d == [] || size == 0 ||
    var count := Min(d[0].len, size);
    && d[0].base + count <= TWO_64
    && (d[0].base + count <= lo || hi <= d[0].base)
    && Avoids(d[1..], size - count, lo, hi)
  }

  /** The regions that `size` bytes go to are disjoint. */
  predicate Disjoint(d: seq<Dest>, size: nat)
    decreases d
  {
    d == [] || size == 0 ||
    var count := Min(d[0].len, size);
    && d[0].base + count <= TWO_64
    && Avoids(d[1..], size - count, d[0].base, d[0].base + count)
    && Disjoint(d[1..], size - count)
  }

  /** What the regions hold, one after the other. */
  function Gather(m: Cells, d: seq<Dest>, size: nat): seq<u8>
    decreases d
  {
    if d == [] || size == 0 then [] else
      var count := Min(d[0].len, size);
      Slice(m, d[0].base, count) + Gather(m, d[1..], size - count)
  }

  lemma {:induction false} ScatterTotal(m: Cells, d: seq<Dest>, input: seq<u8>)
    ensures ScatterTo(m, d, input).1 == Min(|input|, TotalLen(d))
    decreases d
  {
    if d != [] && input != [] {
      var count := Min(d[0].len, |input|);
      ScatterTotal(Store(m, d[0].base, input[..count]), d[1..], input[count..]);
    }
  }

  lemma {:induction false} ScatterKeeps(m: Cells, d: seq<Dest>, input: seq<u8>, lo: nat, hi: nat, x: u64)
    requires Avoids(d, |input|, lo, hi) && lo <= x < hi
    ensures Cell(ScatterTo(m, d, input).0, x) == Cell(m, x)
    decreases d
  {
    hide Store;
    if d != [] && input != [] {
      var count := Min(d[0].len, |input|);
      var m1 := Store(m, d[0].base, input[..count]);
      StoreCell(m, d[0].base, input[..count], x);
      ScatterKeeps(m1, d[1..], input[count..], lo, hi, x);
    }
  }

  lemma {:induction false} ScatterFills(m: Cells, d: seq<Dest>, input: seq<u8>)
    requires Disjoint(d, |input|)
    ensures Gather(ScatterTo(m, d, input).0, d, |input|) == input[..ScatterTo(m, d, input).1]
    decreases d
  {
    hide Store, Slice, ScatterTo, Cell;
    if d != [] && input != [] {
      var count := Min(d[0].len, |input|);
      var base, first, rest := d[0].base, input[..count], input[count..];
      var m1 := Store(m, base, first);
      var m2 := ScatterTo(m1, d[1..], rest).0;
      ScatterToStep(m, d, input);
      ScatterFills(m1, d[1..], rest);
      forall x: u64 | base <= x < base + count ensures Cell(m2, x) == Cell(m1, x) {
        ScatterKeeps(m1, d[1..], rest, base, base + count, x);
      }
      SliceSame(m2, m1, base, count);
      SliceOfStore(m, base, first);
      var n := ScatterTo(m1, d[1..], rest).1;
      assert input[..count + n] == first + rest[..n];
    } else {
      ScatterToDone(m, d, input);
    }
  }

  // ----- the table as the copy reads it -----

  /** The entries as the copy reads them, one after the other. */
  function ReadDests(m: Cells, table: u64, i: nat, n: nat, input: seq<u8>): seq<Dest>
    requires i <= n
    decreases n - i
  {
    if i == n || input == [] then [] else
      var d := DestAt(m, table, i);
      var count := Min(d.len, |input|);
      [d] + ReadDests(Store(m, d.base, input[..count]), table, i + 1, n, input[count..])
  }

  /** Every entry that the copy reads is the one the table held at the start. */
  ghost predicate ReadAsHeld(m: Cells, table: u64, n: nat, input: seq<u8>) {
    ReadDests(m, table, 0, n, input) <= Dests(m, table, 0, n)
  }

  /** How much of an input the destinations take. */
  function Taken(d: seq<Dest>, size: nat): (t: nat)
    ensures t <= size
  {
    Min(TotalLen(d), size)
  }

  /** The part of the input that goes to a destination of length `len` after `at` bytes. */
  function Piece(input: seq<u8>, at: nat, len: nat): seq<u8>
    requires at <= |input|
  {
    input[at..at + Min(len, |input| - at)]
  }

  /** The byte that address `x` ends up with, if any of the destinations covers it: that of
      the last one that does. */
  function Written(d: seq<Dest>, input: seq<u8>, x: u64): Option<u8>
    decreases |d|
  {
    if d == [] then None else
      var rest, last := d[..|d| - 1], d[|d| - 1];
      var piece := Piece(input, Taken(rest, |input|), last.len);
      if Distance(last.base, x) < |piece| then Some(piece[Distance(last.base, x)])
      else Written(rest, input, x)
  }

  predicate OnEntry(table: u64, j: nat, x: u64) {
    Distance(Add64(table, 16 * j), x) < 16
  }

  /** Entry `j` is still what it was when its turn comes: whatever the destinations before it
      put on its bytes is what was there. */
  ghost predicate Kept(m: Cells, table: u64, d: seq<Dest>, j: nat, input: seq<u8>)
    requires j <= |d|
  {
    forall x: u64 :: OnEntry(table, j, x) ==>
      Written(d[..j], input, x).None? || Written(d[..j], input, x) == Some(Cell(m, x))
  }

  /** Every entry whose turn comes, from `i` on, is kept. */
  ghost predicate KeepsUnread(m: Cells, table: u64, d: seq<Dest>, i: nat, input: seq<u8>) {
    forall j :: i <= j < |d| && TotalLen(d[..j]) < |input| ==> Kept(m, table, d, j, input)
  }

  lemma {:induction false} DestsIndex(m: Cells, table: u64, i: nat, n: nat, j: nat)
    requires i <= j < n
    ensures Dests(m, table, i, n)[j - i] == DestAt(m, table, j)
    decreases n - i
  {
    hide DestAt;
    if i < j {
      DestsIndex(m, table, i + 1, n, j);
    }
  }

  lemma {:induction false} TotalLenMore(d: seq<Dest>, e: Dest)
    ensures TotalLen(d + [e]) == TotalLen(d) + e.len
  {
    if d != [] {
      assert (d + [e])[1..] == d[1..] + [e];
      TotalLenMore(d[1..], e);
    } else {
      assert [e][1..] == [];
    }
  }

  lemma TakenMore(d: seq<Dest>, e: Dest, size: nat)
    ensures Taken(d + [e], size) == Taken(d, size) + Min(e.len, size - Taken(d, size))
  {
    hide TotalLen;
    TotalLenMore(d, e);
  }

  lemma TakenFirst(d: seq<Dest>, size: nat)
    requires d != []
    ensures var count := Min(d[0].len, size); Taken(d, size) == count + Taken(d[1..], size - count)
  {
  }

  lemma PieceOfRest(input: seq<u8>, count: nat, at: nat, len: nat)
    requires count + at <= |input|
    ensures Piece(input[count..], at, len) == Piece(input, count + at, len)
  {
  }

  /** One destination more is one store more. */
  lemma {:induction false} ScatterToMore(m: Cells, d: seq<Dest>, e: Dest, input: seq<u8>)
    ensures ScatterTo(m, d + [e], input).0
         == Store(ScatterTo(m, d, input).0, e.base, Piece(input, Taken(d, |input|), e.len))
    decreases d
  {
    hide Store, ScatterTo, Taken;
    if input == [] {
      ScatterToDone(m, d, input);
      ScatterToDone(m, d + [e], input);
      StoreNone(m, e.base);
      assert Piece(input, Taken(d, |input|), e.len) == [];
    } else if d == [] {
      assert d + [e] == [e] && [e][1..] == [];
      ScatterToStep(m, [e], input);
      var count := Min(e.len, |input|);
      ScatterToDone(Store(m, e.base, input[..count]), [], input[count..]);
      ScatterToDone(m, d, input);
      TakenNone(|input|);
    } else {
      var count := Min(d[0].len, |input|);
      var m1, rest := Store(m, d[0].base, input[..count]), input[count..];
      assert (d + [e])[1..] == d[1..] + [e] && (d + [e])[0] == d[0];
      ScatterToStep(m, d, input);
      ScatterToStep(m, d + [e], input);
      ScatterToMore(m1, d[1..], e, rest);
      TakenFirst(d, |input|);
      PieceOfRest(input, count, Taken(d[1..], |rest|), e.len);
    }
  }

  lemma TakenNone(size: nat)
    ensures Taken([], size) == 0
  {
  }

  /** The memory after the copy, address by address. */
  lemma {:induction false} ScatterToCell(m: Cells, d: seq<Dest>, input: seq<u8>, x: u64)
    requires |input| < TWO_64
    ensures var w := Written(d, input, x);
      Cell(ScatterTo(m, d, input).0, x) == if w.None? then Cell(m, x) else w.value
    decreases |d|
  {
    hide Store, ScatterTo, Taken, Cell, Distance;
    if d == [] {
      ScatterToDone(m, d, input);
    } else {
      var rest, last := d[..|d| - 1], d[|d| - 1];
      assert d == rest + [last];
      var piece := Piece(input, Taken(rest, |input|), last.len);
      ScatterToMore(m, rest, last, input);
      StoreCell(ScatterTo(m, rest, input).0, last.base, piece, x);
      ScatterToCell(m, rest, input, x);
    }
  }

  lemma {:induction false} FromBytesInjective(s: seq<u8>, t: seq<u8>)
    requires |s| == |t| && FromBytes(s) == FromBytes(t)
    ensures s == t
  {
    if s != [] {
      FromBytesInjective(s[1..], t[1..]);
      assert s == [s[0]] + s[1..] && t == [t[0]] + t[1..];
    }
  }

  lemma SameValue(m: Cells, w: Cells, a: u64)
    ensures U64At(m, a) == U64At(w, a) <==>
      forall i :: 0 <= i < 8 ==> Cell(m, Add64(a, i)) == Cell(w, Add64(a, i))
  {
    hide Slice, FromBytes, Cell, Add64, Pow2;
    if U64At(m, a) == U64At(w, a) {
      FromBytesInjective(Slice(m, a, 8), Slice(w, a, 8));
      forall i | 0 <= i < 8 ensures Cell(m, Add64(a, i)) == Cell(w, Add64(a, i)) {
        SliceCell(m, a, 8, i);
        SliceCell(w, a, 8, i);
      }
    } else if forall i :: 0 <= i < 8 ==> Cell(m, Add64(a, i)) == Cell(w, Add64(a, i)) {
      SliceSame(m, w, a, 8);
    }
  }

  /** An entry is its sixteen bytes. */
  lemma SameEntry(m: Cells, w: Cells, table: u64, j: nat)
    ensures DestAt(m, table, j) == DestAt(w, table, j) <==>
      forall x: u64 :: OnEntry(table, j, x) ==> Cell(m, x) == Cell(w, x)
  {
    hide U64At, Cell, Add64, OnEntry;
    var a := Add64(table, 16 * j);
    AddAdd(table, 16 * j, 8);
    SameValue(m, w, a);
    SameValue(m, w, Add64(a, 8));
    if DestAt(m, table, j) == DestAt(w, table, j) {
      forall x: u64 | OnEntry(table, j, x) ensures Cell(m, x) == Cell(w, x) {
        EntryByte(table, j, x);
      }
    }
    if forall x: u64 :: OnEntry(table, j, x) ==> Cell(m, x) == Cell(w, x) {
      forall i | 0 <= i < 8
        ensures Cell(m, Add64(a, i)) == Cell(w, Add64(a, i))
        ensures Cell(m, Add64(Add64(a, 8), i)) == Cell(w, Add64(Add64(a, 8), i))
      {
        EntryHas(table, j, i);
        EntryHas(table, j, 8 + i);
        AddAdd(a, 8, i);
      }
    }
  }

  lemma EntryHas(table: u64, j: nat, i: nat)
    requires i < 16
    ensures OnEntry(table, j, Add64(Add64(table, 16 * j), i))
  {
    hide Add64, Distance;
    DistanceOf(Add64(table, 16 * j), i);
  }

  lemma EntryByte(table: u64, j: nat, x: u64)
    requires OnEntry(table, j, x)
    ensures var a := Add64(table, 16 * j);
      || (exists i :: 0 <= i < 8 && x == Add64(a, i))
      || (exists i :: 0 <= i < 8 && x == Add64(Add64(a, 8), i))
  {
    hide Add64, Distance;
    var a := Add64(table, 16 * j);
    var i := Distance(a, x);
    DistanceBack(a, x);
    if i >= 8 {
      AddAdd(a, 8, i - 8);
      assert 0 <= i - 8 < 8 && x == Add64(Add64(a, 8), i - 8);
    }
  }

  /** Entry `j`, read after the destinations before it were served, is the one the table held
      if and only if it is kept. */
  lemma EntryReadAsHeld(m: Cells, table: u64, d: seq<Dest>, j: nat, input: seq<u8>)
    requires j <= |d| && |input| < TWO_64
    ensures DestAt(ScatterTo(m, d[..j], input).0, table, j) == DestAt(m, table, j) <==> Kept(m, table, d, j, input)
  {
    hide DestAt, OnEntry, Cell, ScatterTo, Written;
    var w := ScatterTo(m, d[..j], input).0;
    SameEntry(w, m, table, j);
    forall x: u64 | OnEntry(table, j, x)
      ensures Cell(w, x) == Cell(m, x) <==>
        Written(d[..j], input, x).None? || Written(d[..j], input, x) == Some(Cell(m, x))
    {
      ScatterToCell(m, d[..j], input, x);
    }
  }

  /** The memory that serving the first `j` destinations leaves, and the input then left. */
  ghost function ServedMemory(m: Cells, d: seq<Dest>, j: nat, input: seq<u8>): Cells
    requires j <= |d|
  {
    ScatterTo(m, d[..j], input).0
  }

  ghost function ServedRest(d: seq<Dest>, j: nat, input: seq<u8>): seq<u8>
    requires j <= |d|
  {
    input[Taken(d[..j], |input|)..]
  }

  /** The copy from entry `j` on, once the destinations `d[..j]` were served: it reads the rest
      of `d` if and only if that is kept, and it then ends as the copy to all of `d` does. */
  ghost predicate Continues(m: Cells, table: u64, d: seq<Dest>, j: nat, input: seq<u8>)
    requires j <= |d|
  {
    var w, rest := ServedMemory(m, d, j, input), ServedRest(d, j, input);
    && (ReadDests(w, table, j, |d|, rest) <= d[j..] <==> KeepsUnread(m, table, d, j, input))
    && (KeepsUnread(m, table, d, j, input) ==>
        Scatter(w, table, j, |d|, rest) == (ScatterTo(m, d, input).0, |rest| - |ServedRest(d, |d|, input)|))
  }

  lemma ServedStep(m: Cells, d: seq<Dest>, j: nat, input: seq<u8>)
    requires j < |d|
    ensures var rest := ServedRest(d, j, input);
      var count := Min(d[j].len, |rest|);
      && ServedMemory(m, d, j + 1, input) == Store(ServedMemory(m, d, j, input), d[j].base, rest[..count])
      && ServedRest(d, j + 1, input) == rest[count..]
      && (rest == [] <==> TotalLen(d[..j]) >= |input|)
  {
    hide Store, ScatterTo, TotalLen, Taken, Piece;
    assert d[..j + 1] == d[..j] + [d[j]];
    ScatterToMore(m, d[..j], d[j], input);
    TakenMore(d[..j], d[j], |input|);
    TakenAll(d[..j], |input|);
    PieceOf(input, Taken(d[..j], |input|), d[j].len);
  }

  lemma ContinuesAtEnd(m: Cells, table: u64, d: seq<Dest>, input: seq<u8>)
    ensures Continues(m, table, d, |d|, input)
  {
    hide ReadDests, KeepsUnread, Scatter, ScatterTo, Taken;
    assert d[..|d|] == d && d[|d|..] == [];
    var w, rest := ServedMemory(m, d, |d|, input), ServedRest(d, |d|, input);
    NothingUnread(m, table, d, |d|, input);
    ReadDone(w, table, |d|, |d|, rest);
    ScatterDone(w, table, |d|, |d|, rest);
  }

  lemma ContinuesExhausted(m: Cells, table: u64, d: seq<Dest>, j: nat, input: seq<u8>)
    requires j < |d| && ServedRest(d, j, input) == [] && Continues(m, table, d, j + 1, input)
    ensures Continues(m, table, d, j, input)
  {
    hide ReadDests, KeepsUnread, Scatter, ScatterTo, Taken, ServedMemory, ServedRest, Store, TotalLen, Kept;
    var w := ServedMemory(m, d, j, input);
    ServedStep(m, d, j, input);
    StoreNone(w, d[j].base);
    UnreadStep(m, table, d, j, input);
    ReadDone(w, table, j, |d|, []);
    ReadDone(w, table, j + 1, |d|, []);
    ScatterDone(w, table, j, |d|, []);
    ScatterDone(w, table, j + 1, |d|, []);
  }

  lemma ContinuesReading(m: Cells, table: u64, d: seq<Dest>, j: nat, input: seq<u8>)
    requires j < |d| && |input| < TWO_64 && d[j] == DestAt(m, table, j)
    requires ServedRest(d, j, input) != [] && Continues(m, table, d, j + 1, input)
    ensures Continues(m, table, d, j, input)
  {
    hide ReadDests, KeepsUnread, Scatter, ScatterTo, Taken, ServedRest, Store, TotalLen, Kept, DestAt;
    var w, rest := ServedMemory(m, d, j, input), ServedRest(d, j, input);
    EntryReadAsHeld(m, table, d, j, input);
    hide ServedMemory;
    ServedStep(m, d, j, input);
    UnreadStep(m, table, d, j, input);
    ReadStep(w, table, j, |d|, rest);
    ScatterStep(w, table, j, |d|, rest);
    var e := DestAt(w, table, j);
    var count := Min(e.len, |rest|);
    PrefixOfTail(e, ReadDests(Store(w, e.base, rest[..count]), table, j + 1, |d|, rest[count..]), d, j);
  }

  lemma {:induction false} ContinuesFrom(m: Cells, table: u64, n: nat, j: nat, input: seq<u8>)
    requires j <= n && |input| < TWO_64
    ensures Continues(m, table, Dests(m, table, 0, n), j, input)
    decreases n - j
  {
    hide *;
    var d := Dests(m, table, 0, n);
    if j == n {
      ContinuesAtEnd(m, table, d, input);
    } else {
      ContinuesFrom(m, table, n, j + 1, input);
      DestsIndex(m, table, 0, n, j);
      if ServedRest(d, j, input) == [] {
        ContinuesExhausted(m, table, d, j, input);
      } else {
        ContinuesReading(m, table, d, j, input);
      }
    }
  }

  lemma PrefixOfTail(e: Dest, r: seq<Dest>, d: seq<Dest>, j: nat)
    requires j < |d|
    ensures [e] + r <= d[j..] <==> e == d[j] && r <= d[j + 1..]
  {
    assert d[j..] == [d[j]] + d[j + 1..];
    if [e] + r <= d[j..] {
      assert ([e] + r)[0] == d[j..][0];
      assert forall i :: 0 <= i < |r| ==> r[i] == ([e] + r)[i + 1] == d[j..][i + 1] == d[j + 1..][i];
    }
  }

  lemma PieceOf(input: seq<u8>, at: nat, len: nat)
    requires at <= |input|
    ensures var rest := input[at..];
      var count := Min(len, |rest|);
      && count <= |rest| && Piece(input, at, len) == rest[..count] && rest[count..] == input[at + count..]
      && (rest == [] ==> Piece(input, at, len) == [] && count == 0)
  {
  }

  lemma TakenAll(d: seq<Dest>, size: nat)
    ensures Taken(d, size) == size <==> TotalLen(d) >= size
  {
  }

  lemma NothingUnread(m: Cells, table: u64, d: seq<Dest>, i: nat, input: seq<u8>)
    requires i >= |d|
    ensures KeepsUnread(m, table, d, i, input)
  {
  }

  lemma UnreadStep(m: Cells, table: u64, d: seq<Dest>, j: nat, input: seq<u8>)
    requires j < |d|
    ensures KeepsUnread(m, table, d, j, input) <==>
      (TotalLen(d[..j]) < |input| ==> Kept(m, table, d, j, input)) && KeepsUnread(m, table, d, j + 1, input)
  {
    hide TotalLen, Kept;
  }

  lemma ReadStep(m: Cells, table: u64, i: nat, n: nat, input: seq<u8>)
    requires i < n && input != []
    ensures var d := DestAt(m, table, i);
      var count := Min(d.len, |input|);
      && count <= |input| && ReadDests(m, table, i, n, input)
         == [d] + ReadDests(Store(m, d.base, input[..count]), table, i + 1, n, input[count..])
  {
    hide Store, U64At;
  }

  lemma ReadDone(m: Cells, table: u64, i: nat, n: nat, input: seq<u8>)
    requires i <= n && (i == n || input == [])
    ensures ReadDests(m, table, i, n, input) == []
  {
  }

  /** The copy reads every entry as the table held it if and only if no destination has put
      another byte on an entry whose turn is still to come.  In that case it is the copy to
      the destinations that the table named at the start. */
  lemma ReadAsHeldMeans(m: Cells, table: u64, n: nat, input: seq<u8>)
    requires |input| < TWO_64
    ensures ReadAsHeld(m, table, n, input) <==> KeepsUnread(m, table, Dests(m, table, 0, n), 0, input)
    ensures ReadAsHeld(m, table, n, input) ==>
      Scatter(m, table, 0, n, input) == ScatterTo(m, Dests(m, table, 0, n), input)
  {
    hide Dests, ReadDests, Scatter, ScatterTo, KeepsUnread, Taken;
    var d := Dests(m, table, 0, n);
    ContinuesFrom(m, table, n, 0, input);
    assert d[..0] == [] && d[0..] == d && d[..|d|] == d && input[0..] == input;
    TakenNone(|input|);
    ScatterToDone(m, [], input);
    ScatterTaken(m, d, input);
  }

  lemma ScatterTaken(m: Cells, d: seq<Dest>, input: seq<u8>)
    ensures ScatterTo(m, d, input).1 == Taken(d, |input|)
  {
    hide ScatterTo, TotalLen;
    ScatterTotal(m, d, input);
  }

  /** No destination covers a byte of an entry whose turn is still to come; entries that
      were already read may be overwritten. */
  ghost predicate AvoidsUnread(table: u64, d: seq<Dest>, input: seq<u8>) {
    forall k, j, x: u64 :: 0 <= k < j < |d| && TotalLen(d[..j]) < |input| && OnEntry(table, j, x) ==>
      Distance(d[k].base, x) >= |Piece(input, Taken(d[..k], |input|), d[k].len)|
  }

  lemma {:induction false} NotWritten(d: seq<Dest>, input: seq<u8>, x: u64)
    requires forall k :: 0 <= k < |d| ==>
      Distance(d[k].base, x) >= |Piece(input, Taken(d[..k], |input|), d[k].len)|
    ensures Written(d, input, x) == None
    decreases |d|
  {
    hide Taken, Distance, Piece;
    if d != [] {
      var rest := d[..|d| - 1];
      assert forall k :: 0 <= k < |rest| ==> rest[..k] == d[..k] && rest[k] == d[k];
      NotWritten(rest, input, x);
    }
  }

  /** A table whose unread entries are avoided is read as held. */
  lemma AvoidingSuffices(m: Cells, table: u64, d: seq<Dest>, input: seq<u8>)
    requires AvoidsUnread(table, d, input)
    ensures KeepsUnread(m, table, d, 0, input)
  {
    hide Taken, Distance, Piece, TotalLen, OnEntry, Written, Cell;
    forall j | 0 <= j < |d| && TotalLen(d[..j]) < |input| ensures Kept(m, table, d, j, input) {
      forall x: u64 | OnEntry(table, j, x) ensures Written(d[..j], input, x).None? {
        assert forall k :: 0 <= k < j ==> d[..j][..k] == d[..k] && d[..j][k] == d[k];
        NotWritten(d[..j], input, x);
      }
    }
  }

  lemma ScatterToStep(m: Cells, d: seq<Dest>, input: seq<u8>)
    requires d != [] && input != []
    ensures var count := Min(d[0].len, |input|);
      var r := ScatterTo(Store(m, d[0].base, input[..count]), d[1..], input[count..]);
      ScatterTo(m, d, input) == (r.0, count + r.1)
  {
    hide Store;
  }

  lemma ScatterToDone(m: Cells, d: seq<Dest>, input: seq<u8>)
    requires d == [] || input == []
    ensures ScatterTo(m, d, input) == (m, 0)
  {
  }

  /** With destinations that are disjoint and leave the entries still to be read as they
      were, the copy moves as much as fits, fills the regions with exactly that prefix of the
      input, and changes no other address. */
  lemma ScatterMeans(m: Cells, table: u64, n: nat, input: seq<u8>)
    requires |input| < TWO_64
    requires var d := Dests(m, table, 0, n); KeepsUnread(m, table, d, 0, input) && Disjoint(d, |input|)
    ensures var d := Dests(m, table, 0, n);
      var (after, total) := Scatter(m, table, 0, n, input);
      && total == Min(|input|, TotalLen(d))
      && Gather(after, d, |input|) == input[..total]
      && forall x: u64 :: Avoids(d, |input|, x, x + 1) ==> Cell(after, x) == Cell(m, x)
  {
    hide Dests, Store, Gather, Disjoint, KeepsUnread, ReadAsHeld;
    var d := Dests(m, table, 0, n);
    ReadAsHeldMeans(m, table, n, input);
    ScatterTotal(m, d, input);
    ScatterFills(m, d, input);
    forall x: u64 | Avoids(d, |input|, x, x + 1)
      ensures Cell(ScatterTo(m, d, input).0, x) == Cell(m, x)
    {
      ScatterKeeps(m, d, input, x, x + 1, x);
    }
  }

  /** The wrapping sum agrees with the copy whenever it does not wrap. */
  lemma ScatterAgreesWithSum(m: Cells, table: u64, n: nat, input: seq<u8>)
    requires |input| < TWO_64 && KeepsUnread(m, table, Dests(m, table, 0, n), 0, input)
    requires TotalLen(Dests(m, table, 0, n)) < TWO_64
    ensures Scatter(m, table, 0, n, input).1 == Min(|input|, TotalLen(Dests(m, table, 0, n)) % TWO_64)
  {
    hide Dests, Store, Scatter, ScatterTo, KeepsUnread, ReadAsHeld, TotalLen;
    ReadAsHeldMeans(m, table, n, input);
    ScatterTotal(m, Dests(m, table, 0, n), input);
    Field(TotalLen(Dests(m, table, 0, n)), 0, TWO_64, TotalLen(Dests(m, table, 0, n)));
  }

  /** The entry that follows may itself be a destination: then what the table said
      beforehand is not what the copy does.  Here entry 0 is one byte at address 24, where
      the length of entry 1 lies. */
  lemma TableCanBeOverwritten() returns (m: Cells, input: seq<u8>)
    ensures Scatter(m, 0, 0, 2, input).1 != Min(|input|, TotalLen(Dests(m, 0, 0, 2)))
  {
    hide Store, U64At;
    m := map[0 := 24, 8 := 1, 16 := 100, 24 := 1];
    input := [0, 7];
    var m1 := m[24 := 0];
    SmallValue(m, 0, 24);
    SmallValue(m, 8, 1);
    SmallValue(m, 16, 100);
    SmallValue(m, 24, 1);
    SmallValue(m1, 16, 100);
    SmallValue(m1, 24, 0);
    var d0, d1 := Dest(24, 1), Dest(100, 1);
    assert DestAt(m, 0, 0) == d0 && DestAt(m, 0, 1) == d1 && DestAt(m1, 0, 1) == Dest(100, 0);
    assert Dests(m, 0, 1, 2) == [d1] + Dests(m, 0, 2, 2) == [d1];
    assert Dests(m, 0, 0, 2) == [d0] + Dests(m, 0, 1, 2) == [d0, d1];
    TotalOfTwo(d0, d1);
    StoreOne(m, 24, 0);
    StoreNone(m1, 100);
    assert input[..1] == [0] && input[1..] == [7] && [7][..0] == [] && [7][0..] == [7];
    assert Scatter(m1, 0, 2, 2, [7]).1 == 0;
    assert Scatter(m1, 0, 1, 2, [7]).1 == 0;
    assert Scatter(m, 0, 0, 2, input).1 == 1;
  }

  lemma TotalOfTwo(d: Dest, e: Dest)
    ensures TotalLen([d, e]) == d.len + e.len
  {
    assert [d, e][1..] == [e] && [e][1..] == [];
    assert TotalLen([e]) == e.len;
  }

  lemma StoreNone(m: Cells, a: u64)
    ensures Store(m, a, []) == m
  {
  }

  lemma StoreOne(m: Cells, a: u64, b: u8)
    ensures Store(m, a, [b]) == m[a := b]
  {
    assert [b][1..] == [];
    StoreNone(m[a := b], Add64(a, 1));
  }

  lemma SmallValue(m: Cells, a: u64, v: u8)
    requires a + 8 < TWO_64 && Cell(m, a) == v
    requires forall x: u64 :: a < x < a + 8 ==> Cell(m, x) == 0
    ensures U64At(m, a) == v
  {
    hide Pow2, Slice;
    ZeroValue(m, a + 1, 7);
    SliceStep(m, a, 8);
    assert Slice(m, a, 8)[1..] == Slice(m, a + 1, 7);
  }

  lemma {:induction false} ZeroValue(m: Cells, a: u64, n: nat)
    requires a + n < TWO_64 && forall x: u64 :: a <= x < a + n ==> Cell(m, x) == 0
    ensures FromBytes(Slice(m, a, n)) == 0
    decreases n
  {
    if n != 0 {
      ZeroValue(m, a + 1, n - 1);
      assert Slice(m, a, n)[1..] == Slice(m, a + 1, n - 1);
    }
  }

  const MAX_ENTRIES: nat := 16

  class RawMemory {
    var cells: Cells

    /** The bytes are ORed in, each shifted to its place. */
    method ReadU64(a: u64) returns (value: u64)
      ensures value == U64At(cells, a)
    {
      hide *;
      var acc: nat := 0;
      FromBytesNone();
      ReadNothing(cells, a);
      ghost var seen: seq<u8> := [];
      for n := 0 to 8
        invariant |seen| == n && Reading(cells, a, seen) && acc == FromBytes(seen)
      {
        var byte := Cell(cells, Add64(a, n));
        ReadMore(cells, a, seen);
        acc := Or(acc, byte * Pow2(8 * n));
        seen := seen + [byte];
      }
      ReadAll(cells, a, seen);
      value := acc;
    }

    method WriteU64(a: u64, value: u64)
      modifies this
      ensures cells == Store(old(cells), a, BytesOf(value, 8))
    {
      hide Store;
      StoreBytes(a, BytesOf(value, 8));
    }

    /** memcpy, one byte after the other. */
    method StoreBytes(a: u64, bytes: seq<u8>)
      modifies this
      ensures cells == Store(old(cells), a, bytes)
    {
      for n := 0 to |bytes|
        invariant Store(old(cells), a, bytes) == Store(cells, Add64(a, n), bytes[n..])
      {
        cells := cells[Add64(a, n) := bytes[n]];
        assert bytes[n..][1..] == bytes[n + 1..];
        AddAdd(a, n, 1);
      }
    }

    /** At most sixteen entries are looked at, and none once the input is used up. */
    method CopyToIov(table: u64, count: u64, input: seq<u8>) returns (total: nat)
      modifies this
      ensures (cells, total) == Scatter(old(cells), table, 0, Min(count, MAX_ENTRIES), input)
    {
      hide Store, U64At, Scatter;
      var limit := if count > MAX_ENTRIES then MAX_ENTRIES else count;
      total := 0;
      var i := 0;
      var copied := 0;
      assert input[0..] == input;
      while i < limit && copied < |input|
        invariant i <= limit && copied <= |input| && total == copied
        invariant var (after, rest) := Scatter(cells, table, i, limit, input[copied..]);
          Scatter(old(cells), table, 0, limit, input) == (after, total + rest)
      {
        ScatterStep(cells, table, i, limit, input[copied..]);
        var base := ReadU64(Add64(table, i * 16));
        var len := ReadU64(Add64(Add64(table, i * 16), 8));
        AddAdd(table, i * 16, 8);
        var n := if len < |input| - copied then len else |input| - copied;
        assert input[copied..][..n] == input[copied..copied + n];
        assert input[copied..][n..] == input[copied + n..];
        StoreBytes(base, input[copied..copied + n]);
        copied := copied + n;
        total := total + n;
        i := i + 1;
      }
      ScatterDone(cells, table, i, limit, input[copied..]);
    }

    method SumIovLengths(table: u64, count: u64) returns (total: u64)
      ensures total == TotalLen(Dests(cells, table, 0, Min(count, MAX_ENTRIES))) % TWO_64
    {
      hide U64At, Dests, TotalLen, DestAt, Add64;
      var limit := if count > MAX_ENTRIES then MAX_ENTRIES else count;
      total := 0;
      ghost var sum: nat := 0;
      for i := 0 to limit
        invariant sum + TotalLen(Dests(cells, table, i, limit)) == TotalLen(Dests(cells, table, 0, limit))
        invariant total == sum % TWO_64
      {
        var len := ReadU64(Add64(Add64(table, i * 16), 8));
        AddAdd(table, i * 16, 8);
        SumStep(cells, table, i, limit);
        SumWraps(sum, len);
        total := Add64(total, len);
        sum := sum + len;
      }
      SumDone(cells, table, limit);
    }
  }

  /** `seen` are the first bytes of the value at `a`. */
  ghost predicate Reading(m: Cells, a: u64, seen: seq<u8>) {
    |seen| <= 8 && seen + Slice(m, Add64(a, |seen|), 8 - |seen|) == Slice(m, a, 8)
  }

  lemma ReadNothing(m: Cells, a: u64)
    ensures Reading(m, a, [])
  {
    assert Add64(a, 0) == a;
  }

  lemma ReadMore(m: Cells, a: u64, seen: seq<u8>)
    requires Reading(m, a, seen) && |seen| < 8
    ensures var byte := Cell(m, Add64(a, |seen|));
      && Reading(m, a, seen + [byte])
      && FromBytes(seen + [byte]) == Or(FromBytes(seen), byte * Pow2(8 * |seen|))
  {
    hide *;
    var n, byte := |seen|, Cell(m, Add64(a, |seen|));
    ReadingMore(m, a, seen);
    FromBytesBound(seen);
    FromBytesMore(seen, byte);
    OrCommutes(FromBytes(seen), byte * Pow2(8 * n));
    OrShifted(byte, 8 * n, FromBytes(seen));
  }

  lemma ReadingMore(m: Cells, a: u64, seen: seq<u8>)
    requires Reading(m, a, seen) && |seen| < 8
    ensures Reading(m, a, seen + [Cell(m, Add64(a, |seen|))])
  {
    hide Cell, Add64, Slice;
    var n := |seen|;
    AddAdd(a, n, 1);
    SliceStep(m, Add64(a, n), 8 - n);
    var byte, rest := Cell(m, Add64(a, n)), Slice(m, Add64(a, n + 1), 7 - n);
    assert seen + ([byte] + rest) == (seen + [byte]) + rest;
  }

  lemma SliceStep(m: Cells, a: u64, n: nat)
    requires n > 0
    ensures Slice(m, a, n) == [Cell(m, a)] + Slice(m, Add64(a, 1), n - 1)
  {
  }

  lemma ReadAll(m: Cells, a: u64, seen: seq<u8>)
    requires Reading(m, a, seen) && |seen| == 8
    ensures FromBytes(seen) == U64At(m, a)
  {
    hide FromBytes, Pow2;
    assert seen == Slice(m, a, 8);
  }

  lemma ScatterStep(m: Cells, table: u64, i: nat, n: nat, input: seq<u8>)
    requires i < n && input != []
    ensures var d := DestAt(m, table, i);
      var count := Min(d.len, |input|);
      var r := Scatter(Store(m, d.base, input[..count]), table, i + 1, n, input[count..]);
      Scatter(m, table, i, n, input) == (r.0, count + r.1)
  {
    hide Store, U64At;
  }

  lemma ScatterDone(m: Cells, table: u64, i: nat, n: nat, input: seq<u8>)
    requires i <= n && (i == n || input == [])
    ensures Scatter(m, table, i, n, input) == (m, 0)
  {
  }

  lemma SumWraps(sum: nat, len: nat)
    ensures Add64(sum % TWO_64, len) == (sum + len) % TWO_64
  {
  }

  lemma SumStep(m: Cells, table: u64, i: nat, n: nat)
    requires i < n
    ensures TotalLen(Dests(m, table, i, n))
         == U64At(m, Add64(table, 16 * i + 8)) + TotalLen(Dests(m, table, i + 1, n))
  {
    hide U64At, Add64;
    assert Dests(m, table, i, n)[1..] == Dests(m, table, i + 1, n);
  }

  lemma SumDone(m: Cells, table: u64, n: nat)
    ensures TotalLen(Dests(m, table, n, n)) == 0
  {
  }

  lemma FromBytesNone()
    ensures FromBytes([]) == 0
  {
  }

  lemma {:induction false} FromBytesMore(b: seq<u8>, x: u8)
    ensures FromBytes(b + [x]) == FromBytes(b) + x * Pow2(8 * |b|)
  {
    if b == [] {
      assert ([x])[1..] == [];
    } else {
      assert (b + [x])[1..] == b[1..] + [x];
      FromBytesMore(b[1..], x);
      Pow2Byte(|b| - 1);
      var p := Pow2(8 * (|b| - 1));
      assert x * (256 * p) == 256 * (x * p);
    }
  }
}
