/** The control words that program the ABI signature slots: a kind in the low half, its
register map and flags in the high half.
*/
module Signature {
  import opened Words
  import opened Encoders

  const NO_MAP: u32 := 0xffff_ffff
  const LAST_KIND: u32 := 28
  const TLS_BASE: u32 := 0x8000_0000

  /** Kind 0 exchanges registers, kind 1 has no register map, and each of the kinds 2 to 28
      has the map numbered one below it. */
  function RegisterMap(kind: u32): u32 {
    if kind == 0 then 0 else if 2 <= kind <= LAST_KIND then kind - 1 else NO_MAP
  }

  function ControlValue(kind: u64): u64 {
    if kind / TWO_32 != 0 then kind
    else if RegisterMap(kind) == NO_MAP then kind
    else Or64(kind, RegisterMap(kind) * TWO_32)
  }

  function ControlValueWithFlags(kind: u64, flags: u32): u64 {
    if kind / TWO_32 != 0 then Or64(kind, flags * TWO_32)
    else if RegisterMap(kind) == NO_MAP then kind
    else Or64(kind, Or32(RegisterMap(kind), flags) * TWO_32)
  }

  function Or32(x: u32, y: u32): u32 {
    Pow2Values();
    OrBound(x, y, 32);
    Or(x, y)
  }

  /** The kinds that have a register map: kind 0 and the kinds 2 to 28. */
  predicate HasMap(kind: u32) {
    kind != 1 && kind < 29
  }

  /** The maps are numbered without gaps in the order of their kinds: the kinds with a map take
      the maps 0 to 27, each once and in increasing order, and no other kind has one. */
  lemma MapsAreNumbered(kind: u32, other: u32)
    ensures RegisterMap(kind) != NO_MAP <==> HasMap(kind)
    ensures HasMap(kind) ==> RegisterMap(kind) < 28
    ensures HasMap(kind) && HasMap(other) && kind < other ==> RegisterMap(kind) < RegisterMap(other)
    ensures other < 28 ==> exists k: u32 :: HasMap(k) && RegisterMap(k) == other
  {
    if other < 28 {
      var k: u32 := if other == 0 then 0 else other + 1;
      assert HasMap(k) && RegisterMap(k) == other;
    }
  }

  /** The words of the exchange, of a kind without a map, of the native registers and of the
      last kind. */
  lemma KnownWords()
    ensures ControlValue(0) == 0 && ControlValue(1) == 1
    ensures ControlValue(4) == 0x3_0000_0004 && ControlValue(28) == 0x1b_0000_001c
    ensures ControlValueWithFlags(4, TLS_BASE) == 0x8000_0003_0000_0004
  {
    hide Or;
    PlainValueHasNoFlags(0);
    PlainValueHasNoFlags(4);
    PlainValueHasNoFlags(28);
    WordIs(0, 0);
    WordIs(4, 0);
    WordIs(28, 0);
    WordIs(4, TLS_BASE);
  }

  /** For a kind with a map, the word is kind, map and flag side by side. */
  lemma WordIs(kind: u32, flags: u32)
    requires HasMap(kind) && (flags == 0 || flags == TLS_BASE)
    ensures ControlValueWithFlags(kind, flags) == kind + (RegisterMap(kind) + flags) * TWO_32
  {
    hide ControlValueWithFlags, Or;
    WordDetermines(kind, flags);
    var w := ControlValueWithFlags(kind, flags);
    var high := w / TWO_32;
    assert w == high * TWO_32 + w % TWO_32;
    assert high == RegisterMap(kind) + flags;
  }

  // ----- OR of halves -----

  lemma {:induction false} OrAssociates(x: nat, y: nat, z: nat)
    ensures Or(Or(x, y), z) == Or(x, Or(y, z))
  {
    if x != 0 && y != 0 && z != 0 {
      OrAssociates(x / 2, y / 2, z / 2);
      OrHalves(x, y);
      OrHalves(y, z);
    }
  }

  lemma OrHalves(x: nat, y: nat)
    ensures Or(x, y) / 2 == Or(x / 2, y / 2)
    ensures Or(x, y) % 2 == 1 <==> x % 2 == 1 || y % 2 == 1
  {
    OrSplit(x, y);
  }

  lemma {:induction false} OrNonzero(x: nat, y: nat)
    ensures Or(x, y) == 0 <==> x == 0 && y == 0
  {
    if x != 0 && y != 0 {
      OrNonzero(x / 2, y / 2);
    }
  }

  lemma OrDoubled(x: nat, bit: nat, y: nat)
    requires bit < 2
    ensures Or(2 * x + bit, 2 * y) == 2 * Or(x, y) + bit
  {
    hide Or;
    OrSplit(2 * x + bit, 2 * y);
  }

  /** OR above bit `k` leaves the low bits alone. */
  lemma {:induction false} OrAbove(low: nat, high: nat, more: nat, k: nat)
    requires low < Pow2(k)
    ensures Or(high * Pow2(k) + low, more * Pow2(k)) == Or(high, more) * Pow2(k) + low
  {
    hide Or;
    if k != 0 {
      var p := Pow2(k - 1);
      OrAbove(low / 2, high, more, k - 1);
      OrDoubled(high * p + low / 2, low % 2, more * p);
      Doubles(high, p, low);
      Doubles(more, p, 0);
      Doubles(Or(high, more), p, low);
    }
  }

  lemma Doubles(a: nat, p: nat, low: nat)
    ensures a * (2 * p) + low == 2 * (a * p + low / 2) + low % 2
  {
  }

  /** OR of a high half changes the high half only. */
  lemma OrHigh(w: u64, more: u32)
    ensures Or64(w, more * TWO_32) == Or32(w / TWO_32, more) * TWO_32 + w % TWO_32
    ensures Or64(w, more * TWO_32) / TWO_32 == Or32(w / TWO_32, more)
    ensures Or64(w, more * TWO_32) % TWO_32 == w % TWO_32
  {
    hide Or;
    Pow2Values();
    OrAbove(w % TWO_32, w / TWO_32, more, 32);
    Field(Or64(w, more * TWO_32), Or32(w / TWO_32, more), TWO_32, w % TWO_32);
  }

  // ----- the words -----

  /** What a word with flags consists of. */
  lemma Halves(k: u64, flags: u32)
    ensures var w := ControlValueWithFlags(k, flags);
      && w % TWO_32 == k % TWO_32
      && w / TWO_32 == (if k / TWO_32 != 0 then Or32(k / TWO_32, flags)
                        else if RegisterMap(k % TWO_32) == NO_MAP then 0
                        else Or32(RegisterMap(k % TWO_32), flags))
  {
    hide Or, Or64, Or32, RegisterMap;
    if k / TWO_32 != 0 {
      OrHigh(k, flags);
    } else {
      assert k % TWO_32 == k;
      if RegisterMap(k) != NO_MAP {
        OrHigh(k, Or32(RegisterMap(k), flags));
        ZeroOr(Or32(RegisterMap(k), flags));
      }
    }
  }

  lemma ZeroOr(x: u32)
    ensures Or32(0, x) == x && Or32(x, 0) == x
  {
  }

  /** Adding flags twice is adding their union once, for every word, also one that is not
      a kind or that already has flags. */
  lemma FlagsAccumulate(k: u64, f: u32, g: u32)
    ensures ControlValueWithFlags(ControlValueWithFlags(k, f), g) == ControlValueWithFlags(k, Or32(f, g))
  {
    hide ControlValueWithFlags, RegisterMap, Or;
    var w := ControlValueWithFlags(k, f);
    Halves(k, f);
    Halves(w, g);
    Halves(k, Or32(f, g));
    var high, m := k / TWO_32, RegisterMap(k % TWO_32);
    OrAssociates(high, f, g);
    OrAssociates(m, f, g);
    OrNonzero(high, f);
    OrNonzero(m, f);
    ZeroOr(g);
    SameHalves(ControlValueWithFlags(w, g), ControlValueWithFlags(k, Or32(f, g)));
  }

  lemma SameHalves(x: u64, y: u64)
    ensures x / TWO_32 == y / TWO_32 && x % TWO_32 == y % TWO_32 ==> x == y
  {
  }

  lemma PlainValueHasNoFlags(k: u64)
    ensures ControlValue(k) == ControlValueWithFlags(k, 0)
  {
    hide RegisterMap;
    if k / TWO_32 == 0 {
      ZeroOr(RegisterMap(k));
    }
  }

  /** For a kind that has a map, with or without the TLS flag, the word gives back kind, map
      and flag, and its high half is not that of a negative error number. */
  lemma WordDetermines(kind: u32, flags: u32)
    requires RegisterMap(kind) != NO_MAP && (flags == 0 || flags == TLS_BASE)
    ensures var w := ControlValueWithFlags(kind, flags);
      && w % TWO_32 == kind && w / TWO_32 % TLS_BASE == RegisterMap(kind)
      && (flags == TLS_BASE <==> w / TWO_32 >= TLS_BASE) && w / TWO_32 != NO_MAP
  {
    hide ControlValueWithFlags, Or;
    var m := RegisterMap(kind);
    assert kind / TWO_32 == 0 && kind % TWO_32 == kind && m < 32;
    Halves(kind, flags);
    Pow2Values();
    ZeroOr(m);
    OrCommutes(m, TLS_BASE);
    OrShifted(1, 31, m);
    Field(m, 0, TLS_BASE, m);
    Field(m + TLS_BASE, 1, TLS_BASE, m);
  }
}
