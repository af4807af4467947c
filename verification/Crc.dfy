/** The bit-serial reflected CRC: one register bit at a time, one message byte at a time.

Unsigned words are bit strings here, least significant bit first.  `CrcUpdate` is the
two-level loop of the source.  Its specification, `Fold`, is then related to three other
forms: a bit stream, a word taken in at once, and (in `CrcPoly`) a remainder of
polynomials over GF(2).
*/
module Crc {
  import opened Words

  type Bits = seq<bool>
  type Reg = c: Bits | |c| == 32 witness Zeros(32)
  type Byte = b: Bits | |b| == 8 witness Zeros(8)
  type Wide = v: Bits | |v| == 64 witness Zeros(64)

  function Zeros(n: nat): Bits { seq(n, _ => false) }

  /** The `width` low bits of a number. */
  function BitsOf(n: nat, width: nat): (s: Bits)
    ensures |s| == width
  {
    seq(width, i requires 0 <= i => n / Pow2(i) % 2 == 1)
  }

  /** The reflected polynomials of CRC-32 and CRC-32C. */
  function Crc32(): Reg { BitsOf(0xedb8_8320, 32) }
  function Crc32c(): Reg { BitsOf(0x82f6_3b78, 32) }

  function Xor(a: Bits, b: Bits): (c: Bits)
    requires |a| == |b|
    ensures |c| == |a| && forall i :: 0 <= i < |c| ==> c[i] == (a[i] != b[i])
  {
    seq(|a|, i requires 0 <= i < |a| => a[i] != b[i])
  }

  function ShiftRight(v: Bits, k: nat): (r: Bits)
    requires k <= |v|
    ensures |r| == |v|
  {
    v[k..] + Zeros(k)
  }

  function BitStep(c: Reg, p: Reg): Reg {
    Xor(ShiftRight(c, 1), if c[0] then p else Zeros(32))
  }

  function Steps(c: Reg, n: nat, p: Reg): Reg {
    if n == 0 then c else BitStep(Steps(c, n - 1, p), p)
  }

  /** A bit string of at most 32 bits as a word. */
  function Widen(s: Bits): Reg
    requires |s| <= 32
  {
    s + Zeros(32 - |s|)
  }

  /** Eight steps for each byte, which is first added to the low end of the register. */
  function Fold(c: Reg, bytes: seq<Byte>, p: Reg): Reg
    decreases bytes
  {
    if bytes == [] then c else Fold(Steps(Xor(c, Widen(bytes[0])), 8, p), bytes[1..], p)
  }

  /** Bytes `k` and up of a value, `n` of them, least significant first. */
  function BytesFrom(value: Wide, k: nat, n: nat): (b: seq<Byte>)
    requires k + n <= 8
    ensures |b| == n
    decreases n
  {
    if n == 0 then [] else [value[8 * k..8 * k + 8]] + BytesFrom(value, k + 1, n - 1)
  }

  /** Shifts of 64 or more are undefined in C, hence at most eight bytes. */
  method CrcUpdate(crc: Reg, value: Wide, bytes: nat, polynomial: Reg) returns (result: Reg)
    requires bytes <= 8
    ensures result == Fold(crc, BytesFrom(value, 0, bytes), polynomial)
  {
    hide Steps, BitStep;
    result := crc;
    for byte := 0 to bytes
      invariant Fold(crc, BytesFrom(value, 0, bytes), polynomial)
             == Fold(result, BytesFrom(value, byte, bytes - byte), polynomial)
    {
      ghost var rest := BytesFrom(value, byte, bytes - byte);
      var low := ShiftRight(value, byte * 8)[..8];
      assert low == rest[0] && rest[1..] == BytesFrom(value, byte + 1, bytes - byte - 1);
      result := Xor(result, Widen(low));
      ghost var start := result;
      StepsNone(start, polynomial);
      for bit := 0 to 8
        invariant result == Steps(start, bit, polynomial)
      {
        StepsMore(start, bit, polynomial);
        result := BitStep(result, polynomial);
      }
    }
  }

  lemma StepsNone(c: Reg, p: Reg)
    ensures Steps(c, 0, p) == c
  {
  }

  lemma StepsMore(c: Reg, n: nat, p: Reg)
    ensures Steps(c, n + 1, p) == BitStep(Steps(c, n, p), p)
  {
  }

  // ----- the register as a bit stream machine -----

  function TakeBit(c: Reg, b: bool, p: Reg): Reg {
    BitStep(c[0 := c[0] != b], p)
  }

  /** One step for each bit of a stream, first bit first. */
  function RunBits(c: Reg, s: Bits, p: Reg): Reg
    decreases s
  {
    if s == [] then c else RunBits(TakeBit(c, s[0], p), s[1..], p)
  }

  /** The bits of a message in the order the CRC takes them: low bit of each byte first. */
  function Stream(m: seq<Byte>): (s: Bits)
    ensures |s| == 8 * |m|
  {
    if m == [] then [] else m[0] + Stream(m[1..])
  }

  lemma {:induction false} RunBitsConcat(c: Reg, s: Bits, t: Bits, p: Reg)
    ensures RunBits(c, s + t, p) == RunBits(RunBits(c, s, p), t, p)
    decreases s
  {
    if s == [] {
      assert s + t == t;
    } else {
      assert (s + t)[1..] == s[1..] + t;
      RunBitsConcat(TakeBit(c, s[0], p), s[1..], t, p);
    }
  }

  lemma {:induction false} StepsFront(c: Reg, n: nat, p: Reg)
    ensures Steps(c, n + 1, p) == Steps(BitStep(c, p), n, p)
  {
    hide BitStep;
    if n == 0 {
      StepsMore(c, 0, p);
    } else {
      StepsFront(c, n - 1, p);
    }
  }

  /** A bit above the lowest one just moves down in a step. */
  lemma StepDown(d: Reg, p: Reg)
    requires !d[31]
    ensures BitStep([false] + d[..31], p) == d
  {
    var e: Reg := [false] + d[..31];
    assert ShiftRight(e, 1) == d;
    assert Xor(d, Zeros(32)) == d;
  }

  lemma StepAbove(c: Reg, d: Reg, p: Reg)
    requires !d[31]
    ensures BitStep(Xor(c, [false] + d[..31]), p) == Xor(BitStep(c, p), d)
  {
    hide BitStep, Xor;
    StepLinear(c, [false] + d[..31], p);
    StepDown(d, p);
  }

  /** Up to 32 bits can be added to the register at once, before any step. */
  lemma {:induction false} WordForm(c: Reg, s: Bits, p: Reg)
    requires |s| <= 32
    ensures RunBits(c, s, p) == Steps(Xor(c, Widen(s)), |s|, p)
    decreases s
  {
    hide Steps, BitStep;
    if s == [] {
      StepsNone(c, p);
      assert Xor(c, Widen(s)) == c;
    } else {
      var first, rest := c[0 := c[0] != s[0]], Widen(s[1..]);
      WordForm(BitStep(first, p), s[1..], p);
      StepAbove(first, rest, p);
      assert Xor(c, Widen(s)) == Xor(first, [false] + rest[..31]);
      StepsFront(Xor(c, Widen(s)), |s| - 1, p);
    }
  }

  /** The byte loop is the bit stream machine on the bytes' bits, low bits first. */
  lemma {:induction false} FoldIsStream(c: Reg, m: seq<Byte>, p: Reg)
    ensures Fold(c, m, p) == RunBits(c, Stream(m), p)
    decreases m
  {
    hide Steps, BitStep;
    if m != [] {
      WordForm(c, m[0], p);
      RunBitsConcat(c, m[0], Stream(m[1..]), p);
      FoldIsStream(RunBits(c, m[0], p), m[1..], p);
    }
  }

  // ----- words taken in at once, linearity, splitting -----

  lemma {:induction false} StreamOfBytes(value: Wide, k: nat, n: nat)
    requires k + n <= 8
    ensures Stream(BytesFrom(value, k, n)) == value[8 * k..8 * (k + n)]
    decreases n
  {
    if n != 0 {
      StreamOfBytes(value, k + 1, n - 1);
      assert BytesFrom(value, k, n)[1..] == BytesFrom(value, k + 1, n - 1);
    }
  }

  /** Up to four bytes of a value are the low bits of the value, added in one go. */
  lemma WordAtOnce(c: Reg, value: Wide, n: nat, p: Reg)
    requires n <= 4
    ensures Fold(c, BytesFrom(value, 0, n), p) == Steps(Xor(c, Widen(value[..8 * n])), 8 * n, p)
  {
    hide Fold, RunBits, Steps;
    FoldIsStream(c, BytesFrom(value, 0, n), p);
    StreamOfBytes(value, 0, n);
    WordForm(c, value[..8 * n], p);
  }

  lemma StepLinear(c: Reg, d: Reg, p: Reg)
    ensures BitStep(Xor(c, d), p) == Xor(BitStep(c, p), BitStep(d, p))
  {
  }

  lemma {:induction false} RunLinear(c: Reg, d: Reg, s: Bits, t: Bits, p: Reg)
    requires |s| == |t|
    ensures RunBits(Xor(c, d), Xor(s, t), p) == Xor(RunBits(c, s, p), RunBits(d, t, p))
    decreases s
  {
    hide BitStep;
    if s != [] {
      var cs, dt := c[0 := c[0] != s[0]], d[0 := d[0] != t[0]];
      assert Xor(c, d)[0 := Xor(c, d)[0] != Xor(s, t)[0]] == Xor(cs, dt);
      StepLinear(cs, dt, p);
      assert Xor(s, t)[1..] == Xor(s[1..], t[1..]);
      RunLinear(BitStep(cs, p), BitStep(dt, p), s[1..], t[1..], p);
    }
  }

  /** An update is linear in register and value together. */
  lemma UpdateLinear(c: Reg, d: Reg, v: Wide, w: Wide, n: nat, p: Reg)
    requires n <= 8
    ensures Fold(Xor(c, d), BytesFrom(Xor(v, w), 0, n), p)
         == Xor(Fold(c, BytesFrom(v, 0, n), p), Fold(d, BytesFrom(w, 0, n), p))
  {
    hide Fold, RunBits, BytesFrom;
    FoldIsStream(c, BytesFrom(v, 0, n), p);
    FoldIsStream(d, BytesFrom(w, 0, n), p);
    FoldIsStream(Xor(c, d), BytesFrom(Xor(v, w), 0, n), p);
    StreamOfBytes(v, 0, n);
    StreamOfBytes(w, 0, n);
    StreamOfBytes(Xor(v, w), 0, n);
    assert Xor(v, w)[..8 * n] == Xor(v[..8 * n], w[..8 * n]);
    RunLinear(c, d, v[..8 * n], w[..8 * n], p);
  }

  /** An update of m + n bytes is one of m bytes and then one of the value shifted down. */
  lemma UpdateSplits(c: Reg, value: Wide, m: nat, n: nat, p: Reg)
    requires m + n <= 8
    ensures Fold(c, BytesFrom(value, 0, m + n), p)
         == Fold(Fold(c, BytesFrom(value, 0, m), p), BytesFrom(ShiftRight(value, 8 * m), 0, n), p)
  {
    hide Fold, RunBits, BytesFrom;
    var shifted := ShiftRight(value, 8 * m);
    FoldIsStream(c, BytesFrom(value, 0, m + n), p);
    FoldIsStream(c, BytesFrom(value, 0, m), p);
    FoldIsStream(Fold(c, BytesFrom(value, 0, m), p), BytesFrom(shifted, 0, n), p);
    StreamOfBytes(value, 0, m + n);
    StreamOfBytes(value, 0, m);
    StreamOfBytes(shifted, 0, n);
    assert value[..8 * (m + n)] == value[..8 * m] + shifted[..8 * n];
    RunBitsConcat(c, value[..8 * m], shifted[..8 * n], p);
  }

  // ----- injectivity and burst errors -----

  /** The step backwards, for a polynomial with its top bit set. */
  function BitBack(y: Reg, p: Reg): Reg {
    [y[31]] + (if y[31] then Xor(y, p) else y)[..31]
  }

  /** The step is a bijection if and only if the polynomial's bit 31 is set. */
  lemma StepBijective(p: Reg)
    ensures p[31] <==> forall c: Reg, d: Reg :: BitStep(c, p) == BitStep(d, p) ==> c == d
    ensures p[31] <==> forall y: Reg :: BitStep(BitBack(y, p), p) == y
  {
    if p[31] {
      forall c: Reg, d: Reg | BitStep(c, p) == BitStep(d, p) ensures c == d {
        StepInjective(c, d, p);
      }
      forall y: Reg ensures BitStep(BitBack(y, p), p) == y {
        BackThenStep(y, p);
      }
    } else {
      var c, d: Reg := Zeros(32), [true] + p[..31];
      StepCollides(p);
      assert BitStep(c, p) == BitStep(d, p) && c != d;
      var y: Reg := Zeros(31) + [true];
      assert !BitStep(BitBack(y, p), p)[31];
    }
  }

  lemma StepCollides(p: Reg)
    requires !p[31]
    ensures BitStep(Zeros(32), p) == Zeros(32) && BitStep([true] + p[..31], p) == Zeros(32)
    ensures [true] + p[..31] != Zeros(32)
  {
    assert ([true] + p[..31])[0] != Zeros(32)[0];
    assert ShiftRight([true] + p[..31], 1) == p;
  }

  lemma StepInjective(c: Reg, d: Reg, p: Reg)
    requires p[31] && BitStep(c, p) == BitStep(d, p)
    ensures c == d
  {
    assert BitStep(c, p)[31] == c[0] && BitStep(d, p)[31] == d[0];
    forall i | 0 <= i < 32 ensures c[i] == d[i] {
      if i > 0 {
        assert BitStep(c, p)[i - 1] == BitStep(d, p)[i - 1];
        assert ShiftRight(c, 1)[i - 1] == c[i] && ShiftRight(d, 1)[i - 1] == d[i];
      }
    }
  }

  lemma BackThenStep(y: Reg, p: Reg)
    requires p[31]
    ensures BitStep(BitBack(y, p), p) == y
  {
    var z := if y[31] then Xor(y, p) else y;
    assert ShiftRight(BitBack(y, p), 1) == z;
  }

  lemma {:induction false} StepsInjective(c: Reg, d: Reg, n: nat, p: Reg)
    requires p[31] && c != d
    ensures Steps(c, n, p) != Steps(d, n, p)
  {
    hide BitStep;
    if n != 0 {
      StepsInjective(c, d, n - 1, p);
      if Steps(c, n, p) == Steps(d, n, p) {
        StepInjective(Steps(c, n - 1, p), Steps(d, n - 1, p), p);
      }
    }
  }

  lemma FlipInjective(c: Reg, d: Reg, b: bool)
    requires c[0 := c[0] != b] == d[0 := d[0] != b]
    ensures c == d
  {
    var cb := c[0 := c[0] != b];
    assert c == cb[0 := cb[0] != b];
  }

  lemma {:induction false} RunInjective(c: Reg, d: Reg, s: Bits, p: Reg)
    requires p[31] && c != d
    ensures RunBits(c, s, p) != RunBits(d, s, p)
    decreases s
  {
    hide BitStep;
    if s != [] {
      var cs, ds := c[0 := c[0] != s[0]], d[0 := d[0] != s[0]];
      if cs == ds {
        FlipInjective(c, d, s[0]);
      }
      if BitStep(cs, p) == BitStep(ds, p) {
        StepInjective(cs, ds, p);
      }
      RunInjective(BitStep(cs, p), BitStep(ds, p), s[1..], p);
    }
  }

  /** Different bit strings of at most 32 bits move one register to different registers. */
  lemma WindowDiffers(c: Reg, s: Bits, t: Bits, p: Reg)
    requires p[31] && |s| == |t| <= 32 && s != t
    ensures RunBits(c, s, p) != RunBits(c, t, p)
  {
    hide Steps, BitStep, RunBits;
    WordForm(c, s, p);
    WordForm(c, t, p);
    var a, b := Xor(c, Widen(s)), Xor(c, Widen(t));
    var i :| 0 <= i < |s| && s[i] != t[i];
    assert a[i] != b[i];
    StepsInjective(a, b, |s|, p);
  }

  lemma {:induction false} StreamInjective(m: seq<Byte>, w: seq<Byte>)
    requires |m| == |w| && Stream(m) == Stream(w)
    ensures m == w
  {
    if m != [] {
      assert m[0] == Stream(m)[..8] == Stream(w)[..8] == w[0];
      assert Stream(m[1..]) == Stream(m)[8..] == Stream(w)[8..] == Stream(w[1..]);
      StreamInjective(m[1..], w[1..]);
      assert m == [m[0]] + m[1..] && w == [w[0]] + w[1..];
    }
  }

  /** Two messages of the same length that differ, but only within a window of 32 bits. */
  ghost predicate Burst(m: seq<Byte>, w: seq<Byte>, start: nat) {
    && |m| == |w| && m != w
    && forall k :: 0 <= k < 8 * |m| && !(start <= k < start + 32) ==> Stream(m)[k] == Stream(w)[k]
  }

  lemma BurstChangesCrc(c: Reg, m: seq<Byte>, w: seq<Byte>, start: nat, p: Reg)
    requires p[31] && Burst(m, w, start)
    ensures Fold(c, m, p) != Fold(c, w, p)
  {
    hide Fold, RunBits, Stream;
    var s, t := Stream(m), Stream(w);
    if s == t {
      StreamInjective(m, w);
    }
    var from := if start <= |s| then start else |s|;
    var to := if start + 32 <= |s| then start + 32 else |s|;
    var pre, x, y, suf := s[..from], s[from..to], t[from..to], s[to..];
    assert s == pre + x + suf;
    assert t == pre + y + suf;
    FoldIsStream(c, m, p);
    FoldIsStream(c, w, p);
    RunBitsConcat(c, pre + x, suf, p);
    RunBitsConcat(c, pre + y, suf, p);
    RunBitsConcat(c, pre, x, p);
    RunBitsConcat(c, pre, y, p);
    var d := RunBits(c, pre, p);
    WindowDiffers(d, x, y, p);
    RunInjective(RunBits(d, x, p), RunBits(d, y, p), suf, p);
  }

  // ----- messages with the CRC of zeros -----

  /** Every bit string of whole bytes is the stream of a message. */
  lemma {:induction false} StreamOnto(s: Bits) returns (m: seq<Byte>)
    requires |s| % 8 == 0
    ensures Stream(m) == s
    decreases |s|
  {
    if s == [] {
      m := [];
    } else {
      var rest := StreamOnto(s[8..]);
      m := [s[..8]] + rest;
      assert m[1..] == rest;
    }
  }

  lemma {:induction false} ZeroStays(n: nat, p: Reg)
    ensures Steps(Zeros(32), n, p) == Zeros(32)
  {
    if n > 0 {
      ZeroStays(n - 1, p);
      assert BitStep(Zeros(32), p) == Zeros(32);
    }
  }

  lemma {:induction false} ZerosLeaveZero(n: nat, p: Reg)
    ensures RunBits(Zeros(32), Zeros(n), p) == Zeros(32)
  {
    if n > 0 {
      assert Zeros(n)[1..] == Zeros(n - 1);
      assert Zeros(32)[0 := false] == Zeros(32);
      assert TakeBit(Zeros(32), false, p) == Zeros(32);
      ZerosLeaveZero(n - 1, p);
    }
  }

  /** Bits that take the zero register to zero are not told from zeros, whatever the register. */
  lemma Unnoticed(c: Reg, s: Bits, p: Reg)
    requires RunBits(Zeros(32), s, p) == Zeros(32)
    ensures RunBits(c, s, p) == RunBits(c, Zeros(|s|), p)
  {
    hide RunBits;
    RunLinear(c, Zeros(32), Zeros(|s|), s, p);
    assert Xor(c, Zeros(32)) == c && Xor(Zeros(|s|), s) == s;
    assert Xor(RunBits(c, Zeros(|s|), p), Zeros(32)) == RunBits(c, Zeros(|s|), p);
  }

  lemma StreamLength(m: seq<Byte>, w: seq<Byte>)
    requires |Stream(m)| == |Stream(w)|
    ensures |m| == |w|
  {
  }

  lemma UnnoticedMessage(c: Reg, s: Bits, p: Reg) returns (m: seq<Byte>, w: seq<Byte>)
    requires |s| % 8 == 0 && RunBits(Zeros(32), s, p) == Zeros(32)
    ensures |m| == |w| && Stream(m) == s && Stream(w) == Zeros(|s|) && Fold(c, m, p) == Fold(c, w, p)
  {
    hide RunBits, Stream, Fold;
    m := StreamOnto(s);
    w := StreamOnto(Zeros(|s|));
    StreamLength(m, w);
    FoldIsStream(c, m, p);
    FoldIsStream(c, w, p);
    Unnoticed(c, s, p);
  }

  /** If bit 31 is not set, a burst of 32 bits is taken to zero by its first step. */
  lemma BurstUnnoticed(p: Reg)
    requires !p[31]
    ensures RunBits(Zeros(32), [true] + p[..31], p) == Zeros(32)
  {
    hide RunBits, Steps, BitStep;
    var s: Reg := [true] + p[..31];
    WordForm(Zeros(32), s, p);
    assert Xor(Zeros(32), Widen(s)) == s;
    StepCollides(p);
    StepsFront(s, 31, p);
    ZeroStays(31, p);
  }

  /** Two messages of the same length that differ only within a window of 32 bits, wherever it
      lies, never have the same CRC: this holds if and only if bit 31 of the polynomial is set,
      whatever the register starts from. */
  lemma BurstsAreDetected(c: Reg, p: Reg)
    ensures p[31] <==> forall m, w, start :: Burst(m, w, start) ==> Fold(c, m, p) != Fold(c, w, p)
  {
    hide Fold, Stream;
    if p[31] {
      forall m, w, start | Burst(m, w, start) ensures Fold(c, m, p) != Fold(c, w, p) {
        BurstChangesCrc(c, m, w, start, p);
      }
    } else {
      var s: Bits := [true] + p[..31];
      BurstUnnoticed(p);
      var m, w := UnnoticedMessage(c, s, p);
      assert s[0] != Zeros(32)[0];
      assert Burst(m, w, 0);
    }
  }

  // ----- parity -----

  /** An odd number of ones. */
  function Odd(s: Bits): bool {
    if s == [] then false else s[0] != Odd(s[1..])
  }

  lemma {:induction false} OddXor(s: Bits, t: Bits)
    requires |s| == |t|
    ensures Odd(Xor(s, t)) == (Odd(s) != Odd(t))
  {
    if s != [] {
      assert Xor(s, t)[1..] == Xor(s[1..], t[1..]);
      OddXor(s[1..], t[1..]);
    }
  }

  lemma {:induction false} OddConcat(s: Bits, t: Bits)
    ensures Odd(s + t) == (Odd(s) != Odd(t))
  {
    if s == [] {
      assert s + t == t;
    } else {
      assert (s + t)[1..] == s[1..] + t;
      OddConcat(s[1..], t);
    }
  }

  lemma {:induction false} ZerosAreEven(n: nat)
    ensures !Odd(Zeros(n))
  {
    if n > 0 {
      assert Zeros(n)[1..] == Zeros(n - 1);
      ZerosAreEven(n - 1);
    }
  }

  lemma OddFlip(c: Reg, b: bool)
    ensures Odd(c[0 := c[0] != b]) == (Odd(c) != b)
  {
    assert c[0 := c[0] != b][1..] == c[1..];
  }

  /** With a polynomial word of odd parity, hence a generator with an even number of terms,
      a step keeps the parity of the register. */
  lemma StepKeepsParity(c: Reg, p: Reg)
    requires Odd(p)
    ensures Odd(BitStep(c, p)) == Odd(c)
  {
    hide Odd;
    OddXor(ShiftRight(c, 1), if c[0] then p else Zeros(32));
    OddConcat(c[1..], Zeros(1));
    OddConcat([c[0]], c[1..]);
    OddOne(c[0]);
    assert c == [c[0]] + c[1..];
    ZerosAreEven(1);
    ZerosAreEven(32);
  }

  lemma OddOne(b: bool)
    ensures Odd([b]) == b
  {
    assert [b][1..] == [];
  }

  lemma {:induction false} RunParity(c: Reg, s: Bits, p: Reg)
    requires Odd(p)
    ensures Odd(RunBits(c, s, p)) == (Odd(c) != Odd(s))
    decreases s
  {
    hide BitStep;
    if s != [] {
      OddFlip(c, s[0]);
      StepKeepsParity(c[0 := c[0] != s[0]], p);
      RunParity(TakeBit(c, s[0], p), s[1..], p);
    }
  }

  /** The generator itself, sent as bits, is taken to zero. */
  lemma GeneratorUnnoticed(p: Reg)
    ensures RunBits(Zeros(32), Zeros(7) + [true] + p, p) == Zeros(32)
  {
    hide RunBits, Steps, BitStep;
    var s := Zeros(7) + [true];
    RunBitsConcat(Zeros(32), s, p, p);
    RunBitsConcat(Zeros(32), Zeros(7), [true], p);
    ZerosLeaveZero(7, p);
    OneBit(p);
    WordForm(p, p, p);
    assert Xor(p, Widen(p)) == Zeros(32);
    ZeroStays(32, p);
  }

  lemma OneBit(p: Reg)
    ensures RunBits(Zeros(32), [true], p) == p
  {
    var c: Reg := Zeros(32)[0 := true];
    assert ShiftRight(c, 1) == Zeros(32);
    assert BitStep(c, p) == p;
    assert [true][1..] == [];
    assert RunBits(p, [], p) == p;
  }

  /** Two messages of the same length that differ in an odd number of bits never have the same
      CRC: this holds if and only if the generator has an even number of terms, that is, the
      polynomial word has an odd number of ones. */
  lemma OddErrorsAreDetected(c: Reg, p: Reg)
    ensures Odd(p) <==> forall m, w :: |m| == |w| && Odd(Xor(Stream(m), Stream(w))) ==>
      Fold(c, m, p) != Fold(c, w, p)
  {
    hide Fold, Stream, Odd, RunBits;
    if Odd(p) {
      forall m, w | |m| == |w| && Odd(Xor(Stream(m), Stream(w))) ensures Fold(c, m, p) != Fold(c, w, p) {
        FoldIsStream(c, m, p);
        FoldIsStream(c, w, p);
        RunParity(c, Stream(m), p);
        RunParity(c, Stream(w), p);
        OddXor(Stream(m), Stream(w));
      }
    } else {
      var s := Zeros(7) + [true] + p;
      GeneratorUnnoticed(p);
      var m, w := UnnoticedMessage(c, s, p);
      OddConcat(Zeros(7) + [true], p);
      OddConcat(Zeros(7), [true]);
      ZerosAreEven(7);
      ZerosAreEven(40);
      OddOne(true);
      OddXor(s, Zeros(40));
    }
  }

  // ----- the polynomials in use -----

  function OddOnes(n: nat, width: nat): bool {
    if width == 0 then false else (n % 2 == 1) != OddOnes(n / 2, width - 1)
  }

  /** The lowest bit first, then the bits of the half. */
  lemma BitsFirst(n: nat, width: nat)
    requires width > 0
    ensures BitsOf(n, width) == [n % 2 == 1] + BitsOf(n / 2, width - 1)
  {
    var s, t := BitsOf(n, width), BitsOf(n / 2, width - 1);
    forall i | 0 <= i < width - 1 ensures s[i + 1] == t[i] {
      HalfThenShift(n, Pow2(i));
      assert Pow2(i + 1) == 2 * Pow2(i);
    }
    assert Pow2(0) == 1 && s[0] == (n % 2 == 1);
  }

  lemma {:induction false} OddBits(n: nat, width: nat)
    ensures Odd(BitsOf(n, width)) == OddOnes(n, width)
  {
    hide BitsOf;
    if width > 0 {
      BitsFirst(n, width);
      OddBits(n / 2, width - 1);
      assert ([n % 2 == 1] + BitsOf(n / 2, width - 1))[1..] == BitsOf(n / 2, width - 1);
    }
  }

  function Digit(digit: nat): (b: Bits)
    ensures |b| == 4
  {
    [digit % 2 == 1, digit / 2 % 2 == 1, digit / 4 % 2 == 1, digit / 8 % 2 == 1]
  }

  lemma BitsDigit(n: nat, digit: nat, width: nat)
    requires digit < 16
    ensures BitsOf(16 * n + digit, width + 4) == Digit(digit) + BitsOf(n, width)
  {
    hide BitsOf;
    var m := 16 * n + digit;
    assert m / 2 == 8 * n + digit / 2;
    assert m / 2 / 2 == 4 * n + digit / 4;
    assert m / 2 / 2 / 2 == 2 * n + digit / 8;
    assert m / 2 / 2 / 2 / 2 == n;
    BitsFirst(m, width + 4);
    BitsFirst(m / 2, width + 3);
    BitsFirst(m / 2 / 2, width + 2);
    BitsFirst(m / 2 / 2 / 2, width + 1);
    BitsDigitSum(n, digit);
    assert Digit(digit) + BitsOf(n, width)
      == [digit % 2 == 1] + ([digit / 2 % 2 == 1] + ([digit / 4 % 2 == 1] + ([digit / 8 % 2 == 1] + BitsOf(n, width))));
  }

  lemma BitsDigitSum(n: nat, digit: nat)
    ensures (16 * n + digit) % 2 == digit % 2 && (8 * n + digit / 2) % 2 == digit / 2 % 2
    ensures (4 * n + digit / 4) % 2 == digit / 4 % 2 && (2 * n + digit / 8) % 2 == digit / 8 % 2
  {
    EvenPlus(8 * n, digit);
    EvenPlus(4 * n, digit / 2);
    EvenPlus(2 * n, digit / 4);
    EvenPlus(n, digit / 8);
  }

  lemma EvenPlus(n: nat, d: nat)
    ensures (2 * n + d) % 2 == d % 2
  {
  }

  /** One hexadecimal digit. */
  lemma OddDigit(n: nat, digit: nat, width: nat)
    requires digit < 16
    ensures OddOnes(16 * n + digit, width + 4)
         == ((digit in {1, 2, 4, 7, 8, 11, 13, 14}) != OddOnes(n, width))
  {
    hide OddOnes;
    OddDigits(n, digit / 8 % 2, digit / 4 % 2, digit / 2 % 2, digit % 2, width);
  }

  lemma OddDigits(n: nat, b3: nat, b2: nat, b1: nat, b0: nat, width: nat)
    requires b3 < 2 && b2 < 2 && b1 < 2 && b0 < 2
    ensures OddOnes(16 * n + 8 * b3 + 4 * b2 + 2 * b1 + b0, width + 4)
         == (((b3 + b2 + b1 + b0) % 2 == 1) != OddOnes(n, width))
  {
    var n3 := 2 * n + b3;
    var n2 := 2 * n3 + b2;
    var n1 := 2 * n2 + b1;
    assert OddOnes(2 * n1 + b0, width + 4) == ((b0 == 1) != OddOnes(n1, width + 3));
    assert OddOnes(n1, width + 3) == ((b1 == 1) != OddOnes(n2, width + 2));
    assert OddOnes(n2, width + 2) == ((b2 == 1) != OddOnes(n3, width + 1));
    assert OddOnes(n3, width + 1) == ((b3 == 1) != OddOnes(n, width));
  }

  lemma OddOnesInUse()
    ensures OddOnes(0x82f6_3b78, 32) && !OddOnes(0xedb8_8320, 32)
  {
    assert !OddOnes(0, 0);
    hide OddOnes;
    OddDigit(0x82f63b7, 0x8, 28);
    OddDigit(0x82f63b, 0x7, 24);
    OddDigit(0x82f63, 0xb, 20);
    OddDigit(0x82f6, 0x3, 16);
    OddDigit(0x82f, 0x6, 12);
    OddDigit(0x82, 0xf, 8);
    OddDigit(0x8, 0x2, 4);
    OddDigit(0x0, 0x8, 0);
    OddDigit(0xedb8832, 0x0, 28);
    OddDigit(0xedb883, 0x2, 24);
    OddDigit(0xedb88, 0x3, 20);
    OddDigit(0xedb8, 0x8, 16);
    OddDigit(0xedb, 0x8, 12);
    OddDigit(0xed, 0xb, 8);
    OddDigit(0xe, 0xd, 4);
    OddDigit(0x0, 0xe, 0);
  }

  /** Both polynomials in use have bit 31 set, and so detect every burst; that of CRC-32C also
      detects every odd number of wrong bits, and that of CRC-32 does not. */
  lemma PolynomialsInUse()
    ensures Crc32()[31] && Crc32c()[31] && Odd(Crc32c()) && !Odd(Crc32())
  {
    Pow2Values();
    hide OddOnes, Odd;
    OddBits(0xedb8_8320, 32);
    OddBits(0x82f6_3b78, 32);
    OddOnesInUse();
  }
}
