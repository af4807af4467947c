/** Unsigned machine words as bounded integers.

A word is an integer with its C width as its range: arithmetic that can leave the
range is reduced where the sources rely on wrap-around.  A left shift is a product
with a power of two, a right shift a quotient, a mask of the form 2^k - 1 a
remainder; bitwise OR is defined bit by bit, as `Or`.
*/
module Words {

  datatype Option<+T> = None | Some(value: T)

  const TWO_32: nat := 0x1_0000_0000
  const TWO_64: nat := 0x1_0000_0000_0000_0000

  type u8 = x: int | 0 <= x < 0x100
  type u16 = x: int | 0 <= x < 0x1_0000
  type u32 = x: int | 0 <= x < 0x1_0000_0000
  type u64 = x: int | 0 <= x < 0x1_0000_0000_0000_0000

  /** 64-bit addition with wrap-around. */
  function Add64(x: u64, y: int): u64 { (x + y) % TWO_64 }

  lemma AddAdd(a: u64, m: int, n: int)
    ensures Add64(Add64(a, m), n) == Add64(a, m + n)
  {
  }

  function Pow2(k: nat): (p: nat)
    ensures p > 0
  {
    if k == 0 then 1 else 2 * Pow2(k - 1)
  }

  /** Bitwise OR. */
  function Or(x: nat, y: nat): nat {
    if x == 0 then y else if y == 0 then x else
      2 * Or(x / 2, y / 2) + (if x % 2 == 1 || y % 2 == 1 then 1 else 0)
  }

  /** OR of a value shifted left by `k` and a `k`-bit value is their sum. */
  lemma {:induction false} OrShifted(q: nat, k: nat, y: nat)
    requires y < Pow2(k)
    ensures Or(q * Pow2(k), y) == q * Pow2(k) + y
  {
    if k == 0 || q == 0 || y == 0 {
    } else {
      var half := q * Pow2(k - 1);
      assert q * Pow2(k) == 2 * half;
      OrShifted(q, k - 1, y / 2);
    }
  }

  lemma {:induction false} OrBound(x: nat, y: nat, k: nat)
    requires x < Pow2(k) && y < Pow2(k)
    ensures Or(x, y) < Pow2(k)
  {
    if k != 0 {
      OrBound(x / 2, y / 2, k - 1);
    }
  }

  /** OR of two 64-bit words. */
  function Or64(x: u64, y: u64): u64 {
    Pow2Values();
    OrBound(x, y, 64);
    Or(x, y)
  }

  /** Quotient and remainder of a value written as a high and a low part. */
  lemma Field(w: int, hi: int, k: nat, lo: nat)
    requires lo < k && w == hi * k + lo
    ensures w / k == hi && w % k == lo
  {
    var q, r := w / k, w % k;
    assert w == q * k + r;
    assert (q - hi) * k == lo - r;
    assert (q - hi) * k == -((hi - q) * k);
    if q > hi {
      MulAtLeast(q - hi, k);
    } else if q < hi {
      MulAtLeast(hi - q, k);
    }
  }

  lemma MulAtLeast(m: int, k: nat)
    requires m >= 1
    ensures m * k >= k
  {
  }

  lemma HalfThenShift(n: nat, k: nat)
    requires k > 0
    ensures n / (2 * k) == n / 2 / k
  {
    var h, b := n / 2, n % 2;
    var q, r := h / k, h % k;
    assert h == q * k + r;
    assert n == q * (2 * k) + (2 * r + b);
    Field(n, q, 2 * k, 2 * r + b);
  }

  /** The four bytes of a 32-bit word, least significant first. */
  function Bytes32(w: u32): (b: seq<u8>)
    ensures |b| == 4
  {
    [w % 256, w / 0x100 % 256, w / 0x1_0000 % 256, w / 0x100_0000 % 256]
  }

  /** The 32-bit word of four bytes, least significant first. */
  function FromBytes32(b0: u8, b1: u8, b2: u8, b3: u8): u32 {
    b0 + 0x100 * b1 + 0x1_0000 * b2 + 0x100_0000 * b3
  }

  /** The number a byte string spells, least significant byte first. */
  function FromBytes(b: seq<u8>): nat {
    if b == [] then 0 else b[0] + 256 * FromBytes(b[1..])
  }

  /** The `n` low bytes of a number, least significant first. */
  function BytesOf(v: nat, n: nat): (b: seq<u8>)
    ensures |b| == n
  {
    if n == 0 then [] else [v % 256] + BytesOf(v / 256, n - 1)
  }

  lemma Bytes32RoundTrip(w: u32)
    ensures var b := Bytes32(w); FromBytes32(b[0], b[1], b[2], b[3]) == w
  {
    var q1 := w / 0x100;
    var q2 := q1 / 0x100;
    var q3 := q2 / 0x100;
    assert w / 0x1_0000 == q2;
    assert w / 0x100_0000 == q3;
    assert q3 < 0x100;
  }

  lemma BytesOfSplit(v: nat, n: nat)
    requires n > 0
    ensures BytesOf(v, n) == [v % 256] + BytesOf(v / 256, n - 1)
  {
  }

  lemma {:induction false} BytesRoundTrip(v: nat, n: nat)
    requires v < Pow2(8 * n)
    ensures FromBytes(BytesOf(v, n)) == v
  {
    if n == 0 {
    } else {
      assert Pow2(8 * n) == 256 * Pow2(8 * (n - 1)) by { Pow2Byte(n - 1); }
      BytesRoundTrip(v / 256, n - 1);
      assert BytesOf(v, n)[1..] == BytesOf(v / 256, n - 1);
    }
  }

  lemma {:induction false} FromBytesBound(b: seq<u8>)
    ensures FromBytes(b) < Pow2(8 * |b|)
  {
    if b != [] {
      FromBytesBound(b[1..]);
      Pow2Byte(|b| - 1);
    }
  }

  lemma Pow2Byte(n: nat)
    ensures Pow2(8 * n + 8) == 256 * Pow2(8 * n)
  {
    var k := 8 * n;
    assert Pow2(k + 2) == 4 * Pow2(k);
    assert Pow2(k + 4) == 4 * Pow2(k + 2);
    assert Pow2(k + 6) == 4 * Pow2(k + 4);
    assert Pow2(k + 8) == 4 * Pow2(k + 6);
  }

  lemma Pow2Values()
    ensures Pow2(5) == 0x20 && Pow2(7) == 0x80 && Pow2(8) == 0x100 && Pow2(12) == 0x1000
    ensures Pow2(15) == 0x8000 && Pow2(20) == 0x10_0000 && Pow2(21) == 0x20_0000
    ensures Pow2(24) == 0x100_0000 && Pow2(25) == 0x200_0000 && Pow2(29) == 0x2000_0000
    ensures Pow2(31) == 0x8000_0000 && Pow2(32) == TWO_32 && Pow2(64) == TWO_64
  {
    Pow2Byte(3);
    Pow2Byte(4);
    Pow2Byte(5);
    Pow2Byte(6);
    Pow2Byte(7);
  }
}
