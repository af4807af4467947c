/** The CRC register as a remainder of polynomials over GF(2).

A polynomial is the set of the exponents whose coefficient is one, so that addition is
symmetric difference.  The register is reflected: its lowest bit is the coefficient of
x^31.  The generator of a reflected polynomial word `p` is x^32 plus the word's terms.
*/
module CrcPoly {
  import opened Crc

  type Poly = set<nat>

  function Sum(a: Poly, b: Poly): Poly { (a - b) + (b - a) }

  /** Product with x^k. */
  function Shift(a: Poly, k: nat): Poly { set e | e in a :: e + k }

  /** A term or nothing. */
  function Term(present: bool, e: nat): Poly { if present then {e} else {} }

  function RegPoly(c: Reg): Poly { set i | 0 <= i < 32 && c[i] :: 31 - i }

  /** A bit stream as a polynomial: the bit taken first has the highest exponent. */
  function StreamPoly(s: Bits): Poly { set i | 0 <= i < |s| && s[i] :: |s| - 1 - i }

  function Generator(p: Reg): Poly { RegPoly(p) + {32} }

  /** Product of the polynomial with coefficients `q`, lowest first, and `g`. */
  function Mul(q: Bits, g: Poly): Poly {
    if q == [] then {} else Sum(if q[0] then g else {}, Shift(Mul(q[1..], g), 1))
  }

  /** `r` is what division of `a` by the degree-32 polynomial `g` leaves over. */
  ghost predicate IsRemainder(a: Poly, g: Poly, r: Poly) {
    (forall e :: e in r ==> e < 32) && exists q: Bits :: a == Sum(Mul(q, g), r)
  }

  // ----- terms -----

  lemma InReg(c: Reg, e: nat)
    ensures e in RegPoly(c) <==> e < 32 && c[31 - e]
  {
    if e < 32 && c[31 - e] {
      assert 31 - (31 - e) == e;
    }
  }

  lemma InStream(s: Bits, e: nat)
    ensures e in StreamPoly(s) <==> e < |s| && s[|s| - 1 - e]
  {
    if e < |s| && s[|s| - 1 - e] {
      var i := |s| - 1 - e;
      assert |s| - 1 - i == e;
    }
  }

  lemma InShift(a: Poly, k: nat, e: nat)
    ensures e in Shift(a, k) <==> e >= k && e - k in a
  {
    if e >= k && e - k in a {
      var d := e - k;
      assert d + k == e;
    }
  }

  lemma ShiftSum(a: Poly, b: Poly, k: nat)
    ensures Shift(Sum(a, b), k) == Sum(Shift(a, k), Shift(b, k))
  {
    hide Shift;
    forall e: nat ensures e in Shift(Sum(a, b), k) <==> e in Sum(Shift(a, k), Shift(b, k)) {
      InShift(a, k, e);
      InShift(b, k, e);
      InShift(Sum(a, b), k, e);
    }
  }

  lemma ShiftShift(a: Poly, j: nat, k: nat)
    ensures Shift(Shift(a, j), k) == Shift(a, j + k)
  {
    hide Shift;
    forall e: nat ensures e in Shift(Shift(a, j), k) <==> e in Shift(a, j + k) {
      InShift(Shift(a, j), k, e);
      InShift(a, j + k, e);
      if e >= k {
        InShift(a, j, e - k);
      }
    }
  }

  /** Taking in one more bit multiplies the stream by x and adds the bit. */
  lemma StreamMore(s: Bits, b: bool)
    ensures StreamPoly(s + [b]) == Sum(Shift(StreamPoly(s), 1), Term(b, 0))
  {
    hide Shift, StreamPoly;
    forall e: nat
      ensures e in StreamPoly(s + [b]) <==> e in Sum(Shift(StreamPoly(s), 1), Term(b, 0))
    {
      InStream(s + [b], e);
      InShift(StreamPoly(s), 1, e);
      if e > 0 {
        InStream(s, e - 1);
      }
    }
  }

  // ----- one step -----

  /** A step multiplies the register by x and, if x^32 appears, subtracts the generator. */
  lemma StepPoly(c: Reg, p: Reg)
    ensures Shift(RegPoly(c), 1) == Sum(if c[0] then Generator(p) else {}, RegPoly(BitStep(c, p)))
  {
    hide RegPoly, Shift;
    var next := BitStep(c, p);
    forall e: nat
      ensures e in Shift(RegPoly(c), 1)
          <==> e in Sum(if c[0] then Generator(p) else {}, RegPoly(next))
    {
      InShift(RegPoly(c), 1, e);
      InReg(p, e);
      InReg(next, e);
      if e > 0 {
        InReg(c, e - 1);
      }
      if e < 32 {
        assert next[31 - e] == (ShiftRight(c, 1)[31 - e] != (c[0] && p[31 - e]));
      }
    }
  }

  /** Adding a message bit to the lowest register bit adds a multiple of x^31. */
  lemma TakePoly(c: Reg, b: bool)
    ensures Shift(RegPoly(c[0 := c[0] != b]), 1) == Sum(Shift(RegPoly(c), 1), Term(b, 32))
  {
    hide RegPoly, Shift;
    var d := c[0 := c[0] != b];
    forall e: nat ensures e in Shift(RegPoly(d), 1) <==> e in Sum(Shift(RegPoly(c), 1), Term(b, 32)) {
      InShift(RegPoly(d), 1, e);
      InShift(RegPoly(c), 1, e);
      if e > 0 {
        InReg(d, e - 1);
        InReg(c, e - 1);
      }
    }
  }

  // ----- whole messages -----

  /** The register times x^n plus the message times x^32. */
  function Dividend(c: Reg, s: Bits): Poly {
    Sum(Shift(RegPoly(c), |s|), Shift(StreamPoly(s), 32))
  }

  lemma DividendMore(c: Reg, s: Bits, b: bool)
    ensures Dividend(c, s + [b]) == Sum(Shift(Dividend(c, s), 1), Term(b, 32))
  {
    hide RegPoly, StreamPoly, Shift;
    StreamMore(s, b);
    ShiftSum(Shift(StreamPoly(s), 1), Term(b, 0), 32);
    ShiftTerm(b);
    ShiftShift(StreamPoly(s), 1, 32);
    ShiftShift(StreamPoly(s), 32, 1);
    ShiftSum(Shift(RegPoly(c), |s|), Shift(StreamPoly(s), 32), 1);
    ShiftShift(RegPoly(c), |s|, 1);
  }

  lemma ShiftTerm(b: bool)
    ensures Shift(Term(b, 0), 32) == Term(b, 32)
  {
  }

  lemma {:induction false} RunIsRemainder(c: Reg, s: Bits, p: Reg) returns (q: Bits)
    ensures Dividend(c, s) == Sum(Mul(q, Generator(p)), RegPoly(RunBits(c, s, p)))
    decreases |s|
  {
    hide RegPoly, StreamPoly, Shift, BitStep;
    if s == [] {
      q := [];
      EmptyDividend(c);
      assert Sum(Mul(q, Generator(p)), RegPoly(c)) == RegPoly(c);
    } else {
      var t, b := s[..|s| - 1], s[|s| - 1];
      assert s == t + [b];
      var q0 := RunIsRemainder(c, t, p);
      var r := RunBits(c, t, p);
      var d := r[0 := r[0] != b];
      RunBitsConcat(c, t, [b], p);
      assert RunBits(c, s, p) == BitStep(d, p);
      DividendMore(c, t, b);
      ShiftSum(Mul(q0, Generator(p)), RegPoly(r), 1);
      TakePoly(r, b);
      StepPoly(d, p);
      q := [d[0]] + q0;
      assert q[1..] == q0;
    }
  }

  lemma EmptyDividend(c: Reg)
    ensures Dividend(c, []) == RegPoly(c)
  {
    hide RegPoly, Shift;
    forall e: nat ensures e in Dividend(c, []) <==> e in RegPoly(c) {
      InShift(RegPoly(c), 0, e);
      InShift(StreamPoly([]), 32, e);
    }
  }

  /** Folding bytes into a register computes (C x^(8n) + M x^32) mod G, for every initial
      register C, every message M of any length and every polynomial word. */
  lemma FoldIsRemainder(c: Reg, m: seq<Byte>, p: Reg)
    ensures IsRemainder(Dividend(c, Stream(m)), Generator(p), RegPoly(Fold(c, m, p)))
  {
    hide Dividend, Generator, RunBits, Fold;
    var q := RunIsRemainder(c, Stream(m), p);
    FoldIsStream(c, m, p);
  }

  // ----- the remainder is unique -----

  lemma {:induction false} MulPadded(q: Bits, k: nat, g: Poly)
    ensures Mul(q + Zeros(k), g) == Mul(q, g)
    decreases |q| + k
  {
    var w := q + Zeros(k);
    if q != [] {
      assert w[1..] == q[1..] + Zeros(k);
      MulPadded(q[1..], k, g);
    } else if k > 0 {
      assert w[1..] == [] + Zeros(k - 1);
      MulPadded([], k - 1, g);
    } else {
      assert w == q;
    }
  }

  lemma {:induction false} MulXor(q: Bits, w: Bits, g: Poly)
    requires |q| == |w|
    ensures Mul(Xor(q, w), g) == Sum(Mul(q, g), Mul(w, g))
  {
    hide Shift;
    if q != [] {
      assert Xor(q, w)[1..] == Xor(q[1..], w[1..]);
      MulXor(q[1..], w[1..], g);
      ShiftSum(Mul(q[1..], g), Mul(w[1..], g), 1);
    }
  }

  /** A product with a quotient of degree n has degree 32 + n. */
  lemma {:induction false} MulDegree(q: Bits, p: Reg)
    ensures 32 + |q| in Mul(q + [true], Generator(p))
  {
    var g := Generator(p);
    hide Shift;
    if q == [] {
      assert Mul([true], g) == Sum(g, Shift(Mul([], g), 1));
      InShift(Mul([], g), 1, 32);
    } else {
      assert (q + [true])[1..] == q[1..] + [true];
      MulDegree(q[1..], p);
      InShift(Mul(q[1..] + [true], g), 1, 32 + |q|);
    }
  }

  lemma {:induction false} LowProductIsZero(q: Bits, p: Reg)
    requires forall e :: e in Mul(q, Generator(p)) ==> e < 32
    ensures Mul(q, Generator(p)) == {}
    decreases |q|
  {
    if q != [] {
      var n := |q| - 1;
      if q[n] {
        assert q == q[..n] + [true];
        MulDegree(q[..n], p);
        assert false;
      } else {
        assert q == q[..n] + Zeros(1);
        MulPadded(q[..n], 1, Generator(p));
        LowProductIsZero(q[..n], p);
      }
    }
  }

  lemma RemainderIsUnique(a: Poly, p: Reg, r1: Poly, r2: Poly)
    requires IsRemainder(a, Generator(p), r1) && IsRemainder(a, Generator(p), r2)
    ensures r1 == r2
  {
    var g := Generator(p);
    var q1: Bits :| a == Sum(Mul(q1, g), r1);
    var q2: Bits :| a == Sum(Mul(q2, g), r2);
    var w1, w2 := q1 + Zeros(|q2|), q2 + Zeros(|q1|);
    hide Mul, Generator;
    MulPadded(q1, |q2|, g);
    MulPadded(q2, |q1|, g);
    MulXor(w1, w2, g);
    assert Mul(Xor(w1, w2), g) == Sum(r1, r2);
    LowProductIsZero(Xor(w1, w2), p);
  }

  lemma RegPolyInjective(c: Reg, d: Reg)
    requires RegPoly(c) == RegPoly(d)
    ensures c == d
  {
    hide RegPoly;
    forall i | 0 <= i < 32 ensures c[i] == d[i] {
      InReg(c, 31 - i);
      InReg(d, 31 - i);
    }
  }

  /** The register is the CRC exactly if its polynomial is the remainder. */
  lemma FoldIsTheRemainder(c: Reg, m: seq<Byte>, p: Reg, r: Reg)
    ensures IsRemainder(Dividend(c, Stream(m)), Generator(p), RegPoly(r)) <==> r == Fold(c, m, p)
  {
    hide Dividend, Generator, RegPoly, Fold, IsRemainder;
    FoldIsRemainder(c, m, p);
    if IsRemainder(Dividend(c, Stream(m)), Generator(p), RegPoly(r)) {
      RemainderIsUnique(Dividend(c, Stream(m)), p, RegPoly(r), RegPoly(Fold(c, m, p)));
      RegPolyInjective(r, Fold(c, m, p));
    }
  }

  // ----- the number of terms -----

  /** The bit taken first is the term of highest degree. */
  lemma StreamFirst(s: Bits)
    requires s != []
    ensures StreamPoly(s) == Term(s[0], |s| - 1) + StreamPoly(s[1..]) && |s| - 1 !in StreamPoly(s[1..])
  {
    hide StreamPoly;
    forall e: nat ensures e in StreamPoly(s) <==> e in Term(s[0], |s| - 1) + StreamPoly(s[1..]) {
      InStream(s, e);
      InStream(s[1..], e);
    }
    InStream(s[1..], |s| - 1);
  }

  lemma TermsMore(present: bool, e: nat, a: Poly)
    requires e !in a
    ensures |Term(present, e) + a| == |a| + if present then 1 else 0
  {
    if !present {
      assert Term(present, e) + a == a;
    } else {
      assert Term(present, e) + a == a + {e};
    }
  }

  lemma NoTerms()
    ensures |StreamPoly([])| == 0
  {
    assert StreamPoly([]) == {};
  }

  lemma {:induction false} StreamTerms(s: Bits)
    ensures |StreamPoly(s)| % 2 == 1 <==> Odd(s)
  {
    hide StreamPoly, Term;
    if s == [] {
      NoTerms();
    } else {
      var rest := StreamPoly(s[1..]);
      StreamTerms(s[1..]);
      StreamFirst(s);
      TermsMore(s[0], |s| - 1, rest);
      OneMore(|rest|);
    }
  }

  lemma OneMore(n: nat)
    ensures (n + 1) % 2 == 1 <==> n % 2 == 0
  {
  }

  /** The words of odd parity are those whose generator has an even number of terms. */
  lemma GeneratorTerms(p: Reg)
    ensures Odd(p) <==> |Generator(p)| % 2 == 0
  {
    StreamTerms(p);
    assert RegPoly(p) == StreamPoly(p);
    InReg(p, 32);
    assert |RegPoly(p) + {32}| == |RegPoly(p)| + 1;
  }

  // ----- the generators in use -----

  lemma NoBits()
    ensures BitsOf(0, 0) == []
  {
  }

  lemma Crc32Digits()
    ensures Crc32() == Digit(0x0) + Digit(0x2) + Digit(0x3) + Digit(0x8)
         + Digit(0x8) + Digit(0xb) + Digit(0xd) + Digit(0xe)
  {
    hide BitsOf, Digit;
    BitsDigit(0xedb8832, 0x0, 28);
    BitsDigit(0xedb883, 0x2, 24);
    BitsDigit(0xedb88, 0x3, 20);
    BitsDigit(0xedb8, 0x8, 16);
    BitsDigit(0xedb, 0x8, 12);
    BitsDigit(0xed, 0xb, 8);
    BitsDigit(0xe, 0xd, 4);
    BitsDigit(0x0, 0xe, 0);
    NoBits();
  }

  lemma Crc32cDigits()
    ensures Crc32c() == Digit(0x8) + Digit(0x7) + Digit(0xb) + Digit(0x3)
         + Digit(0x6) + Digit(0xf) + Digit(0x2) + Digit(0x8)
  {
    hide BitsOf, Digit;
    BitsDigit(0x82f63b7, 0x8, 28);
    BitsDigit(0x82f63b, 0x7, 24);
    BitsDigit(0x82f63, 0xb, 20);
    BitsDigit(0x82f6, 0x3, 16);
    BitsDigit(0x82f, 0x6, 12);
    BitsDigit(0x82, 0xf, 8);
    BitsDigit(0x8, 0x2, 4);
    BitsDigit(0x0, 0x8, 0);
    NoBits();
  }

  /** The terms of one hexadecimal digit whose highest bit is the term of degree `low`. */
  function DigitTerms(digit: nat, low: nat): Poly {
    Term(digit % 2 == 1, low + 3) + Term(digit / 2 % 2 == 1, low + 2)
    + Term(digit / 4 % 2 == 1, low + 1) + Term(digit / 8 % 2 == 1, low)
  }

  lemma InDigit(digit: nat, low: nat, e: nat)
    ensures e in DigitTerms(digit, low) <==> low <= e < low + 4 && Digit(digit)[low + 3 - e]
  {
  }

  /** Bit 4k + j of the word is bit j of its digit k. */
  lemma BitOfDigit(c: Reg, d: seq<nat>, k: nat, j: nat)
    requires |d| == 8 && k < 8 && j < 4
    requires c == Digit(d[0]) + Digit(d[1]) + Digit(d[2]) + Digit(d[3])
                  + Digit(d[4]) + Digit(d[5]) + Digit(d[6]) + Digit(d[7])
    ensures c[4 * k + j] == Digit(d[k])[j]
  {
    hide Digit;
  }

  /** The terms of a word are those of its eight hexadecimal digits, lowest digit first. */
  lemma DigitsPoly(c: Reg, d: seq<nat>)
    requires |d| == 8
    requires c == Digit(d[0]) + Digit(d[1]) + Digit(d[2]) + Digit(d[3])
                  + Digit(d[4]) + Digit(d[5]) + Digit(d[6]) + Digit(d[7])
    ensures RegPoly(c) == DigitTerms(d[0], 28) + DigitTerms(d[1], 24) + DigitTerms(d[2], 20) + DigitTerms(d[3], 16)
                          + (DigitTerms(d[4], 12) + DigitTerms(d[5], 8) + DigitTerms(d[6], 4) + DigitTerms(d[7], 0))
  {
    hide RegPoly, Digit, DigitTerms;
    forall e: nat
      ensures e in RegPoly(c) <==>
        e in DigitTerms(d[0], 28) + DigitTerms(d[1], 24) + DigitTerms(d[2], 20) + DigitTerms(d[3], 16)
             + (DigitTerms(d[4], 12) + DigitTerms(d[5], 8) + DigitTerms(d[6], 4) + DigitTerms(d[7], 0))
    {
      InReg(c, e);
      InDigit(d[0], 28, e);
      InDigit(d[1], 24, e);
      InDigit(d[2], 20, e);
      InDigit(d[3], 16, e);
      InDigit(d[4], 12, e);
      InDigit(d[5], 8, e);
      InDigit(d[6], 4, e);
      InDigit(d[7], 0, e);
      if e < 32 {
        var k := (31 - e) / 4;
        BitOfDigit(c, d, k, 31 - e - 4 * k);
      }
    }
  }

  lemma Crc32DigitTerms()
    ensures DigitTerms(0x0, 28) == {}
    ensures DigitTerms(0x2, 24) == {26}
    ensures DigitTerms(0x3, 20) == {23, 22}
    ensures DigitTerms(0x8, 16) == {16}
    ensures DigitTerms(0x8, 12) == {12}
    ensures DigitTerms(0xb, 8) == {11, 10, 8}
    ensures DigitTerms(0xd, 4) == {7, 5, 4}
    ensures DigitTerms(0xe, 0) == {2, 1, 0}
  {
    hide DigitTerms;
    Crc32LowDigits();
    Crc32HighDigits();
  }

  lemma Crc32LowDigits()
    ensures DigitTerms(0x0, 28) == {}
    ensures DigitTerms(0x2, 24) == {26}
    ensures DigitTerms(0x3, 20) == {23, 22}
    ensures DigitTerms(0x8, 16) == {16}
  {
  }

  lemma Crc32HighDigits()
    ensures DigitTerms(0x8, 12) == {12}
    ensures DigitTerms(0xb, 8) == {11, 10, 8}
    ensures DigitTerms(0xd, 4) == {7, 5, 4}
    ensures DigitTerms(0xe, 0) == {2, 1, 0}
  {
  }

  lemma Crc32Terms()
    ensures Generator(Crc32()) == {32, 26, 23, 22, 16, 12, 11, 10, 8, 7, 5, 4, 2, 1, 0}
  {
    hide Crc32, RegPoly, Digit, DigitTerms;
    Crc32Digits();
    DigitsPoly(Crc32(), [0x0, 0x2, 0x3, 0x8, 0x8, 0xb, 0xd, 0xe]);
    Crc32DigitTerms();
    assert DigitTerms(0x0, 28) + DigitTerms(0x2, 24) + DigitTerms(0x3, 20) + DigitTerms(0x8, 16)
      == {26, 23, 22, 16};
    assert DigitTerms(0x8, 12) + DigitTerms(0xb, 8) + DigitTerms(0xd, 4) + DigitTerms(0xe, 0)
      == {12, 11, 10, 8, 7, 5, 4, 2, 1, 0};
  }

  lemma Crc32cDigitTerms()
    ensures DigitTerms(0x8, 28) == {28}
    ensures DigitTerms(0x7, 24) == {27, 26, 25}
    ensures DigitTerms(0xb, 20) == {23, 22, 20}
    ensures DigitTerms(0x3, 16) == {19, 18}
    ensures DigitTerms(0x6, 12) == {14, 13}
    ensures DigitTerms(0xf, 8) == {11, 10, 9, 8}
    ensures DigitTerms(0x2, 4) == {6}
    ensures DigitTerms(0x8, 0) == {0}
  {
  }

  lemma Crc32cTerms()
    ensures Generator(Crc32c()) == {32, 28, 27, 26, 25, 23, 22, 20, 19, 18, 14, 13, 11, 10, 9, 8, 6, 0}
  {
    hide Crc32c, RegPoly, Digit, DigitTerms;
    Crc32cDigits();
    DigitsPoly(Crc32c(), [0x8, 0x7, 0xb, 0x3, 0x6, 0xf, 0x2, 0x8]);
    Crc32cDigitTerms();
    assert DigitTerms(0x8, 28) + DigitTerms(0x7, 24) + DigitTerms(0xb, 20) + DigitTerms(0x3, 16)
      == {28, 27, 26, 25, 23, 22, 20, 19, 18};
    assert DigitTerms(0x6, 12) + DigitTerms(0xf, 8) + DigitTerms(0x2, 4) + DigitTerms(0x8, 0)
      == {14, 13, 11, 10, 9, 8, 6, 0};
  }

  /** The generators are those of CRC-32 (IEEE 802.3) and CRC-32C (Castagnoli). */
  lemma StandardGenerators()
    ensures Generator(Crc32()) == {32, 26, 23, 22, 16, 12, 11, 10, 8, 7, 5, 4, 2, 1, 0}
    ensures Generator(Crc32c()) == {32, 28, 27, 26, 25, 23, 22, 20, 19, 18, 14, 13, 11, 10, 9, 8, 6, 0}
  {
    hide Crc32, Crc32c, Generator;
    Crc32Terms();
    Crc32cTerms();
  }
}
