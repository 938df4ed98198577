/** kernel/src/crypto/aes.rs:141-164: GF(2^128) multiplication, against polynomials over GF(2). */
module Gf128 {
  import opened RawBytes

  // ---- polynomials over GF(2), as sets of exponents ------------------------------------------

  type Poly = set<nat>

  function Plus(a: Poly, b: Poly): Poly
  {
    (a - b) + (b - a)
  }

  /** x^k a. */
  function Shift(a: Poly, k: nat): Poly
  {
    set e | e in a :: e + k
  }

  lemma ShiftHas(a: Poly, k: nat, e: nat)
    ensures e in Shift(a, k) <==> k <= e && e - k in a
  {
    if k <= e && e - k in a { assert (e - k) + k in Shift(a, k); }
  }

  /** The terms x^0 .. x^(n-1) of a, each times b, summed. */
  function Product(a: Poly, b: Poly, n: nat): Poly
  {
    if n == 0 then {} else Plus(Product(a, b, n - 1), if n - 1 in a then Shift(b, n - 1) else {})
  }

  /** q times x^128 + x^7 + x^2 + x + 1. */
  function Multiple(q: Poly): Poly
  {
    Plus(Shift(q, 128), Plus(Shift(q, 7), Plus(Shift(q, 2), Plus(Shift(q, 1), q))))
  }

  /** Congruent modulo x^128 + x^7 + x^2 + x + 1, with the quotient. */
  predicate Cong(a: Poly, b: Poly, q: Poly)
  {
    Plus(a, b) == Multiple(q)
  }

  predicate Has(a: Poly, k: nat, e: nat)
  {
    k <= e && e - k in a
  }

  lemma MultipleHas(q: Poly, e: nat)
    ensures e in Multiple(q) <==>
            ((((Has(q, 128, e) != Has(q, 7, e)) != Has(q, 2, e)) != Has(q, 1, e)) != (e in q))
  {
    hide Shift;
    ShiftHas(q, 128, e);
    ShiftHas(q, 7, e);
    ShiftHas(q, 2, e);
    ShiftHas(q, 1, e);
  }

  lemma MultiplePlus(q: Poly, r: Poly)
    ensures Multiple(Plus(q, r)) == Plus(Multiple(q), Multiple(r))
  {
    hide Multiple;
    forall e: nat ensures e in Multiple(Plus(q, r)) <==> e in Plus(Multiple(q), Multiple(r)) {
      MultipleHas(q, e);
      MultipleHas(r, e);
      MultipleHas(Plus(q, r), e);
    }
  }

  lemma MultipleShift(q: Poly, k: nat)
    ensures Multiple(Shift(q, k)) == Shift(Multiple(q), k)
  {
    hide Multiple;
    forall e: nat ensures e in Multiple(Shift(q, k)) <==> e in Shift(Multiple(q), k) {
      MultipleHas(Shift(q, k), e);
      ShiftHas(Multiple(q), k, e);
      if k <= e { MultipleHas(q, e - k); }
      ShiftedHas(q, k, 128, e);
      ShiftedHas(q, k, 7, e);
      ShiftedHas(q, k, 2, e);
      ShiftedHas(q, k, 1, e);
      ShiftHas(q, k, e);
    }
  }

  lemma ShiftedHas(q: Poly, k: nat, j: nat, e: nat)
    ensures Has(Shift(q, k), j, e) <==> k <= e && Has(q, j, e - k)
  {
    if j <= e { ShiftHas(q, k, e - j); }
  }

  lemma CongPlus(a: Poly, b: Poly, q: Poly, c: Poly, d: Poly, r: Poly)
    requires Cong(a, b, q) && Cong(c, d, r)
    ensures Cong(Plus(a, c), Plus(b, d), Plus(q, r))
  {
    hide Multiple;
    MultiplePlus(q, r);
    assert Plus(Plus(a, c), Plus(b, d)) == Plus(Plus(a, b), Plus(c, d));
  }

  // ---- blocks --------------------------------------------------------------------------------

  type Block = s: seq<Byte> | |s| == 16 witness seq(16, _ => 0)

  const ZERO: Block := [0, 0, 0, 0, 0, 0, 0, 0, 0, 0, 0, 0, 0, 0, 0, 0]

  /** Bit j of a byte, the most significant first. */
  predicate HighBit(b: Byte, j: nat)
    requires j < 8
  {
    BitOf(b, 7 - j)
  }

  predicate Bit(s: Block, i: nat)
    requires i < 128
  {
    HighBit(s[i / 8], i % 8)
  }

  /** Bit i is the coefficient of x^i. */
  function PolyOf(s: Block): Poly
  {
    set i: nat | i < 128 && Bit(s, i)
  }

  function Xor(a: Block, b: Block): Block
  {
    seq(16, k requires 0 <= k < 16 => a[k] ^ b[k])
  }

  /** The byte below the one of p, after a shift right by one bit. */
  function ShiftByte(b: Byte, p: Byte): Byte
  {
    (b >> 1) | ((p & 1) << 7)
  }

  function ShiftRight(v: Block): Block
  {
    seq(16, k requires 0 <= k < 16 => ShiftByte(v[k], if k == 0 then 0 else v[k - 1]))
  }

  /** One step of v: shift right, and fold a bit that falls out back in. */
  function Halve(v: Block): Block
  {
    var s := ShiftRight(v);
    if v[15] & 1 != 0 then s[0 := s[0] ^ 0xe1] else s
  }

  lemma OneBit(a: Byte, b: Byte, m: Byte)
    requires m & (m - 1) == 0
    ensures (a ^ b) & m != 0 <==> ((a & m != 0) != (b & m != 0))
  {
  }

  lemma XorBits(a: Byte, b: Byte, j: nat)
    requires j < 8
    ensures HighBit(a ^ b, j) <==> (HighBit(a, j) != HighBit(b, j))
  {
    OneBit(a, b, Mask(7 - j));
  }

  lemma ShiftBits(b: Byte, p: Byte, j: nat)
    requires j < 8
    ensures HighBit(ShiftByte(b, p), j) <==> if j == 0 then HighBit(p, 7) else HighBit(b, j - 1)
  {
    if j == 0 { TopBit(b, p); } else { LowerBit(b, p, Mask(7 - j)); }
  }

  lemma TopBit(b: Byte, p: Byte)
    ensures ((b >> 1) | ((p & 1) << 7)) & 0x80 != 0 <==> p & 0x01 != 0
  {
  }

  lemma LowerBit(b: Byte, p: Byte, m: Byte)
    requires m & 0x80 == 0
    ensures ((b >> 1) | ((p & 1) << 7)) & m != 0 <==> b & (m << 1) != 0
  {
  }

  lemma FoldBits(j: nat)
    requires j < 8
    ensures HighBit(0xe1, j) <==> j in {0, 1, 2, 7}
  {
  }

  lemma ZeroBits(j: nat)
    requires j < 8
    ensures !HighBit(0, j)
  {
  }

  lemma XorPoly(a: Block, b: Block)
    ensures PolyOf(Xor(a, b)) == Plus(PolyOf(a), PolyOf(b))
  {
    hide HighBit;
    forall i: nat ensures i in PolyOf(Xor(a, b)) <==> i in Plus(PolyOf(a), PolyOf(b)) {
      if i < 128 { XorBits(a[i / 8], b[i / 8], i % 8); }
    }
  }

  lemma ShiftRightBits(v: Block, i: nat)
    requires i < 128
    ensures Bit(ShiftRight(v), i) <==> i > 0 && Bit(v, i - 1)
  {
    var k, j := i / 8, i % 8;
    ShiftBits(v[k], if k == 0 then 0 else v[k - 1], j);
    ZeroBits(7);
    if i > 0 { assert (i - 1) / 8 == (if j == 0 then k - 1 else k) && (i - 1) % 8 == (if j == 0 then 7 else j - 1); }
  }

  /** One step of v multiplies by x. */
  lemma HalvePoly(v: Block)
    ensures Cong(PolyOf(Halve(v)), Shift(PolyOf(v), 1), if Bit(v, 127) then {0} else {})
  {
    hide ShiftRight, ShiftByte, Multiple;
    var q: Poly := if Bit(v, 127) then {0} else {};
    assert Bit(v, 127) <==> v[15] & 1 != 0;
    forall e: nat ensures e in Plus(PolyOf(Halve(v)), Shift(PolyOf(v), 1)) <==> e in Multiple(q) {
      HalveBit(v, e);
      ShiftHas(PolyOf(v), 1, e);
      MultipleHas(q, e);
    }
  }

  lemma HalveBit(v: Block, e: nat)
    ensures e in PolyOf(Halve(v)) <==> e < 128 && ((e > 0 && Bit(v, e - 1)) != (Bit(v, 127) && e in {0, 1, 2, 7}))
  {
    var s := ShiftRight(v);
    hide ShiftRight;
    assert Bit(v, 127) <==> v[15] & 1 != 0;
    if e < 128 {
      ShiftRightBits(v, e);
      if e < 8 {
        XorBits(s[0], 0xe1, e);
        FoldBits(e);
      }
    }
  }

  // ---- the product ---------------------------------------------------------------------------

  /** y times x^n, reduced. */
  function Power(y: Block, n: nat): Block
  {
    if n == 0 then y else Halve(Power(y, n - 1))
  }

  /** The first n bits of x, each times its power of y, summed. */
  function Sum(x: Block, y: Block, n: nat): Block
    requires n <= 128
  {
    if n == 0 then ZERO
    else if Bit(x, n - 1) then Xor(Sum(x, y, n - 1), Power(y, n - 1)) else Sum(x, y, n - 1)
  }

  function GfMul(x: Block, y: Block): Block
  {
    Sum(x, y, 128)
  }

  lemma CongTrans(a: Poly, b: Poly, q: Poly, c: Poly, r: Poly)
    requires Cong(a, b, q) && Cong(b, c, r)
    ensures Cong(a, c, Plus(q, r))
  {
    hide Multiple;
    MultiplePlus(q, r);
    assert Plus(a, c) == Plus(Plus(a, b), Plus(b, c));
  }

  lemma CongShift(a: Poly, b: Poly, q: Poly)
    requires Cong(a, b, q)
    ensures Cong(Shift(a, 1), Shift(b, 1), Shift(q, 1))
  {
    hide Multiple;
    MultipleShift(q, 1);
    forall e: nat ensures e in Plus(Shift(a, 1), Shift(b, 1)) <==> e in Shift(Plus(a, b), 1) {
      ShiftHas(a, 1, e);
      ShiftHas(b, 1, e);
      ShiftHas(Plus(a, b), 1, e);
    }
  }

  lemma ShiftTwice(a: Poly, j: nat, k: nat)
    ensures Shift(Shift(a, j), k) == Shift(a, j + k)
  {
    forall e: nat ensures e in Shift(Shift(a, j), k) <==> e in Shift(a, j + k) {
      ShiftHas(Shift(a, j), k, e);
      if k <= e { ShiftHas(a, j, e - k); }
      ShiftHas(a, j + k, e);
    }
  }

  lemma {:induction false} PowerPoly(y: Block, n: nat) returns (q: Poly)
    ensures Cong(PolyOf(Power(y, n)), Shift(PolyOf(y), n), q)
  {
    hide Multiple, PolyOf, Halve;
    if n == 0 {
      q := {};
      CongRefl(PolyOf(y));
      assert Shift(PolyOf(y), 0) == PolyOf(y);
    } else {
      var r := PowerPoly(y, n - 1);
      var v := Power(y, n - 1);
      HalvePoly(v);
      CongShift(PolyOf(v), Shift(PolyOf(y), n - 1), r);
      ShiftTwice(PolyOf(y), n - 1, 1);
      var f: Poly := if Bit(v, 127) then {0} else {};
      hide Shift, Cong;
      CongTrans(PolyOf(Halve(v)), Shift(PolyOf(v), 1), f, Shift(PolyOf(y), n), Shift(r, 1));
      q := Plus(f, Shift(r, 1));
    }
  }

  lemma CongRefl(a: Poly)
    ensures Cong(a, a, {})
  {
  }

  lemma {:induction false} SumPoly(x: Block, y: Block, n: nat) returns (q: Poly)
    requires n <= 128
    ensures Cong(PolyOf(Sum(x, y, n)), Product(PolyOf(x), PolyOf(y), n), q)
  {
    hide Cong, Xor, Shift, Power;
    if n == 0 {
      q := {};
      ZeroPoly();
      CongRefl({});
    } else {
      q := SumPoly(x, y, n - 1);
      assert n - 1 in PolyOf(x) <==> Bit(x, n - 1);
      var a, b := PolyOf(Sum(x, y, n - 1)), Product(PolyOf(x), PolyOf(y), n - 1);
      if Bit(x, n - 1) {
        var r := PowerPoly(y, n - 1);
        XorPoly(Sum(x, y, n - 1), Power(y, n - 1));
        CongPlus(a, b, q, PolyOf(Power(y, n - 1)), Shift(PolyOf(y), n - 1), r);
        q := Plus(q, r);
      } else {
        assert Plus(b, {}) == b;
      }
    }
  }

  lemma ZeroPoly()
    ensures PolyOf(ZERO) == {}
  {
    forall i: nat | i < 128 ensures !Bit(ZERO, i) { ZeroBits(i % 8); }
  }

  /** The product of two blocks is the product of their polynomials, modulo x^128 + x^7 + x^2 + x + 1. */
  lemma GfMulIsProduct(x: Block, y: Block) returns (q: Poly)
    ensures Cong(PolyOf(GfMul(x, y)), Product(PolyOf(x), PolyOf(y), 128), q)
  {
    hide Sum, Product, Cong, PolyOf;
    q := SumPoly(x, y, 128);
  }

  lemma XorShuffles(a: Block, b: Block, p: Block)
    ensures Xor(Xor(a, p), b) == Xor(Xor(a, b), p) && Xor(a, Xor(b, p)) == Xor(Xor(a, b), p)
    ensures Xor(Xor(a, p), Xor(b, p)) == Xor(a, b)
  {
    forall k | 0 <= k < 16
      ensures (a[k] ^ p[k]) ^ b[k] == (a[k] ^ b[k]) ^ p[k] && a[k] ^ (b[k] ^ p[k]) == (a[k] ^ b[k]) ^ p[k]
      ensures (a[k] ^ p[k]) ^ (b[k] ^ p[k]) == a[k] ^ b[k]
    {
      ByteShuffles(a[k], b[k], p[k]);
    }
  }

  lemma ByteShuffles(a: Byte, b: Byte, p: Byte)
    ensures (a ^ p) ^ b == (a ^ b) ^ p && a ^ (b ^ p) == (a ^ b) ^ p && (a ^ p) ^ (b ^ p) == a ^ b
  {
  }

  lemma XorZero(a: Block)
    ensures Xor(a, ZERO) == a
  {
    assert forall k :: 0 <= k < 16 ==> ZERO[k] == 0;
  }

  lemma {:induction false} SumXor(a: Block, b: Block, y: Block, n: nat)
    requires n <= 128
    ensures Sum(Xor(a, b), y, n) == Xor(Sum(a, y, n), Sum(b, y, n))
  {
    hide Xor, Power;
    if n == 0 {
      XorZero(ZERO);
    } else {
      SumXor(a, b, y, n - 1);
      BitOfXor(a, b, n - 1);
      XorShuffles(Sum(a, y, n - 1), Sum(b, y, n - 1), Power(y, n - 1));
      hide Bit;
    }
  }

  lemma BitOfXor(a: Block, b: Block, i: nat)
    requires i < 128
    ensures Bit(Xor(a, b), i) <==> Bit(a, i) != Bit(b, i)
  {
    XorPoly(a, b);
    assert i in PolyOf(Xor(a, b)) <==> Bit(Xor(a, b), i);
    assert i in PolyOf(a) <==> Bit(a, i);
    assert i in PolyOf(b) <==> Bit(b, i);
  }

  /** Multiplication distributes over the sum of blocks. */
  lemma GfMulXor(a: Block, b: Block, h: Block)
    ensures GfMul(Xor(a, b), h) == Xor(GfMul(a, h), GfMul(b, h))
  {
    hide Xor, Sum;
    SumXor(a, b, h, 128);
  }

  lemma SameByte(x: Byte, y: Byte)
    requires forall j | 0 <= j < 8 :: HighBit(x, j) == HighBit(y, j)
    ensures x == y
  {
    assert HighBit(x, 0) == HighBit(y, 0) && HighBit(x, 1) == HighBit(y, 1) && HighBit(x, 2) == HighBit(y, 2);
    assert HighBit(x, 3) == HighBit(y, 3) && HighBit(x, 4) == HighBit(y, 4) && HighBit(x, 5) == HighBit(y, 5);
    assert HighBit(x, 6) == HighBit(y, 6) && HighBit(x, 7) == HighBit(y, 7);
  }

  /** A block is known from its polynomial. */
  lemma PolyInjective(a: Block, b: Block)
    requires PolyOf(a) == PolyOf(b)
    ensures a == b
  {
    hide HighBit;
    forall k | 0 <= k < 16 ensures a[k] == b[k] {
      forall j | 0 <= j < 8 ensures HighBit(a[k], j) == HighBit(b[k], j) {
        var i := 8 * k + j;
        assert i / 8 == k && i % 8 == j;
        assert i in PolyOf(a) <==> Bit(a, i);
        assert i in PolyOf(b) <==> Bit(b, i);
      }
      SameByte(a[k], b[k]);
    }
  }

  /** No other block is congruent to the same polynomial. */
  lemma ReducedUnique(a: Block, b: Block, c: Poly, q: Poly, r: Poly)
    requires Cong(PolyOf(a), c, q) && Cong(PolyOf(b), c, r)
    ensures a == b
  {
    SamePoly(a, b, c, q, r);
    PolyInjective(a, b);
  }

  lemma SamePoly(a: Block, b: Block, c: Poly, q: Poly, r: Poly)
    requires Cong(PolyOf(a), c, q) && Cong(PolyOf(b), c, r)
    ensures PolyOf(a) == PolyOf(b)
  {
    var d := Plus(q, r);
    assert Plus(PolyOf(a), PolyOf(b)) == Plus(Plus(PolyOf(a), c), Plus(PolyOf(b), c));
    MultiplePlus(q, r);
    hide Multiple;
    if d != {} {
      var m := Greatest(d);
      MultipleHas(d, m + 128);
    } else {
      MultiplePlus({}, {});
      assert Plus({}, {}) == {};
      assert PolyOf(a) == PolyOf(b);
    }
  }

  lemma {:induction false} Greatest(s: set<nat>) returns (m: nat)
    requires s != {}
    ensures m in s && forall e :: e in s ==> e <= m
  {
    var e :| e in s;
    if s == {e} {
      m := e;
    } else {
      assert s - {e} != {};
      var k := Greatest(s - {e});
      m := if k < e then e else k;
      forall x | x in s ensures x <= m { assert x == e || x in s - {e}; }
    }
  }

  /** Coefficient e of the product: the parity of the ways to write e as a sum of exponents. */
  predicate Convolution(a: Poly, b: Poly, e: nat, n: nat)
  {
    n > 0 && (Convolution(a, b, e, n - 1) != (n - 1 in a && n - 1 <= e && e - (n - 1) in b))
  }

  lemma {:induction false} ProductCoefficient(a: Poly, b: Poly, n: nat, e: nat)
    ensures e in Product(a, b, n) <==> Convolution(a, b, e, n)
  {
    if n > 0 {
      ProductCoefficient(a, b, n - 1, e);
      ShiftHas(b, n - 1, e);
    }
  }

  // ---- in place ------------------------------------------------------------------------------

  /** z ^= v, byte by byte. */
  method XorInto(z: array<Byte>, v: Block)
    requires z.Length == 16
    modifies z
    ensures z[..] == Xor(old(z[..]), v)
  {
    var k := 0;
    while k < 16
      invariant 0 <= k <= 16
      invariant forall j :: 0 <= j < k ==> z[j] == old(z[j]) ^ v[j]
      invariant forall j :: k <= j < 16 ==> z[j] == old(z[j])
    {
      z[k] := z[k] ^ v[k];
      k := k + 1;
    }
  }

  /** v >>= 1 from the last byte up. */
  method ShiftInPlace(v: array<Byte>)
    requires v.Length == 16
    modifies v
    ensures v[..] == ShiftRight(old(v[..]))
  {
    hide ShiftByte, ShiftRight;
    var k := 15;
    while k > 0
      invariant 0 <= k <= 15
      invariant forall j :: k < j < 16 ==> v[j] == ShiftByte(old(v[j]), old(v[j - 1]))
      invariant forall j :: 0 <= j <= k ==> v[j] == old(v[j])
    {
      v[k] := ShiftByte(v[k], v[k - 1]);
      k := k - 1;
    }
    FirstByte(v[0]);
    v[0] := v[0] >> 1;
    ShiftedBytes(old(v[..]), v[..]);
  }

  /** The shift, then the fold. */
  method HalveInPlace(v: array<Byte>)
    requires v.Length == 16
    modifies v
    ensures v[..] == Halve(old(v[..]))
  {
    hide ShiftRight;
    var lsb := v[15] & 1;
    ShiftInPlace(v);
    if lsb != 0 { v[0] := v[0] ^ 0xe1; }
  }

  lemma ShiftedBytes(v: Block, s: Block)
    requires s[0] == ShiftByte(v[0], 0) && forall j :: 0 < j < 16 ==> s[j] == ShiftByte(v[j], v[j - 1])
    ensures s == ShiftRight(v)
  {
    hide ShiftByte;
  }

  lemma FirstByte(b: Byte)
    ensures ShiftByte(b, 0) == b >> 1
  {
  }

  method Multiply(x: array<Byte>, y: Block)
    requires x.Length == 16
    modifies x
    ensures x[..] == GfMul(old(x[..]), y)
  {
    hide Sum, Halve, Xor, Power;
    var z := new Byte[16](_ => 0);
    var v := new Byte[16](k requires 0 <= k < 16 => y[k]);
    ghost var was := x[..];
    SumStep(was, y, 0);
    assert z[..] == ZERO && v[..] == y;
    var i: nat := 0;
    while i < 128
      invariant 0 <= i <= 128 && x[..] == was
      invariant z[..] == Sum(was, y, i) && v[..] == Power(y, i)
    {
      SumStep(was, y, i + 1);
      if HighBit(x[i / 8], i % 8) { XorInto(z, v[..]); }
      HalveInPlace(v);
      i := i + 1;
    }
    forall k | 0 <= k < 16 { x[k] := z[k]; }
  }

  lemma SumStep(x: Block, y: Block, n: nat)
    requires n <= 128
    ensures n == 0 ==> Sum(x, y, n) == ZERO && Power(y, n) == y
    ensures n > 0 ==> Power(y, n) == Halve(Power(y, n - 1))
    ensures n > 0 ==> Sum(x, y, n) == if Bit(x, n - 1) then Xor(Sum(x, y, n - 1), Power(y, n - 1)) else Sum(x, y, n - 1)
  {
    hide Xor, Halve, Bit;
  }
}
