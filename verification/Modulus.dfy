/** kernel/src/crypto/bignum.rs: a prepared modulus and exponentiation with it. */
module Moduli {
  import opened Arith
  import opened Limbs
  import opened BigNum
  import opened Octets
  import opened Wrappers

  // ---- -m^-1 mod 2^64 by Newton's iteration -------------------------------

  function NewtonStep(m0: Limb, inv: Limb): Limb
  {
    inv * ((2 - m0 * inv % BASE) % BASE) % BASE
  }

  /** The modulus to which i steps from 1 are right: 2^(2^i). */
  function Accuracy(i: nat): int
    requires i <= 6
  {
    if i == 0 then 2 else if i == 1 then 4 else if i == 2 then 16 else if i == 3 then 256
    else if i == 4 then 0x1_0000 else if i == 5 then 0x1_0000_0000 else BASE
  }

  lemma AccuracySquares(i: nat) returns (c: int)
    requires i < 6
    ensures Accuracy(i + 1) == Accuracy(i) * Accuracy(i) > 0
    ensures BASE == c * Accuracy(i + 1)
  {
    c := if i == 0 then 0x4000_0000_0000_0000 else if i == 1 then 0x1000_0000_0000_0000
         else if i == 2 then 0x100_0000_0000_0000 else if i == 3 then 0x1_0000_0000_0000
         else if i == 4 then 0x1_0000_0000 else 1;
  }

  lemma CongFactor(a: int, b: int, c: int, w: int)
    requires w > 0 && c * w > 0 && Cong(a, b, c * w)
    ensures Cong(a, b, w)
  {
    var k := CongElim(a, b, c * w);
    MulAssoc(k, c, w);
    CongIntro(a, b, k * c, w);
  }

  /** One step squares the accuracy: with m inv = 1 + e, the next product is 1 - e^2. */
  lemma NewtonDoubles(m0: Limb, inv: Limb, i: nat)
    requires i < 6 && Cong(m0 * inv, 1, Accuracy(i))
    ensures Cong(m0 * NewtonStep(m0, inv), 1, Accuracy(i + 1))
  {
    var w := Accuracy(i);
    var c := AccuracySquares(i);
    var p := m0 * inv;
    var f := (2 - p % BASE) % BASE;
    var next := NewtonStep(m0, inv);
    assert Cong(f, 2 - p, BASE) by {
      CongMod(p, BASE);
      CongMod(2 - p % BASE, BASE);
      CongAdd(2, 2, p % BASE, p, BASE);
    }
    assert Cong(m0 * next, p * (2 - p), BASE) by {
      CongMod(inv * f, BASE);
      CongMul(inv, inv, f, 2 - p, BASE);
      CongMul(m0, m0, next, inv * (2 - p), BASE);
      MulAssoc(m0, inv, 2 - p);
    }
    CongFactor(m0 * next, p * (2 - p), c, w * w);
    var k := CongElim(p, 1, w);
    assert p * (2 - p) == 1 + (-(k * k)) * (w * w) by { SquareOfError(p, k, w); }
    CongIntro(p * (2 - p), 1, -(k * k), w * w);
  }

  lemma SquareOfError(p: int, k: int, w: int)
    requires p == 1 + k * w
    ensures p * (2 - p) == 1 + (-(k * k)) * (w * w)
  {
    var e := k * w;
    assert p * (2 - p) == 1 - e * e;
    calc {
      e * e;
      { MulAssoc(k * w, k, w); }
      k * w * k * w;
      { assert k * w * k == k * k * w; }
      k * k * w * w;
      { MulAssoc(k * k, w, w); }
      k * k * (w * w);
    }
  }

  method MontNp0(m: Big) returns (np0: Limb)
    ensures m[0] % 2 == 1 ==> Cong(m[0] * np0, -1, BASE)
  {
    var inv: Limb := 1;
    var i := 0;
    while i < 6
      invariant 0 <= i <= 6
      invariant m[0] % 2 == 1 ==> Cong(m[0] * inv, 1, Accuracy(i))
    {
      if m[0] % 2 == 1 { NewtonDoubles(m[0], inv, i); }
      inv := NewtonStep(m[0], inv);
      i := i + 1;
    }
    np0 := (BASE - inv) % BASE;
    if m[0] % 2 == 1 {
      var v: int := inv;
      CongMod(BASE - v, BASE);
      CongIntro(BASE - v, -v, 1, BASE);
      CongMul(m[0], m[0], np0, -v, BASE);
      CongAdd(0, 0, m[0] * v, 1, BASE);
      Negate(m[0], v);
    }
  }

  lemma StepFromThree(a: int, b: int)
    requires 0 < a && 3 * a < BASE && b == a * (3 * a + 2) < BASE
    ensures NewtonStep(3, BASE - a) == BASE - b
  {
    var f := 3 * a + 2;
    DivModUnique(3 * (BASE - a), 2, BASE - 3 * a, BASE);
    DivModUnique(2 - (BASE - 3 * a), -1, f, BASE);
    Distribute(f, BASE, a);
    DivModUnique((BASE - a) * f, f - 1, BASE - b, BASE);
  }

  /** Six steps are needed: five leave the product with 3 at 1 - 2^32. */
  lemma FiveStepsAreTooFew()
    ensures !Cong(3 * NewtonStep(3, NewtonStep(3, NewtonStep(3, NewtonStep(3, NewtonStep(3, 1))))), 1, BASE)
  {
    assert NewtonStep(3, 1) == BASE - 1;
    hide *;
    StepFromThree(1, 5);
    StepFromThree(5, 85);
    StepFromThree(85, 21845);
    StepFromThree(21845, 1431655765);
    DivModUnique(3 * (BASE - 1431655765), 2, BASE - 0xFFFF_FFFF, BASE);
  }

  // ---- the prepared modulus ------------------------------------------------

  datatype Modulus = Modulus(m: Big, n: nat, np0: Limb, rr: Big) {

    ghost predicate Valid()
    {
      && 1 <= n <= MAX_LIMBS
      && m[0] % 2 == 1
      && Cong(m[0] * np0, -1, BASE)
      && Low(rr, n) <= Low(m, n) && (Low(m, n) > 1 ==> Low(rr, n) < Low(m, n))
      && Low(m, n) > 0 && Cong(Low(rr, n), Radix(n) * Radix(n), Low(m, n))
    }

    /** The modulus as a number. */
    ghost function M(): (v: int)
      requires Valid()
      ensures v > 0
    {
      Low(m, n)
    }

    /** What the low n limbs of a hold. */
    ghost function V(a: Big): (v: int)
      requires Valid()
      ensures v >= 0
    {
      Low(a, n)
    }

    ghost function R(): (v: int)
      requires Valid()
      ensures v > 0
    {
      Radix(n)
    }
  }

  lemma LowLimb(a: Big, n: nat)
    requires 1 <= n <= MAX_LIMBS
    ensures exists k :: Low(a, n) == a[0] + BASE * k
  {
    assert a[..n][0] == a[0];
    assert Low(a, n) == a[0] + BASE * Val(a[..n][1..]);
  }

  lemma OddModulus(m: Big, n: nat)
    requires 1 <= n <= MAX_LIMBS && m[0] % 2 == 1
    ensures Low(m, n) % 2 == 1 && Low(m, n) > 0
  {
    LowLimb(m, n);
  }

  const ZERO: Big := seq(MAX_LIMBS, _ => 0)
  const ONE: Big := ZERO[0 := 1]

  lemma LowOne(n: nat)
    requires 1 <= n <= MAX_LIMBS
    ensures Low(ONE, n) == 1
  {
    ValZeros(ONE[..n][1..]);
  }

  lemma LowBound(a: Big, n: nat)
    requires n <= MAX_LIMBS
    ensures 0 <= Low(a, n) < Radix(n)
  {
    ValBound(a[..n]);
  }

  /** With one operand reduced, the sum is right modulo m. */
  lemma SumCong(s: int, m: int, radix: int)
    requires m > 0 && s < m + radix
    ensures Cong(ReducedSum(s, m, radix), s, m)
  {
    if s >= m { CongIntro(s - m, s, -1, m); }
  }

  /** With both reduced, it is the residue. */
  lemma SumMod(s: int, m: int, radix: int)
    requires 0 <= s < 2 * m && m <= radix
    ensures ReducedSum(s, m, radix) == s % m
  {
    if s >= m { DivModUnique(s, 1, s - m, m); } else { DivModUnique(s, 0, s, m); }
  }

  method AddBig(a: Big, b: Big, m: Big, n: nat) returns (r: Big)
    requires n <= MAX_LIMBS
    ensures Low(r, n) == ReducedSum(Low(a, n) + Low(b, n), Low(m, n), Radix(n)) && ZeroAbove(r, n)
  {
    hide Val, Radix, ReducedSum;
    var t := new Limb[MAX_LIMBS](_ => 0);
    AddMod(t, a, b, m, n);
    r := t[..];
    assert r[..n] == t[..n];
  }

  lemma DoubleStep(x: int, k: nat, m: int, radix: int)
    requires m > 0 && x + x < m + radix && Cong(x, Pow(2, k), m)
    ensures Cong(ReducedSum(x + x, m, radix), Pow(2, k + 1), m)
  {
    SumCong(x + x, m, radix);
    CongAdd(x, Pow(2, k), x, Pow(2, k), m);
  }

  /** R^2 mod m: 1 doubled 128 n times. */
  method RSquared(m: Big, n: nat) returns (rr: Big)
    requires 1 <= n <= MAX_LIMBS && Low(m, n) > 0
    ensures Low(rr, n) <= Low(m, n) && (Low(m, n) > 1 ==> Low(rr, n) < Low(m, n))
    ensures Cong(Low(rr, n), Radix(n) * Radix(n), Low(m, n))
  {
    LowOne(n);
    LowBound(m, n);
    ghost var mv := Low(m, n);
    rr := ONE;
    var k := 0;
    assert Pow(2, 0) == 1;
    hide Val, Radix, Pow;
    while k < 2 * 64 * n
      invariant 0 <= k <= 128 * n
      invariant Low(rr, n) <= mv && (mv > 1 ==> Low(rr, n) < mv)
      invariant Cong(Low(rr, n), Pow(2, k), mv)
    {
      DoubleStep(Low(rr, n), k, mv, Radix(n));
      rr := AddBig(rr, rr, m, n);
      k := k + 1;
    }
    RadixIsPow(n);
    PowAdd(2, 64 * n, 64 * n);
  }

  method New(m: Big, n: nat) returns (o: Option<Modulus>)
    ensures o.None? <==> n == 0 || n > MAX_LIMBS || m[0] % 2 == 0
    ensures o.Some? ==> o.value.Valid() && o.value.m == m && o.value.n == n
  {
    if n == 0 || n > MAX_LIMBS || m[0] % 2 == 0 { return None; }
    OddModulus(m, n);
    var np0 := MontNp0(m);
    var rr := RSquared(m, n);
    return Some(Modulus(m, n, np0, rr));
  }

  // ---- Montgomery form ------------------------------------------------------

  /** R cancels modulo an odd number. */
  lemma CancelRadix(x: int, y: int, n: nat, m: int)
    requires m > 0 && m % 2 == 1 && Cong(x * Radix(n), y * Radix(n), m)
    ensures Cong(x, y, m)
  {
    RadixIsPow(n);
    PowTwoInverse(64 * n, m);
    CongCancel(x, y, Radix(n), Pow((m + 1) / 2, 64 * n), m);
  }

  /** a stands for x: a = x R mod m. */
  ghost predicate InMont(md: Modulus, a: Big, x: int)
    requires md.Valid()
  {
    md.V(a) < md.M() && Cong(md.V(a), x * md.R(), md.M())
  }

  method ToMont(md: Modulus, a: Big) returns (r: Big)
    requires md.Valid()
    ensures InMont(md, r, md.V(a)) && ZeroAbove(r, md.n)
  {
    var n := md.n;
    OddModulus(md.m, n);
    LowBound(a, n);
    ToMontRoom(Low(a, n), Low(md.rr, n), Low(md.m, n), Radix(n));
    r := MontMul(a, md.rr, md.m, md.np0, n);
    ToMontCong(Low(r, n), Low(a, n), Low(md.rr, n), n, Low(md.m, n));
  }

  lemma ToMontRoom(a: int, rr: int, m: int, r: int)
    requires 0 <= a < r && 0 <= rr <= m && m > 0
    ensures a * rr < m * r
  {
    MulLe(rr, m, a);
    MulLt(a, r, m);
  }

  lemma ToMontCong(r: int, a: int, rr: int, n: nat, m: int)
    requires m > 0 && m % 2 == 1
    requires Cong(r * Radix(n), a * rr, m) && Cong(rr, Radix(n) * Radix(n), m)
    ensures Cong(r, a * Radix(n), m)
  {
    CongMul(a, a, rr, Radix(n) * Radix(n), m);
    MulAssoc(a, Radix(n), Radix(n));
    CancelRadix(r, a * Radix(n), n, m);
  }

  method MulMont(md: Modulus, a: Big, b: Big, ghost x: int, ghost y: int) returns (r: Big)
    requires md.Valid() && InMont(md, a, x) && InMont(md, b, y)
    ensures InMont(md, r, x * y) && ZeroAbove(r, md.n)
  {
    var n := md.n;
    OddModulus(md.m, n);
    LowBound(a, n);
    ToMontRoom(Low(a, n), Low(b, n), Low(md.m, n), Radix(n));
    r := MontMul(a, b, md.m, md.np0, n);
    MulMontCong(Low(r, n), Low(a, n), Low(b, n), x, y, n, Low(md.m, n));
  }

  lemma MulMontCong(r: int, a: int, b: int, x: int, y: int, n: nat, m: int)
    requires m > 0 && m % 2 == 1
    requires Cong(r * Radix(n), a * b, m) && Cong(a, x * Radix(n), m) && Cong(b, y * Radix(n), m)
    ensures Cong(r, x * y * Radix(n), m)
  {
    var q := Radix(n);
    CongMul(a, x * q, b, y * q, m);
    calc {
      x * q * (y * q);
      { MulAssoc(x * q, y, q); }
      x * q * y * q;
      { assert x * q * y == x * y * q; }
      x * y * q * q;
    }
    CancelRadix(r, x * y * q, n, m);
  }

  method FromMont(md: Modulus, a: Big, ghost x: int) returns (r: Big)
    requires md.Valid() && InMont(md, a, x)
    ensures md.V(r) == x % md.M() && ZeroAbove(r, md.n)
  {
    var n := md.n;
    OddModulus(md.m, n);
    LowOne(n);
    LowBound(md.m, n);
    FromMontRoom(Low(a, n), Low(md.m, n), Radix(n));
    r := MontMul(a, ONE, md.m, md.np0, n);
    FromMontValue(Low(r, n), Low(a, n), x, n, Low(md.m, n));
  }

  lemma FromMontRoom(a: int, m: int, r: int)
    requires 0 <= a < m && r > 0
    ensures a * 1 < m * r
  {
    MulLe(1, r, m);
  }

  lemma FromMontValue(r: int, a: int, x: int, n: nat, m: int)
    requires m % 2 == 1 && 0 <= r < m
    requires Cong(r * Radix(n), a * 1, m) && Cong(a, x * Radix(n), m)
    ensures r == x % m
  {
    CancelRadix(r, x, n, m);
    DivModUnique(r, 0, r, m);
  }

  // ---- the operations the callers use --------------------------------------

  /** a + b, reduced once: the residue when both are below m, and right modulo m when one is. */
  method Add(md: Modulus, a: Big, b: Big) returns (r: Big)
    requires md.Valid()
    ensures md.V(r) == ReducedSum(md.V(a) + md.V(b), md.M(), md.R()) && ZeroAbove(r, md.n)
    ensures md.V(a) < md.M() || md.V(b) < md.M() ==> Cong(md.V(r), md.V(a) + md.V(b), md.M())
    ensures md.V(a) < md.M() && md.V(b) < md.M() ==> md.V(r) == (md.V(a) + md.V(b)) % md.M()
  {
    hide Cong, Val, Radix, ReducedSum;
    LowBound(a, md.n);
    LowBound(b, md.n);
    LowBound(md.m, md.n);
    r := AddBig(a, b, md.m, md.n);
    if md.V(a) < md.M() || md.V(b) < md.M() { SumCong(md.V(a) + md.V(b), md.M(), md.R()); }
    if md.V(a) < md.M() && md.V(b) < md.M() { SumMod(md.V(a) + md.V(b), md.M(), md.R()); }
  }

  /** m - b in n limbs. */
  function Complement(b: int, m: int, radix: int): int
  {
    if m < b then m - b + radix else m - b
  }

  /** a + (m - b), reduced once. */
  method Sub(md: Modulus, a: Big, b: Big) returns (r: Big)
    requires md.Valid()
    ensures md.V(r) == ReducedSum(md.V(a) + Complement(md.V(b), md.M(), md.R()), md.M(), md.R()) && ZeroAbove(r, md.n)
    ensures md.V(b) <= md.M() ==> Cong(md.V(r), md.V(a) - md.V(b), md.M())
    ensures md.V(a) < md.M() && md.V(b) <= md.M() ==> md.V(r) == (md.V(a) - md.V(b)) % md.M()
  {
    hide Cong, Val, Radix, ReducedSum;
    LowBound(a, md.n);
    LowBound(md.m, md.n);
    var neg := new Limb[MAX_LIMBS](_ => 0);
    SubInto(neg, md.m, b, md.n);
    assert neg[..][..md.n] == neg[..md.n];
    r := AddBig(a, neg[..], md.m, md.n);
    if md.V(b) <= md.M() { DifferenceCong(md.V(a), md.V(b), md.M(), md.R()); }
  }

  lemma DifferenceCong(a: int, b: int, m: int, radix: int)
    requires 0 <= b <= m <= radix && 0 <= a < radix && m > 0
    ensures Cong(ReducedSum(a + Complement(b, m, radix), m, radix), a - b, m)
    ensures a < m ==> ReducedSum(a + Complement(b, m, radix), m, radix) == (a - b) % m
  {
    hide Cong;
    var s := a + (m - b);
    SumCong(s, m, radix);
    CongIntro(s, a - b, 1, m);
    CongTrans(ReducedSum(s, m, radix), s, a - b, m);
    if a < m { ResidueIs(ReducedSum(s, m, radix), a - b, m); }
  }

  lemma CongTrans(a: int, b: int, c: int, m: int)
    requires m > 0 && Cong(a, b, m) && Cong(b, c, m)
    ensures Cong(a, c, m)
  {
  }

  lemma ResidueIs(r: int, x: int, m: int)
    requires 0 <= r < m && Cong(r, x, m)
    ensures r == x % m
  {
    DivModUnique(r, 0, r, m);
  }

  method Mul(md: Modulus, a: Big, b: Big) returns (r: Big)
    requires md.Valid()
    ensures md.V(r) == md.V(a) * md.V(b) % md.M() && ZeroAbove(r, md.n)
  {
    var am := ToMont(md, a);
    var bm := ToMont(md, b);
    var p := MulMont(md, am, bm, md.V(a), md.V(b));
    r := FromMont(md, p, md.V(a) * md.V(b));
  }

  /** The exponent: a big-endian byte string. */
  function BigEndian(s: seq<Byte>): (v: int)
    ensures v >= 0
  {
    if s == [] then 0 else 256 * BigEndian(s[..|s| - 1]) + s[|s| - 1]
  }

  /** A number read so far: e, then the bits of a digit b from the top down to bit k. */
  function Prefix(e: nat, b: nat, k: nat, width: nat): int
    requires k <= width
  {
    Twos(width - k) * e + b / Twos(k)
  }

  lemma PrefixEnds(e: nat, b: nat, width: nat)
    requires b < Twos(width)
    ensures Prefix(e, b, width, width) == e && Prefix(e, b, 0, width) == Twos(width) * e + b
  {
    DivModUnique(b, 0, b, Twos(width));
  }

  lemma PrefixByte(e: nat, b: Byte)
    ensures Prefix(e, b, 8, 8) == e && Prefix(e, b, 0, 8) == 256 * e + b
  {
    assert Twos(8) == 256;
    PrefixEnds(e, b, 8);
  }

  lemma PrefixStep(e: nat, b: nat, k: nat, width: nat)
    requires k < width
    ensures Prefix(e, b, k, width) == 2 * Prefix(e, b, k + 1, width) + if Bit(b, k) then 1 else 0
  {
    MulAssoc(2, Twos(width - 1 - k), e);
    HalfQuotient(b, Twos(k));
  }

  lemma HalfQuotient(b: int, d: int)
    requires b >= 0 && d > 0
    ensures b / d == 2 * (b / (2 * d)) + b / d % 2
  {
    var q, r := b / d, b % d;
    assert b == q * d + r;
    var h := q / 2;
    assert q == 2 * h + q % 2;
    var rest := (q % 2) * d + r;
    assert b == h * (2 * d) + rest by { assert q * d == 2 * h * d + (q % 2) * d; }
    assert 0 <= rest < 2 * d by { MulLe(q % 2, 1, d); MulLe(0, q % 2, d); }
    DivModUnique(b, h, rest, 2 * d);
  }

  /** Where the scan stands after the bits of e: nothing yet, or x^e in Montgomery form. */
  ghost predicate Scanned(md: Modulus, base: int, started: bool, acc: Big, e: nat)
    requires md.Valid()
  {
    (started <==> e > 0) && (started ==> InMont(md, acc, Pow(base, e)))
  }

  lemma PowDouble(b: int, e: nat)
    ensures Pow(b, 2 * e) == Pow(b, e) * Pow(b, e)
    ensures Pow(b, 2 * e + 1) == Pow(b, e) * Pow(b, e) * b
    ensures e == 0 ==> Pow(b, 2 * e + 1) == b
  {
    PowAdd(b, e, e);
  }

  /** One bit of the scan: square once started, multiply (or start) on a set bit. */
  method ScanBit(md: Modulus, x: Big, acc: Big, started: bool, bit: bool, ghost base: int, ghost e: nat)
    returns (acc': Big, started': bool)
    requires md.Valid() && InMont(md, x, base) && Scanned(md, base, started, acc, e)
    ensures Scanned(md, base, started', acc', 2 * e + if bit then 1 else 0)
  {
    hide Pow, InMont, Modulus.Valid;
    acc', started' := acc, started;
    PowDouble(base, e);
    if started {
      acc' := MulMont(md, acc', acc', Pow(base, e), Pow(base, e));
    }
    if bit {
      if started {
        acc' := MulMont(md, acc', x, Pow(base, e) * Pow(base, e), base);
      } else {
        acc' := x;
      }
      started' := true;
    }
  }

  method ScanByte(md: Modulus, x: Big, acc: Big, started: bool, byte: Byte, ghost base: int, ghost e: nat)
    returns (acc': Big, started': bool)
    requires md.Valid() && InMont(md, x, base) && Scanned(md, base, started, acc, e)
    ensures Scanned(md, base, started', acc', 256 * e + byte)
  {
    hide Prefix, Twos, Scanned, InMont, Modulus.Valid, Bit;
    acc', started' := acc, started;
    PrefixByte(e, byte);
    var bit := 8;
    while bit > 0
      invariant 0 <= bit <= 8 && Prefix(e, byte, bit, 8) >= 0
      invariant Scanned(md, base, started', acc', Prefix(e, byte, bit, 8))
    {
      bit := bit - 1;
      PrefixStep(e, byte, bit, 8);
      acc', started' := ScanBit(md, x, acc', started', Bit(byte, bit), base, Prefix(e, byte, bit + 1, 8));
    }
  }

  /** base^exp mod m.  An exponent of zero returns 1 without a reduction, so the
      result is the residue unless the modulus is 1 and the exponent is 0. */
  method PowMod(md: Modulus, base: Big, exp: seq<Byte>) returns (r: Big)
    requires md.Valid()
    ensures ZeroAbove(r, md.n)
    ensures BigEndian(exp) > 0 ==> md.V(r) == Pow(md.V(base), BigEndian(exp)) % md.M()
    ensures BigEndian(exp) == 0 ==> md.V(r) == 1
    ensures md.V(r) == Pow(md.V(base), BigEndian(exp)) % md.M() <==> !(md.M() == 1 && BigEndian(exp) == 0)
  {
    var x := ToMont(md, base);
    var acc := ToMont(md, ONE);
    var started := false;
    var i := 0;
    while i < |exp|
      invariant 0 <= i <= |exp|
      invariant Scanned(md, md.V(base), started, acc, BigEndian(exp[..i]))
    {
      acc, started := ScanByte(md, x, acc, started, exp[i], md.V(base), BigEndian(exp[..i]));
      assert exp[..i + 1][..i] == exp[..i];
      i := i + 1;
    }
    assert exp[..i] == exp;
    if !started {
      LowOne(md.n);
      if md.M() > 1 { DivModUnique(1, 0, 1, md.M()); }
      return ONE;
    }
    r := FromMont(md, acc, Pow(md.V(base), BigEndian(exp)));
  }
}
