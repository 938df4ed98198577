/** kernel/src/crypto/x25519.rs: inversion, encoding and the ladder. */
module X25519 {
  import opened Arith
  import opened Field25519
  import opened Octets
  import opened Encoding25519

  // ---- inversion -------------------------------------------------------------

  /** f stands for z^e. */
  ghost predicate IsPow(f: Fe, z: int, e: nat)
  {
    Reduced(f) && Cong(Value(f), Pow(z, e), PRIME)
  }

  method MulPow(a: Fe, b: Fe, ghost z: int, ghost e: nat, ghost f: nat) returns (r: Fe)
    requires IsPow(a, z, e) && IsPow(b, z, f)
    ensures IsPow(r, z, e + f)
  {
    r := Mul(a, b);
    CongMul(Value(a), Pow(z, e), Value(b), Pow(z, f), PRIME);
    PowAdd(z, e, f);
  }

  /** sq once, then n - 1 times more. */
  method SqTimes(a: Fe, n: nat, ghost z: int, ghost e: nat) returns (t: Fe)
    requires IsPow(a, z, e) && n >= 1
    ensures IsPow(t, z, e * Twos(n))
  {
    hide IsPow;
    t := MulPow(a, a, z, e, e);
    var i := 1;
    assert Twos(1) == 2;
    while i < n
      invariant 1 <= i <= n
      invariant IsPow(t, z, e * Twos(i))
    {
      t := MulPow(t, t, z, e * Twos(i), e * Twos(i));
      assert e * Twos(i + 1) == e * Twos(i) + e * Twos(i);
      i := i + 1;
    }
  }

  /** 2^k - 1. */
  function Ones(k: nat): nat
  {
    Twos(k) - 1
  }

  lemma OnesAdd(i: nat, j: nat)
    ensures Ones(i) * Twos(j) + Ones(j) == Ones(i + j)
  {
    hide Twos;
    TwosAdd(i, j);
    Distribute(Twos(j), Twos(i), -1);
  }

  /** From z^(2^i - 1) and z^(2^j - 1) to z^(2^(i+j) - 1): j squarings and a product. */
  method Extend(a: Fe, b: Fe, i: nat, j: nat, ghost z: int) returns (r: Fe)
    requires IsPow(a, z, Ones(i)) && IsPow(b, z, Ones(j)) && j >= 1
    ensures IsPow(r, z, Ones(i + j))
  {
    hide *;
    OnesAdd(i, j);
    var t := SqTimes(a, j, z, Ones(i));
    r := MulPow(t, b, z, Ones(i) * Twos(j), Ones(j));
  }

  /** z^(2^255 - 21). */
  method Invert(z: Fe) returns (r: Fe)
    requires Reduced(z)
    ensures IsPow(r, Value(z), PRIME - 2)
  {
    ghost var v := Value(z);
    var z11, z5 := InvertSmall(z);
    hide *;
    var z50 := Chain50(z5, v);
    var z100 := Extend(z50, z50, 50, 50, v);
    var z250 := Chain250(z100, z50, v);
    r := InvertTail(z250, z11, v);
  }

  method Chain50(z5: Fe, ghost v: int) returns (z50: Fe)
    requires IsPow(z5, v, Ones(5))
    ensures IsPow(z50, v, Ones(50))
  {
    hide *;
    var z10 := Extend(z5, z5, 5, 5, v);
    var z20 := Extend(z10, z10, 10, 10, v);
    var z40 := Extend(z20, z20, 20, 20, v);
    z50 := Extend(z40, z10, 40, 10, v);
  }

  method Chain250(z100: Fe, z50: Fe, ghost v: int) returns (z250: Fe)
    requires IsPow(z100, v, Ones(100)) && IsPow(z50, v, Ones(50))
    ensures IsPow(z250, v, Ones(250))
  {
    hide *;
    var z200 := Extend(z100, z100, 100, 100, v);
    z250 := Extend(z200, z50, 200, 50, v);
  }

  method InvertTail(z250: Fe, z11: Fe, ghost v: int) returns (r: Fe)
    requires IsPow(z250, v, Ones(250)) && IsPow(z11, v, 11)
    ensures IsPow(r, v, PRIME - 2)
  {
    hide *;
    InvertExponent();
    var t := SqTimes(z250, 5, v, Ones(250));
    r := MulPow(t, z11, v, Ones(250) * Twos(5), 11);
  }

  /** The start of the chain: z^11 and z^(2^5 - 1). */
  method InvertSmall(z: Fe) returns (z11: Fe, z5: Fe)
    requires Reduced(z)
    ensures IsPow(z11, Value(z), 11) && IsPow(z5, Value(z), Ones(5))
  {
    ghost var v := Value(z);
    PowOne(z);
    assert Ones(5) == 31;
    hide *;
    var z2 := MulPow(z, z, v, 1, 1);
    var z4 := MulPow(z2, z2, v, 2, 2);
    var z8 := MulPow(z4, z4, v, 4, 4);
    var z9 := MulPow(z8, z, v, 8, 1);
    z11 := MulPow(z9, z2, v, 9, 2);
    var z22 := MulPow(z11, z11, v, 11, 11);
    z5 := MulPow(z22, z9, v, 22, 9);
  }

  lemma PowOne(z: Fe)
    requires Reduced(z)
    ensures IsPow(z, Value(z), 1)
  {
    assert Pow(Value(z), 1) == Value(z) * Pow(Value(z), 0);
  }

  lemma TwosProduct(i: nat, j: nat, a: int, b: int, c: int)
    requires Twos(i) == a && Twos(j) == b && c == a * b
    ensures Twos(i + j) == c
  {
    TwosAdd(i, j);
  }

  lemma InvertExponent()
    ensures Ones(250) * Twos(5) + 11 == PRIME - 2
  {
    assert Twos(5) == 32;
    hide Twos;
    TwosProduct(5, 5, 0x20, 0x20, 0x400);
    TwosProduct(10, 10, 0x400, 0x400, 0x10_0000);
    TwosProduct(20, 20, 0x10_0000, 0x10_0000, 0x100_0000_0000);
    TwosProduct(40, 10, 0x100_0000_0000, 0x400, 0x4_0000_0000_0000);
    TwosProduct(50, 50, 0x4_0000_0000_0000, 0x4_0000_0000_0000, 0x10000000000000000000000000);
    TwosProduct(100, 100, 0x10000000000000000000000000, 0x10000000000000000000000000, 0x100000000000000000000000000000000000000000000000000);
    TwosProduct(200, 50, 0x100000000000000000000000000000000000000000000000000, 0x4_0000_0000_0000, 0x400000000000000000000000000000000000000000000000000000000000000);
  }

  // ---- conditional swap --------------------------------------------------------

  function Xor(x: nat, y: nat): nat
  {
    if x == 0 && y == 0 then 0 else 2 * Xor(x / 2, y / 2) + (x + y) % 2
  }

  function And(x: nat, y: nat): nat
  {
    if x == 0 || y == 0 then 0 else 2 * And(x / 2, y / 2) + (if x % 2 == 1 && y % 2 == 1 then 1 else 0)
  }

  lemma {:induction false} XorZero(x: nat)
    ensures Xor(x, 0) == x
  {
    if x > 0 { XorZero(x / 2); }
  }

  lemma {:induction false} XorTwice(x: nat, y: nat)
    ensures Xor(x, Xor(x, y)) == y
  {
    hide Xor;
    if x > 0 || y > 0 {
      XorTwice(x / 2, y / 2);
      XorDigit(x, y);
      XorDigit(x, Xor(x, y));
    } else {
      XorDigit(0, 0);
    }
  }

  lemma XorDigit(x: nat, y: nat)
    ensures Xor(x, y) / 2 == Xor(x / 2, y / 2) && Xor(x, y) % 2 == (x + y) % 2
    ensures x == 0 && y == 0 ==> Xor(x, y) == 0
  {
  }

  lemma {:induction false} XorCommutes(x: nat, y: nat)
    ensures Xor(x, y) == Xor(y, x)
  {
    if x > 0 || y > 0 { XorCommutes(x / 2, y / 2); }
  }

  lemma {:induction false} XorBound(x: nat, y: nat, k: nat)
    requires x < Twos(k) && y < Twos(k)
    ensures Xor(x, y) < Twos(k)
  {
    if k > 0 { XorBound(x / 2, y / 2, k - 1); }
  }

  lemma {:induction false} AndOnes(k: nat, x: nat)
    requires x < Twos(k)
    ensures And(Twos(k) - 1, x) == x
  {
    if x > 0 {
      AndOnes(k - 1, x / 2);
      assert (Twos(k) - 1) / 2 == Twos(k - 1) - 1;
    }
  }

  lemma Twos64()
    ensures Twos(64) == 0x1_0000_0000_0000_0000
  {
    assert Twos(8) == 0x100;
    hide Twos;
    TwosProduct(8, 8, 0x100, 0x100, 0x1_0000);
    TwosProduct(16, 16, 0x1_0000, 0x1_0000, 0x1_0000_0000);
    TwosProduct(32, 32, 0x1_0000_0000, 0x1_0000_0000, 0x1_0000_0000_0000_0000);
  }

  /** mask is 0 - swap in 64 bits: all zeros or all ones. */
  lemma SwapLimb(x: U64, y: U64, mask: U64)
    requires mask == 0 || mask == 0xFFFF_FFFF_FFFF_FFFF
    ensures var t := And(mask, Xor(x, y));
            Xor(x, t) == (if mask == 0 then x else y) && Xor(y, t) == (if mask == 0 then y else x)
  {
    if mask == 0 {
      XorZero(x);
      XorZero(y);
    } else {
      Twos64();
      hide Twos, Xor, And;
      XorBound(x, y, 64);
      AndOnes(64, Xor(x, y));
      XorTwice(x, y);
      XorTwice(y, x);
      XorCommutes(x, y);
    }
  }

  method CSwap(a: Fe, b: Fe, swap: U64) returns (a': Fe, b': Fe)
    requires swap <= 1
    ensures a' == (if swap == 0 then a else b) && b' == (if swap == 0 then b else a)
  {
    var mask: U64 := (0x1_0000_0000_0000_0000 - swap) % 0x1_0000_0000_0000_0000;
    a', b' := a, b;
    var i := 0;
    while i < 5
      invariant 0 <= i <= 5
      invariant forall j :: 0 <= j < 5 ==>
                  a'[j] == (if j < i && swap == 1 then b[j] else a[j]) && b'[j] == (if j < i && swap == 1 then a[j] else b[j])
    {
      SwapLimb(a'[i], b'[i], mask);
      hide Xor, And;
      var t := And(mask, Xor(a'[i], b'[i]));
      a', b' := a'[i := Xor(a'[i], t)], b'[i := Xor(b'[i], t)];
      i := i + 1;
    }
  }

  // ---- the ladder of section 5 of RFC 7748, over integers -----------------------

  datatype Points = Points(x2: int, z2: int, x3: int, z3: int) {
    function Swapped(): Points
    {
      Points(x3, z3, x2, z2)
    }
  }

  const A24: U64 := 121665

  /** One differential addition and doubling modulo the prime. */
  function Step(x1: int, p: Points): Points
  {
    var a := p.x2 + p.z2;
    var aa := a * a;
    var b := p.x2 - p.z2;
    var bb := b * b;
    var e := aa - bb;
    var c := p.x3 + p.z3;
    var d := p.x3 - p.z3;
    var da := d * a;
    var cb := c * b;
    Points(aa * bb, e * (aa + e * A24), (da + cb) * (da + cb), x1 * ((da - cb) * (da - cb)))
  }

  /** The pair (m P, (m+1) P) for m the bits of n from 254 down to t, in projective form. */
  function Ladder(x1: int, n: nat, t: nat): Points
    requires t <= 255
    decreases 255 - t
  {
    if t == 255 then Points(1, 0, x1, 1)
    else
      var p := Ladder(x1, n, t + 1);
      if Bit(n, t) then Step(x1, p.Swapped()).Swapped() else Step(x1, p)
  }

  /** The scalar that section 5 of RFC 7748 decodes from 32 bytes. */
  function DecodeScalar(k: seq<Byte>): (n: nat)
    requires |k| == 32
  {
    0x4000000000000000000000000000000000000000000000000000000000000000 + LittleEndian(k) % 0x4000000000000000000000000000000000000000000000000000000000000000 / 8 * 8
  }

  /** X25519 as a function of numbers: the ladder, then x2 / z2. */
  function Expected(n: nat, x1: int): int
  {
    var p := Ladder(x1, n, 0);
    p.x2 * Pow(p.z2, PRIME - 2) % PRIME
  }

  // ---- the ladder in limbs --------------------------------------------------------

  /** f stands for v modulo the prime. */
  ghost predicate Is(f: Fe, v: int)
  {
    Reduced(f) && Cong(Value(f), v, PRIME)
  }

  method AddIs(a: Fe, b: Fe, ghost x: int, ghost y: int) returns (r: Fe)
    requires Is(a, x) && Is(b, y)
    ensures Is(r, x + y)
  {
    r := Add(a, b);
    CongAdd(Value(a), x, Value(b), y, PRIME);
  }

  method SubIs(a: Fe, b: Fe, ghost x: int, ghost y: int) returns (r: Fe)
    requires Is(a, x) && Is(b, y)
    ensures Is(r, x - y)
  {
    r := Sub(a, b);
    CongAdd(Value(a), x, Value(b), y, PRIME);
  }

  method MulIs(a: Fe, b: Fe, ghost x: int, ghost y: int) returns (r: Fe)
    requires Is(a, x) && Is(b, y)
    ensures Is(r, x * y)
  {
    r := Mul(a, b);
    CongMul(Value(a), x, Value(b), y, PRIME);
  }

  method MulSmallIs(a: Fe, k: U64, ghost x: int) returns (r: Fe)
    requires Is(a, x) && k <= 0x800_0000_0000_0000
    ensures Is(r, x * k)
  {
    SmallConstants(a, k);
    r := MulSmall(a, k);
    CongMul(Value(a), x, k, k, PRIME);
  }

  ghost predicate Holds(x2: Fe, z2: Fe, x3: Fe, z3: Fe, p: Points)
  {
    Is(x2, p.x2) && Is(z2, p.z2) && Is(x3, p.x3) && Is(z3, p.z3)
  }

  method LadderStep(x1: Fe, x2: Fe, z2: Fe, x3: Fe, z3: Fe, ghost u: int, ghost p: Points)
    returns (x2': Fe, z2': Fe, x3': Fe, z3': Fe)
    requires Is(x1, u) && Holds(x2, z2, x3, z3, p)
    ensures Holds(x2', z2', x3', z3', Step(u, p))
  {
    hide Is;
    ghost var av, bv := p.x2 + p.z2, p.x2 - p.z2;
    ghost var cv, dv := p.x3 + p.z3, p.x3 - p.z3;
    ghost var aav, bbv, dav, cbv := av * av, bv * bv, dv * av, cv * bv;
    ghost var ev := aav - bbv;
    var a := AddIs(x2, z2, p.x2, p.z2);
    var aa := MulIs(a, a, av, av);
    var b := SubIs(x2, z2, p.x2, p.z2);
    var bb := MulIs(b, b, bv, bv);
    var e := SubIs(aa, bb, aav, bbv);
    var c := AddIs(x3, z3, p.x3, p.z3);
    var d := SubIs(x3, z3, p.x3, p.z3);
    var da := MulIs(d, a, dv, av);
    var cb := MulIs(c, b, cv, bv);
    var s := AddIs(da, cb, dav, cbv);
    x3' := MulIs(s, s, dav + cbv, dav + cbv);
    var m := SubIs(da, cb, dav, cbv);
    m := MulIs(m, m, dav - cbv, dav - cbv);
    z3' := MulIs(x1, m, u, (dav - cbv) * (dav - cbv));
    x2' := MulIs(aa, bb, aav, bbv);
    var f := MulSmallIs(e, A24, ev);
    f := AddIs(aa, f, aav, ev * A24);
    z2' := MulIs(e, f, ev, aav + ev * A24);
  }

  // ---- scalars -----------------------------------------------------------------------

  /** &= 248 on the first byte, &= 127 and |= 64 on the last. */
  method Clamp(k: array<Byte>)
    requires k.Length == 32
    modifies k
    ensures LittleEndian(k[..]) == DecodeScalar(old(k[..]))
  {
    hide LittleEndian, P256, DecodeScalar;
    ghost var s := k[..];
    k[0] := k[0] / 8 * 8;
    k[31] := k[31] % 128;
    if k[31] / 64 % 2 == 0 { k[31] := k[31] + 64; }
    assert k[31] == s[31] % 64 + 64;
    assert k[..][1..31] == s[1..31];
    ClampedValue(s, k[..]);
  }

  lemma ClampedValue(s: seq<Byte>, k: seq<Byte>)
    requires |s| == |k| == 32 && k[1..31] == s[1..31]
    requires k[0] == s[0] / 8 * 8 && k[31] == s[31] % 64 + 64
    ensures LittleEndian(k) == DecodeScalar(s)
  {
    hide LittleEndian, P256;
    Ends(s);
    Ends(k);
    LittleEndianBound(s[1..31]);
    MidPower();
    ClampMath(s[0], LittleEndian(s[1..31]), s[31]);
  }

  const MID: int := 0x1000000000000000000000000000000000000000000000000000000000000
  const TOP: int := 0x100000000000000000000000000000000000000000000000000000000000000

  lemma MidPower()
    ensures P256(30) == MID
  {
    PowersOf256();
    hide P256;
    P256Add(24, 6);
  }

  lemma Ends(s: seq<Byte>)
    requires |s| == 32
    ensures LittleEndian(s) == s[0] + 256 * LittleEndian(s[1..31]) + TOP * s[31]
  {
    assert s[1..][..30] == s[1..31] && s[1..][30..] == [s[31]];
    LittleEndianSplit(s[1..], 30);
    assert LittleEndian([s[31]]) == s[31] by { assert [s[31]][1..] == []; }
    hide P256;
    MidPower();
  }

  lemma ClampMath(a: int, mid: int, b: int)
    requires 0 <= a < 256 && 0 <= mid < MID && 0 <= b < 256
    ensures a / 8 * 8 + 256 * mid + TOP * (b % 64 + 64)
         == 0x4000000000000000000000000000000000000000000000000000000000000000 + (a + 256 * mid + TOP * b) % 0x4000000000000000000000000000000000000000000000000000000000000000 / 8 * 8
  {
    DivModUnique(a + 256 * mid + TOP * b, b / 64, a + 256 * mid + TOP * (b % 64), 0x4000000000000000000000000000000000000000000000000000000000000000);
  }

  lemma {:induction false} TwosOf8(j: nat)
    ensures Twos(8 * j) == P256(j)
  {
    if j > 0 {
      TwosOf8(j - 1);
      TwosAdd(8, 8 * (j - 1));
      assert Twos(8) == 256;
    }
  }

  /** Bit t of a byte string is bit t % 8 of byte t / 8. */
  lemma BitOfByte(s: seq<Byte>, t: nat)
    requires t < 8 * |s|
    ensures Bit(LittleEndian(s), t) <==> s[t / 8] / Twos(t % 8) % 2 == 1
  {
    hide LittleEndian, P256, Twos;
    var j, r := t / 8, t % 8;
    var n, rest := LittleEndian(s), s[j..];
    LittleEndianHead(rest);
    BitInByte(s[j], LittleEndian(rest[1..]), r);
    assert n / P256(j) == LittleEndian(rest) by {
      LittleEndianSplit(s, j);
      LittleEndianBound(s[..j]);
      DivModUnique(n, LittleEndian(rest), LittleEndian(s[..j]), P256(j));
    }
    TwosOf8(j);
    TwosAdd(8 * j, r);
    DivDiv(n, P256(j), Twos(r));
  }

  lemma BitInByte(x: Byte, hi: int, r: nat)
    requires r < 8
    ensures (x + 256 * hi) / Twos(r) % 2 == x / Twos(r) % 2
  {
    TwosAdd(r, 7 - r);
    assert Twos(7) == 128;
    hide Twos;
    HighPart(x, hi, Twos(r), Twos(7 - r));
  }

  lemma HighPart(x: int, hi: int, p: int, c: int)
    requires p > 0 && p * c == 128
    ensures (x + 256 * hi) / p % 2 == x / p % 2
  {
    var q, d := x / p, c * hi;
    assert 128 * hi == d * p by {
      MulAssoc(p, c, hi);
      assert p * (c * hi) == c * hi * p;
    }
    DivModUnique(x + 256 * hi, q + 2 * d, x % p, p);
  }

  // ---- scalar multiplication -----------------------------------------------------------

  /** The state is held swapped exactly when the bit last handled was set. */
  ghost function Pending(p: Points, swap: U64): Points
  {
    if swap == 0 then p else p.Swapped()
  }

  lemma DeferredSwap(x1: int, n: nat, t: nat, swap: U64, kt: U64)
    requires t < 255 && swap <= 1 && kt <= 1 && (kt == 1 <==> Bit(n, t))
    ensures var p := Ladder(x1, n, t + 1);
            var flip := if swap == kt then 0 else 1;
            Pending(Ladder(x1, n, t), kt) == Step(x1, Pending(Pending(p, swap), flip))
  {
  }

  method ScalarMult(scalar: seq<Byte>, u: seq<Byte>) returns (s: seq<Byte>)
    requires |scalar| == 32 && |u| == 32
    ensures |s| == 32
    ensures LittleEndian(s) == Expected(DecodeScalar(scalar), LittleEndian(u) % W5)
  {
    var k := new Byte[32](i requires 0 <= i < 32 => scalar[i]);
    assert k[..] == scalar;
    Clamp(k);
    var bytes := k[..];
    ghost var n := DecodeScalar(scalar);
    ghost var x := LittleEndian(u) % W5;
    var x1 := FromBytes(u);
    var x2, z2, x3, z3 := LadderLoop(bytes, x1, x, n);
    s := Quotient(x2, z2, Ladder(x, n, 0).x2, Ladder(x, n, 0).z2);
  }

  method LadderLoop(k: seq<Byte>, x1: Fe, ghost x: int, ghost n: nat) returns (x2: Fe, z2: Fe, x3: Fe, z3: Fe)
    requires |k| == 32 && LittleEndian(k) == n && Is(x1, x)
    ensures Holds(x2, z2, x3, z3, Ladder(x, n, 0))
  {
    x2, z2 := [1, 0, 0, 0, 0], [0, 0, 0, 0, 0];
    x3, z3 := x1, [1, 0, 0, 0, 0];
    var swap: U64 := 0;
    var t := 255;
    assert Holds(x2, z2, x3, z3, Ladder(x, n, 255));
    while t > 0
      invariant 0 <= t <= 255 && swap <= 1
      invariant Holds(x2, z2, x3, z3, Pending(Ladder(x, n, t), swap))
    {
      hide Is, LittleEndian, Ladder, Step;
      t := t - 1;
      var kt: U64 := k[t / 8] / Twos(t % 8) % 2;
      BitOfByte(k, t);
      DeferredSwap(x, n, t, swap, kt);
      ghost var p := Pending(Ladder(x, n, t + 1), swap);
      swap := if swap == kt then 0 else 1;
      x2, x3 := CSwap(x2, x3, swap);
      z2, z3 := CSwap(z2, z3, swap);
      p := Pending(p, swap);
      swap := kt;
      x2, z2, x3, z3 := LadderStep(x1, x2, z2, x3, z3, x, p);
    }
    x2, x3 := CSwap(x2, x3, swap);
    z2, z3 := CSwap(z2, z3, swap);
  }

  method Quotient(x2: Fe, z2: Fe, ghost x: int, ghost z: int) returns (s: seq<Byte>)
    requires Is(x2, x) && Is(z2, z)
    ensures |s| == 32 && LittleEndian(s) == x * Pow(z, PRIME - 2) % PRIME
  {
    hide LittleEndian, Pow, Value;
    var i := Invert(z2);
    CongPow(Value(z2), z, PRIME - 2, PRIME);
    var q := MulIs(x2, i, x, Pow(z, PRIME - 2));
    s := ToBytes(q);
  }
}
