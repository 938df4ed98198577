/** kernel/src/crypto/x25519.rs: field elements to 32 bytes and back. */
module Encoding25519 {
  import opened Arith
  import opened Octets
  import opened Field25519

  lemma PowersOf256()
    ensures P256(0) == 1
    ensures P256(6) == 0x1_0000_0000_0000
    ensures P256(7) == 0x100_0000_0000_0000
    ensures P256(8) == 0x1_0000_0000_0000_0000
    ensures P256(12) == 0x1_0000_0000_0000_0000_0000_0000
    ensures P256(19) == 0x100_0000_0000_0000_0000_0000_0000_0000_0000_0000
    ensures P256(24) == 0x1_0000_0000_0000_0000_0000_0000_0000_0000_0000_0000_0000_0000
    ensures P256(25) == 0x100_0000_0000_0000_0000_0000_0000_0000_0000_0000_0000_0000_0000
    ensures P256(32) == 2 * W5
  {
  }

  /** Eight bytes from i, as the number they are a window of. */
  lemma Window(b: seq<Byte>, i: nat)
    requires i + 8 <= |b|
    ensures LittleEndian(b[i..i + 8]) == LittleEndian(b) / P256(i) % 0x1_0000_0000_0000_0000
  {
    PowersOf256();
    hide LittleEndian, P256;
    var rest := b[i..];
    assert LittleEndian(b) / P256(i) == LittleEndian(rest) by {
      LittleEndianSplit(b, i);
      LittleEndianBound(b[..i]);
      DivModUnique(LittleEndian(b), LittleEndian(rest), LittleEndian(b[..i]), P256(i));
    }
    assert rest[..8] == b[i..i + 8];
    LittleEndianSplit(rest, 8);
    LittleEndianBound(rest[..8]);
    DivModUnique(LittleEndian(rest), LittleEndian(rest[8..]), LittleEndian(rest[..8]), 0x1_0000_0000_0000_0000);
  }

  method Load(b: seq<Byte>, i: nat) returns (v: U64)
    requires |b| == 32 && i + 8 <= 32
    ensures v == LittleEndian(b) / P256(i) % 0x1_0000_0000_0000_0000
  {
    Window(b, i);
    LittleEndianBound(b[i..i + 8]);
    PowersOf256();
    v := LittleEndian(b[i..i + 8]);
  }

  /** A 51-bit digit read through a 64-bit window: c is how often 51 bits and the shift fit. */
  lemma DigitThroughWindow(n: int, a: int, s: int, c: int)
    requires n >= 0 && a > 0 && s > 0 && s * (c * W) == 0x1_0000_0000_0000_0000
    ensures n / a % 0x1_0000_0000_0000_0000 / s % W == n / (a * s) % W
  {
    DivDiv(n, a, s);
    var x := n / a;
    var q, r := x / 0x1_0000_0000_0000_0000, x % 0x1_0000_0000_0000_0000;
    var k := q * c;
    assert x == (k * W + r / s) * s + r % s by {
      assert x == q * (s * (c * W)) + r;
      WindowProduct(q, s, c);
    }
    DivModUnique(x, k * W + r / s, r % s, s);
    CongIntro(k * W + r / s, r / s, k, W);
  }

  lemma WindowProduct(q: int, s: int, c: int)
    ensures q * (s * (c * W)) == q * c * W * s
  {
    MulAssoc(q, s * c, W);
    MulAssoc(s, c, W);
    assert q * (s * c) == q * c * s;
  }

  lemma {:induction false} Base51(n: int)
    requires n >= 0
    ensures n % W + W * (n / W % W) + W2 * (n / W2 % W) + W3 * (n / W3 % W) + W4 * (n / W4 % W) == n % W5
  {
    DivDiv(n, W, W);
    DivDiv(n, W2, W);
    DivDiv(n, W3, W);
    DivDiv(n, W4, W);
  }

  /** The low 255 bits, one digit per limb. */
  method FromBytes(b: seq<Byte>) returns (h: Fe)
    requires |b| == 32
    ensures Reduced(h) && Value(h) == LittleEndian(b) % W5
  {
    hide P256, LittleEndian;
    ghost var n := LittleEndian(b);
    var l0 := Load(b, 0);
    var l1 := Load(b, 6);
    var l2 := Load(b, 12);
    var l3 := Load(b, 19);
    var l4 := Load(b, 24);
    FromBytesDigits(b);
    h := [l0 % W, l1 / 8 % W, l2 / 64 % W, l3 / 2 % W, l4 / 4096 % W];
    hide *;
    Base51(n);
  }

  lemma FromBytesDigits(b: seq<Byte>)
    ensures var n := LittleEndian(b);
            var m := 0x1_0000_0000_0000_0000;
            && n / P256(0) % m % W == n % W
            && n / P256(6) % m / 8 % W == n / W % W
            && n / P256(12) % m / 64 % W == n / W2 % W
            && n / P256(19) % m / 2 % W == n / W3 % W
            && n / P256(24) % m / 4096 % W == n / W4 % W
  {
    var n := LittleEndian(b);
    PowersOf256();
    hide LittleEndian, P256;
    DigitThroughWindow(n, 1, 1, 8192);
    DigitThroughWindow(n, P256(6), 8, 1024);
    DigitThroughWindow(n, P256(12), 64, 128);
    DigitThroughWindow(n, P256(19), 2, 4096);
    DigitThroughWindow(n, P256(24), 4096, 2);
  }

  // ---- to bytes ------------------------------------------------------------

  predicate Canonical(h: Fe)
  {
    h[0] < W && h[1] < W && h[2] < W && h[3] < W && h[4] < W
  }

  /** A carry pass over a reduced element leaves proper 51-bit limbs. */
  method CarryReduced(h: array<U64>)
    requires h.Length == 5 && Reduced(h[..])
    modifies h
    ensures Canonical(h[..]) && Cong(Value(h[..]), old(Value(h[..])), PRIME)
  {
    var k := Carry(h);
    CarriedCong(old(Value(h[..])), k, Value(h[..]));
  }

  /** 1 when the value is at least the prime: the carry out of bit 255 of value + 19. */
  function Quotient(t: Fe): int
    requires Canonical(t)
  {
    (t[4] + (t[3] + (t[2] + (t[1] + (t[0] + 19) / W) / W) / W) / W) / W
  }

  lemma QuotientDecides(t: Fe)
    requires Canonical(t)
    ensures Quotient(t) == if Value(t) >= PRIME then 1 else 0
  {
    var q0 := (t[0] + 19) / W;
    var q1 := (t[1] + q0) / W;
    var q2 := (t[2] + q1) / W;
    var q3 := (t[3] + q2) / W;
    var q4 := (t[4] + q3) / W;
    var low := (t[0] + 19) % W + W * ((t[1] + q0) % W) + W2 * ((t[2] + q1) % W)
             + W3 * ((t[3] + q2) % W) + W4 * ((t[4] + q3) % W);
    assert Value(t) + 19 == low + W5 * q4;
  }

  /** Add 19 q, carry, and let the overflow of the top limb go. */
  method SubtractPrime(t: array<U64>, q: int)
    requires t.Length == 5 && Canonical(t[..])
    requires q == if Value(t[..]) >= PRIME then 1 else 0
    modifies t
    ensures Canonical(t[..]) && Value(t[..]) == old(Value(t[..])) - q * PRIME
  {
    ghost var v := Value(t[..]);
    t[0] := t[0] + 19 * q;
    assert Value(t[..]) == v + 19 * q;
    hide Value;
    CarryUp(t, 0);
    CarryUp(t, 1);
    CarryUp(t, 2);
    CarryUp(t, 3);
    DropTop(t, v + 19 * q, q);
  }

  method DropTop(t: array<U64>, ghost v: int, ghost q: int)
    requires t.Length == 5 && t[0] < W && t[1] < W && t[2] < W && t[3] < W
    requires Value(t[..]) == v && 0 <= v - q * W5 < W5
    modifies t
    ensures Canonical(t[..]) && Value(t[..]) == v - q * W5
  {
    ghost var top := t[4] / W;
    t[4] := t[4] % W;
  }

  /** low | high, where high has no bit below k and low none from it up. */
  function Or(low: int, high: int, k: int): int
    requires 0 <= low < k && high % k == 0
  {
    low + high
  }

  lemma DivScaled(lo: int, h: int, c: int, d: int)
    requires 0 <= lo < c && h >= 0 && d > 0
    ensures c * d > 0 && (lo + c * h) / (c * d) == h / d
  {
    DivModUnique(lo + c * h, h, lo, c);
    DivDiv(lo + c * h, c, d);
  }

  lemma {:induction false} DigitsOf(x: int, g: seq<Byte>)
    requires x >= 0 && forall k :: 0 <= k < |g| ==> g[k] == x / P256(k) % 256
    ensures LittleEndian(g) == x % P256(|g|)
  {
    if g != [] {
      var n := |g| - 1;
      forall k | 0 <= k < n ensures g[1..][k] == x / 256 / P256(k) % 256 {
        DivDiv(x, 256, P256(k));
      }
      DigitsOf(x / 256, g[1..]);
      ModStep(x, P256(n));
    }
  }

  lemma ModStep(x: int, p: int)
    requires x >= 0 && p > 0
    ensures x % (256 * p) == 256 * (x / 256 % p) + x % 256
  {
    var y := x / 256;
    var q, r := y / p, y % p;
    assert y == q * p + r;
    assert 256 * (q * p) == q * (256 * p);
    DivModUnique(x, q, 256 * r + x % 256, 256 * p);
  }

  /** Bytes that straddle a limb boundary: lo below bit position c of the first, then h. */
  lemma Group(lo: int, h: int, c: int, e: int, g: seq<Byte>)
    requires 0 <= lo < c && h >= 0 && c * e == 256 && e > 0 && g != []
    requires g[0] == (lo + c * h) % 256
    requires forall k :: 1 <= k < |g| ==> g[k] == h / (e * P256(k - 1)) % 256
    ensures LittleEndian(g) == (lo + c * h) % P256(|g|)
  {
    var x := lo + c * h;
    assert x >= 0 by { MulBounds(0, c, 0, h); }
    forall k | 0 <= k < |g| ensures g[k] == x / P256(k) % 256 {
      if k > 0 {
        DivScaled(lo, h, c, e * P256(k - 1));
        MulAssoc(c, e, P256(k - 1));
      }
    }
    DigitsOf(x, g);
  }

  lemma SmallP256()
    ensures P256(0) == 1 && P256(1) == 0x100 && P256(2) == 0x1_0000 && P256(3) == 0x100_0000
    ensures P256(4) == 0x1_0000_0000 && P256(5) == 0x100_0000_0000
  {
  }

  // The bytes that start in limbs 0 to 4, each group up to the next straddling byte.

  function Bytes0(h: int): (g: seq<Byte>)
    requires 0 <= h < W
    ensures |g| == 6 && LittleEndian(g) == h % P256(6)
  {
    var g := [h % 256, h / 0x100 % 256, h / 0x1_0000 % 256, h / 0x100_0000 % 256,
              h / 0x1_0000_0000 % 256, h / 0x100_0000_0000 % 256];
    SmallP256();
    Group(0, h, 1, 256, g);
    g
  }

  function Bytes1(l: int, h: int): (g: seq<Byte>)
    requires 0 <= l < W && 0 <= h < W
    ensures |g| == 6 && LittleEndian(g) == (l / 0x1_0000_0000_0000 + 8 * h) % P256(6)
  {
    var g := [Or(l / 0x1_0000_0000_0000, h * 8, 8) % 256, h / 0x20 % 256, h / 0x2000 % 256,
              h / 0x20_0000 % 256, h / 0x2000_0000 % 256, h / 0x20_0000_0000 % 256];
    SmallP256();
    Group(l / 0x1_0000_0000_0000, h, 8, 32, g);
    g
  }

  function Bytes2(l: int, h: int): (g: seq<Byte>)
    requires 0 <= l < W && 0 <= h < W
    ensures |g| == 7 && LittleEndian(g) == (l / 0x2000_0000_0000 + 64 * h) % P256(7)
  {
    var g := [Or(l / 0x2000_0000_0000, h * 64, 64) % 256, h / 4 % 256, h / 0x400 % 256, h / 0x4_0000 % 256,
              h / 0x400_0000 % 256, h / 0x4_0000_0000 % 256, h / 0x400_0000_0000 % 256];
    SmallP256();
    Group(l / 0x2000_0000_0000, h, 64, 4, g);
    g
  }

  function Bytes3(l: int, h: int): (g: seq<Byte>)
    requires 0 <= l < W && 0 <= h < W
    ensures |g| == 6 && LittleEndian(g) == (l / 0x4_0000_0000_0000 + 2 * h) % P256(6)
  {
    var g := [Or(l / 0x4_0000_0000_0000, h * 2, 2) % 256, h / 0x80 % 256, h / 0x8000 % 256,
              h / 0x80_0000 % 256, h / 0x8000_0000 % 256, h / 0x80_0000_0000 % 256];
    SmallP256();
    Group(l / 0x4_0000_0000_0000, h, 2, 128, g);
    g
  }

  function Bytes4(l: int, h: int): (g: seq<Byte>)
    requires 0 <= l < W && 0 <= h < W
    ensures |g| == 7 && LittleEndian(g) == (l / 0x8000_0000_0000 + 16 * h) % P256(7)
  {
    var g := [Or(l / 0x8000_0000_0000, h * 16, 16) % 256, h / 0x10 % 256, h / 0x1000 % 256, h / 0x10_0000 % 256,
              h / 0x1000_0000 % 256, h / 0x10_0000_0000 % 256, h / 0x1000_0000_0000 % 256];
    SmallP256();
    Group(l / 0x8000_0000_0000, h, 16, 16, g);
    g
  }

  /** The five limbs packed into 32 bytes, least significant first. */
  method Pack(h: Fe) returns (s: seq<Byte>)
    requires Canonical(h)
    ensures |s| == 32 && LittleEndian(s) == Value(h)
  {
    hide LittleEndian, P256, Bytes0, Bytes1, Bytes2, Bytes3, Bytes4;
    var g0 := Bytes0(h[0]);
    var g1 := Bytes1(h[0], h[1]);
    var g2 := Bytes2(h[1], h[2]);
    var g3 := Bytes3(h[2], h[3]);
    var g4 := Bytes4(h[3], h[4]);
    PowersOf256();
    LittleEndianAppend(g0, g1);
    LittleEndianAppend(g0 + g1, g2);
    LittleEndianAppend(g0 + g1 + g2, g3);
    LittleEndianAppend(g0 + g1 + g2 + g3, g4);
    s := g0 + g1 + g2 + g3 + g4;
    Assemble(h[0], h[1], h[2], h[3], h[4]);
  }

  lemma Assemble(h0: int, h1: int, h2: int, h3: int, h4: int)
    requires 0 <= h0 < W && 0 <= h1 < W && 0 <= h2 < W && 0 <= h3 < W && 0 <= h4 < W
    ensures h0 % 0x1_0000_0000_0000
          + 0x1_0000_0000_0000 * ((h0 / 0x1_0000_0000_0000 + 8 * h1) % 0x1_0000_0000_0000)
          + 0x1000000000000000000000000 * ((h1 / 0x2000_0000_0000 + 64 * h2) % 0x100_0000_0000_0000)
          + 0x100000000000000000000000000000000000000 * ((h2 / 0x4_0000_0000_0000 + 2 * h3) % 0x1_0000_0000_0000)
          + 0x100000000000000000000000000000000000000000000000000 * ((h3 / 0x8000_0000_0000 + 16 * h4) % 0x100_0000_0000_0000)
         == h0 + W * h1 + W2 * h2 + W3 * h3 + W4 * h4
  {
    DivScaled(h0 / 0x1_0000_0000_0000, h1, 8, 0x2000_0000_0000);
    DivScaled(h1 / 0x2000_0000_0000, h2, 64, 0x4_0000_0000_0000);
    DivScaled(h2 / 0x4_0000_0000_0000, h3, 2, 0x8000_0000_0000);
    Whole(h3 / 0x8000_0000_0000, h4);
  }

  lemma Whole(x: int, h4: int)
    requires 0 <= x < 16 && 0 <= h4 < W
    ensures (x + 16 * h4) % 0x100_0000_0000_0000 == x + 16 * h4
  {
  }

  method ToBytes(h: Fe) returns (s: seq<Byte>)
    requires Reduced(h)
    ensures |s| == 32 && LittleEndian(s) == Value(h) % PRIME
  {
    var t := new U64[5](i requires 0 <= i < 5 => h[i]);
    assert t[..] == h;
    CarryReduced(t);
    CarryReduced(t);
    assert 0 <= Value(t[..]) < W5;
    hide Value;
    QuotientDecides(t[..]);
    var q := (t[0] + 19) / W;
    q := (t[1] + q) / W;
    q := (t[2] + q) / W;
    q := (t[3] + q) / W;
    q := (t[4] + q) / W;
    ghost var v := Value(t[..]);
    SubtractPrime(t, q);
    CanonicalResidue(h, v, q, t[..]);
    s := Pack(t[..]);
  }

  lemma CanonicalResidue(h: Fe, v: int, q: int, t: Fe)
    requires 0 <= v < W5 && Cong(v, Value(h), PRIME) && Canonical(t) && Value(t) == v - q * PRIME
    requires q == if v >= PRIME then 1 else 0
    ensures Value(t) == Value(h) % PRIME
  {
    CongIntro(Value(t), v, -q, PRIME);
    assert 0 <= Value(t) < PRIME;
    DivModUnique(Value(t), 0, Value(t), PRIME);
  }

  /** Decoding an encoding gives the residue back. */
  method RoundTrip(h: Fe) returns (r: Fe)
    requires Reduced(h)
    ensures Value(r) == Value(h) % PRIME
  {
    var s := ToBytes(h);
    r := FromBytes(s);
    DivModUnique(Value(h) % PRIME, 0, Value(h) % PRIME, W5);
  }
}
