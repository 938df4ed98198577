/** kernel/src/crypto/x25519.rs: the field 2^255 - 19 in five 51-bit limbs. */
module Field25519 {
  import opened Arith

  type U64 = x: int | 0 <= x < 0x1_0000_0000_0000_0000
  type U128 = x: int | 0 <= x < 0x1_0000_0000_0000_0000_0000_0000_0000_0000

  /** 2^51 and its powers, the weights of the limbs. */
  const W: int := 0x8_0000_0000_0000
  const W2: int := 0x40000000000000000000000000
  const W3: int := 0x200000000000000000000000000000000000000
  const W4: int := 0x1000000000000000000000000000000000000000000000000000
  const W5: int := 0x8000000000000000000000000000000000000000000000000000000000000000

  const PRIME: int := 0x7fffffffffffffffffffffffffffffffffffffffffffffffffffffffffffffed

  type Fe = s: seq<U64> | |s| == 5 witness [0, 0, 0, 0, 0]

  function Value(h: Fe): int
  {
    h[0] + W * h[1] + W2 * h[2] + W3 * h[3] + W4 * h[4]
  }

  /** What every operation leaves behind: limb 0 may exceed 51 bits a little. */
  predicate Reduced(h: Fe)
  {
    h[0] < W + 64 && h[1] < W && h[2] < W && h[3] < W && h[4] < W
  }

  /** Upper limbs small enough that one carry pass cannot overflow a word. */
  predicate Loose(h: Fe)
  {
    forall i :: 1 <= i < 5 ==> h[i] < 0x8000_0000_0000_0000
  }

  /** Move what limb i holds above 51 bits into limb i + 1. */
  method CarryUp(h: array<U64>, i: nat)
    requires h.Length == 5 && i < 4 && h[i + 1] <= 0xFFFF_FFFF_FFFF_0000
    modifies h
    ensures Value(h[..]) == old(Value(h[..]))
    ensures h[i] == old(h[i]) % W < W
    ensures h[i + 1] == old(h[i + 1]) + old(h[i]) / W <= old(h[i + 1]) + 8192
    ensures forall j :: 0 <= j < 5 && j != i && j != i + 1 ==> h[j] == old(h[j])
  {
    var c := h[i] / W;
    h[i] := h[i] % W;
    h[i + 1] := h[i + 1] + c;
  }

  /** Wrap what limb 4 holds above 51 bits into limb 0: 2^255 is 19 modulo the prime. */
  method CarryTop(h: array<U64>) returns (ghost k: int)
    requires h.Length == 5 && h[0] < W
    modifies h
    ensures Value(h[..]) == old(Value(h[..])) - k * PRIME
    ensures h[4] < W && h[0] < W + 19 * k && 0 <= k && W * k <= old(h[4])
    ensures forall j :: 1 <= j < 4 ==> h[j] == old(h[j])
  {
    var c := h[4] / W;
    h[4] := h[4] % W;
    h[0] := h[0] + c * 19;
    k := c;
  }

  method Carry(h: array<U64>) returns (ghost k: int)
    requires h.Length == 5 && Loose(h[..])
    modifies h
    ensures Value(h[..]) == old(Value(h[..])) - k * PRIME
    ensures h[1] < W && h[2] < W && h[3] < W && h[4] < W
    ensures 0 <= k && h[0] < W + 19 * k && W * k <= old(h[4]) + 8192
  {
    hide Value;
    CarryUp(h, 0);
    CarryUp(h, 1);
    CarryUp(h, 2);
    CarryUp(h, 3);
    k := CarryTop(h);
  }

  // ---- addition and subtraction --------------------------------------------

  lemma CarriedCong(v: int, k: int, r: int)
    requires r == v - k * PRIME
    ensures Cong(r, v, PRIME)
  {
    CongIntro(r, v, -k, PRIME);
  }

  lemma LimbwiseSum(a: Fe, b: Fe, s: Fe)
    requires Reduced(a) && Reduced(b)
    requires forall j :: 0 <= j < 5 ==> s[j] == a[j] + b[j]
    ensures Value(s) == Value(a) + Value(b)
  {
  }

  lemma LimbwiseDifference(a: Fe, b: Fe, s: Fe)
    requires Reduced(a) && Reduced(b)
    requires s[0] == a[0] + TWO_P0 - b[0]
    requires forall j :: 1 <= j < 5 ==> s[j] == a[j] + TWO_P1 - b[j]
    ensures Value(s) == Value(a) - Value(b) + 2 * PRIME
  {
  }

  method Add(a: Fe, b: Fe) returns (r: Fe)
    requires Reduced(a) && Reduced(b)
    ensures Reduced(r) && Cong(Value(r), Value(a) + Value(b), PRIME)
  {
    hide Value;
    var h := new U64[5](_ => 0);
    var i := 0;
    while i < 5
      invariant 0 <= i <= 5
      invariant forall j :: 0 <= j < i ==> h[j] == a[j] + b[j]
    {
      h[i] := a[i] + b[i];
      i := i + 1;
    }
    LimbwiseSum(a, b, h[..]);
    var k := Carry(h);
    CarriedCong(Value(a) + Value(b), k, Value(h[..]));
    r := h[..];
  }

  const TWO_P0: U64 := 0xFFFFFFFFFFFDA
  const TWO_P1: U64 := 0xFFFFFFFFFFFFE

  method Sub(a: Fe, b: Fe) returns (r: Fe)
    requires Reduced(a) && Reduced(b)
    ensures Reduced(r) && Cong(Value(r), Value(a) - Value(b), PRIME)
  {
    hide Value;
    var h := new U64[5](_ => 0);
    h[0] := a[0] + TWO_P0 - b[0];
    var i := 1;
    while i < 5
      invariant 1 <= i <= 5
      invariant h[0] == a[0] + TWO_P0 - b[0]
      invariant forall j :: 1 <= j < i ==> h[j] == a[j] + TWO_P1 - b[j]
    {
      h[i] := a[i] + TWO_P1 - b[i];
      i := i + 1;
    }
    LimbwiseDifference(a, b, h[..]);
    var k := Carry(h);
    CarriedCong(Value(a) - Value(b), k - 2, Value(h[..]));
    r := h[..];
  }

  // ---- multiplication --------------------------------------------------------

  /** Five columns, weighted like limbs but not confined to words. */
  datatype Row = Row(c0: int, c1: int, c2: int, c3: int, c4: int) {
    function Sum(): int
    {
      c0 + W * c1 + W2 * c2 + W3 * c3 + W4 * c4
    }
  }

  function Limbs(b: Fe): Row
  {
    Row(b[0], b[1], b[2], b[3], b[4])
  }

  function Scaled(x: int, b: Row): Row
  {
    Row(x * b.c0, x * b.c1, x * b.c2, x * b.c3, x * b.c4)
  }

  lemma ScaledSum(x: int, b: Row)
    ensures Scaled(x, b).Sum() == x * b.Sum()
  {
    Distribute(x, b.c0, W * b.c1);
    Distribute(x, b.c0 + W * b.c1, W2 * b.c2);
    Distribute(x, b.c0 + W * b.c1 + W2 * b.c2, W3 * b.c3);
    Distribute(x, b.c0 + W * b.c1 + W2 * b.c2 + W3 * b.c3, W4 * b.c4);
  }

  /** Rows stacked one limb apart, the columns past the top folded back times 19. */
  function Folded(r0: Row, r1: Row, r2: Row, r3: Row, r4: Row): Row
  {
    Row(r0.c0 + 19 * r1.c4 + 19 * r2.c3 + 19 * r3.c2 + 19 * r4.c1,
        r0.c1 + r1.c0 + 19 * r2.c4 + 19 * r3.c3 + 19 * r4.c2,
        r0.c2 + r1.c1 + r2.c0 + 19 * r3.c4 + 19 * r4.c3,
        r0.c3 + r1.c2 + r2.c1 + r3.c0 + 19 * r4.c4,
        r0.c4 + r1.c3 + r2.c2 + r3.c1 + r4.c0)
  }

  lemma FoldedSum(r0: Row, r1: Row, r2: Row, r3: Row, r4: Row) returns (k: int)
    ensures Row(r0.Sum(), r1.Sum(), r2.Sum(), r3.Sum(), r4.Sum()).Sum()
         == Folded(r0, r1, r2, r3, r4).Sum() + k * PRIME
  {
    k := r1.c4 + r2.c3 + r3.c2 + r4.c1 + W * (r2.c4 + r3.c3 + r4.c2) + W2 * (r3.c4 + r4.c3) + W3 * r4.c4;
  }

  function Product(a: Row, b: Row): Row
  {
    Folded(Scaled(a.c0, b), Scaled(a.c1, b), Scaled(a.c2, b), Scaled(a.c3, b), Scaled(a.c4, b))
  }

  lemma ProductSum(a: Row, b: Row)
    ensures Cong(Product(a, b).Sum(), a.Sum() * b.Sum(), PRIME)
  {
    var v := b.Sum();
    var k := FoldedSum(Scaled(a.c0, b), Scaled(a.c1, b), Scaled(a.c2, b), Scaled(a.c3, b), Scaled(a.c4, b));
    ScaledSum(a.c0, b);
    ScaledSum(a.c1, b);
    ScaledSum(a.c2, b);
    ScaledSum(a.c3, b);
    ScaledSum(a.c4, b);
    ScaledSum(v, a);
    hide Row.Sum;
    assert Row(a.c0 * v, a.c1 * v, a.c2 * v, a.c3 * v, a.c4 * v) == Scaled(v, a);
    CongIntro(Product(a, b).Sum(), a.Sum() * v, -k, PRIME);
  }

  /** A reduced limb times a reduced limb. */
  lemma PartialBound(x: int, y: int)
    requires 0 <= x < W + 64 && 0 <= y < W + 64
    ensures 0 <= x * y < 0x80_0000_0000_0000_0000_0000_0000
  {
    MulBounds(x, W + 63, y, W + 63);
  }

  lemma PartialBounds(x: int, b: Fe)
    requires 0 <= x < W + 64 && Reduced(b)
    ensures var r := Scaled(x, Limbs(b));
            var top := 0x80_0000_0000_0000_0000_0000_0000;
            0 <= r.c0 < top && 0 <= r.c1 < top && 0 <= r.c2 < top && 0 <= r.c3 < top && 0 <= r.c4 < top
  {
    PartialBound(x, b[0]);
    PartialBound(x, b[1]);
    PartialBound(x, b[2]);
    PartialBound(x, b[3]);
    PartialBound(x, b[4]);
  }

  /** Every column of a product fits far inside 128 bits. */
  lemma ColumnBounds(a: Fe, b: Fe)
    requires Reduced(a) && Reduced(b)
    ensures var t := Product(Limbs(a), Limbs(b));
            var top := 0x4000_0000_0000_0000_0000_0000_0000;
            0 <= t.c0 < top && 0 <= t.c1 < top && 0 <= t.c2 < top && 0 <= t.c3 < top && 0 <= t.c4 < top / 8
  {
    PartialBounds(a[0], b);
    PartialBounds(a[1], b);
    PartialBounds(a[2], b);
    PartialBounds(a[3], b);
    PartialBounds(a[4], b);
    hide Scaled;
  }

  /** Columns of at most 110 bits down to limbs: r.Sum() = t.Sum() - k p. */
  method Squeeze(t: Row) returns (r: Fe, ghost k: int)
    requires var top := 0x4000_0000_0000_0000_0000_0000_0000;
             0 <= t.c0 < top && 0 <= t.c1 < top && 0 <= t.c2 < top && 0 <= t.c3 < top && 0 <= t.c4 < top / 8
    ensures Value(r) == t.Sum() - k * PRIME
    ensures r[0] < 0x4000_0000_0000_0000 && r[1] < W && r[2] < W && r[3] < W && r[4] < W
  {
    var t1: U128 := t.c1 + t.c0 / W;
    var t2: U128 := t.c2 + t1 / W;
    var t3: U128 := t.c3 + t2 / W;
    var t4: U128 := t.c4 + t3 / W;
    var c := t4 / W;
    r := [t.c0 % W + c * 19, t1 % W, t2 % W, t3 % W, t4 % W];
    k := c;
  }

  function Wide(x: U64, y: U64): int
  {
    x * y
  }

  lemma Nineteen(x: int, y: int)
    ensures x * (y * 19) == 19 * (x * y)
  {
  }

  /** The columns as the code sums them, with the limbs of b multiplied by 19 beforehand. */
  method ColumnSums(a: Fe, b: Fe) returns (t: Row)
    requires Reduced(a) && Reduced(b)
    ensures t == Product(Limbs(a), Limbs(b))
  {
    var b1: U64 := b[1] * 19;
    var b2: U64 := b[2] * 19;
    var b3: U64 := b[3] * 19;
    var b4: U64 := b[4] * 19;
    Nineteen(a[1], b[4]); Nineteen(a[2], b[3]); Nineteen(a[3], b[2]); Nineteen(a[4], b[1]);
    Nineteen(a[2], b[4]); Nineteen(a[3], b[3]); Nineteen(a[4], b[2]);
    Nineteen(a[3], b[4]); Nineteen(a[4], b[3]);
    Nineteen(a[4], b[4]);
    t := Row(Wide(a[0], b[0]) + Wide(a[1], b4) + Wide(a[2], b3) + Wide(a[3], b2) + Wide(a[4], b1),
             Wide(a[0], b[1]) + Wide(a[1], b[0]) + Wide(a[2], b4) + Wide(a[3], b3) + Wide(a[4], b2),
             Wide(a[0], b[2]) + Wide(a[1], b[1]) + Wide(a[2], b[0]) + Wide(a[3], b4) + Wide(a[4], b3),
             Wide(a[0], b[3]) + Wide(a[1], b[2]) + Wide(a[2], b[1]) + Wide(a[3], b[0]) + Wide(a[4], b4),
             Wide(a[0], b[4]) + Wide(a[1], b[3]) + Wide(a[2], b[2]) + Wide(a[3], b[1]) + Wide(a[4], b[0]));
  }

  /** The carry pass that ends mul and mul_small. */
  method CarryFe(h: Fe) returns (r: Fe)
    requires h[1] < W && h[2] < W && h[3] < W && h[4] < W
    ensures Reduced(r) && Cong(Value(r), Value(h), PRIME)
  {
    var t := new U64[5](i requires 0 <= i < 5 => h[i]);
    assert t[..] == h;
    var k := Carry(t);
    r := t[..];
    CarriedCong(Value(h), k, Value(r));
  }

  method Mul(a: Fe, b: Fe) returns (r: Fe)
    requires Reduced(a) && Reduced(b)
    ensures Reduced(r) && Cong(Value(r), Value(a) * Value(b), PRIME)
  {
    var t := ColumnSums(a, b);
    ColumnBounds(a, b);
    ProductSum(Limbs(a), Limbs(b));
    assert Limbs(a).Sum() == Value(a) && Limbs(b).Sum() == Value(b);
    hide Product, Value, Limbs;
    var h, k := Squeeze(t);
    CarriedCong(t.Sum(), k, Value(h));
    r := CarryFe(h);
  }

  /** Limbs h and carries c of x scaled by k, limb by limb. */
  lemma CarrySum(h: Fe, c: seq<int>, row: Row)
    requires |c| == 6 && c[0] == 0
    requires h[0] + W * c[1] == row.c0 + c[0]
    requires h[1] + W * c[2] == row.c1 + c[1]
    requires h[2] + W * c[3] == row.c2 + c[2]
    requires h[3] + W * c[4] == row.c3 + c[3]
    requires h[4] + W * c[5] == row.c4 + c[4]
    ensures Value(h) + W5 * c[5] == row.Sum()
  {
  }

  /** The word that takes the carry out of limb 4 does not wrap. */
  predicate SmallFits(a: Fe, k: U64)
  {
    a[0] * k % W + 19 * (Value(a) * k / W5) < 0x1_0000_0000_0000_0000
  }

  /** a k in five limbs, and the carry out of the last. */
  method ScaleLimbs(a: Fe, k: U64) returns (h: Fe, c: U128)
    requires Reduced(a)
    ensures h[0] < W && h[1] < W && h[2] < W && h[3] < W && h[4] < W && c < 0x2_0000_0000_0000_0000
    ensures Value(a) * k == Value(h) + W5 * c && h[0] == a[0] * k % W
  {
    assert Limbs(a).Sum() == Value(a);
    hide Value, Row.Sum;
    ScaledSum(k, Limbs(a));
    var s: seq<U64> := [];
    c := 0;
    var i := 0;
    ghost var cs: seq<int> := [0];
    while i < 5
      invariant 0 <= i <= 5 && |s| == i && c < 0x2_0000_0000_0000_0000
      invariant |cs| == i + 1 && cs[0] == 0 && cs[i] == c
      invariant forall j :: 0 <= j < i ==> s[j] < W && s[j] + W * cs[j + 1] == a[j] * k + cs[j]
    {
      SmallBound(a[i], k);
      var t: U128 := a[i] * k + c;
      s := s + [t % W];
      c := t / W;
      cs := cs + [c];
      i := i + 1;
    }
    CarrySum(s, cs, Scaled(k, Limbs(a)));
    DivModUnique(a[0] * k, cs[1], s[0], W);
    h := s;
  }

  /** a k modulo p for every constant that does not wrap the lowest limb, and for no other. */
  method MulSmall(a: Fe, k: U64) returns (r: Fe)
    requires Reduced(a)
    ensures Reduced(r)
    ensures Cong(Value(r), Value(a) * k, PRIME) <==> SmallFits(a, k)
  {
    hide Value, Cong;
    var h, c := ScaleLimbs(a, k);
    CarryOut(h, Value(a) * k, c);
    var f: Fe := h[0 := (h[0] + c * 19) % 0x1_0000_0000_0000_0000];
    WrapValue(h, f, c);
    WrapCong(Value(a) * k, c, h[0], Value(f));
    r := CarryFe(f);
    CongThrough(Value(r), Value(f), Value(a) * k, PRIME);
  }

  lemma CongThrough(a: int, b: int, c: int, m: int)
    requires m > 0 && Cong(a, b, m)
    ensures Cong(a, c, m) <==> Cong(b, c, m)
  {
  }

  /** The carry out of limb 4 is the quotient by 2^255. */
  lemma CarryOut(h: Fe, v: int, c: int)
    requires h[0] < W && h[1] < W && h[2] < W && h[3] < W && h[4] < W && v == Value(h) + W5 * c
    ensures c == v / W5
  {
    DivModUnique(v, c, Value(h), W5);
  }

  lemma WrapValue(h: Fe, f: Fe, c: int)
    requires f[0] == (h[0] + c * 19) % 0x1_0000_0000_0000_0000 && f[1..] == h[1..]
    ensures Value(f) == Value(h) + 19 * c - (h[0] + c * 19) / 0x1_0000_0000_0000_0000 * 0x1_0000_0000_0000_0000
  {
    assert forall j :: 0 <= j < 4 ==> f[j + 1] == f[1..][j] && h[j + 1] == h[1..][j];
  }

  /** A wrapped word is off by a multiple of 2^64 too small to be one of p. */
  lemma WrapCong(v: int, c: int, low: int, f: int)
    requires 0 <= c < 0x2_0000_0000_0000_0000 && 0 <= low < W
    requires f == v - W5 * c + 19 * c - (low + c * 19) / 0x1_0000_0000_0000_0000 * 0x1_0000_0000_0000_0000
    ensures Cong(f, v, PRIME) <==> low + 19 * c < 0x1_0000_0000_0000_0000
  {
    var j := (low + c * 19) / 0x1_0000_0000_0000_0000;
    var d := j * 0x1_0000_0000_0000_0000;
    assert 0 <= j < 40;
    if j == 0 {
      CongIntro(f, v, -c, PRIME);
    } else if Cong(f, v, PRIME) {
      var k := CongElim(f, v, PRIME);
      assert d == (-c - k) * PRIME;
      Between(-c - k, d);
    }
  }

  lemma Between(k: int, d: int)
    requires d == k * PRIME
    ensures !(0 < d < PRIME)
  {
    if k >= 1 { MulLe(1, k, PRIME); } else { MulLe(k, 0, PRIME); }
  }

  lemma SmallBound(x: int, k: int)
    requires 0 <= x < W + 64 && 0 <= k < 0x1_0000_0000_0000_0000
    ensures 0 <= x * k < 0x1_0000_0000_0000_0000 * (W + 64)
  {
    MulBounds(x, W + 63, k, 0xFFFF_FFFF_FFFF_FFFF);
  }

  /** Every constant up to 2^59 fits, whatever it multiplies. */
  lemma SmallConstants(a: Fe, k: U64)
    requires Reduced(a) && k <= 0x800_0000_0000_0000
    ensures SmallFits(a, k)
  {
    var v := Value(a);
    assert v < W5 + 64;
    hide Value;
    MulBounds(v, W5 + 63, k, 0x800_0000_0000_0000);
    QuotientBelow(v * k, 0x800_0000_0000_0001);
  }

  lemma QuotientBelow(x: int, q: int)
    requires 0 <= x < W5 * q
    ensures x / W5 < q
  {
  }

  /** A constant of 60 bits need not: it wraps against 2^255 - 1. */
  lemma SmallWraps()
    ensures Reduced([W - 1, W - 1, W - 1, W - 1, W - 1])
    ensures !SmallFits([W - 1, W - 1, W - 1, W - 1, W - 1], 0x1000_0000_0000_0000)
  {
    var a: Fe := [W - 1, W - 1, W - 1, W - 1, W - 1];
    assert Value(a) == W5 - 1;
    DivModUnique((W5 - 1) * 0x1000_0000_0000_0000, 0xFFF_FFFF_FFFF_FFFF, W5 - 0x1000_0000_0000_0000, W5);
  }
}
