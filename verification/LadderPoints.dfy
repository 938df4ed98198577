/** The ladder of kernel/src/crypto/x25519.rs as a multiplication of points of a Montgomery curve. */
module LadderPoints {
  import opened Arith
  import Field25519
  import opened Octets
  import opened PrimeField
  import opened Montgomery
  import X = X25519

  // ---- one round of the ladder ---------------------------------------------------------------

  function DoubleZ(x: int, z: int): int
  {
    4 * (x * z) * (x * x + A * (x * z) + z * z)
  }

  /** The doubling and the differential addition of a round, as polynomials. */
  lemma StepIs(x1: int, p: X.Points)
    ensures var r := X.Step(x1, p);
            && r.x2 == Sq(p.x2 * p.x2 - p.z2 * p.z2) && r.z2 == DoubleZ(p.x2, p.z2)
            && r.x3 == 4 * Sq(p.x2 * p.x3 - p.z2 * p.z3) && r.z3 == 4 * (x1 * Sq(p.x2 * p.z3 - p.x3 * p.z2))
  {
    hide DoubleZ;
    var x, z := p.x2, p.z2;
    SumAndDifference(x, z);
    DoubleStep(x, z, x * x, x * z, z * z);
    CrossProducts(x, z, p.x3, p.z3);
    SumStep(x1, x * p.x3 - z * p.z3, x * p.z3 - p.x3 * z);
  }

  lemma SumStep(x1: int, s: int, d: int)
    ensures (2 * s) * (2 * s) == 4 * Sq(s) && x1 * ((-2 * d) * (-2 * d)) == 4 * (x1 * Sq(d))
  {
    Swap(x1, 4 * Sq(d));
    MulAssoc(4, Sq(d), x1);
    Swap(x1, Sq(d));
  }

  lemma SumAndDifference(x: int, z: int)
    ensures (x + z) * (x + z) == x * x + 2 * (x * z) + z * z && (x - z) * (x - z) == x * x - 2 * (x * z) + z * z
    ensures (x + z) * (x + z) * ((x - z) * (x - z)) == Sq(x * x - z * z)
  {
    Interchange(x + z, x + z, x - z, x - z);
    assert (x + z) * (x - z) == x * x - z * z;
  }

  lemma DoubleStep(x: int, z: int, xx: int, xz: int, zz: int)
    requires xx == x * x && xz == x * z && zz == z * z
    ensures var aa, e := xx + 2 * xz + zz, 4 * xz;
            e * (aa + e * X.A24) == DoubleZ(x, z)
  {
  }

  lemma CrossProducts(x: int, z: int, x3: int, z3: int)
    ensures (x3 - z3) * (x + z) + (x3 + z3) * (x - z) == 2 * (x * x3 - z * z3)
    ensures (x3 - z3) * (x + z) - (x3 + z3) * (x - z) == -2 * (x * z3 - x3 * z)
  {
    Distribute(x3 - z3, x, z);
    Distribute(x3 + z3, x, z);
    Distribute(x, x3, z3);
    Distribute(z, x3, z3);
  }

  /** x : z is the u coordinate of q; the origin is 1 : 0. */
  ghost predicate Represents(x: int, z: int, q: Affine, p: int)
    requires p > 0
  {
    if q.Origin? then z % p == 0 && x % p != 0 else z % p != 0 && Cong(x, q.u * z, p)
  }

  lemma DoubleForms(x: int, z: int, a: int, p: int)
    requires p > 0 && Cong(x, a * z, p)
    ensures var w := Sq(z * z);
            && Cong(Sq(x * x - z * z), w * Sq(a * a - 1), p) && Cong(DoubleZ(x, z), w * (4 * F(a)), p)
  {
    hide F, Cong, Sq;
    var q := z * z;
    CongMul(x, a * z, x, a * z, p);
    Interchange(a, z, a, z);
    SelfCong(z, p);
    CongMul(x, a * z, z, z, p);
    MulAssoc(a, z, z);
    SquareForm(x * x, q, a, p);
    ZForm(x * x, x * z, q, a, p);
  }

  lemma SelfCong(z: int, p: int)
    requires p > 0
    ensures Cong(z, z, p)
  {
  }

  lemma SquareForm(xx: int, q: int, a: int, p: int)
    requires p > 0 && Cong(xx, a * a * q, p)
    ensures Cong(Sq(xx - q), Sq(q) * Sq(a * a - 1), p)
  {
    hide Cong, Sq;
    var k := a * a - 1;
    SelfCong(q, p);
    CongAdd(xx, a * a * q, q, q, p);
    TakeOne(a * a, q);
    CongSq(xx - q, k * q, p);
    SqProduct(k, q);
  }

  lemma TakeOne(c: int, q: int)
    ensures c * q - q == (c - 1) * q
  {
  }

  lemma CongSq(x: int, y: int, p: int)
    requires p > 0 && Cong(x, y, p)
    ensures Cong(Sq(x), Sq(y), p)
  {
    CongMul(x, y, x, y, p);
  }

  lemma SqProduct(k: int, q: int)
    ensures Sq(k * q) == Sq(q) * Sq(k)
  {
    Interchange(k, q, k, q);
    Swap(k * k, q * q);
  }

  lemma ZForm(xx: int, xz: int, q: int, a: int, p: int)
    requires p > 0 && Cong(xx, a * a * q, p) && Cong(xz, a * q, p)
    ensures Cong(4 * xz * (xx + A * xz + q), Sq(q) * (4 * F(a)), p)
  {
    var k := a * a + A * a + 1;
    CongMul(A, A, xz, a * q, p);
    CongAdd(xx, a * a * q, A * xz, A * (a * q), p);
    CongAdd(xx + A * xz, a * a * q + A * (a * q), q, q, p);
    ZSum(a, q, k);
    CongMul(4, 4, xz, a * q, p);
    CongMul(4 * xz, 4 * (a * q), xx + A * xz + q, k * q, p);
    FactorF(a, k);
    ZProduct(a, q, k);
  }

  lemma ZSum(a: int, q: int, k: int)
    requires k == a * a + A * a + 1
    ensures a * a * q + A * (a * q) + q == k * q
  {
    Distribute(q, a * a, A * a + 1);
    Distribute(q, A * a, 1);
    MulAssoc(A, a, q);
  }

  lemma ZProduct(a: int, q: int, k: int)
    ensures 4 * (a * q) * (k * q) == Sq(q) * (4 * (a * k))
  {
    Interchange(a, q, k, q);
    var w := a * q * (k * q);
    assert 4 * (a * q) * (k * q) == 4 * w by { MulAssoc(4, a * q, k * q); }
    assert Sq(q) * (4 * (a * k)) == 4 * (a * k * (q * q)) by { Swap(q * q, 4 * (a * k)); MulAssoc(4, a * k, q * q); }
  }

  lemma NonZero(x: int, y: int, p: int)
    requires IsPrime(p) && x % p != 0 && y % p != 0
    ensures x * y % p != 0
  {
    hide Divides;
    ZeroProduct(x, y, p);
  }

  /** The points with u = 1 and u = -1 are not of order two. */
  lemma NotOfOrderTwo(a: int, p: int)
    requires IsPrime(p) && p > 1000000 && 0 <= a < p && Cong(F(a), 0, p)
    ensures (a * a - 1) % p != 0
  {
    hide Divides;
    if (a * a - 1) % p == 0 {
      assert (a - 1) * (a + 1) == a * a - 1;
      ZeroProduct(a - 1, a + 1, p);
      if (a - 1) % p == 0 {
        FAt(a, 1, p);
        DivModUnique(486664, 0, 486664, p);
      } else {
        FAt(a, -1, p);
        DivModUnique(486660, 0, 486660, p);
      }
    }
  }

  lemma FAt(a: int, c: int, p: int)
    requires p > 0 && (a - c) % p == 0 && c in {1, -1}
    ensures Cong(F(a), if c == 1 then 486664 else 486660, p)
  {
    Difference(a, c, p);
    CongMul(a, c, a, c, p);
    CongMul(a * a, c * c, a, c, p);
    CongMul(A, A, a * a, c * c, p);
    CongAdd(a * a * a, c * c * c, A * (a * a), A * (c * c), p);
    CongAdd(a * a * a + A * (a * a), c * c * c + A * (c * c), a, c, p);
  }

  /** The doubling of a round doubles the point. */
  lemma DoubleRepresents(x: int, z: int, q: Affine, b: int, p: int)
    requires Curve(b, p) && CurvePoint(q, b, p) && Represents(x, z, q, p)
    ensures Represents(Sq(x * x - z * z), DoubleZ(x, z), Add(q, q, b, p), p)
  {
    hide F, Divides, Cong, Third, Tangent, Sq, DoubleZ;
    if q.Origin? {
      DoubleOrigin(x, z, p);
    } else {
      DoubleForms(x, z, q.u, p);
      OnCurveIs(q, b, p);
      FourthPower(z, p);
      var w := Sq(z * z);
      if q.v == 0 {
        OrderTwo(q.u, w, Sq(x * x - z * z), DoubleZ(x, z), b, p);
      } else {
        DoubleU(q, b, p);
        Apart(q.v, 0, p);
        DoubledPoint(Add(q, q, b, p).u, q.u, q.v, w, Sq(x * x - z * z), DoubleZ(x, z), b, p);
      }
    }
  }

  lemma FourthPower(z: int, p: int)
    requires IsPrime(p) && z % p != 0
    ensures Sq(z * z) % p != 0
  {
    hide Divides;
    NonZero(z, z, p);
    NonZero(z * z, z * z, p);
  }

  lemma DoubleOrigin(x: int, z: int, p: int)
    requires IsPrime(p) && z % p == 0 && x % p != 0
    ensures DoubleZ(x, z) % p == 0 && Sq(x * x - z * z) % p != 0
  {
    hide Divides;
    ZeroProduct(x, z, p);
    ZeroProduct(z, z, p);
    ZeroProduct(4, x * z, p);
    ZeroProduct(4 * (x * z), x * x + A * (x * z) + z * z, p);
    NonZero(x, x, p);
    CongAdd(x * x, x * x, z * z, 0, p);
    NonZero(x * x - z * z, x * x - z * z, p);
  }

  lemma OrderTwo(a: int, w: int, x: int, z: int, b: int, p: int)
    requires IsPrime(p) && p > 1000000 && 0 <= a < p && w % p != 0
    requires Cong(b * (0 * 0), F(a), p) && Cong(x, w * Sq(a * a - 1), p) && Cong(z, w * (4 * F(a)), p)
    ensures z % p == 0 && x % p != 0
  {
    hide Divides, F;
    assert b * (0 * 0) == 0;
    NotOfOrderTwo(a, p);
    NonZero(a * a - 1, a * a - 1, p);
    NonZero(w, Sq(a * a - 1), p);
    ZeroProduct(4, F(a), p);
    ZeroProduct(w, 4 * F(a), p);
  }

  lemma DoubledPoint(u: int, a: int, s: int, w: int, x: int, z: int, b: int, p: int)
    requires Curve(b, p) && s % p != 0 && w % p != 0
    requires Cong(b * (s * s), F(a), p) && Cong(u * (4 * (b * (s * s))), Sq(a * a - 1), p)
    requires Cong(x, w * Sq(a * a - 1), p) && Cong(z, w * (4 * F(a)), p)
    ensures z % p != 0 && Cong(x, u * z, p)
  {
    hide Divides, F, Sq;
    var f := 4 * (b * (s * s));
    NonZero(s, s, p);
    NonZero(b, s * s, p);
    DivModUnique(4, 0, 4, p);
    NonZero(4, b * (s * s), p);
    NonZero(w, f, p);
    CongMul(4, 4, b * (s * s), F(a), p);
    CongMul(w, w, f, 4 * F(a), p);
    CongMul(u, u, z, w * f, p);
    CongMul(w, w, u * f, Sq(a * a - 1), p);
    assert u * (w * f) == w * (u * f) by { MulAssoc(u, w, f); Swap(u, w); MulAssoc(w, u, f); }
  }

  function SumX(x2: int, z2: int, x3: int, z3: int): int
  {
    4 * Sq(x2 * x3 - z2 * z3)
  }

  function SumZ(x1: int, x2: int, z2: int, x3: int, z3: int): int
  {
    4 * (x1 * Sq(x2 * z3 - x3 * z2))
  }

  lemma SumSymmetric(x1: int, x2: int, z2: int, x3: int, z3: int)
    ensures SumX(x3, z3, x2, z2) == SumX(x2, z2, x3, z3) && SumZ(x1, x3, z3, x2, z2) == SumZ(x1, x2, z2, x3, z3)
  {
    hide Sq;
    Swap(x2, x3);
    Swap(z2, z3);
    OppositeSq(x2 * z3 - x3 * z2);
  }

  lemma OppositeSq(d: int)
    ensures Sq(-d) == Sq(d)
  {
  }

  /** The sum of a pair standing for a and e, brought to the common scale w. */
  lemma SumForms(x1: int, x2: int, z2: int, x3: int, z3: int, a: int, e: int, p: int)
    requires p > 0 && Cong(x2, a * z2, p) && Cong(x3, e * z3, p)
    ensures var w := Sq(z2 * z3);
            && Cong(SumX(x2, z2, x3, z3), 4 * (w * Sq(a * e - 1)), p)
            && Cong(SumZ(x1, x2, z2, x3, z3), 4 * (x1 * (w * Sq(a - e))), p)
  {
    hide Cong, Sq;
    ProductForm(x2, z2, x3, z3, a, e, p);
    CrossForm(x2, z2, x3, z3, a, e, p);
    var w, t, d := z2 * z3, x2 * x3 - z2 * z3, x2 * z3 - x3 * z2;
    ScaledSquare(t, a * e - 1, w, p);
    CongScale(4, Sq(t), Sq(w) * Sq(a * e - 1), p);
    ScaledSquare(d, a - e, w, p);
    CongScale(x1, Sq(d), Sq(w) * Sq(a - e), p);
    CongScale(4, x1 * Sq(d), x1 * (Sq(w) * Sq(a - e)), p);
  }

  lemma CongScale(c: int, x: int, y: int, p: int)
    requires p > 0 && Cong(x, y, p)
    ensures Cong(c * x, c * y, p)
  {
    CongMul(c, c, x, y, p);
  }

  lemma ProductForm(x2: int, z2: int, x3: int, z3: int, a: int, e: int, p: int)
    requires p > 0 && Cong(x2, a * z2, p) && Cong(x3, e * z3, p)
    ensures Cong(x2 * x3 - z2 * z3, (a * e - 1) * (z2 * z3), p)
  {
    hide Cong;
    var w := z2 * z3;
    SelfCong(w, p);
    CongMul(x2, a * z2, x3, e * z3, p);
    Interchange(a, z2, e, z3);
    CongAdd(x2 * x3, a * e * w, w, w, p);
    TakeOne(a * e, w);
  }

  lemma ScaledSquare(x: int, k: int, w: int, p: int)
    requires p > 0 && Cong(x, k * w, p)
    ensures Cong(Sq(x), Sq(w) * Sq(k), p)
  {
    CongSq(x, k * w, p);
    SqProduct(k, w);
  }

  lemma CrossForm(x2: int, z2: int, x3: int, z3: int, a: int, e: int, p: int)
    requires p > 0 && Cong(x2, a * z2, p) && Cong(x3, e * z3, p)
    ensures Cong(x2 * z3 - x3 * z2, (a - e) * (z2 * z3), p)
  {
    CongMul(x2, a * z2, z3, z3, p);
    CongMul(x3, e * z3, z2, z2, p);
    CongAdd(x2 * z3, a * z2 * z3, x3 * z2, e * z3 * z2, p);
    CrossMath(z2, z3, a, e);
  }

  lemma CrossMath(z2: int, z3: int, a: int, e: int)
    ensures a * z2 * z3 - e * z3 * z2 == (a - e) * (z2 * z3)
  {
    MulAssoc(a, z2, z3);
    MulAssoc(e, z3, z2);
    Swap(z2, z3);
    Distribute(z2 * z3, a, e);
  }

  lemma FourTimes(x: int, p: int)
    requires IsPrime(p) && p > 4 && x % p != 0
    ensures 4 * x % p != 0
  {
    hide Divides;
    DivModUnique(4, 0, 4, p);
    NonZero(4, x, p);
  }

  /** One of the two points is the origin, so the other is the difference, and the sum. */
  lemma SumWithOrigin(x1: int, x: int, z: int, x3: int, z3: int, u: int, p: int)
    requires IsPrime(p) && p > 4 && z % p == 0 && x % p != 0 && z3 % p != 0 && Cong(x3, u * z3, p)
    requires Cong(x1, u, p) && u % p != 0
    ensures SumZ(x1, x, z, x3, z3) % p != 0 && Cong(SumX(x, z, x3, z3), u * SumZ(x1, x, z, x3, z3), p)
  {
    hide Sq, Divides;
    var t := x * z3;
    ZeroTimes(x3, z, p);
    ZeroTimes(z3, z, p);
    Swap(z3, z);
    CongAdd(x * z3, t, x3 * z, 0, p);
    NonZero(x, z3, p);
    CongSq(x * z3 - x3 * z, t, p);
    SquareNotZero(t, p);
    NonZero(u, Sq(t), p);
    CongMul(x1, u, Sq(x * z3 - x3 * z), Sq(t), p);
    FourTimes(x1 * Sq(x * z3 - x3 * z), p);
    OriginX(x, z, x3, z3, u, p);
    CongMul(4, 4, x1 * Sq(x * z3 - x3 * z), u * Sq(t), p);
    CongMul(u, u, SumZ(x1, x, z, x3, z3), 4 * (u * Sq(t)), p);
    OriginMath(u, Sq(t));
  }

  lemma OriginMath(u: int, t: int)
    ensures u * (4 * (u * t)) == 4 * (t * Sq(u))
  {
    MulAssoc(u, u, t);
    Swap(u * u, t);
  }

  lemma OriginX(x: int, z: int, x3: int, z3: int, u: int, p: int)
    requires p > 0 && Cong(z, 0, p) && Cong(x3, u * z3, p)
    ensures Cong(SumX(x, z, x3, z3), 4 * (Sq(x * z3) * Sq(u)), p)
  {
    hide Sq;
    var t := x * z3;
    CongMul(x, x, x3, u * z3, p);
    ZeroTimes(z3, z, p);
    Swap(z3, z);
    CongAdd(x * x3, x * (u * z3), z * z3, 0, p);
    MulAssoc(x, u, z3);
    Swap(x, u);
    MulAssoc(u, x, z3);
    ScaledSquare(x * x3 - z * z3, u, t, p);
    CongMul(4, 4, Sq(x * x3 - z * z3), Sq(t) * Sq(u), p);
  }

  /** The second point is the negative of the first: the sum is the origin. */
  lemma SumOfOpposites(x1: int, x2: int, z2: int, x3: int, z3: int, a: int, p: int)
    requires IsPrime(p) && p > 4 && z2 % p != 0 && z3 % p != 0 && Cong(x2, a * z2, p) && Cong(x3, a * z3, p)
    requires Sq(a * a - 1) % p != 0
    ensures SumZ(x1, x2, z2, x3, z3) % p == 0 && SumX(x2, z2, x3, z3) % p != 0
  {
    hide Sq, Divides, SumX, SumZ;
    SumForms(x1, x2, z2, x3, z3, a, a, p);
    var w := Sq(z2 * z3);
    NonZero(z2, z3, p);
    SquareNotZero(z2 * z3, p);
    NonZero(w, Sq(a * a - 1), p);
    FourTimes(w * Sq(a * a - 1), p);
    assert Sq(0) == 0 && 4 * (x1 * (w * 0)) == 0 by { NoSquare(x1, w); }
  }

  lemma NoSquare(x1: int, w: int)
    ensures Sq(0) == 0 && 4 * (x1 * (w * 0)) == 0
  {
  }

  /** Two points over different u. */
  lemma SumOfDistinct(x1: int, x2: int, z2: int, x3: int, z3: int, a: int, e: int, u: int, s: int, p: int)
    requires IsPrime(p) && p > 4 && z2 % p != 0 && z3 % p != 0 && Cong(x2, a * z2, p) && Cong(x3, e * z3, p)
    requires Cong(x1, u, p) && u % p != 0 && (e - a) % p != 0 && Cong(s * u * Sq(e - a), Sq(a * e - 1), p)
    ensures SumZ(x1, x2, z2, x3, z3) % p != 0 && Cong(SumX(x2, z2, x3, z3), s * SumZ(x1, x2, z2, x3, z3), p)
  {
    hide Sq, Divides, SumX, SumZ, Cong;
    SumForms(x1, x2, z2, x3, z3, a, e, p);
    OppositeSq(e - a);
    assert -(e - a) == a - e;
    var w, g, h := Sq(z2 * z3), Sq(e - a), Sq(a * e - 1);
    NonZero(z2, z3, p);
    SquareNotZero(z2 * z3, p);
    SquareNotZero(e - a, p);
    DistinctMath(SumX(x2, z2, x3, z3), SumZ(x1, x2, z2, x3, z3), x1, u, s, w, g, h, p);
  }

  lemma DistinctMath(x: int, z: int, x1: int, u: int, s: int, w: int, g: int, h: int, p: int)
    requires IsPrime(p) && p > 4 && w % p != 0 && g % p != 0 && u % p != 0 && Cong(x1, u, p)
    requires Cong(x, 4 * (w * h), p) && Cong(z, 4 * (x1 * (w * g)), p) && Cong(s * u * g, h, p)
    ensures z % p != 0 && Cong(x, s * z, p)
  {
    hide Divides;
    NonZero(w, g, p);
    NonZero(x1, w * g, p);
    FourTimes(x1 * (w * g), p);
    CongMul(x1, u, w * g, w * g, p);
    CongMul(4, 4, x1 * (w * g), u * (w * g), p);
    CongMul(s, s, z, 4 * (u * (w * g)), p);
    CongMul(w, w, s * u * g, h, p);
    CongMul(4, 4, w * (s * u * g), w * h, p);
    DistinctProduct(s, u, w, g);
  }

  lemma DistinctProduct(s: int, u: int, w: int, g: int)
    ensures s * (4 * (u * (w * g))) == 4 * (w * (s * u * g))
  {
    MulAssoc(s, u, g);
    Front(w, u, g);
    Front(w, s, u * g);
    Front(s, 4, u * (w * g));
  }

  lemma Front(a: int, b: int, c: int)
    ensures a * (b * c) == b * (a * c)
  {
    MulAssoc(a, b, c);
    Swap(a, b);
    MulAssoc(b, a, c);
  }

  lemma NotOwnNegative(v: int, p: int)
    requires p > 2 && p % 2 == 1 && 0 < v < p
    ensures (-v) % p != v
  {
    DivModUnique(-v, -1, p - v, p);
  }

  /** The differential addition of a round adds the points, given their difference. */
  lemma SumRepresents(x1: int, x2: int, z2: int, x3: int, z3: int, q: Affine, r: Affine, b: int, p: int)
    requires Curve(b, p) && CurvePoint(q, b, p) && CurvePoint(r, b, p)
    requires Represents(x2, z2, q, p) && Represents(x3, z3, r, p)
    requires var d := Add(r, Neg(q, p), b, p); d.Point? && d.u % p != 0 && Cong(x1, d.u, p)
    ensures Represents(SumX(x2, z2, x3, z3), SumZ(x1, x2, z2, x3, z3), Add(q, r, b, p), p)
  {
    hide F, Divides, Cong, Third, Tangent, Chord, Sq, SumX, SumZ;
    var d := Add(r, Neg(q, p), b, p);
    if q.Origin? {
      SumWithOrigin(x1, x2, z2, x3, z3, d.u, p);
    } else if r.Origin? {
      SumWithOrigin(x1, x3, z3, x2, z2, d.u, p);
      SumSymmetric(x1, x2, z2, x3, z3);
    } else if q.u == r.u {
      OppositePoints(q, r, b, p);
      SumOfOpposites(x1, x2, z2, x3, z3, q.u, p);
    } else {
      SumU(q, r, b, p);
      Apart(r.u, q.u, p);
      SumOfDistinct(x1, x2, z2, x3, z3, q.u, r.u, d.u, Add(q, r, b, p).u, p);
    }
  }

  lemma OppositePoints(q: Affine, r: Affine, b: int, p: int)
    requires Curve(b, p) && CurvePoint(q, b, p) && CurvePoint(r, b, p) && q.Point? && r.Point? && q.u == r.u
    requires var d := Add(r, Neg(q, p), b, p); d.Point? && d.u % p != 0
    ensures Add(q, r, b, p) == Origin && Sq(q.u * q.u - 1) % p != 0
  {
    hide F, Divides, Third, Tangent, Chord, Sq;
    assert r == Neg(q, p) && r.v != 0;
    DoubleU(r, b, p);
    Apart(r.v, 0, p);
    NonZero(r.v, r.v, p);
    NonZero(b, r.v * r.v, p);
    FourTimes(b * (r.v * r.v), p);
    NonZero(Add(r, r, b, p).u, 4 * (b * (r.v * r.v)), p);
    OddPrime(p);
    if q.v != 0 { NotOwnNegative(q.v, p); }
  }

  lemma OddPrime(p: int)
    requires IsPrime(p) && p > 2
    ensures p % 2 == 1
  {
    assert Divides(2, p) == (p % 2 == 0);
  }

  // ---- multiples of a point ------------------------------------------------------------------

  ghost function Multiple(n: nat, g: Affine, b: int, p: int): Affine
    requires IsPrime(p)
  {
    if n == 0 then Origin else Add(g, Multiple(n - 1, g, b, p), b, p)
  }

  /** The law is associative on the points of the curve. */
  ghost predicate Associative(b: int, p: int)
    requires IsPrime(p)
  {
    forall x, y, z | CurvePoint(x, b, p) && CurvePoint(y, b, p) && CurvePoint(z, b, p) ::
      Add(Add(x, y, b, p), z, b, p) == Add(x, Add(y, z, b, p), b, p)
  }

  lemma AssociativeAt(x: Affine, y: Affine, z: Affine, b: int, p: int)
    requires Curve(b, p) && Associative(b, p) && CurvePoint(x, b, p) && CurvePoint(y, b, p) && CurvePoint(z, b, p)
    ensures Add(Add(x, y, b, p), z, b, p) == Add(x, Add(y, z, b, p), b, p)
  {
    hide Add, CurvePoint, IsPrime;
  }

  lemma {:induction false} MultipleOnCurve(n: nat, g: Affine, b: int, p: int)
    requires Curve(b, p) && CurvePoint(g, b, p)
    ensures CurvePoint(Multiple(n, g, b, p), b, p)
  {
    hide Add, Divides;
    if n > 0 {
      MultipleOnCurve(n - 1, g, b, p);
      AddOnCurve(g, Multiple(n - 1, g, b, p), b, p);
    }
  }

  lemma OriginSides(x: Affine, b: int, p: int)
    requires IsPrime(p)
    ensures Add(Origin, x, b, p) == x && Add(x, Origin, b, p) == x
  {
    hide Divides, Third, Chord, Tangent;
  }

  lemma {:induction false} MultipleAdds(m: nat, n: nat, g: Affine, b: int, p: int)
    requires Curve(b, p) && CurvePoint(g, b, p) && Associative(b, p)
    ensures Multiple(m + n, g, b, p) == Add(Multiple(m, g, b, p), Multiple(n, g, b, p), b, p)
  {
    hide Add, CurvePoint, IsPrime, Associative;
    if m == 0 {
      OriginSides(Multiple(n, g, b, p), b, p);
    } else {
      MultipleAdds(m - 1, n, g, b, p);
      MultipleOnCurve(m - 1, g, b, p);
      MultipleOnCurve(n, g, b, p);
      AssociativeAt(g, Multiple(m - 1, g, b, p), Multiple(n, g, b, p), b, p);
    }
  }

  lemma {:induction false} MultipleOfMultiple(m: nat, n: nat, g: Affine, b: int, p: int)
    requires Curve(b, p) && CurvePoint(g, b, p) && Associative(b, p)
    ensures Multiple(m, Multiple(n, g, b, p), b, p) == Multiple(m * n, g, b, p)
  {
    hide Add, CurvePoint, IsPrime, Associative;
    if m > 0 {
      MultipleOfMultiple(m - 1, n, g, b, p);
      MultipleAdds(n, (m - 1) * n, g, b, p);
      assert n + (m - 1) * n == m * n;
    }
  }

  lemma NegativeCancels(q: Affine, b: int, p: int)
    requires Curve(b, p) && CurvePoint(q, b, p)
    ensures Add(q, Neg(q, p), b, p) == Origin
  {
    hide F, Divides, Third, Tangent, Chord;
    OddPrime(p);
    if q.Point? && q.v != 0 { NotOwnNegative(q.v, p); }
  }

  /** Neighbouring multiples differ by the point. */
  lemma NeighboursDiffer(n: nat, g: Affine, b: int, p: int)
    requires Curve(b, p) && CurvePoint(g, b, p) && Associative(b, p)
    ensures Add(Multiple(n + 1, g, b, p), Neg(Multiple(n, g, b, p), p), b, p) == g
  {
    hide Add, CurvePoint, IsPrime, Associative, Neg;
    var s := Multiple(n, g, b, p);
    MultipleOnCurve(n, g, b, p);
    NegOnCurve(s, b, p);
    AssociativeAt(g, s, Neg(s, p), b, p);
    NegativeCancels(s, b, p);
    OriginSides(g, b, p);
  }

  // ---- the ladder ----------------------------------------------------------------------------

  /** The pair stands for n g and (n + 1) g. */
  ghost predicate StandsFor(l: X.Points, n: nat, g: Affine, b: int, p: int)
    requires IsPrime(p)
  {
    Represents(l.x2, l.z2, Multiple(n, g, b, p), p) && Represents(l.x3, l.z3, Multiple(n + 1, g, b, p), p)
  }

  /** One round takes the pair of n to that of 2 n, and with the pair exchanged to that of 2 n + 1. */
  lemma StepDoubles(x1: int, l: X.Points, n: nat, g: Affine, b: int, p: int)
    requires Curve(b, p) && CurvePoint(g, b, p) && Associative(b, p) && StandsFor(l, n, g, b, p)
    requires g.Point? && g.u % p != 0 && Cong(x1, g.u, p)
    ensures StandsFor(X.Step(x1, l), 2 * n, g, b, p)
    ensures StandsFor(X.Step(x1, l.Swapped()).Swapped(), 2 * n + 1, g, b, p)
  {
    hide Add, CurvePoint, IsPrime, Associative, Neg, Represents, Cong, X.Step, SumX, SumZ, DoubleZ, Sq, Multiple;
    var s, t := Multiple(n, g, b, p), Multiple(n + 1, g, b, p);
    MultipleOnCurve(n, g, b, p);
    MultipleOnCurve(n + 1, g, b, p);
    NeighboursDiffer(n, g, b, p);
    MultipleAdds(n, n, g, b, p);
    MultipleAdds(n, n + 1, g, b, p);
    MultipleAdds(n + 1, n + 1, g, b, p);
    StepIs(x1, l);
    StepIs(x1, l.Swapped());
    SumSymmetric(x1, l.x2, l.z2, l.x3, l.z3);
    SumXZ(x1, l.x2, l.z2, l.x3, l.z3);
    SumXZ(x1, l.x3, l.z3, l.x2, l.z2);
    DoubleRepresents(l.x2, l.z2, s, b, p);
    DoubleRepresents(l.x3, l.z3, t, b, p);
    SumRepresents(x1, l.x2, l.z2, l.x3, l.z3, s, t, b, p);
    assert n + n == 2 * n && n + (n + 1) == 2 * n + 1 && n + 1 + (n + 1) == 2 * n + 1 + 1;
  }

  lemma SumXZ(x1: int, x2: int, z2: int, x3: int, z3: int)
    ensures SumX(x2, z2, x3, z3) == 4 * Sq(x2 * x3 - z2 * z3)
    ensures SumZ(x1, x2, z2, x3, z3) == 4 * (x1 * Sq(x2 * z3 - x3 * z2))
  {
  }

  lemma NextBit(n: nat, t: nat)
    ensures n / Twos(t) == 2 * (n / Twos(t + 1)) + (if Bit(n, t) then 1 else 0)
  {
    var d := n / Twos(t);
    assert Twos(t + 1) == Twos(t) * 2;
    hide Twos;
    DivDiv(n, Twos(t), 2);
  }

  lemma TopPower()
    ensures Twos(255) == Field25519.W5
  {
    assert Twos(15) == 0x8000;
    X.Twos64();
    hide Twos;
    X.TwosProduct(64, 64, 0x1_0000_0000_0000_0000, 0x1_0000_0000_0000_0000, 0x1_0000_0000_0000_0000_0000_0000_0000_0000);
    X.TwosProduct(128, 64, Twos(128), 0x1_0000_0000_0000_0000,
                  0x1_0000_0000_0000_0000_0000_0000_0000_0000_0000_0000_0000_0000);
    X.TwosProduct(15, 48, 0x8000, Twos(48), 0x8000 * Twos(48));
    TwosAdd(48, 16);
    TwosAdd(1, 15);
    X.TwosProduct(192, 63, Twos(192), Twos(63), Field25519.W5);
  }

  lemma NoHigherBits(n: nat, t: nat)
    requires t == 255 && n < Field25519.W5
    ensures n / Twos(t) == 0
  {
    TopPower();
    hide Twos;
    DivModUnique(n, 0, n, Twos(t));
  }

  /** After the bits of n from 254 down to t the ladder holds m g and (m + 1) g, for m those bits. */
  lemma {:induction false} LadderIs(x1: int, n: nat, t: nat, g: Affine, b: int, p: int)
    requires Curve(b, p) && CurvePoint(g, b, p) && Associative(b, p)
    requires g.Point? && g.u % p != 0 && Cong(x1, g.u, p) && n < Field25519.W5 && t <= 255
    ensures StandsFor(X.Ladder(x1, n, t), n / Twos(t), g, b, p)
    decreases 255 - t
  {
    hide Add, CurvePoint, IsPrime, Associative, Twos, X.Step, StandsFor, X.Ladder;
    if t == 255 {
      NoHigherBits(n, t);
      LadderUnfolds(x1, n, t);
      LadderStarts(x1, g, b, p);
    } else {
      LadderIs(x1, n, t + 1, g, b, p);
      NextBit(n, t);
      LadderUnfolds(x1, n, t);
      StepDoubles(x1, X.Ladder(x1, n, t + 1), n / Twos(t + 1), g, b, p);
    }
  }

  lemma LadderUnfolds(x1: int, n: nat, t: nat)
    requires t <= 255
    ensures t == 255 ==> X.Ladder(x1, n, t) == X.Points(1, 0, x1, 1)
    ensures t < 255 ==>
              var l := X.Ladder(x1, n, t + 1);
              X.Ladder(x1, n, t) == if Bit(n, t) then X.Step(x1, l.Swapped()).Swapped() else X.Step(x1, l)
  {
    hide X.Step, Twos;
  }

  lemma LadderStarts(x1: int, g: Affine, b: int, p: int)
    requires Curve(b, p) && g.Point? && Cong(x1, g.u, p)
    ensures StandsFor(X.Points(1, 0, x1, 1), 0, g, b, p)
  {
    hide Add, Divides;
    OriginSides(g, b, p);
    DivModUnique(1, 0, 1, p);
    DivModUnique(0, 0, 0, p);
    assert Multiple(1, g, b, p) == Add(g, Multiple(0, g, b, p), b, p);
    assert g.u * 1 == g.u;
  }

  // ---- the point over u = 0 ------------------------------------------------------------------

  /** From the point of order two every round leaves both denominators zero. */
  lemma {:induction false} LadderAtZero(x1: int, n: nat, t: nat, p: int)
    requires p > 0 && x1 % p == 0 && t <= 255
    ensures var l := X.Ladder(x1, n, t);
            (l.z2 % p == 0 || (t == 255 && l.x2 % p == 0)) && (l.z3 % p == 0 || (t == 255 && l.x3 % p == 0))
    decreases 255 - t
  {
    hide X.Step;
    if t < 255 {
      LadderAtZero(x1, n, t + 1, p);
      var l := X.Ladder(x1, n, t + 1);
      StepAtZero(x1, l, p);
      StepAtZero(x1, l.Swapped(), p);
    } else {
      assert 0 % p == 0;
    }
  }

  lemma StepAtZero(x1: int, l: X.Points, p: int)
    requires p > 0 && Cong(x1, 0, p) && (Cong(l.z2, 0, p) || Cong(l.x2, 0, p))
    ensures X.Step(x1, l).z2 % p == 0 && X.Step(x1, l).z3 % p == 0
  {
    hide X.Step, Sq;
    StepIs(x1, l);
    var xz, d := l.x2 * l.z2, Sq(l.x2 * l.z3 - l.x3 * l.z2);
    if Cong(l.z2, 0, p) { ZeroTimes(l.x2, l.z2, p); } else { ZeroTimes(l.z2, l.x2, p); Swap(l.x2, l.z2); }
    var f := l.x2 * l.x2 + A * xz + l.z2 * l.z2;
    ZeroTimes(4, xz, p);
    ZeroTimes(f, 4 * xz, p);
    Swap(f, 4 * xz);
    ZeroTimes(d, x1, p);
    Swap(d, x1);
    ZeroTimes(4, x1 * d, p);
  }

  lemma {:induction false} MultipleOfOrderTwo(n: nat, g: Affine, b: int, p: int)
    requires IsPrime(p) && g.Point? && g.v == 0
    ensures Multiple(n, g, b, p) in {Origin, g}
  {
    hide Divides, Third, Chord, Tangent;
    if n > 0 { MultipleOfOrderTwo(n - 1, g, b, p); }
  }

  lemma OverZero(g: Affine, b: int, p: int)
    requires Curve(b, p) && CurvePoint(g, b, p) && g.Point? && g.u == 0
    ensures g.v == 0
  {
    hide Divides;
    OnCurveIs(g, b, p);
    ZeroProduct(b, g.v * g.v, p);
    ZeroProduct(g.v, g.v, p);
    if g.v != 0 { Apart(g.v, 0, p); }
  }

  // ---- the function ----------------------------------------------------------------------------

  /** The u coordinate, with 0 for the origin. */
  function U(q: Affine): int
  {
    if q.Origin? then 0 else q.u
  }

  lemma PowOfZero(n: nat)
    requires n > 0
    ensures Pow(0, n) == 0
  {
  }

  lemma QuotientIs(x: int, z: int, q: Affine, p: int)
    requires IsPrime(p) && p > 2 && Residue(q, p) && Represents(x, z, q, p)
    ensures x * Pow(z, p - 2) % p == U(q)
  {
    hide Divides, Pow;
    var i := Pow(z, p - 2);
    if q.Origin? {
      CongPow(z, 0, p - 2, p);
      PowOfZero(p - 2);
      ZeroTimes(x, i, p);
    } else {
      InverseByPower(z, p);
      CongMul(x, q.u * z, i, i, p);
      MulAssoc(q.u, z, i);
      CongMul(q.u, q.u, z * i, 1, p);
      DivModUnique(q.u, 0, q.u, p);
    }
  }

  lemma LadderQuotient(x1: int, n: nat, g: Affine, b: int, p: int)
    requires Curve(b, p) && CurvePoint(g, b, p) && Associative(b, p) && g.Point? && Cong(x1, g.u, p) && n < Field25519.W5
    ensures var l := X.Ladder(x1, n, 0); l.x2 * Pow(l.z2, p - 2) % p == U(Multiple(n, g, b, p))
  {
    hide Divides, Pow, Add, Associative, X.Ladder, Represents;
    var l := X.Ladder(x1, n, 0);
    DivModUnique(g.u, 0, g.u, p);
    if g.u == 0 {
      LadderAtZero(x1, n, 0, p);
      CongPow(l.z2, 0, p - 2, p);
      PowOfZero(p - 2);
      ZeroTimes(l.x2, Pow(l.z2, p - 2), p);
      OverZero(g, b, p);
      MultipleOfOrderTwo(n, g, b, p);
    } else {
      LadderIs(x1, n, 0, g, b, p);
      assert Twos(0) == 1 && n / 1 == n;
      MultipleOnCurve(n, g, b, p);
      QuotientIs(l.x2, l.z2, Multiple(n, g, b, p), p);
    }
  }

  /** X25519 of n and the u coordinate of a point is the u coordinate of n times the point. */
  lemma Multiplies(n: nat, x1: int, g: Affine, b: int)
    requires Curve(b, Field25519.PRIME) && CurvePoint(g, b, Field25519.PRIME) && Associative(b, Field25519.PRIME)
    requires g.Point? && x1 % Field25519.PRIME == g.u && n < Field25519.W5
    ensures X.Expected(n, x1) == U(Multiple(n, g, b, Field25519.PRIME))
  {
    hide IsPrime, CurvePoint, Associative, Multiple, Pow, X.Ladder, Twos;
    CongMod(x1, Field25519.PRIME);
    LadderQuotient(x1, n, g, b, Field25519.PRIME);
  }

  /** Every number is the u coordinate of a point of one of the curves. */
  lemma PointOver(x1: int, p: int) returns (g: Affine, b: int)
    requires IsPrime(p) && p > 1000000
    ensures Curve(b, p) && CurvePoint(g, b, p) && g.Point? && g.u == x1 % p
  {
    var u := x1 % p;
    if F(u) % p == 0 {
      b, g := 1, Point(u, 0);
      DivModUnique(1, 0, 1, p);
    } else {
      b, g := F(u), Point(u, 1);
    }
  }

  lemma Commutes(m: nat, n: nat, x1: int)
    requires IsPrime(Field25519.PRIME) && m < Field25519.W5 && n < Field25519.W5 && AllAssociative(Field25519.PRIME)
    ensures X.Expected(m, X.Expected(n, x1)) == X.Expected(n, X.Expected(m, x1))
  {
    hide IsPrime, X.Expected, CurvePoint, Multiple, Associative;
    var g, b := PointOver(x1, Field25519.PRIME);
    Swap(m, n);
    Composes(m, n, m * n, x1, g, b);
    Composes(n, m, m * n, x1, g, b);
  }

  ghost predicate AllAssociative(p: int)
    requires IsPrime(p)
  {
    forall b | b % p != 0 :: Associative(b, p)
  }

  lemma ScalarRange(k: seq<Byte>)
    requires |k| == 32
    ensures X.DecodeScalar(k) < Field25519.W5 && 2 * X.DecodeScalar(k) >= Field25519.W5 && X.DecodeScalar(k) % 8 == 0
  {
  }

  /** For every 32 + 32 bytes the result is the u coordinate of the decoded multiple of a point over u. */
  lemma MultipliesBytes(k: seq<Byte>, u: seq<Byte>) returns (g: Affine, b: int)
    requires |k| == 32 && |u| == 32 && IsPrime(Field25519.PRIME) && AllAssociative(Field25519.PRIME)
    ensures Curve(b, Field25519.PRIME) && CurvePoint(g, b, Field25519.PRIME)
    ensures g.Point? && g.u == LittleEndian(u) % Field25519.W5 % Field25519.PRIME
    ensures X.Expected(X.DecodeScalar(k), LittleEndian(u) % Field25519.W5)
         == U(Multiple(X.DecodeScalar(k), g, b, Field25519.PRIME))
  {
    hide IsPrime, X.Expected, CurvePoint, Multiple, Associative, X.DecodeScalar, LittleEndian;
    ScalarRange(k);
    g, b := PointOver(LittleEndian(u) % Field25519.W5, Field25519.PRIME);
    Multiplies(X.DecodeScalar(k), LittleEndian(u) % Field25519.W5, g, b);
  }

  /** Two parties that exchange the 32 bytes of their results reach the same shared number. */
  lemma Agreement(k: seq<Byte>, l: seq<Byte>, u: seq<Byte>, s: seq<Byte>, t: seq<Byte>)
    requires |k| == |l| == |u| == |s| == |t| == 32 && IsPrime(Field25519.PRIME) && AllAssociative(Field25519.PRIME)
    requires LittleEndian(s) == X.Expected(X.DecodeScalar(k), LittleEndian(u) % Field25519.W5)
    requires LittleEndian(t) == X.Expected(X.DecodeScalar(l), LittleEndian(u) % Field25519.W5)
    ensures X.Expected(X.DecodeScalar(l), LittleEndian(s) % Field25519.W5)
         == X.Expected(X.DecodeScalar(k), LittleEndian(t) % Field25519.W5)
  {
    hide IsPrime, CurvePoint, Multiple, Associative, X.DecodeScalar, LittleEndian, X.Ladder, Pow;
    var x := LittleEndian(u) % Field25519.W5;
    ScalarRange(k);
    ScalarRange(l);
    DivModUnique(LittleEndian(s), 0, LittleEndian(s), Field25519.W5);
    DivModUnique(LittleEndian(t), 0, LittleEndian(t), Field25519.W5);
    Commutes(X.DecodeScalar(k), X.DecodeScalar(l), x);
  }

  lemma Composes(m: nat, n: nat, k: nat, x1: int, g: Affine, b: int)
    requires Curve(b, Field25519.PRIME) && CurvePoint(g, b, Field25519.PRIME) && Associative(b, Field25519.PRIME)
    requires g.Point? && x1 % Field25519.PRIME == g.u && m < Field25519.W5 && n < Field25519.W5 && k == m * n
    ensures X.Expected(m, X.Expected(n, x1)) == U(Multiple(k, g, b, Field25519.PRIME))
  {
    hide IsPrime, Twos, X.Expected, Multiple, Associative, OnCurve;
    var p := Field25519.PRIME;
    Multiplies(n, x1, g, b);
    MultipleOnCurve(n, g, b, p);
    MultipleOfMultiple(m, n, g, b, p);
    var h := Multiple(n, g, b, p);
    if h.Point? {
      DivModUnique(h.u, 0, h.u, p);
      Multiplies(m, h.u, h, b);
    } else {
      Vanishes(m, b, p);
    }
  }

  lemma {:induction false} OriginMultiple(m: nat, b: int, p: int)
    requires IsPrime(p)
    ensures Multiple(m, Origin, b, p) == Origin
  {
    hide Add;
    if m > 0 { OriginMultiple(m - 1, b, p); OriginSides(Origin, b, p); }
  }

  lemma Vanishes(m: nat, b: int, p: int)
    requires IsPrime(p) && p == Field25519.PRIME
    ensures X.Expected(m, 0) == 0 && Multiple(m, Origin, b, p) == Origin
  {
    hide IsPrime, Pow, X.Ladder;
    OriginMultiple(m, b, p);
    LadderAtZero(0, m, 0, p);
    var l := X.Ladder(0, m, 0);
    CongPow(l.z2, 0, p - 2, p);
    PowOfZero(p - 2);
    ZeroTimes(l.x2, Pow(l.z2, p - 2), p);
  }
}
