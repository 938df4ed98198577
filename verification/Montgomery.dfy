/** Curve25519, b v^2 = u^3 + 486662 u^2 + u: what the ladder of kernel/src/crypto/x25519.rs computes. */
module Montgomery {
  import opened Arith
  import opened PrimeField

  const A: int := 486662

  /** The right side of the curve equation. */
  function F(u: int): int
  {
    u * u * u + A * (u * u) + u
  }

  // ---- the affine group law ------------------------------------------------------------------

  datatype Affine = Origin | Point(u: int, v: int)

  predicate Residue(q: Affine, p: int)
  {
    q.Origin? || (0 <= q.u < p && 0 <= q.v < p)
  }

  /** On b v^2 = u^3 + A u^2 + u; b = 1 is the curve, and a non-square b its twist. */
  ghost predicate OnCurve(q: Affine, b: int, p: int)
    requires p > 0
  {
    q.Origin? || Cong(b * (q.v * q.v), F(q.u), p)
  }

  function Neg(q: Affine, p: int): Affine
    requires p > 0
  {
    if q.Origin? then q else Point(q.u, (-q.v) % p)
  }

  /** The third point of the line of slope l through (u1, v1) and a point over u2, reflected. */
  function Third(l: int, b: int, u1: int, v1: int, u2: int, p: int): Affine
    requires p > 0
  {
    var u3 := (b * (l * l) - A - u1 - u2) % p;
    Point(u3, (l * (u1 - u3) - v1) % p)
  }

  function Slope(u: int): int
  {
    3 * (u * u) + 2 * A * u + 1
  }

  ghost function Tangent(u: int, v: int, b: int, p: int): int
    requires IsPrime(p)
  {
    Slope(u) * Inv(2 * (b * v), p)
  }

  ghost function Chord(u1: int, v1: int, u2: int, v2: int, p: int): int
    requires IsPrime(p)
  {
    (v2 - v1) * Inv(u2 - u1, p)
  }

  /** Chord and tangent. */
  ghost function Add(q: Affine, r: Affine, b: int, p: int): Affine
    requires IsPrime(p)
  {
    if q.Origin? then r
    else if r.Origin? then q
    else if q.u != r.u then Third(Chord(q.u, q.v, r.u, r.v, p), b, q.u, q.v, r.u, p)
    else if q.v == r.v && q.v != 0 then Third(Tangent(q.u, q.v, b, p), b, q.u, q.v, q.u, p)
    else Origin
  }

  /** A prime larger than the constants here, and a curve with it. */
  ghost predicate Curve(b: int, p: int)
  {
    IsPrime(p) && p > 1000000 && b % p != 0
  }

  ghost predicate CurvePoint(q: Affine, b: int, p: int)
    requires p > 0
  {
    Residue(q, p) && OnCurve(q, b, p)
  }

  // ---- sums stay on the curve ----------------------------------------------------------------

  /** What is left of F(t) - b (line at t)^2 when its root u1 is divided out. */
  function Cofactor(l: int, b: int, u1: int, v1: int, t: int): int
  {
    t * t + t * u1 + u1 * u1 + A * (t + u1) + 1 - b * (l * (2 * v1 + l * (t - u1)))
  }

  lemma DifferenceOfSquares(v: int, k: int)
    ensures (v + k) * (v + k) - v * v == k * (2 * v + k)
  {
  }

  lemma DifferenceOfCubes(t: int, u: int)
    ensures t * t * t - u * u * u == (t - u) * (t * t + t * u + u * u)
  {
    var d, w := t - u, t * t + t * u + u * u;
    Distribute(w, t, u);
    assert t * w == t * t * t + t * (t * u) + t * (u * u);
    assert u * w == u * (t * t) + u * (t * u) + u * u * u;
    assert t * (t * u) == u * (t * t) && t * (u * u) == u * (t * u);
  }

  lemma DifferenceOfF(t: int, u: int)
    ensures F(t) - F(u) == (t - u) * (t * t + t * u + u * u + A * (t + u) + 1)
  {
    var d, w := t - u, t * t + t * u + u * u;
    DifferenceOfCubes(t, u);
    DifferenceOfSquares(u, d);
    SumTimes(d, w, t + u);
  }

  lemma SumTimes(d: int, w: int, s: int)
    ensures d * (w + A * s + 1) == d * w + A * (d * s) + d
  {
    Distribute(d, w, A * s + 1);
    Distribute(d, A * s, 1);
  }

  lemma Pull(b: int, l: int, d: int, w: int)
    ensures b * (l * d * w) == d * (b * (l * w))
  {
    MulAssoc(l, d, w);
    MulAssoc(d, l, w);
    MulAssoc(b, d, l * w);
    MulAssoc(d, b, l * w);
  }

  lemma CofactorIdentity(l: int, b: int, u1: int, v1: int, t: int)
    ensures var m := v1 + l * (t - u1);
            F(t) - F(u1) - b * (m * m - v1 * v1) == (t - u1) * Cofactor(l, b, u1, v1, t)
  {
    hide F;
    var d := t - u1;
    var k := l * d;
    DifferenceOfSquares(v1, k);
    DifferenceOfF(t, u1);
    Pull(b, l, d, 2 * v1 + k);
    Distribute(d, t * t + t * u1 + u1 * u1 + A * (t + u1) + 1, b * (l * (2 * v1 + k)));
  }

  /** The cofactor takes the same value at the third root as at the second. */
  lemma CofactorShift(l: int, b: int, u1: int, v1: int, u2: int, u3: int)
    ensures Cofactor(l, b, u1, v1, u3) - Cofactor(l, b, u1, v1, u2) == (u3 - u2) * (u3 + u2 + u1 + A - b * (l * l))
  {
    var d := u3 - u2;
    assert l * (2 * v1 + l * (u3 - u1)) - l * (2 * v1 + l * (u2 - u1)) == l * (l * d) by {
      Distribute(l, 2 * v1 + l * (u3 - u1), 2 * v1 + l * (u2 - u1));
      Distribute(l, u3 - u1, u2 - u1);
    }
    MulAssoc(l, l, d);
    Distribute(b, l * (2 * v1 + l * (u3 - u1)), l * (2 * v1 + l * (u2 - u1)));
    MulAssoc(b, l * l, d);
    assert u3 * u3 + u3 * u1 - u2 * u2 - u2 * u1 == d * (u3 + u2 + u1);
    Distribute(d, u3 + u2 + u1 + A, b * (l * l));
  }

  lemma ZeroTimes(c: int, x: int, p: int)
    requires p > 0 && Cong(x, 0, p)
    ensures Cong(c * x, 0, p)
  {
    CongMul(c, c, x, 0, p);
  }

  lemma Difference(a: int, b: int, p: int)
    requires p > 0
    ensures Cong(a, b, p) <==> Cong(a - b, 0, p)
  {
    if Cong(a, b, p) { CongAdd(a, b, b, b, p); }
    if Cong(a - b, 0, p) { CongAdd(a - b, 0, b, b, p); }
  }

  /** A line through (u1, v1) whose cofactor vanishes at u2 meets the curve in a third point. */
  lemma ThirdOnCurve(l: int, b: int, u1: int, v1: int, u2: int, p: int)
    requires p > 0 && Cong(b * (v1 * v1), F(u1), p) && Cong(Cofactor(l, b, u1, v1, u2), 0, p)
    ensures CurvePoint(Third(l, b, u1, v1, u2, p), b, p)
  {
    hide F, Cofactor, Cong;
    var q := Third(l, b, u1, v1, u2, p);
    var m := v1 + l * (q.u - u1);
    ThirdRoot(l, b, u1, v1, u2, q.u, p);
    LineAtThird(l, b, u1, v1, q.u, q.v, p);
    OnLine(l, b, u1, v1, q.u, p);
    Chain(b * (q.v * q.v), b * (m * m), F(q.u), p);
  }

  lemma Chain(a: int, b: int, c: int, p: int)
    requires p > 0 && Cong(a, b, p) && Cong(b, c, p)
    ensures Cong(a, c, p)
  {
  }

  lemma ThirdRoot(l: int, b: int, u1: int, v1: int, u2: int, u3: int, p: int)
    requires p > 0 && u3 == (b * (l * l) - A - u1 - u2) % p && Cong(Cofactor(l, b, u1, v1, u2), 0, p)
    ensures Cong(Cofactor(l, b, u1, v1, u3), 0, p)
  {
    hide Cofactor;
    var e := b * (l * l) - A - u1 - u2;
    CongMod(e, p);
    Difference(u3, e, p);
    ZeroTimes(u3 - u2, u3 - e, p);
    CofactorShift(l, b, u1, v1, u2, u3);
    CongAdd(Cofactor(l, b, u1, v1, u2), 0, (u3 - u2) * (u3 - e), 0, p);
  }

  lemma LineAtThird(l: int, b: int, u1: int, v1: int, u3: int, v3: int, p: int)
    requires p > 0 && v3 == (l * (u1 - u3) - v1) % p
    ensures var m := v1 + l * (u3 - u1); Cong(b * (v3 * v3), b * (m * m), p)
  {
    var m, n := v1 + l * (u3 - u1), l * (u1 - u3) - v1;
    assert n == -m by { Distribute(l, u1, u3); Distribute(l, u3, u1); }
    CongMod(n, p);
    CongMul(v3, n, v3, n, p);
    assert n * n == m * m;
    CongMul(b, b, v3 * v3, m * m, p);
  }

  lemma OnLine(l: int, b: int, u1: int, v1: int, t: int, p: int)
    requires p > 0 && Cong(b * (v1 * v1), F(u1), p) && Cong(Cofactor(l, b, u1, v1, t), 0, p)
    ensures var m := v1 + l * (t - u1); Cong(b * (m * m), F(t), p)
  {
    hide F, Cofactor;
    var m := v1 + l * (t - u1);
    var z := (t - u1) * Cofactor(l, b, u1, v1, t);
    CofactorIdentity(l, b, u1, v1, t);
    ZeroTimes(t - u1, Cofactor(l, b, u1, v1, t), p);
    Distribute(b, m * m, v1 * v1);
    assert F(t) - b * (m * m) == z + (F(u1) - b * (v1 * v1));
    CongAdd(F(u1), b * (v1 * v1), b * (v1 * v1), b * (v1 * v1), p);
    CongAdd(z, 0, F(u1) - b * (v1 * v1), 0, p);
    Difference(F(t), b * (m * m), p);
  }

  /** The slope of a chord: l (u2 - u1) = v2 - v1. */
  lemma ChordThrough(u1: int, v1: int, u2: int, v2: int, p: int)
    requires IsPrime(p) && (u2 - u1) % p != 0
    ensures Cong(Chord(u1, v1, u2, v2, p) * (u2 - u1), v2 - v1, p)
  {
    hide Divides;
    var d, w, n := u2 - u1, Inv(u2 - u1, p), v2 - v1;
    CongMul(d * w, 1, n, n, p);
    Rotate(n, w, d);
  }

  lemma Rotate(n: int, w: int, d: int)
    ensures n * w * d == d * w * n
  {
    MulAssoc(n, w, d);
    MulAssoc(d, w, n);
  }

  lemma ChordMeets(l: int, b: int, u1: int, v1: int, u2: int, v2: int, p: int)
    requires IsPrime(p) && (u2 - u1) % p != 0 && Cong(l * (u2 - u1), v2 - v1, p)
    requires Cong(b * (v1 * v1), F(u1), p) && Cong(b * (v2 * v2), F(u2), p)
    ensures Cong(Cofactor(l, b, u1, v1, u2), 0, p)
  {
    hide F, Cofactor, Divides, Cong;
    var d := u2 - u1;
    var m := v1 + l * d;
    LineMeets(l * d, v1, v2, b, p);
    CofactorIdentity(l, b, u1, v1, u2);
    Distribute(b, m * m, v1 * v1);
    FourTerms(F(u2), F(u1), b * (m * m), b * (v1 * v1), b * (v2 * v2), p);
    Swap(d, Cofactor(l, b, u1, v1, u2));
    CancelFactor(Cofactor(l, b, u1, v1, u2), 0, d, p);
  }

  lemma Swap(d: int, c: int)
    ensures d * c == c * d && 0 * d == 0
  {
  }

  lemma LineMeets(k: int, v1: int, v2: int, b: int, p: int)
    requires p > 0 && Cong(k, v2 - v1, p)
    ensures Cong(b * ((v1 + k) * (v1 + k)), b * (v2 * v2), p)
  {
    CongAdd(v1, v1, k, v2 - v1, p);
    CongMul(v1 + k, v2, v1 + k, v2, p);
    CongMul(b, b, (v1 + k) * (v1 + k), v2 * v2, p);
  }

  lemma FourTerms(f2: int, f1: int, m: int, s: int, t: int, p: int)
    requires p > 0 && Cong(s, f1, p) && Cong(t, f2, p) && Cong(m, t, p)
    ensures Cong(f2 - f1 - (m - s), 0, p)
  {
    CongAdd(f2, m, m, m, p);
    CongAdd(s, f1, f1, f1, p);
    CongAdd(f2 - m, 0, s - f1, 0, p);
  }

  /** The slope of a tangent: 2 b v l = 3u^2 + 2Au + 1. */
  lemma TangentThrough(u: int, v: int, b: int, p: int)
    requires IsPrime(p) && (2 * (b * v)) % p != 0
    ensures Cong(2 * (b * v) * Tangent(u, v, b, p), Slope(u), p)
  {
    hide Divides;
    var d, w, n := 2 * (b * v), Inv(2 * (b * v), p), Slope(u);
    CongMul(d * w, 1, n, n, p);
    Rotate(n, w, d);
    Swap(d, n * w);
  }

  lemma TangentMeets(l: int, b: int, u: int, v: int, p: int)
    requires p > 0 && Cong(2 * (b * v) * l, Slope(u), p)
    ensures Cong(Cofactor(l, b, u, v, u), 0, p)
  {
    assert Cofactor(l, b, u, v, u) == Slope(u) - b * (l * (2 * v));
    assert b * (l * (2 * v)) == 2 * (b * v) * l;
    CongAdd(Slope(u), 2 * (b * v) * l, 2 * (b * v) * l, 2 * (b * v) * l, p);
  }

  lemma NotZero(b: int, v: int, p: int)
    requires Curve(b, p) && v % p != 0
    ensures (2 * (b * v)) % p != 0
  {
    hide Divides;
    ZeroProduct(b, v, p);
    ZeroProduct(2, b * v, p);
    DivModUnique(2, 0, 2, p);
  }

  lemma Apart(a: int, b: int, p: int)
    requires 0 <= a < p && 0 <= b < p && a != b
    ensures (a - b) % p != 0
  {
    if (a - b) % p == 0 {
      CongAdd(a - b, 0, b, b, p);
      CongSmall(a, b, p);
    }
  }

  lemma AddOnCurve(q: Affine, r: Affine, b: int, p: int)
    requires Curve(b, p) && CurvePoint(q, b, p) && CurvePoint(r, b, p)
    ensures CurvePoint(Add(q, r, b, p), b, p)
  {
    hide F, Cofactor, Divides, Third, Chord, Tangent, Cong;
    if q.Point? && r.Point? {
      if q.u != r.u {
        Apart(r.u, q.u, p);
        ChordThrough(q.u, q.v, r.u, r.v, p);
        ChordMeets(Chord(q.u, q.v, r.u, r.v, p), b, q.u, q.v, r.u, r.v, p);
        ThirdOnCurve(Chord(q.u, q.v, r.u, r.v, p), b, q.u, q.v, r.u, p);
      } else if q.v == r.v && q.v != 0 {
        Apart(q.v, 0, p);
        NotZero(b, q.v, p);
        TangentThrough(q.u, q.v, b, p);
        TangentMeets(Tangent(q.u, q.v, b, p), b, q.u, q.v, p);
        ThirdOnCurve(Tangent(q.u, q.v, b, p), b, q.u, q.v, q.u, p);
      }
    }
  }

  lemma NegSquare(v: int)
    ensures (-v) * (-v) == v * v
  {
  }

  lemma NegOnCurve(q: Affine, b: int, p: int)
    requires p > 0 && CurvePoint(q, b, p)
    ensures CurvePoint(Neg(q, p), b, p)
  {
    hide F;
    if q.Point? {
      CongMod(-q.v, p);
      CongMul((-q.v) % p, -q.v, (-q.v) % p, -q.v, p);
      NegSquare(q.v);
      var w := (-q.v) % p;
      CongMul(b, b, w * w, q.v * q.v, p);
    }
  }

  // ---- u of a double and of a sum ------------------------------------------------------------

  function Sq(x: int): int
  {
    x * x
  }

  lemma SlopeIdentity(a: int)
    ensures Sq(Slope(a)) - 4 * F(a) * (A + 2 * a) == Sq(a * a - 1)
  {
    var c, d := a * a, a * a * a;
    assert c * c == a * d;
    assert Slope(a) == 3 * c + 2 * A * a + 1;
    assert Sq(Slope(a)) == 9 * (c * c) + 12 * A * d + (4 * A * A + 6) * c + 4 * A * a + 1;
    assert F(a) * (A + 2 * a) == 2 * (c * c) + 3 * A * d + (A * A + 2) * c + A * a;
  }

  lemma Scale(b: int, l: int, d: int, k: int)
    ensures (b * (l * l) - k) * (d * d) == b * Sq(l * d) - k * (d * d)
  {
    Distribute(d * d, b * (l * l), k);
    MulAssoc(b, l * l, d * d);
    assert l * l * (d * d) == l * d * (l * d);
  }

  /** u3 = b l^2 - k over the square of a denominator d of l. */
  lemma SquareOut(u3: int, b: int, l: int, d: int, n: int, k: int, p: int)
    requires p > 0 && Cong(u3, b * (l * l) - k, p) && Cong(l * d, n, p)
    ensures Cong(u3 * (d * d), b * Sq(n) - k * (d * d), p)
  {
    CongMul(u3, b * (l * l) - k, d * d, d * d, p);
    Scale(b, l, d, k);
    CongMul(l * d, n, l * d, n, p);
    CongMul(b, b, Sq(l * d), Sq(n), p);
    CongAdd(b * Sq(l * d), b * Sq(n), k * (d * d), k * (d * d), p);
  }

  /** u(2S) 4 b v^2 = (u^2 - 1)^2. */
  lemma DoubleU(q: Affine, b: int, p: int)
    requires Curve(b, p) && CurvePoint(q, b, p) && q.Point? && q.v != 0
    ensures Add(q, q, b, p).Point?
    ensures Cong(Add(q, q, b, p).u * (4 * (b * (q.v * q.v))), Sq(q.u * q.u - 1), p)
  {
    hide F, Divides, Tangent, Cong, Slope, Sq;
    var a, s, l := q.u, q.v, Tangent(q.u, q.v, b, p);
    Apart(s, 0, p);
    NotZero(b, s, p);
    TangentThrough(a, s, b, p);
    var e := b * (l * l) - A - a - a;
    CongMod(e, p);
    DoubleMath(e % p, a, s, b, l, p);
  }

  lemma DoubleMath(u3: int, a: int, s: int, b: int, l: int, p: int)
    requires p > 0 && Cong(u3, b * (l * l) - A - a - a, p)
    requires Cong(2 * (b * s) * l, Slope(a), p) && Cong(b * (s * s), F(a), p)
    ensures Cong(u3 * (4 * (b * (s * s))), Sq(a * a - 1), p)
  {
    hide F, Slope;
    var c, k := 4 * (b * (s * s)), A + 2 * a;
    var m := 2 * (b * s) * l;
    CongMul(u3, b * (l * l) - k, c, c, p);
    assert (b * (l * l) - k) * c == Sq(m) - k * c by {
      Distribute(c, b * (l * l), k);
      assert b * (l * l) * c == Sq(m);
    }
    CongMul(m, Slope(a), m, Slope(a), p);
    CongMul(4, 4, b * (s * s), F(a), p);
    CongMul(k, k, c, 4 * F(a), p);
    CongAdd(Sq(m), Sq(Slope(a)), k * c, k * (4 * F(a)), p);
    SlopeIdentity(a);
    Swap(4 * F(a), k);
  }

  /** What the two u coordinates of a sum and a difference have in common. */
  function Middle(a: int, e: int): int
  {
    F(a) + F(e) - (A + a + e) * Sq(e - a)
  }

  lemma CubeAndMore(a: int, e: int)
    ensures (a + e) * (a * a) == a * a * a + a * e * a
  {
    Distribute(a * a, a, e);
    MulAssoc(a, a, e);
    MulAssoc(a, e, a);
  }

  lemma SumOfCubes(a: int, e: int)
    ensures var n := a * e; (a + e) * (a * a + e * e - 2 * n) == a * a * a + e * e * e - n * (a + e)
  {
    var n, m := a * e, a + e;
    CubeAndMore(a, e);
    CubeAndMore(e, a);
    Swap(a, e);
    Distribute(m, a * a + e * e, 2 * n);
    Distribute(m, a * a, e * e);
    Distribute(n, a, e);
  }

  lemma SquareOfDifference(a: int, e: int)
    ensures Sq(e - a) == a * a + e * e - 2 * (a * e) && Sq(e - a) == (a + e) * (a + e) - 4 * (a * e)
  {
  }

  lemma MiddleIs(a: int, e: int)
    ensures Middle(a, e) == 2 * A * (a * e) + (a + e) * (a * e + 1)
  {
    var n, m := a * e, a + e;
    hide Sq;
    SquareOfDifference(a, e);
    SumOfCubes(a, e);
    MiddleSum(a * a, e * e, a * a * a, e * e * e, n, m, Sq(e - a));
    Distribute(m, n, 1);
  }

  lemma MiddleSum(x: int, y: int, c: int, d: int, n: int, m: int, s: int)
    requires s == x + y - 2 * n && m * s == c + d - n * m
    ensures c + d + A * (x + y) + m - (A + m) * s == 2 * A * n + n * m + m
  {
    Distribute(s, A, m);
  }

  lemma TwoQuadratics(x: int, a: int, y: int, e: int)
    ensures (x + A * a + 1) * (y + A * e + 1)
         == x * y + A * (x * e + a * y) + x + y + A * A * (a * e) + A * (a + e) + 1
  {
    var g := y + A * e + 1;
    Distribute(g, x, A * a + 1);
    Distribute(g, A * a, 1);
    Distribute(x, y, A * e + 1);
    Distribute(x, A * e, 1);
    Distribute(a, y, A * e + 1);
    Distribute(a, A * e, 1);
  }

  lemma ProductOfF(a: int, e: int)
    ensures var n, m := a * e, a + e;
            F(a) * F(e) == n * (n * n + A * (n * m) + m * m - 2 * n + A * A * n + A * m + 1)
  {
    var n, m := a * e, a + e;
    var x, y := a * a, e * e;
    var f, g := x + A * a + 1, y + A * e + 1;
    FactorF(a, f);
    FactorF(e, g);
    Interchange(a, f, e, g);
    Powers(a, e);
    TwoQuadratics(x, a, y, e);
  }

  lemma FactorF(a: int, f: int)
    requires f == a * a + A * a + 1
    ensures F(a) == a * f
  {
    Distribute(a, a * a, A * a + 1);
  }

  lemma Interchange(a: int, f: int, e: int, g: int)
    ensures a * f * (e * g) == a * e * (f * g)
  {
    MulAssoc(a, f, e * g);
    MulAssoc(f, e, g);
    Swap(f, e);
    MulAssoc(e, f, g);
    MulAssoc(a, e, f * g);
  }

  lemma Powers(a: int, e: int)
    ensures var n, m := a * e, a + e;
            && a * a * (e * e) == n * n && a * a * e + a * (e * e) == n * m && a * a + e * e == m * m - 2 * n
  {
    var n := a * e;
    Interchange(a, a, e, e);
    MulAssoc(a, a, e);
    MulAssoc(a, e, e);
    Distribute(n, a, e);
    Swap(n, a);
  }

  lemma SumIdentity(a: int, e: int)
    ensures Sq(Middle(a, e)) - 4 * (F(a) * F(e)) == Sq(e - a) * Sq(a * e - 1)
  {
    hide Middle, F, Sq;
    var n, m := a * e, a + e;
    MiddleSquare(a, e, n, m);
    FProduct(a, e, n, m);
    GapProduct(a, e, n, m);
  }

  lemma MiddleSquare(a: int, e: int, n: int, m: int)
    requires n == a * e && m == a + e
    ensures var c, h := n * n, m * m;
            Sq(Middle(a, e)) == 4 * A * A * c + 4 * A * (c * m) + 4 * A * (n * m) + h * c + 2 * (h * n) + h
  {
    hide Middle, Sq;
    MiddleIs(a, e);
    LeftSquare(n, m);
  }

  lemma FProduct(a: int, e: int, n: int, m: int)
    requires n == a * e && m == a + e
    ensures var c, h := n * n, m * m;
            F(a) * F(e) == n * c + A * (c * m) + h * n - 2 * c + A * A * c + A * (n * m) + n
  {
    ProductOfF(a, e);
    hide F;
    RightUpper(n, n * n, n * m, m * m, (A * A - 2) * n + A * m + 1);
    RightLower(n, m);
    MulAssoc(n, n, m);
  }

  lemma GapProduct(a: int, e: int, n: int, m: int)
    requires n == a * e && m == a + e
    ensures var c, h := n * n, m * m;
            Sq(e - a) * Sq(n - 1) == h * c - 2 * (h * n) + h - 4 * (n * c) + 8 * c - 4 * n
  {
    hide Sq;
    var c, h := n * n, m * m;
    GapSquare(a, e);
    Distribute(Sq(n - 1), h, 4 * n);
    SquareTimes(h, n, c);
    CubicTimes(n, c);
  }

  lemma GapSquare(a: int, e: int)
    ensures Sq(e - a) == (a + e) * (a + e) - 4 * (a * e)
  {
  }

  lemma LeftSquare(n: int, m: int)
    ensures var c, h := n * n, m * m;
            Sq(2 * A * n + m * (n + 1)) == 4 * A * A * c + 4 * A * (c * m) + 4 * A * (n * m) + h * c + 2 * (h * n) + h
  {
    hide Sq;
    var w := m * (n + 1);
    BinomialSquare(2 * A * n, w);
    LeftMiddle(n, m, w);
    LeftLast(n, m, w);
    LeftFirst(n, w);
  }

  lemma LeftFirst(n: int, w: int)
    ensures 2 * A * n * (2 * A * n) == 4 * A * A * (n * n) && 2 * (2 * A * n * w) == 4 * A * (n * w)
  {
    Interchange(2 * A, n, 2 * A, n);
    MulAssoc(2 * A, n, w);
  }

  lemma LeftMiddle(n: int, m: int, w: int)
    requires w == m * (n + 1)
    ensures n * w == n * n * m + n * m
  {
    Distribute(m, n, 1);
    Distribute(n, m * n, m);
    Swap(m, n);
    MulAssoc(n, n, m);
  }

  lemma LeftLast(n: int, m: int, w: int)
    requires w == m * (n + 1)
    ensures w * w == m * m * (n * n) + 2 * (m * m * n) + m * m
  {
    var h, c := m * m, n * n;
    Interchange(m, n + 1, m, n + 1);
    Distribute(n + 1, n, 1);
    Distribute(h, c, 2 * n + 1);
    Distribute(h, 2 * n, 1);
    Swap(h, 2);
    MulAssoc(h, 2, n);
    MulAssoc(2, h, n);
  }

  lemma BinomialSquare(x: int, w: int)
    ensures Sq(x + w) == x * x + 2 * (x * w) + w * w
  {
  }

  lemma RightUpper(n: int, c: int, w: int, h: int, e: int)
    ensures n * (c + A * w + h + e) == n * c + A * (n * w) + h * n + n * e
  {
    Distribute(n, c + A * w + h, e);
    Distribute(n, c + A * w, h);
    Distribute(n, c, A * w);
  }

  lemma RightLower(n: int, m: int)
    ensures n * ((A * A - 2) * n + A * m + 1) == (A * A - 2) * (n * n) + A * (n * m) + n
  {
    Distribute(n, (A * A - 2) * n, A * m + 1);
    Distribute(n, A * m, 1);
  }

  lemma SquareTimes(h: int, n: int, c: int)
    requires c == n * n
    ensures h * Sq(n - 1) == h * c - 2 * (h * n) + h
  {
    assert Sq(n - 1) == c - 2 * n + 1;
    Distribute(h, c, -2 * n + 1);
    Distribute(h, -2 * n, 1);
  }

  lemma CubicTimes(n: int, c: int)
    requires c == n * n
    ensures 4 * n * Sq(n - 1) == 4 * (n * c) - 8 * c + 4 * n
  {
    SquareTimes(n, n, c);
  }

  /** The u coordinate of a sum of points over different u. */
  lemma ChordU(q: Affine, r: Affine, b: int, p: int)
    requires Curve(b, p) && CurvePoint(q, b, p) && CurvePoint(r, b, p) && q.Point? && r.Point? && q.u != r.u
    ensures Add(q, r, b, p).Point?
    ensures Cong(Add(q, r, b, p).u * Sq(r.u - q.u), Middle(q.u, r.u) - 2 * (b * (q.v * r.v)), p)
  {
    hide F, Divides, Chord, Cong, Middle;
    Apart(r.u, q.u, p);
    ChordThrough(q.u, q.v, r.u, r.v, p);
    var l := Chord(q.u, q.v, r.u, r.v, p);
    CongMod(b * (l * l) - A - q.u - r.u, p);
    ChordMath((b * (l * l) - A - q.u - r.u) % p, b, l, q.u, q.v, r.u, r.v, p);
  }

  lemma ChordMath(u3: int, b: int, l: int, a: int, s: int, e: int, t: int, p: int)
    requires p > 0 && Cong(u3, b * (l * l) - A - a - e, p) && Cong(l * (e - a), t - s, p)
    requires Cong(b * (s * s), F(a), p) && Cong(b * (t * t), F(e), p)
    ensures Cong(u3 * Sq(e - a), Middle(a, e) - 2 * (b * (s * t)), p)
  {
    hide F;
    var k, d := A + a + e, e - a;
    SquareOut(u3, b, l, d, t - s, k, p);
    assert b * Sq(t - s) == b * (t * t) + b * (s * s) - 2 * (b * (s * t)) by {
      assert Sq(t - s) == t * t + s * s - 2 * (s * t);
      Distribute(b, t * t + s * s, 2 * (s * t));
      Distribute(b, t * t, s * s);
    }
    CongAdd(b * (t * t), F(e), b * (s * s), F(a), p);
    CongAdd(b * (t * t) + b * (s * s), F(e) + F(a), 2 * (b * (s * t)) + k * (d * d), 2 * (b * (s * t)) + k * (d * d), p);
  }

  /** u(Q + R) u(R - Q) (r - q)^2 = (q r - 1)^2. */
  lemma SumU(q: Affine, r: Affine, b: int, p: int)
    requires Curve(b, p) && CurvePoint(q, b, p) && CurvePoint(r, b, p) && q.Point? && r.Point? && q.u != r.u
    ensures Add(q, r, b, p).Point? && Add(r, Neg(q, p), b, p).Point?
    ensures Cong(Add(q, r, b, p).u * Add(r, Neg(q, p), b, p).u * Sq(r.u - q.u), Sq(q.u * r.u - 1), p)
  {
    hide F, Divides, Cong, Middle, Add, CurvePoint, Sq;
    NegOnCurve(q, b, p);
    ChordU(q, r, b, p);
    ChordU(r, Neg(q, p), b, p);
    Signs(q.u, r.u, r.v, q.v, b, p);
    OnCurveIs(q, b, p);
    OnCurveIs(r, b, p);
    var plus, minus := Add(q, r, b, p).u, Add(r, Neg(q, p), b, p).u;
    var d, k, x := Sq(r.u - q.u), Middle(q.u, r.u), b * (q.v * r.v);
    Chain(minus * d, Middle(r.u, q.u) - 2 * (b * (r.v * Neg(q, p).v)), k + 2 * x, p);
    ProductMath(plus, minus, d, k, x, F(q.u), F(r.u), Sq(q.u * r.u - 1), b, q.v, r.v, q.u, r.u, p);
    Apart(r.u, q.u, p);
    SquareNotZero(r.u - q.u, p);
    MulAssoc(plus, minus, d);
    CancelFactor(plus * minus * d, Sq(q.u * r.u - 1), d, p);
  }

  lemma OnCurveIs(q: Affine, b: int, p: int)
    requires p > 0 && CurvePoint(q, b, p) && q.Point?
    ensures Cong(b * (q.v * q.v), F(q.u), p) && 0 <= q.u < p && 0 <= q.v < p
  {
    hide F;
  }

  lemma SquareNotZero(d: int, p: int)
    requires IsPrime(p) && d % p != 0
    ensures Sq(d) % p != 0
  {
    hide Divides;
    ZeroProduct(d, d, p);
  }

  lemma Signs(a: int, e: int, t: int, s: int, b: int, p: int)
    requires p > 0
    ensures Sq(a - e) == Sq(e - a)
    ensures Cong(Middle(e, a) - 2 * (b * (t * ((-s) % p))), Middle(a, e) + 2 * (b * (s * t)), p)
  {
    hide F;
    var n := (-s) % p;
    CongMod(-s, p);
    CongMul(t, t, n, -s, p);
    CongMul(b, b, t * n, t * (-s), p);
    assert b * (t * (-s)) == -(b * (s * t));
    CongMul(2, 2, b * (t * n), -(b * (s * t)), p);
    assert Middle(e, a) == Middle(a, e);
    hide Middle;
    CongAdd(Middle(e, a), Middle(a, e), 2 * (b * (t * n)), -(2 * (b * (s * t))), p);
  }

  lemma ProductMath(plus: int, minus: int, d: int, k: int, x: int, f: int, g: int, w: int, b: int, s: int, t: int,
                    a: int, e: int, p: int)
    requires p > 0 && Cong(plus * d, k - 2 * x, p) && Cong(minus * d, k + 2 * x, p) && x == b * (s * t)
    requires Cong(b * (s * s), f, p) && Cong(b * (t * t), g, p) && f == F(a) && g == F(e)
    requires k == Middle(a, e) && d == Sq(e - a) && w == Sq(a * e - 1)
    ensures Cong(plus * minus * d * d, w * d, p)
  {
    hide F, Middle, Sq;
    CongMul(plus * d, k - 2 * x, minus * d, k + 2 * x, p);
    Regroup(plus, minus, d, k, x);
    CongMul(b * (s * s), f, b * (t * t), g, p);
    SquaresTogether(b, s, t);
    CongMul(4, 4, x * x, f * g, p);
    CongAdd(k * k, k * k, 4 * (x * x), 4 * (f * g), p);
    SumIdentity(a, e);
    SqIs(k);
    Swap(d, w);
  }

  lemma SqIs(k: int)
    ensures Sq(k) == k * k
  {
  }

  lemma Regroup(plus: int, minus: int, d: int, k: int, x: int)
    ensures plus * d * (minus * d) == plus * minus * d * d
    ensures (k - 2 * x) * (k + 2 * x) == k * k - 4 * (x * x)
  {
    MulAssoc(plus, d, minus * d);
    MulAssoc(d, minus, d);
    Swap(d, minus);
    MulAssoc(plus, minus * d, d);
    MulAssoc(plus, minus, d);
  }

  lemma SquaresTogether(b: int, s: int, t: int)
    ensures var x := b * (s * t); b * (s * s) * (b * (t * t)) == x * x
  {
    var n := s * t;
    assert s * s * (t * t) == n * n;
    assert b * (s * s) * (b * (t * t)) == b * b * (s * s * (t * t));
  }
}
