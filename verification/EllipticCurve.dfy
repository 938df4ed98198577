/** kernel/src/crypto/ec.rs: Jacobian arithmetic on y^2 = x^3 - 3x + b over a prime field. */
module EllipticCurve {
  import opened Arith
  import opened PrimeField

  // ---- field operations, on residues -------------------------------------------

  function FAdd(a: int, b: int, p: int): int requires p > 0 { (a + b) % p }
  function FSub(a: int, b: int, p: int): int requires p > 0 { (a - b) % p }
  function FMul(a: int, b: int, p: int): int requires p > 0 { a * b % p }
  function FSq(a: int, p: int): int requires p > 0 { FMul(a, a, p) }
  function FDouble(a: int, p: int): int requires p > 0 { FAdd(a, a, p) }

  /** a is a field value standing for the integer x. */
  ghost predicate Is(a: int, x: int, p: int)
  {
    p > 0 && Cong(a, x, p)
  }

  lemma IsAdd(a: int, x: int, b: int, y: int, p: int)
    requires Is(a, x, p) && Is(b, y, p)
    ensures Is(FAdd(a, b, p), x + y, p)
  {
    CongAdd(a, x, b, y, p);
    CongMod(a + b, p);
  }

  lemma IsSub(a: int, x: int, b: int, y: int, p: int)
    requires Is(a, x, p) && Is(b, y, p)
    ensures Is(FSub(a, b, p), x - y, p)
  {
    CongAdd(a, x, b, y, p);
    CongMod(a - b, p);
  }

  lemma IsMul(a: int, x: int, b: int, y: int, p: int)
    requires Is(a, x, p) && Is(b, y, p)
    ensures Is(FMul(a, b, p), x * y, p)
  {
    CongMul(a, x, b, y, p);
    CongMod(a * b, p);
  }

  lemma IsSq(a: int, x: int, p: int)
    requires Is(a, x, p)
    ensures Is(FSq(a, p), x * x, p)
  {
    IsMul(a, x, a, x, p);
  }

  lemma IsDouble(a: int, x: int, p: int)
    requires Is(a, x, p)
    ensures Is(FDouble(a, p), 2 * x, p)
  {
    IsAdd(a, x, a, x, p);
  }

  // ---- points ---------------------------------------------------------------------

  /** (x, y, z) stands for the affine point (x / z^2, y / z^3); z = 0 is infinity. */
  datatype Jac = Jac(x: int, y: int, z: int) {
    predicate Reduced(p: int)
    {
      0 <= x < p && 0 <= y < p && 0 <= z < p
    }
  }

  const INFINITY: Jac := Jac(0, 0, 0)

  function Doubled(j: Jac, p: int): Jac
    requires p > 0
  {
    var zz := FSq(j.z, p);
    var t := FMul(FSub(j.x, zz, p), FAdd(j.x, zz, p), p);
    var m := FAdd(t, FDouble(t, p), p);
    var yy := FSq(j.y, p);
    var s := FDouble(FDouble(FMul(j.x, yy, p), p), p);
    var x3 := FSub(FSq(m, p), FDouble(s, p), p);
    var eight := FDouble(FDouble(FDouble(FSq(yy, p), p), p), p);
    var y3 := FSub(FMul(m, FSub(s, x3, p), p), eight, p);
    var z3 := FDouble(FMul(j.y, j.z, p), p);
    Jac(x3, y3, z3)
  }

  function Double(j: Jac, p: int): Jac
    requires p > 0
  {
    if j.z == 0 || j.y == 0 then INFINITY else Doubled(j, p)
  }

  /** The difference of the x coordinates over a common denominator. */
  function AddH(j: Jac, k: Jac, p: int): int
    requires p > 0
  {
    FSub(FMul(k.x, FSq(j.z, p), p), FMul(j.x, FSq(k.z, p), p), p)
  }

  /** The difference of the y coordinates over a common denominator. */
  function AddR(j: Jac, k: Jac, p: int): int
    requires p > 0
  {
    FSub(FMul(k.y, FMul(j.z, FSq(j.z, p), p), p), FMul(j.y, FMul(k.z, FSq(k.z, p), p), p), p)
  }

  function Add(j: Jac, k: Jac, p: int): Jac
    requires p > 0
  {
    if j.z == 0 then k
    else if k.z == 0 then j
    else
      var z2z2 := FSq(k.z, p);
      var u1 := FMul(j.x, z2z2, p);
      var s1 := FMul(j.y, FMul(k.z, z2z2, p), p);
      var h := AddH(j, k, p);
      var r := AddR(j, k, p);
      if h == 0 then (if r == 0 then Double(j, p) else INFINITY)
      else
        var hh := FSq(h, p);
        var hhh := FMul(h, hh, p);
        var v := FMul(u1, hh, p);
        var x3 := FSub(FSub(FSq(r, p), hhh, p), FDouble(v, p), p);
        var y3 := FSub(FMul(r, FSub(v, x3, p), p), FMul(s1, hhh, p), p);
        var z3 := FMul(FMul(j.z, k.z, p), h, p);
        Jac(x3, y3, z3)
  }

  // ---- the affine group law ----------------------------------------------------------

  datatype Affine = Origin | Point(x: int, y: int)

  /** Third point of the line of slope l through (x1, y1) and a point over x2, reflected. */
  function Third(l: int, x1: int, y1: int, x2: int): (int, int)
  {
    var x3 := l * l - x1 - x2;
    (x3, l * (x1 - x3) - y1)
  }

  ghost function Tangent(x: int, y: int, p: int): int
    requires IsPrime(p)
  {
    (3 * (x * x) - 3) * Inv(2 * y, p)
  }

  ghost function Chord(x1: int, y1: int, x2: int, y2: int, p: int): int
    requires IsPrime(p)
  {
    (y2 - y1) * Inv(x2 - x1, p)
  }

  function Residues(q: (int, int), p: int): Affine
    requires p > 0
  {
    Point(q.0 % p, q.1 % p)
  }

  ghost function AffineDouble(a: Affine, p: int): Affine
    requires IsPrime(p)
  {
    match a
    case Origin => Origin
    case Point(x, y) =>
      if y == 0 then Origin else Residues(Third(Tangent(x, y, p), x, y, x), p)
  }

  ghost function AffineAdd(a: Affine, b: Affine, p: int): Affine
    requires IsPrime(p)
  {
    match (a, b)
    case (Origin, _) => b
    case (_, Origin) => a
    case (Point(x1, y1), Point(x2, y2)) =>
      if x1 != x2 then Residues(Third(Chord(x1, y1, x2, y2, p), x1, y1, x2), p)
      else if y1 == y2 then AffineDouble(a, p)
      else Origin
  }

  ghost function ToAffine(j: Jac, p: int): Affine
    requires IsPrime(p)
  {
    if j.z == 0 then Origin
    else
      var v := Inv(j.z, p);
      Point(j.x * (v * v) % p, j.y * (v * v * v) % p)
  }

  // ---- the formulas as integer polynomials ----------------------------------------------

  /** What Double computes from x, y, z, before any reduction. */
  lemma DoublePolynomials(j: Jac, x: int, y: int, z: int, p: int)
    requires p > 0 && j.z != 0 && j.y != 0
    requires Is(j.x, x, p) && Is(j.y, y, p) && Is(j.z, z, p)
    ensures var zz, yy := z * z, y * y;
            var m, s := 3 * ((x - zz) * (x + zz)), 4 * (x * yy);
            var x3 := m * m - 2 * s;
            var d := Double(j, p);
            Is(d.x, x3, p) && Is(d.y, m * (s - x3) - 8 * (yy * yy), p) && Is(d.z, 2 * (y * z), p)
  {
    hide Is;
    var zz, yy := z * z, y * y;
    var tv := (x - zz) * (x + zz);
    var mv, sv := 3 * tv, 4 * (x * yy);
    var x3v := mv * mv - 2 * sv;
    var fzz := FSq(j.z, p);
    IsSq(j.z, z, p);
    IsSub(j.x, x, fzz, zz, p);
    IsAdd(j.x, x, fzz, zz, p);
    var t := FMul(FSub(j.x, fzz, p), FAdd(j.x, fzz, p), p);
    IsMul(FSub(j.x, fzz, p), x - zz, FAdd(j.x, fzz, p), x + zz, p);
    IsDouble(t, tv, p);
    IsAdd(t, tv, FDouble(t, p), 2 * tv, p);
    var m := FAdd(t, FDouble(t, p), p);
    var fyy := FSq(j.y, p);
    IsSq(j.y, y, p);
    var xyy := FMul(j.x, fyy, p);
    IsMul(j.x, x, fyy, yy, p);
    IsDouble(xyy, x * yy, p);
    IsDouble(FDouble(xyy, p), 2 * (x * yy), p);
    var s := FDouble(FDouble(xyy, p), p);
    IsSq(m, mv, p);
    IsDouble(s, sv, p);
    IsSub(FSq(m, p), mv * mv, FDouble(s, p), 2 * sv, p);
    var x3 := FSub(FSq(m, p), FDouble(s, p), p);
    var y4 := FSq(fyy, p);
    IsSq(fyy, yy, p);
    IsDouble(y4, yy * yy, p);
    IsDouble(FDouble(y4, p), 2 * (yy * yy), p);
    IsDouble(FDouble(FDouble(y4, p), p), 4 * (yy * yy), p);
    IsSub(s, sv, x3, x3v, p);
    IsMul(m, mv, FSub(s, x3, p), sv - x3v, p);
    IsSub(FMul(m, FSub(s, x3, p), p), mv * (sv - x3v), FDouble(FDouble(FDouble(y4, p), p), p), 8 * (yy * yy), p);
    IsMul(j.y, y, j.z, z, p);
    IsDouble(FMul(j.y, j.z, p), y * z, p);
  }

  // ---- coordinates that represent an affine point ------------------------------------------

  /** x = a w^2 and y = b w^3 for the integer w that z stands for. */
  ghost predicate Represents(j: Jac, a: int, b: int, w: int, p: int)
  {
    Is(j.x, a * (w * w), p) && Is(j.y, b * (w * w * w), p) && Is(j.z, w, p)
  }

  lemma PowersOf(a: int, b: int, p: int)
    requires p > 0 && Cong(a, b, p)
    ensures Cong(a * a, b * b, p) && Cong(a * a * a, b * b * b, p)
  {
    CongMul(a, b, a, b, p);
    CongMul(a * a, b * b, a, b, p);
  }

  lemma PowersOfInverse(w: int, v: int, p: int)
    requires p > 0 && Cong(w * v, 1, p)
    ensures Cong(w * w * (v * v), 1, p) && Cong(w * w * w * (v * v * v), 1, p)
  {
    CongMul(w * v, 1, w * v, 1, p);
    assert w * v * (w * v) == w * w * (v * v);
    CongMul(w * w * (v * v), 1, w * v, 1, p);
    assert w * w * (v * v) * (w * v) == w * w * w * (v * v * v);
  }

  lemma Unscale(x: int, a: int, w: int, v: int, p: int)
    requires p > 0 && Cong(x, a * w, p) && Cong(w * v, 1, p)
    ensures Cong(x * v, a, p)
  {
    CongMul(x, a * w, v, v, p);
    MulAssoc(a, w, v);
    CongMul(a, a, w * v, 1, p);
  }

  lemma RepresentsAffine(j: Jac, a: int, b: int, w: int, p: int)
    requires IsPrime(p) && j.Reduced(p) && Represents(j, a, b, w, p) && j.z != 0
    ensures ToAffine(j, p) == Point(a % p, b % p)
  {
    var v := Inv(j.z, p);
    DivModUnique(j.z, 0, j.z, p);
    assert Cong(w * v, 1, p) by { CongMul(j.z, w, v, v, p); }
    PowersOfInverse(w, v, p);
    Unscale(j.x, a, w * w, v * v, p);
    Unscale(j.y, b, w * w * w, v * v * v, p);
  }

  /** Every finite point is represented by its affine coordinates. */
  lemma AffineRepresents(j: Jac, p: int)
    requires IsPrime(p) && j.Reduced(p) && j.z != 0
    ensures var a := ToAffine(j, p);
            a.Point? && 0 <= a.x < p && 0 <= a.y < p && Represents(j, a.x, a.y, j.z, p)
            && (a.y == 0 <==> j.y == 0)
  {
    var w, v := j.z, Inv(j.z, p);
    DivModUnique(j.z, 0, j.z, p);
    PowersOfInverse(w, v, p);
    hide Inv, IsPrime;
    Rescale(j.x, w * w, v * v, p);
    Rescale(j.y, w * w * w, v * v * v, p);
    ZeroScaled(j.y, w * w * w, v * v * v, p);
  }

  lemma ZeroScaled(y: int, w: int, v: int, p: int)
    requires 0 <= y < p && Cong(w * v, 1, p)
    ensures y * v % p == 0 <==> y == 0
  {
    Rescale(y, w, v, p);
    if y == 0 { assert 0 * v == 0; }
    if y * v % p == 0 {
      assert 0 * w == 0;
      CongSmall(y, 0, p);
    }
  }

  lemma Rescale(x: int, w: int, v: int, p: int)
    requires p > 0 && Cong(w * v, 1, p)
    ensures Cong(x, x * v % p * w, p)
  {
    CongMod(x * v, p);
    CongMul(x * v % p, x * v, w, w, p);
    CongMul(x, x, w * v, 1, p);
    assert x * v * w == x * (w * v);
  }

  // ---- doubling -------------------------------------------------------------------------------

  // Polynomial identities behind the doubling formulas, for x z^2, y z^3 and c = z^2.

  lemma SlopeIdentity(x: int, c: int)
    ensures 3 * ((x * c - c) * (x * c + c)) == (3 * (x * x) - 3) * (c * c)
  {
  }

  lemma SquareIdentity(y: int, z: int)
    ensures var ys := y * (z * z * z);
            ys * ys == y * y * (z * z * (z * z) * (z * z)) && ys * z == y * (z * z * (z * z))
  {
  }

  lemma MiddleIdentity(x: int, y: int, c: int)
    ensures var w := 2 * (y * (c * c));
            4 * (x * c * (y * y * (c * c * c))) == x * (w * w)
  {
  }

  lemma LastIdentity(y: int, c: int)
    ensures var w, yy := 2 * (y * (c * c)), y * y * (c * c * c);
            8 * (yy * yy) == y * (w * w * w)
  {
  }

  /** m = l w makes the new point the tangent's third point, scaled by w. */
  lemma TangentScaled(m: int, l: int, w: int, x: int, y: int, p: int)
    requires p > 0 && Cong(m, l * w, p)
    ensures var (x3, y3) := Third(l, x, y, x);
            var s := x * (w * w);
            var xs := m * m - 2 * s;
            Cong(xs, x3 * (w * w), p) && Cong(m * (s - xs) - y * (w * w * w), y3 * (w * w * w), p)
  {
    var (x3, y3) := Third(l, x, y, x);
    var s := x * (w * w);
    var xs := m * m - 2 * s;
    var q := x3 * (w * w);
    CongMul(m, l * w, m, l * w, p);
    CongAdd(m * m, l * w * (l * w), 2 * s, 2 * s, p);
    ThirdX(l, w, x, x);
    CongAdd(s, s, xs, q, p);
    CongMul(m, l * w, s - xs, s - q, p);
    CongAdd(m * (s - xs), l * w * (s - q), y * (w * w * w), y * (w * w * w), p);
    ThirdY(l, w, x, x3, y);
  }

  lemma ThirdX(l: int, w: int, x1: int, x2: int)
    ensures l * w * (l * w) - (x1 * (w * w) + x2 * (w * w)) == (l * l - x1 - x2) * (w * w)
  {
  }

  lemma ThirdY(l: int, w: int, x1: int, x3: int, y1: int)
    ensures l * w * (x1 * (w * w) - x3 * (w * w)) - y1 * (w * w * w) == (l * (x1 - x3) - y1) * (w * w * w)
  {
  }

  /** The tangent slope times 2y is 3x^2 - 3. */
  lemma TangentSlope(x: int, y: int, c: int, p: int)
    requires IsPrime(p) && p > 2 && y % p != 0
    ensures Cong((3 * (x * x) - 3) * (c * c), Tangent(x, y, p) * (2 * (y * (c * c))), p)
  {
    var n, v := 3 * (x * x) - 3, Inv(2 * y, p);
    NonZeroDouble(y, p);
    CongMul(2 * y * v, 1, n * (c * c), n * (c * c), p);
    SlopeMonomial(n, v, y, c);
  }

  lemma SlopeMonomial(n: int, v: int, y: int, c: int)
    ensures 2 * y * v * (n * (c * c)) == n * v * (2 * (y * (c * c)))
  {
  }

  lemma NonZeroDouble(y: int, p: int)
    requires IsPrime(p) && p > 2 && y % p != 0
    ensures 2 * y % p != 0
  {
    ZeroProduct(2, y, p);
    DivModUnique(2, 0, 2, p);
  }

  lemma DoubleRepresents(j: Jac, x: int, y: int, p: int)
    requires IsPrime(p) && p > 2 && j.Reduced(p) && j.z != 0 && j.y != 0
    requires Represents(j, x, y, j.z, p) && 0 <= x < p && 0 < y < p
    ensures var (x3, y3) := Third(Tangent(x, y, p), x, y, x);
            var c := j.z * j.z;
            Represents(Double(j, p), x3, y3, 2 * (y * (c * c)), p)
  {
    var z := j.z;
    var c := z * z;
    var xs, ys := x * c, y * (z * z * z);
    var w, l := 2 * (y * (c * c)), Tangent(x, y, p);
    DoublePolynomials(j, xs, ys, z, p);
    SlopeIdentity(x, c);
    SquareIdentity(y, z);
    MiddleIdentity(x, y, c);
    LastIdentity(y, c);
    DivModUnique(y, 0, y, p);
    TangentSlope(x, y, c, p);
    hide Tangent, Double;
    TangentScaled((3 * (x * x) - 3) * (c * c), l, w, x, y, p);
  }

  // ---- addition ------------------------------------------------------------------------------

  /** What Add computes from the coordinates, before any reduction. */
  lemma AddPolynomials(j: Jac, k: Jac, x1: int, y1: int, z1: int, x2: int, y2: int, z2: int, p: int,
                       u1: int, s1: int, h: int, r: int)
    requires p > 0 && j.z != 0 && k.z != 0
    requires u1 == x1 * (z2 * z2) && h == x2 * (z1 * z1) - u1
    requires s1 == y1 * (z2 * (z2 * z2)) && r == y2 * (z1 * (z1 * z1)) - s1
    requires Is(j.x, x1, p) && Is(j.y, y1, p) && Is(j.z, z1, p)
    requires Is(k.x, x2, p) && Is(k.y, y2, p) && Is(k.z, z2, p)
    ensures && Is(AddH(j, k, p), h, p) && Is(AddR(j, k, p), r, p)
            && (AddH(j, k, p) != 0 ==>
                  var v, hhh := u1 * (h * h), h * (h * h);
                  var x3 := r * r - hhh - 2 * v;
                  var d := Add(j, k, p);
                  Is(d.x, x3, p) && Is(d.y, r * (v - x3) - s1 * hhh, p) && Is(d.z, z1 * z2 * h, p))
  {
    hide Is;
    var u2, s2 := x2 * (z1 * z1), y2 * (z1 * (z1 * z1));
    var z1z1, z2z2 := FSq(j.z, p), FSq(k.z, p);
    IsSq(j.z, z1, p);
    IsSq(k.z, z2, p);
    var fu1, fu2 := FMul(j.x, z2z2, p), FMul(k.x, z1z1, p);
    IsMul(j.x, x1, z2z2, z2 * z2, p);
    IsMul(k.x, x2, z1z1, z1 * z1, p);
    IsMul(k.z, z2, z2z2, z2 * z2, p);
    IsMul(j.z, z1, z1z1, z1 * z1, p);
    var fs1, fs2 := FMul(j.y, FMul(k.z, z2z2, p), p), FMul(k.y, FMul(j.z, z1z1, p), p);
    IsMul(j.y, y1, FMul(k.z, z2z2, p), z2 * (z2 * z2), p);
    IsMul(k.y, y2, FMul(j.z, z1z1, p), z1 * (z1 * z1), p);
    var fh, fr := FSub(fu2, fu1, p), FSub(fs2, fs1, p);
    IsSub(fu2, u2, fu1, u1, p);
    IsSub(fs2, s2, fs1, s1, p);
    if fh != 0 {
      var hh := FSq(fh, p);
      IsSq(fh, h, p);
      var hhh, v := FMul(fh, hh, p), FMul(fu1, hh, p);
      IsMul(fh, h, hh, h * h, p);
      IsMul(fu1, u1, hh, h * h, p);
      var hhhv, vv := h * (h * h), u1 * (h * h);
      IsSq(fr, r, p);
      IsSub(FSq(fr, p), r * r, hhh, hhhv, p);
      IsDouble(v, vv, p);
      IsSub(FSub(FSq(fr, p), hhh, p), r * r - hhhv, FDouble(v, p), 2 * vv, p);
      var x3 := FSub(FSub(FSq(fr, p), hhh, p), FDouble(v, p), p);
      var x3v := r * r - hhhv - 2 * vv;
      IsSub(v, vv, x3, x3v, p);
      IsMul(fr, r, FSub(v, x3, p), vv - x3v, p);
      IsMul(fs1, s1, hhh, hhhv, p);
      IsSub(FMul(fr, FSub(v, x3, p), p), r * (vv - x3v), FMul(fs1, hhh, p), s1 * hhhv, p);
      IsMul(j.z, z1, k.z, z2, p);
      IsMul(FMul(j.z, k.z, p), z1 * z2, fh, h, p);
    }
  }

  // Polynomial identities behind the addition formulas, for x z^2, y z^3 and w = z1 z2.

  lemma CommonX(x: int, a: int, b: int)
    ensures x * (a * a) * (b * b) == x * (a * b * (a * b))
  {
  }

  lemma CommonY(y: int, a: int, b: int)
    ensures y * (a * a * a) * (b * (b * b)) == y * (a * b * (a * b) * (a * b))
  {
  }

  lemma ChordIdentities(x1: int, y1: int, d: int, w: int)
    ensures var h := d * (w * w);
            var e := w * h;
            && x1 * (w * w) * (h * h) == x1 * (e * e)
            && h * (h * h) == d * (e * e)
            && y1 * (w * w * w) * (h * (h * h)) == y1 * (e * e * e)
  {
    var h := d * (w * w);
    var e := w * h;
    ChordSquares(x1, w, h);
    ChordCube(y1, w, h);
    assert h * (h * h) == d * (w * w) * (h * h);
    ChordSquares(d, w, h);
  }

  lemma ChordSquares(x: int, w: int, h: int)
    ensures x * (w * w) * (h * h) == x * (w * h * (w * h))
  {
  }

  lemma ChordCube(y: int, w: int, h: int)
    ensures y * (w * w * w) * (h * (h * h)) == y * (w * h * (w * h) * (w * h))
  {
  }

  /** r = l e makes the sum the chord's third point, scaled by e. */
  lemma ChordScaled(r: int, l: int, e: int, x1: int, y1: int, x2: int, p: int)
    requires p > 0 && Cong(r, l * e, p)
    ensures var (x3, y3) := Third(l, x1, y1, x2);
            var v := x1 * (e * e);
            var xs := r * r - (x2 - x1) * (e * e) - 2 * v;
            Cong(xs, x3 * (e * e), p) && Cong(r * (v - xs) - y1 * (e * e * e), y3 * (e * e * e), p)
  {
    var (x3, y3) := Third(l, x1, y1, x2);
    var v, q := x1 * (e * e), x3 * (e * e);
    var both := v + x2 * (e * e);
    var xs := r * r - (x2 - x1) * (e * e) - 2 * v;
    assert (x2 - x1) * (e * e) == x2 * (e * e) - x1 * (e * e);
    CongMul(r, l * e, r, l * e, p);
    CongAdd(r * r, l * e * (l * e), both, both, p);
    ThirdX(l, e, x1, x2);
    CongAdd(v, v, xs, q, p);
    CongMul(r, l * e, v - xs, v - q, p);
    CongAdd(r * (v - xs), l * e * (v - q), y1 * (e * e * e), y1 * (e * e * e), p);
    ThirdY(l, e, x1, x3, y1);
  }

  lemma ChordSlope(x1: int, y1: int, x2: int, y2: int, w: int, p: int)
    requires IsPrime(p) && (x2 - x1) % p != 0
    ensures Cong((y2 - y1) * (w * w * w), Chord(x1, y1, x2, y2, p) * (w * ((x2 - x1) * (w * w))), p)
  {
    var n, d, v := y2 - y1, x2 - x1, Inv(x2 - x1, p);
    CongMul(d * v, 1, n * (w * w * w), n * (w * w * w), p);
    ChordMonomial(n, d, v, w);
  }

  lemma ChordMonomial(n: int, d: int, v: int, w: int)
    ensures d * v * (n * (w * w * w)) == n * v * (w * (d * (w * w)))
  {
  }

  /** The formulas over the common denominator w = z1 z2. */
  lemma AddScaled(j: Jac, k: Jac, x1: int, y1: int, x2: int, y2: int, p: int)
    requires p > 0 && j.z != 0 && k.z != 0
    requires Represents(j, x1, y1, j.z, p) && Represents(k, x2, y2, k.z, p)
    ensures var w := j.z * k.z;
            var h, r := (x2 - x1) * (w * w), (y2 - y1) * (w * w * w);
            && Is(AddH(j, k, p), h, p) && Is(AddR(j, k, p), r, p)
            && (AddH(j, k, p) != 0 ==>
                  var v, hhh := x1 * (w * w) * (h * h), h * (h * h);
                  var xs := r * r - hhh - 2 * v;
                  var d := Add(j, k, p);
                  Is(d.x, xs, p) && Is(d.y, r * (v - xs) - y1 * (w * w * w) * hhh, p) && Is(d.z, w * h, p))
  {
    var z1, z2 := j.z, k.z;
    var w := z1 * z2;
    var u, s := w * w, w * w * w;
    CommonX(x1, z1, z2);
    CommonX(x2, z2, z1);
    CommonY(y1, z1, z2);
    CommonY(y2, z2, z1);
    hide Add, AddH, AddR, Is;
    assert z2 * z1 == w;
    Distribute(u, x2, x1);
    Distribute(s, y2, y1);
    AddPolynomials(j, k, x1 * (z1 * z1), y1 * (z1 * z1 * z1), z1, x2 * (z2 * z2), y2 * (z2 * z2 * z2), z2, p,
                   x1 * u, y1 * s, (x2 - x1) * u, (y2 - y1) * s);
  }

  lemma AddRepresents(j: Jac, k: Jac, x1: int, y1: int, x2: int, y2: int, p: int)
    requires IsPrime(p) && j.z != 0 && k.z != 0 && (x2 - x1) % p != 0 && AddH(j, k, p) != 0
    requires Represents(j, x1, y1, j.z, p) && Represents(k, x2, y2, k.z, p)
    ensures var w := j.z * k.z;
            var (x3, y3) := Third(Chord(x1, y1, x2, y2, p), x1, y1, x2);
            Represents(Add(j, k, p), x3, y3, w * ((x2 - x1) * (w * w)), p)
  {
    var w, l := j.z * k.z, Chord(x1, y1, x2, y2, p);
    var h, r := (x2 - x1) * (w * w), (y2 - y1) * (w * w * w);
    AddScaled(j, k, x1, y1, x2, y2, p);
    hide Add, AddH, AddR, Chord;
    ChordIdentities(x1, y1, x2 - x1, w);
    ChordSlope(x1, y1, x2, y2, w, p);
    ChordScaled(r, l, w * h, x1, y1, x2, p);
  }

  // ---- the main theorems: Jacobian arithmetic is the affine group law ---------------------

  lemma ReducedResults(j: Jac, k: Jac, p: int)
    requires p > 0 && j.Reduced(p) && k.Reduced(p)
    ensures Double(j, p).Reduced(p) && Add(j, k, p).Reduced(p)
  {
  }

  lemma DoubleIsAffine(j: Jac, p: int)
    requires IsPrime(p) && p > 2 && j.Reduced(p)
    ensures Double(j, p).Reduced(p) && ToAffine(Double(j, p), p) == AffineDouble(ToAffine(j, p), p)
  {
    ReducedResults(j, j, p);
    if j.z != 0 {
      AffineRepresents(j, p);
      var a := ToAffine(j, p);
      if j.y != 0 {
        DoubleRepresents(j, a.x, a.y, p);
        var c := j.z * j.z;
        var w := 2 * (a.y * (c * c));
        var (x3, y3) := Third(Tangent(a.x, a.y, p), a.x, a.y, a.x);
        NonZeroScale(a.y, j.z, p);
        hide Double, Tangent;
        NonZeroResidue(Double(j, p).z, w, p);
        RepresentsAffine(Double(j, p), x3, y3, w, p);
      }
    }
  }

  lemma NonZeroScale(y: int, z: int, p: int)
    requires IsPrime(p) && p > 2 && 0 < y < p && 0 < z < p
    ensures var c := z * z; 2 * (y * (c * c)) % p != 0
  {
    DivModUnique(y, 0, y, p);
    DivModUnique(z, 0, z, p);
    var c := z * z;
    ZeroProduct(z, z, p);
    ZeroProduct(c, c, p);
    ZeroProduct(y, c * c, p);
    NonZeroDouble(y * (c * c), p);
  }

  lemma NonZeroResidue(a: int, w: int, p: int)
    requires Is(a, w, p) && w % p != 0 && 0 <= a < p
    ensures a != 0
  {
    if a == 0 { DivModUnique(0, 0, 0, p); }
  }

  lemma AddIsAffine(j: Jac, k: Jac, p: int)
    requires IsPrime(p) && p > 2 && j.Reduced(p) && k.Reduced(p)
    ensures Add(j, k, p).Reduced(p) && ToAffine(Add(j, k, p), p) == AffineAdd(ToAffine(j, p), ToAffine(k, p), p)
  {
    ReducedResults(j, k, p);
    if j.z != 0 && k.z != 0 {
      AffineRepresents(j, p);
      AffineRepresents(k, p);
      var a, b := ToAffine(j, p), ToAffine(k, p);
      AddScaled(j, k, a.x, a.y, b.x, b.y, p);
      var w := j.z * k.z;
      NonZeroProduct(j.z, k.z, p);
      SameResidue(a.x, b.x, w * w, AddH(j, k, p), p);
      SameResidue(a.y, b.y, w * w * w, AddR(j, k, p), p);
      if AddH(j, k, p) == 0 {
        DoubleIsAffine(j, p);
      } else {
        AddRepresents(j, k, a.x, a.y, b.x, b.y, p);
        ZeroProduct(b.x - a.x, w * w, p);
        ZeroProduct(w, (b.x - a.x) * (w * w), p);
        var e := w * ((b.x - a.x) * (w * w));
        var (x3, y3) := Third(Chord(a.x, a.y, b.x, b.y, p), a.x, a.y, b.x);
        hide Add, Chord, AddH, AddR;
        NonZeroResidue(Add(j, k, p).z, e, p);
        RepresentsAffine(Add(j, k, p), x3, y3, e, p);
      }
    }
  }

  lemma NonZeroProduct(a: int, b: int, p: int)
    requires IsPrime(p) && 0 < a < p && 0 < b < p
    ensures var w := a * b; w % p != 0 && w * w % p != 0 && w * w * w % p != 0
  {
    var w := a * b;
    DivModUnique(a, 0, a, p);
    DivModUnique(b, 0, b, p);
    ZeroProduct(a, b, p);
    ZeroProduct(w, w, p);
    ZeroProduct(w * w, w, p);
  }

  /** A difference scaled by a unit is zero exactly when the residues agree. */
  lemma SameResidue(x: int, y: int, c: int, h: int, p: int)
    requires IsPrime(p) && 0 <= x < p && 0 <= y < p && 0 <= h < p && c % p != 0
    requires Is(h, (y - x) * c, p)
    ensures (h == 0 <==> x == y) && ((y - x) % p == 0 <==> x == y)
  {
    ZeroProduct(y - x, c, p);
    DivModUnique(h, 0, h, p);
    if (y - x) % p == 0 {
      CongAdd(y - x, 0, x, x, p);
      CongSmall(x, y, p);
    }
    if x == y { assert 0 * c == 0; DivModUnique(0, 0, 0, p); }
  }

  // ---- the curve is closed under the law -----------------------------------------------------

  function Cubic(x: int, b: int): int
  {
    x * x * x - 3 * x + b
  }

  ghost predicate OnCurve(a: Affine, b: int, p: int)
    requires p > 0
  {
    a.Point? ==> Cong(a.y * a.y, Cubic(a.x, b), p)
  }

  ghost predicate Residue(a: Affine, p: int)
  {
    a.Point? ==> 0 <= a.x < p && 0 <= a.y < p
  }

  /** Cubic minus the square of the line of slope l through (x1, y1), divided by t - x1. */
  function Cofactor(l: int, x1: int, y1: int, t: int): int
  {
    t * t + t * x1 + x1 * x1 - 3 - l * (2 * y1 + l * (t - x1))
  }

  lemma CofactorIdentity(l: int, x1: int, y1: int, t: int)
    ensures var m := y1 + l * (t - x1);
            Cubic(t, y1 * y1 - Cubic(x1, 0)) - m * m == (t - x1) * Cofactor(l, x1, y1, t)
  {
    var u := t - x1;
    var k, c := l * u, t * t + t * x1 + x1 * x1;
    SquareOfSum(y1, k);
    Interchange(l, u, 2 * y1 + k);
    CubeDifference(t, x1);
    CofactorParts(u, c, l * (2 * y1 + k));
  }

  lemma SquareOfSum(y: int, k: int)
    ensures (y + k) * (y + k) == y * y + k * (2 * y + k)
  {
  }

  lemma Interchange(l: int, u: int, c: int)
    ensures l * u * c == u * (l * c)
  {
  }

  lemma CofactorParts(u: int, c: int, e: int)
    ensures u * (c - 3 - e) == u * c - 3 * u - u * e
  {
    Distribute(u, c - 3, e);
    Distribute(u, c, 3);
  }

  lemma CubeDifference(t: int, x: int)
    ensures t * t * t - x * x * x == (t - x) * (t * t + t * x + x * x)
  {
  }

  /** x3 = l^2 - x1 - x2 is a root of the cofactor exactly when x2 is. */
  lemma ThirdRoot(l: int, x1: int, y1: int, x2: int)
    ensures Cofactor(l, x1, y1, l * l - x1 - x2) == Cofactor(l, x1, y1, x2)
  {
    var q := l * l;
    var x3 := q - x1 - x2;
    CofactorExpand(l, x1, y1, x3);
    CofactorExpand(l, x1, y1, x2);
    assert x3 * x3 - x2 * x2 == (x3 - x2) * (x3 + x2);
    assert x3 * x1 - x2 * x1 == (x3 - x2) * x1;
    assert q * x3 - q * x2 == (x3 - x2) * q;
    Distribute(x3 - x2, x3 + x2, x1);
  }

  lemma CofactorExpand(l: int, x1: int, y1: int, t: int)
    ensures Cofactor(l, x1, y1, t) == t * t + t * x1 + x1 * x1 - 3 - 2 * (l * y1) - l * l * t + l * l * x1
  {
    Distribute(l, 2 * y1, l * (t - x1));
    MulAssoc(l, l, t - x1);
    Distribute(l * l, t, x1);
  }

  lemma CubicCong(x: int, x': int, b: int, b': int, p: int)
    requires p > 0 && Cong(x, x', p) && Cong(b, b', p)
    ensures Cong(Cubic(x, b), Cubic(x', b'), p)
  {
    PowersOf(x, x', p);
    CongMul(3, 3, x, x', p);
    CongAdd(x * x * x, x' * x' * x', 3 * x, 3 * x', p);
    CongAdd(x * x * x - 3 * x, x' * x' * x' - 3 * x', b, b', p);
  }

  /** The third point of a line through (x1, y1) that meets the cubic over x2. */
  lemma ThirdOnCurve(l: int, x1: int, y1: int, x2: int, b: int, p: int)
    requires p > 0 && Cong(y1 * y1, Cubic(x1, b), p) && Cong(Cofactor(l, x1, y1, x2), 0, p)
    ensures OnCurve(Residues(Third(l, x1, y1, x2), p), b, p)
  {
    var (x3, y3) := Third(l, x1, y1, x2);
    var m := y1 + l * (x3 - x1);
    var b' := y1 * y1 - Cubic(x1, 0);
    ThirdRoot(l, x1, y1, x2);
    CofactorIdentity(l, x1, y1, x3);
    var q := Cofactor(l, x1, y1, x3);
    hide Cofactor;
    CongMul(x3 - x1, x3 - x1, q, 0, p);
    CongAdd((x3 - x1) * q, 0, m * m, m * m, p);
    assert y3 * y3 == m * m by { Opposite(l, x1, y1, x3); }
    CongAdd(y1 * y1, Cubic(x1, b), Cubic(x1, 0), Cubic(x1, 0), p);
    CongMod(x3, p);
    CongMod(y3, p);
    PowersOf(y3 % p, y3, p);
    CubicCong(x3 % p, x3, b, b', p);
  }

  lemma Opposite(l: int, x1: int, y1: int, x3: int)
    ensures var m, y3 := y1 + l * (x3 - x1), l * (x1 - x3) - y1;
            y3 * y3 == m * m
  {
    var m, y3 := y1 + l * (x3 - x1), l * (x1 - x3) - y1;
    Distribute(l, x3, x1);
    Distribute(l, x1, x3);
    assert y3 == -m;
  }

  lemma DoubleOnCurve(a: Affine, b: int, p: int)
    requires IsPrime(p) && p > 2 && Residue(a, p) && OnCurve(a, b, p)
    ensures OnCurve(AffineDouble(a, p), b, p) && Residue(AffineDouble(a, p), p)
  {
    if a.Point? && a.y != 0 {
      var l := Tangent(a.x, a.y, p);
      DivModUnique(a.y, 0, a.y, p);
      TangentSlope(a.x, a.y, 1, p);
      CofactorExpand(l, a.x, a.y, a.x);
      hide Tangent;
      var n := 3 * (a.x * a.x) - 3;
      assert l * (2 * (a.y * (1 * 1))) == 2 * (l * a.y);
      CongAdd(n, 2 * (l * a.y), 2 * (l * a.y), 2 * (l * a.y), p);
      ThirdOnCurve(l, a.x, a.y, a.x, b, p);
    }
  }

  lemma AddOnCurve(a: Affine, c: Affine, b: int, p: int)
    requires IsPrime(p) && p > 2 && Residue(a, p) && Residue(c, p) && OnCurve(a, b, p) && OnCurve(c, b, p)
    ensures OnCurve(AffineAdd(a, c, p), b, p) && Residue(AffineAdd(a, c, p), p)
  {
    if a.Point? && c.Point? {
      if a.x == c.x {
        DoubleOnCurve(a, b, p);
      } else {
        var l := Chord(a.x, a.y, c.x, c.y, p);
        DifferentResidues(a.x, c.x, p);
        ChordMeets(l, a.x, a.y, c.x, c.y, b, p);
        hide Chord;
        ThirdOnCurve(l, a.x, a.y, c.x, b, p);
      }
    }
  }

  lemma DifferentResidues(x: int, y: int, p: int)
    requires 0 <= x < p && 0 <= y < p && x != y
    ensures (y - x) % p != 0
  {
    if (y - x) % p == 0 {
      CongAdd(y - x, 0, x, x, p);
      CongSmall(x, y, p);
    }
  }

  /** A chord's line meets the cubic over x2, so x2 is a root of the cofactor. */
  lemma ChordMeets(l: int, x1: int, y1: int, x2: int, y2: int, b: int, p: int)
    requires IsPrime(p) && (x2 - x1) % p != 0 && l == Chord(x1, y1, x2, y2, p)
    requires Cong(y1 * y1, Cubic(x1, b), p) && Cong(y2 * y2, Cubic(x2, b), p)
    ensures Cong(Cofactor(l, x1, y1, x2), 0, p)
  {
    hide Cofactor, Cubic, Chord, Divides, Cong;
    var d := x2 - x1;
    var m := y1 + l * d;
    var b' := y1 * y1 - Cubic(x1, 0);
    ChordThrough(x1, y1, x2, y2, p);
    FreeTerm(x1, y1, b, p);
    CofactorIdentity(l, x1, y1, x2);
    var q := Cofactor(l, x1, y1, x2);
    PowersOf(m, y2, p);
    CubicCong(x2, x2, b', b, p);
    SameDifference(Cubic(x2, b'), Cubic(x2, b), y2 * y2, m * m, p);
    MulSwap(q, d);
    CancelFactor(q, 0, d, p);
  }

  lemma MulSwap(q: int, d: int)
    ensures q * d == d * q && 0 * d == 0
  {
  }

  /** b is what the cubic without its free term leaves of y^2. */
  lemma FreeTerm(x: int, y: int, b: int, p: int)
    requires p > 0 && Cong(y * y, Cubic(x, b), p)
    ensures Cong(y * y - Cubic(x, 0), b, p) && Cong(x, x, p)
  {
    CongAdd(y * y, Cubic(x, b), Cubic(x, 0), Cubic(x, 0), p);
  }

  lemma SameDifference(u: int, v: int, w: int, s: int, p: int)
    requires p > 0 && Cong(u, v, p) && Cong(w, v, p) && Cong(s, w, p)
    ensures Cong(u - s, 0, p)
  {
    CongAdd(u, s, s, s, p);
  }

  lemma ChordThrough(x1: int, y1: int, x2: int, y2: int, p: int)
    requires IsPrime(p) && (x2 - x1) % p != 0
    ensures Cong(y1 + Chord(x1, y1, x2, y2, p) * (x2 - x1), y2, p)
  {
    var n, d, v := y2 - y1, x2 - x1, Inv(x2 - x1, p);
    CongMul(d * v, 1, n, n, p);
    assert d * v * n == n * v * d;
    CongAdd(y1, y1, n * v * d, n, p);
  }

  /** Y^2 = X^3 - 3 X Z^4 + b Z^6. */
  ghost predicate JacobianEquation(j: Jac, b: int, p: int)
    requires p > 0
  {
    var c := j.z * j.z;
    Cong(j.y * j.y, j.x * j.x * j.x - 3 * (j.x * (c * c)) + b * (c * c * c), p)
  }

  lemma EquationScaling(x: int, y: int, b: int, z: int)
    ensures var c := z * z;
            var xs, ys := x * c, y * (c * z);
            && ys * ys == y * y * (c * c * c)
            && xs * xs * xs - 3 * (xs * (c * c)) + b * (c * c * c) == Cubic(x, b) * (c * c * c)
  {
    var c := z * z;
    SquareIdentity(y, z);
    EquationTerms(x, b, c);
  }

  lemma EquationTerms(x: int, b: int, c: int)
    ensures var xs := x * c;
            xs * xs * xs - 3 * (xs * (c * c)) + b * (c * c * c) == Cubic(x, b) * (c * c * c)
  {
    var q, xs := c * c * c, x * c;
    assert xs * xs * xs == x * x * x * q;
    assert xs * (c * c) == x * q;
    assert (x * x * x - 3 * x + b) * q == x * x * x * q - 3 * (x * q) + b * q;
  }

  /** A finite point satisfies the projective equation exactly when its affine point is on the curve. */
  lemma EquationIsAffine(j: Jac, b: int, p: int)
    requires IsPrime(p) && j.Reduced(p) && j.z != 0
    ensures JacobianEquation(j, b, p) <==> OnCurve(ToAffine(j, p), b, p)
  {
    AffineRepresents(j, p);
    var a := ToAffine(j, p);
    var c := j.z * j.z;
    var q, xs, ys := c * c * c, a.x * c, a.y * (c * j.z);
    EquationScaling(a.x, a.y, b, j.z);
    PowersOf(j.x, xs, p);
    PowersOf(j.y, ys, p);
    CongMul(j.x, xs, c * c, c * c, p);
    ProjectiveCong(j.x, xs, c * c, b * q, p);
    DivModUnique(j.z, 0, j.z, p);
    ZeroProduct(j.z, j.z, p);
    ZeroProduct(c, c, p);
    ZeroProduct(c * c, c, p);
    hide Cubic, ToAffine;
    if JacobianEquation(j, b, p) {
      CancelFactor(a.y * a.y, Cubic(a.x, b), q, p);
    }
    if OnCurve(a, b, p) {
      CongMul(a.y * a.y, Cubic(a.x, b), q, q, p);
    }
  }

  lemma ProjectiveCong(x: int, x': int, c: int, d: int, p: int)
    requires p > 0 && Cong(x, x', p)
    ensures Cong(x * x * x - 3 * (x * c) + d, x' * x' * x' - 3 * (x' * c) + d, p)
  {
    PowersOf(x, x', p);
    CongMul(x, x', c, c, p);
    CongMul(3, 3, x * c, x' * c, p);
    CongAdd(x * x * x, x' * x' * x', 3 * (x * c), 3 * (x' * c), p);
    CongAdd(x * x * x - 3 * (x * c), x' * x' * x' - 3 * (x' * c), d, d, p);
  }

  /** Infinity, or a point that satisfies the projective equation. */
  ghost predicate Satisfies(j: Jac, b: int, p: int)
    requires p > 0
  {
    j.z == 0 || JacobianEquation(j, b, p)
  }

  lemma SatisfiesAffine(j: Jac, b: int, p: int)
    requires IsPrime(p) && j.Reduced(p)
    ensures Satisfies(j, b, p) <==> OnCurve(ToAffine(j, p), b, p)
    ensures Residue(ToAffine(j, p), p)
  {
    if j.z != 0 { EquationIsAffine(j, b, p); }
    hide OnCurve, JacobianEquation;
  }

  /** Doubling keeps Y^2 = X^3 - 3 X Z^4 + b Z^6. */
  lemma DoubleKeepsEquation(j: Jac, b: int, p: int)
    requires IsPrime(p) && p > 2 && j.Reduced(p) && Satisfies(j, b, p)
    ensures Double(j, p).Reduced(p) && Satisfies(Double(j, p), b, p)
  {
    hide Double, Satisfies, OnCurve, Residue, ToAffine, AffineDouble;
    SatisfiesAffine(j, b, p);
    DoubleIsAffine(j, p);
    DoubleOnCurve(ToAffine(j, p), b, p);
    SatisfiesAffine(Double(j, p), b, p);
  }

  /** Addition keeps it too, in every branch. */
  lemma AddKeepsEquation(j: Jac, k: Jac, b: int, p: int)
    requires IsPrime(p) && p > 2 && j.Reduced(p) && k.Reduced(p) && Satisfies(j, b, p) && Satisfies(k, b, p)
    ensures Add(j, k, p).Reduced(p) && Satisfies(Add(j, k, p), b, p)
  {
    hide Add, Satisfies, OnCurve, Residue, ToAffine, AffineAdd;
    SatisfiesAffine(j, b, p);
    SatisfiesAffine(k, b, p);
    AddIsAffine(j, k, p);
    AddOnCurve(ToAffine(j, p), ToAffine(k, p), b, p);
    SatisfiesAffine(Add(j, k, p), b, p);
  }
}
