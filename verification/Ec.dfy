/** kernel/src/crypto/ec.rs: the curve arithmetic on limbs, through a prepared modulus. */
module Ec {
  import opened Arith
  import opened Limbs
  import opened BigNum
  import opened Octets
  import M = Moduli
  import opened PrimeField
  import opened Wrappers
  import EC = EllipticCurve

  datatype Point = Point(x: Big, y: Big, z: Big)

  datatype Curve = Curve(md: M.Modulus, orderLimbs: nat, b: Big, pMinus2: seq<Byte>) {
    ghost predicate Valid()
    {
      && md.Valid() && IsPrime(md.M()) && md.M() > 2
      && orderLimbs <= MAX_LIMBS
      && md.V(b) < md.M()
      && M.BigEndian(pMinus2) == md.M() - 2
    }

    ghost function P(): int
      requires Valid()
    {
      md.M()
    }
  }

  const INFINITY: Point := Point(M.ZERO, M.ZERO, M.ZERO)

  lemma ZeroValue(c: Curve)
    requires c.Valid()
    ensures Is(c, INFINITY, EC.INFINITY)
  {
    hide M.Modulus.M, Divides, Cong, Val, Radix;
    ValZeros(M.ZERO[..c.md.n]);
    DivModUnique(0, 0, 0, c.P());
  }

  lemma NonZeroLimb(s: seq<Limb>, i: nat)
    requires i < |s| && s[i] != 0
    ensures Val(s) > 0
  {
    if i == 0 {
    } else {
      NonZeroLimb(s[1..], i - 1);
    }
  }

  method IsZero(c: Curve, a: Big) returns (z: bool)
    requires c.Valid()
    ensures z <==> c.md.V(a) == 0
  {
    hide Divides, Cong, Val, Radix;
    var n := c.md.n;
    var i := 0;
    while i < n
      invariant 0 <= i <= n
      invariant forall j :: 0 <= j < i ==> a[j] == 0
    {
      if a[i] != 0 {
        NonZeroLimb(a[..n], i);
        return false;
      }
      i := i + 1;
    }
    ValZeros(a[..n]);
    return true;
  }

  // ---- field operations, each through the modulus -----------------------------------

  /** The limbs of a hold the field value x, reduced. */
  ghost predicate Holds(c: Curve, a: Big, x: int)
    requires c.Valid()
  {
    c.md.V(a) == x && 0 <= x < c.P()
  }

  /** The limbs of a hold x modulo p, like a coordinate that was received. */
  ghost predicate Near(c: Curve, a: Big, x: int)
    requires c.Valid()
  {
    c.md.V(a) % c.P() == x
  }

  lemma HoldsNear(c: Curve, a: Big, x: int)
    requires c.Valid() && Holds(c, a, x)
    ensures Near(c, a, x) && 0 <= x < c.P()
  {
    DivModUnique(x, 0, x, c.P());
  }

  lemma ResidueCong(v: int, x: int, p: int)
    requires p > 0 && v % p == x
    ensures Cong(v, x, p)
  {
    CongMod(v, p);
  }

  method Mul(c: Curve, a: Big, b: Big, ghost x: int, ghost y: int) returns (r: Big)
    requires c.Valid() && (Holds(c, a, x) || Near(c, a, x)) && (Holds(c, b, y) || Near(c, b, y))
    ensures Holds(c, r, EC.FMul(x, y, c.P())) && ZeroAbove(r, c.md.n)
  {
    hide M.Modulus.Valid, Divides, ReducedSum, M.Complement, Cong, Val, Radix;
    if Holds(c, a, x) { HoldsNear(c, a, x); }
    if Holds(c, b, y) { HoldsNear(c, b, y); }
    r := M.Mul(c.md, a, b);
    ResidueCong(c.md.V(a), x, c.P());
    ResidueCong(c.md.V(b), y, c.P());
    CongMul(c.md.V(a), x, c.md.V(b), y, c.P());
    assert EC.FMul(x, y, c.P()) == c.md.V(r) by { hide *; SameRemainder(c.md.V(a) * c.md.V(b), x * y, c.P()); }
  }

  lemma SameRemainder(a: int, b: int, p: int)
    requires p > 0 && Cong(a, b, p)
    ensures a % p == b % p
  {
  }

  method Add(c: Curve, a: Big, b: Big, ghost x: int, ghost y: int) returns (r: Big)
    requires c.Valid() && (Holds(c, a, x) || Near(c, a, x)) && Holds(c, b, y)
    ensures Near(c, r, EC.FAdd(x, y, c.P())) && ZeroAbove(r, c.md.n)
    ensures Holds(c, a, x) ==> Holds(c, r, EC.FAdd(x, y, c.P()))
  {
    hide M.Modulus.Valid, Divides, ReducedSum, M.Complement, Cong, Val, Radix;
    if Holds(c, a, x) { HoldsNear(c, a, x); }
    r := M.Add(c.md, a, b);
    ResidueCong(c.md.V(a), x, c.P());
    SumNear(c.md.V(r), c.md.V(a), x, y, c.P());
  }

  lemma SumNear(r: int, a: int, x: int, y: int, p: int)
    requires p > 0 && Cong(r, a + y, p) && Cong(a, x, p)
    ensures r % p == (x + y) % p
  {
    CongAdd(a, x, y, y, p);
  }

  method Sub(c: Curve, a: Big, b: Big, ghost x: int, ghost y: int) returns (r: Big)
    requires c.Valid() && (Holds(c, a, x) || Near(c, a, x)) && Holds(c, b, y)
    ensures Near(c, r, EC.FSub(x, y, c.P())) && ZeroAbove(r, c.md.n)
    ensures Holds(c, a, x) ==> Holds(c, r, EC.FSub(x, y, c.P()))
  {
    hide M.Modulus.Valid, Divides, ReducedSum, M.Complement, Cong, Val, Radix;
    if Holds(c, a, x) { HoldsNear(c, a, x); }
    r := M.Sub(c.md, a, b);
    ResidueCong(c.md.V(a), x, c.P());
    SumNear(c.md.V(r), c.md.V(a), x, -y, c.P());
  }

  method Dbl(c: Curve, a: Big, ghost x: int) returns (r: Big)
    requires c.Valid() && Holds(c, a, x)
    ensures Holds(c, r, EC.FDouble(x, c.P())) && ZeroAbove(r, c.md.n)
  {
    hide Curve.Valid, Holds, Near;
    r := Add(c, a, a, x, x);
  }

  /** The coordinates of q are those of the Jacobian point j, x and y only modulo p. */
  ghost predicate Is(c: Curve, q: Point, j: EC.Jac)
    requires c.Valid()
  {
    Near(c, q.x, j.x) && Near(c, q.y, j.y) && Holds(c, q.z, j.z)
  }

  /** The Jacobian point that a triple of limb arrays holds. */
  ghost function Coordinates(c: Curve, q: Point): EC.Jac
    requires c.Valid()
  {
    EC.Jac(c.md.V(q.x) % c.P(), c.md.V(q.y) % c.P(), c.md.V(q.z))
  }

  lemma IsCoordinates(c: Curve, q: Point, j: EC.Jac)
    requires c.Valid()
    ensures Is(c, q, j) <==> j == Coordinates(c, q) && c.md.V(q.z) < c.P()
  {
    hide M.Modulus.Valid, Divides, Val;
  }

  lemma IsReduced(c: Curve, q: Point, j: EC.Jac)
    requires c.Valid() && Is(c, q, j)
    ensures j.Reduced(c.P())
  {
  }

  /** The same triple, or the origin twice. */
  ghost predicate Same(d: EC.Jac, e: EC.Jac)
  {
    d == e || (d.z == 0 && e.z == 0)
  }

  /** Doubling a point whose y is 0 gives z = 0. */
  lemma DoubledAtZero(j: EC.Jac, p: int)
    requires p > 0
    ensures j.y == 0 ==> EC.Doubled(j, p).z == 0
  {
    if j.y == 0 { assert 0 * j.z == 0; }
  }

  lemma PointHolds(c: Curve, x: Big, y: Big, z: Big, j: EC.Jac)
    requires c.Valid() && Holds(c, x, j.x) && Holds(c, y, j.y) && Holds(c, z, j.z)
    ensures Is(c, Point(x, y, z), j)
  {
    HoldsNear(c, x, j.x);
    HoldsNear(c, y, j.y);
  }

  /** The doubling formulas; a y that is p itself slips past the test for 0 and
      comes out with z = 0 all the same. */
  method Double(c: Curve, q: Point, ghost j: EC.Jac) returns (r: Point)
    requires c.Valid() && Is(c, q, j)
    ensures c.md.V(r.z) < c.P() && Same(Coordinates(c, r), EC.Double(j, c.P()))
  {
    hide M.Modulus.Valid, Divides, Val, EC.Doubled, Coordinates;
    ghost var p := c.P();
    var zero := IsZero(c, q.z);
    if !zero { zero := IsZero(c, q.y); }
    if zero {
      ZeroValue(c);
      DivModUnique(0, 0, 0, p);
      IsCoordinates(c, INFINITY, EC.INFINITY);
      return INFINITY;
    }
    DoubledAtZero(j, p);
    r := DoubleFormulas(c, q, j);
    IsCoordinates(c, r, EC.Doubled(j, p));
  }

  method DoubleFormulas(c: Curve, q: Point, ghost j: EC.Jac) returns (r: Point)
    requires c.Valid() && Is(c, q, j)
    ensures Is(c, r, EC.Doubled(j, c.P()))
  {
    ghost var p := c.P();
    ghost var d := EC.Doubled(j, p);
    hide Holds, Near, Curve.Valid;
    var m := Slope(c, q, j);
    ghost var mv := SlopeValue(j, p);
    var yy := Mul(c, q.y, q.y, j.y, j.y);
    ghost var yyv := EC.FSq(j.y, p);
    var s := Mul(c, q.x, yy, j.x, yyv);
    ghost var sv := EC.FMul(j.x, yyv, p);
    s := Dbl(c, s, sv);
    sv := EC.FDouble(sv, p);
    s := Dbl(c, s, sv);
    sv := EC.FDouble(sv, p);
    var mm := Mul(c, m, m, mv, mv);
    var s2 := Dbl(c, s, sv);
    var x3 := Sub(c, mm, s2, EC.FSq(mv, p), EC.FDouble(sv, p));
    var e := Mul(c, yy, yy, yyv, yyv);
    ghost var ev := EC.FSq(yyv, p);
    e := Dbl(c, e, ev);
    ev := EC.FDouble(ev, p);
    e := Dbl(c, e, ev);
    ev := EC.FDouble(ev, p);
    e := Dbl(c, e, ev);
    ev := EC.FDouble(ev, p);
    var y3 := Sub(c, s, x3, sv, d.x);
    y3 := Mul(c, m, y3, mv, EC.FSub(sv, d.x, p));
    y3 := Sub(c, y3, e, EC.FMul(mv, EC.FSub(sv, d.x, p), p), ev);
    var z3 := Mul(c, q.y, q.z, j.y, j.z);
    z3 := Dbl(c, z3, EC.FMul(j.y, j.z, p));
    PointHolds(c, x3, y3, z3, d);
    r := Point(x3, y3, z3);
  }

  ghost function SlopeValue(j: EC.Jac, p: int): int
    requires p > 0
  {
    var zz := EC.FSq(j.z, p);
    var t := EC.FMul(EC.FSub(j.x, zz, p), EC.FAdd(j.x, zz, p), p);
    EC.FAdd(t, EC.FDouble(t, p), p)
  }

  /** M = 3 (X - Z^2) (X + Z^2). */
  method Slope(c: Curve, q: Point, ghost j: EC.Jac) returns (m: Big)
    requires c.Valid() && Is(c, q, j)
    ensures Holds(c, m, SlopeValue(j, c.P()))
  {
    ghost var p := c.P();
    hide Holds, Near, Curve.Valid;
    ghost var zzv := EC.FSq(j.z, p);
    var zz := Mul(c, q.z, q.z, j.z, j.z);
    var a := Sub(c, q.x, zz, j.x, zzv);
    var b := Add(c, q.x, zz, j.x, zzv);
    ghost var av, bv := EC.FSub(j.x, zzv, p), EC.FAdd(j.x, zzv, p);
    var t := Mul(c, a, b, av, bv);
    ghost var tv := EC.FMul(av, bv, p);
    m := Dbl(c, t, tv);
    m := Add(c, t, m, tv, EC.FDouble(tv, p));
  }

  method AddPoints(c: Curve, q: Point, t: Point, ghost j: EC.Jac, ghost k: EC.Jac)
    returns (r: Point)
    requires c.Valid() && Is(c, q, j) && Is(c, t, k)
    ensures c.md.V(r.z) < c.P() && Same(Coordinates(c, r), EC.Add(j, k, c.P()))
  {
    hide M.Modulus.Valid, Divides, Val, EC.Double, Coordinates;
    IsCoordinates(c, q, j);
    IsCoordinates(c, t, k);
    var zero := IsZero(c, q.z);
    if zero { return t; }
    zero := IsZero(c, t.z);
    if zero { return q; }
    var u1, s1, h, g := Differences(c, q, t, j, k);
    var hz := IsZero(c, h);
    if hz {
      var rz := IsZero(c, g);
      if rz {
        r := Double(c, q, j);
        return;
      }
      ZeroValue(c);
      IsCoordinates(c, INFINITY, EC.INFINITY);
      return INFINITY;
    }
    r := Chord(c, q, t, j, k, u1, s1, h, g);
    IsCoordinates(c, r, EC.Add(j, k, c.P()));
  }

  /** The chord branch of the addition formulas. */
  method Chord(c: Curve, q: Point, t: Point, ghost j: EC.Jac, ghost k: EC.Jac, u1: Big, s1: Big, h: Big, g: Big)
    returns (r: Point)
    requires c.Valid() && Is(c, q, j) && Is(c, t, k) && j.z != 0 && k.z != 0 && EC.AddH(j, k, c.P()) != 0
    requires Holds(c, u1, EC.FMul(j.x, EC.FSq(k.z, c.P()), c.P()))
    requires Holds(c, s1, EC.FMul(j.y, EC.FMul(k.z, EC.FSq(k.z, c.P()), c.P()), c.P()))
    requires Holds(c, h, EC.AddH(j, k, c.P())) && Holds(c, g, EC.AddR(j, k, c.P()))
    ensures Is(c, r, EC.Add(j, k, c.P()))
  {
    ghost var p := c.P();
    ghost var d := EC.Add(j, k, p);
    ghost var hv, rv := EC.AddH(j, k, p), EC.AddR(j, k, p);
    hide Holds, Near, Curve.Valid, EC.AddH, EC.AddR;
    ghost var z2z2 := EC.FSq(k.z, p);
    ghost var u1v, s1v := EC.FMul(j.x, z2z2, p), EC.FMul(j.y, EC.FMul(k.z, z2z2, p), p);
    var hh := Mul(c, h, h, hv, hv);
    ghost var hhv := EC.FSq(hv, p);
    var hhh := Mul(c, h, hh, hv, hhv);
    ghost var hhhv := EC.FMul(hv, hhv, p);
    var v := Mul(c, u1, hh, u1v, hhv);
    ghost var vv := EC.FMul(u1v, hhv, p);
    var x3 := Mul(c, g, g, rv, rv);
    x3 := Sub(c, x3, hhh, EC.FSq(rv, p), hhhv);
    var v2 := Dbl(c, v, vv);
    x3 := Sub(c, x3, v2, EC.FSub(EC.FSq(rv, p), hhhv, p), EC.FDouble(vv, p));
    var y3 := Sub(c, v, x3, vv, d.x);
    y3 := Mul(c, g, y3, rv, EC.FSub(vv, d.x, p));
    var sh := Mul(c, s1, hhh, s1v, hhhv);
    y3 := Sub(c, y3, sh, EC.FMul(rv, EC.FSub(vv, d.x, p), p), EC.FMul(s1v, hhhv, p));
    var z3 := Mul(c, q.z, t.z, j.z, k.z);
    z3 := Mul(c, z3, h, EC.FMul(j.z, k.z, p), hv);
    PointHolds(c, x3, y3, z3, d);
    r := Point(x3, y3, z3);
  }

  /** u1, s1 and the differences h and r of the addition formulas. */
  method Differences(c: Curve, q: Point, t: Point, ghost j: EC.Jac, ghost k: EC.Jac)
    returns (u1: Big, s1: Big, h: Big, r: Big)
    requires c.Valid() && Is(c, q, j) && Is(c, t, k)
    ensures Holds(c, u1, EC.FMul(j.x, EC.FSq(k.z, c.P()), c.P()))
    ensures Holds(c, s1, EC.FMul(j.y, EC.FMul(k.z, EC.FSq(k.z, c.P()), c.P()), c.P()))
    ensures Holds(c, h, EC.AddH(j, k, c.P())) && Holds(c, r, EC.AddR(j, k, c.P()))
  {
    ghost var p := c.P();
    hide Holds, Near, Curve.Valid;
    ghost var a, b := EC.FSq(j.z, p), EC.FSq(k.z, p);
    var z1z1 := Mul(c, q.z, q.z, j.z, j.z);
    var z2z2 := Mul(c, t.z, t.z, k.z, k.z);
    u1 := Mul(c, q.x, z2z2, j.x, b);
    var u2 := Mul(c, t.x, z1z1, k.x, a);
    s1 := Mul(c, t.z, z2z2, k.z, b);
    s1 := Mul(c, q.y, s1, j.y, EC.FMul(k.z, b, p));
    var s2 := Mul(c, q.z, z1z1, j.z, a);
    s2 := Mul(c, t.y, s2, k.y, EC.FMul(j.z, a, p));
    h := Sub(c, u2, u1, EC.FMul(k.x, a, p), EC.FMul(j.x, b, p));
    r := Sub(c, s2, s1, EC.FMul(k.y, EC.FMul(j.z, a, p), p), EC.FMul(j.y, EC.FMul(k.z, b, p), p));
  }

  // ---- affine coordinates and the curve equation -------------------------------------

  /** x / z^2 and y / z^3, the inverse by the power p - 2. */
  method ToAffine(c: Curve, q: Point, ghost j: EC.Jac) returns (o: Option<(Big, Big)>)
    requires c.Valid() && Is(c, q, j)
    ensures match EC.ToAffine(j, c.P())
            case Origin => o.None?
            case Point(x, y) => o.Some? && Holds(c, o.value.0, x) && Holds(c, o.value.1, y)
  {
    var zero := IsZero(c, q.z);
    if zero { return None; }
    var zi := Inverse(c, q.z, j.z);
    ghost var p := c.P();
    ghost var v := Inv(j.z, p);
    AffineProducts(j.x, j.y, v, p);
    hide Holds, Near, Curve.Valid, Inv, IsPrime;
    var zi2 := Mul(c, zi, zi, v, v);
    ghost var v2 := EC.FSq(v, p);
    var zi3 := Mul(c, zi2, zi, v2, v);
    var x := Mul(c, q.x, zi2, j.x, v2);
    var y := Mul(c, q.y, zi3, j.y, EC.FMul(v2, v, p));
    o := Some((x, y));
  }

  method Inverse(c: Curve, a: Big, ghost x: int) returns (r: Big)
    requires c.Valid() && Holds(c, a, x) && x != 0
    ensures Holds(c, r, Inv(x, c.P()))
  {
    hide M.Modulus.Valid, Divides, ReducedSum, M.Complement, Cong, Val, Radix;
    r := M.PowMod(c.md, a, c.pMinus2);
    DivModUnique(x, 0, x, c.P());
    InverseByPower(x, c.P());
  }

  lemma AffineProducts(x: int, y: int, v: int, p: int)
    requires p > 0
    ensures EC.FMul(x, EC.FSq(v, p), p) == x * (v * v) % p
    ensures EC.FMul(y, EC.FMul(EC.FSq(v, p), v, p), p) == y * (v * v * v) % p
  {
    CongMod(v * v, p);
    CongMul(x, x, v * v % p, v * v, p);
    CongMul(v * v % p, v * v, v, v, p);
    CongMod(v * v % p * v, p);
    CongMul(y, y, EC.FMul(EC.FSq(v, p), v, p), v * v * v, p);
  }

  /** The check on a received point, whose z is 1: y^2 = x^3 - 3x + b.  Reducing 3x
      drops a 2^(64 n) when x is above p.  There, on a prime of two thirds of that or
      more, the comparison is with the right side plus 2^(64 n), which no point of the
      curve meets. */
  method OnCurve(c: Curve, q: Point, ghost j: EC.Jac) returns (ok: bool)
    requires c.Valid() && Is(c, q, j)
    ensures ok <==> j.z != 0 && j.y * j.y % c.P() == RightHandOf(c.md.V(q.x), c.md.V(c.b), c.P(), c.md.R())
    ensures c.md.V(q.x) <= c.P() ==> (ok <==> j.z != 0 && EC.OnCurve(EC.Point(j.x, j.y), c.md.V(c.b), c.P()))
    ensures c.md.V(q.x) > c.P() && Fills(c) ==>
              (ok <==> j.z != 0 && Cong(j.y * j.y, EC.Cubic(j.x, c.md.V(c.b)) + c.md.R(), c.P()))
    ensures c.md.V(q.x) > c.P() && Fills(c) && EC.OnCurve(EC.Point(j.x, j.y), c.md.V(c.b), c.P()) ==> !ok
  {
    hide M.Modulus.Valid, Divides, Val, Radix, Cong, EC.OnCurve, EC.Cubic, RightHandOf, Fills;
    var zero := IsZero(c, q.z);
    if zero { return false; }
    var y2 := Mul(c, q.y, q.y, j.y, j.y);
    var rhs := RightHandSide(c, q.x);
    SameLimbs(c, y2, rhs);
    ok := y2 == rhs;
    ValueBound(c, q.x);
    Decided(c, c.md.V(q.x), j.x, j.y);
  }

  lemma ValueBound(c: Curve, a: Big)
    requires c.Valid()
    ensures 0 <= c.md.V(a) < c.md.R()
  {
    hide Divides, Cong, Val, Radix;
    M.LowBound(a, c.md.n);
  }

  /** The prime is at least two thirds of 2^(64 n), as those of P-256 and P-384 are. */
  ghost predicate Fills(c: Curve)
    requires c.Valid()
  {
    2 * c.md.R() <= 3 * c.P()
  }

  /** What equality with the right side means. */
  lemma Decided(c: Curve, xx: int, x: int, y: int)
    requires c.Valid() && 0 <= xx < c.md.R() && x == xx % c.P()
    ensures var b, p, radix := c.md.V(c.b), c.P(), c.md.R();
            var equal := y * y % p == RightHandOf(xx, b, p, radix);
            && (xx <= p ==> (equal <==> EC.OnCurve(EC.Point(x, y), b, p)))
            && (xx > p && Fills(c) ==> (equal <==> Cong(y * y, EC.Cubic(x, b) + radix, p)))
            && (xx > p && Fills(c) && EC.OnCurve(EC.Point(x, y), b, p) ==> !equal)
  {
    hide Val, Radix, Divides, Cong, EC.Cubic, RightHandOf;
    var b, p, radix := c.md.V(c.b), c.P(), c.md.R();
    M.LowBound(c.md.m, c.md.n);
    if xx <= p || Fills(c) {
      RightHandMeans(xx, b, p, radix);
      EqualResidues(y * y, EC.Cubic(x, b) + Lost(xx, p, radix), p);
    }
    RadixOff(y * y, EC.Cubic(x, b), c.md.n, c.md.m, p);
  }

  /** Points that are not on the curve get through: whatever x above p and whatever y, the
      check accepts them on the curve with this b. */
  lemma OffCurveAccepted(c: Curve, xx: int, x: int, y: int)
    requires c.Valid() && Fills(c) && c.P() < xx < c.md.R() && x == xx % c.P()
    requires c.md.V(c.b) == (y * y - EC.Cubic(x, 0) - c.md.R()) % c.P()
    ensures y * y % c.P() == RightHandOf(xx, c.md.V(c.b), c.P(), c.md.R())
    ensures !EC.OnCurve(EC.Point(x, y), c.md.V(c.b), c.P())
  {
    hide M.Modulus.Valid, Divides, Cong, RightHandOf, Fills;
    ShiftedCubic(x, y, c.md.V(c.b), c.md.R(), c.P());
    Decided(c, xx, x, y);
  }

  lemma ShiftedCubic(x: int, y: int, b: int, radix: int, p: int)
    requires p > 0 && b == (y * y - EC.Cubic(x, 0) - radix) % p
    ensures Cong(y * y, EC.Cubic(x, b) + radix, p)
  {
    var f := y * y - EC.Cubic(x, 0) - radix;
    CongMod(f, p);
    CongAdd(b, f, EC.Cubic(x, 0) + radix, EC.Cubic(x, 0) + radix, p);
  }

  lemma EqualResidues(a: int, b: int, p: int)
    requires p > 0
    ensures a % p == b % p <==> Cong(a, b, p)
  {
  }

  /** R is not a multiple of p, so the two right sides are never both met. */
  lemma RadixOff(y2: int, rhs: int, n: nat, m: Big, p: int)
    requires 1 <= n <= MAX_LIMBS && m[0] % 2 == 1 && p == Low(m, n) && p > 1
    ensures !(Cong(y2, rhs, p) && Cong(y2, rhs + Radix(n), p))
  {
    if Cong(y2, rhs, p) && Cong(y2, rhs + Radix(n), p) {
      M.OddModulus(m, n);
      CongAdd(y2, rhs + Radix(n), y2, rhs, p);
      assert 1 * Radix(n) == Radix(n) && 0 * Radix(n) == 0;
      M.CancelRadix(1, 0, n, p);
    }
  }

  /** What reducing three times x drops. */
  ghost function Lost(x: int, p: int, radix: int): int
  {
    if x > p then radix else 0
  }

  /** 2x, 3x and -3x as the code reduces them. */
  ghost function MinusThreeOf(x: int, p: int, radix: int): int
  {
    var d := ReducedSum(x + x, p, radix);
    var t := ReducedSum(d + x, p, radix);
    ReducedSum(M.Complement(t, p, radix), p, radix)
  }

  lemma MinusThree(x: int, p: int, radix: int)
    requires 0 <= x < radix && 0 < p < radix && (x <= p || 2 * radix <= 3 * p)
    ensures 0 <= MinusThreeOf(x, p, radix) < p
    ensures Cong(MinusThreeOf(x, p, radix), Lost(x, p, radix) - 3 * x, p)
  {
    var a := MinusThreeOf(x, p, radix);
    var e := a + 3 * x - Lost(x, p, radix);
    if x <= p {
      assert e == 0 || e == p || e == 2 * p || e == 3 * p;
    } else {
      assert e == 2 * p || e == 3 * p;
    }
    FewMultiples(a, Lost(x, p, radix) - 3 * x, p);
  }

  lemma FewMultiples(a: int, b: int, p: int)
    requires p > 0 && (a == b || a == b + p || a == b + 2 * p || a == b + 3 * p)
    ensures Cong(a, b, p)
  {
    if a == b {
    } else if a == b + p {
      CongIntro(a, b, 1, p);
    } else if a == b + 2 * p {
      CongIntro(a, b, 2, p);
    } else {
      CongIntro(a, b, 3, p);
    }
  }

  method MinusThreeTimes(c: Curve, x: Big) returns (ax: Big)
    requires c.Valid()
    ensures c.md.V(ax) == MinusThreeOf(c.md.V(x), c.P(), c.md.R())
  {
    hide Radix, Divides, Cong, ReducedSum, M.Complement;
    var d := Sum(c, x, x);
    var t3 := Sum(c, d, x);
    ValZeros(M.ZERO[..c.md.n]);
    hide Val;
    ax := M.Sub(c.md, M.ZERO, t3);
  }

  /** x^3 - 3x + b as the code reduces it. */
  ghost function RightHandOf(x: int, b: int, p: int, radix: int): int
    requires p > 0
  {
    ReducedSum(ReducedSum(EC.FMul(EC.FSq(x % p, p), x % p, p) + MinusThreeOf(x, p, radix), p, radix) + b, p, radix)
  }

  /** The sum of any two coordinates, as the code reduces it. */
  method Sum(c: Curve, a: Big, b: Big) returns (r: Big)
    requires c.Valid()
    ensures c.md.V(r) == ReducedSum(c.md.V(a) + c.md.V(b), c.P(), c.md.R()) && ZeroAbove(r, c.md.n)
  {
    hide M.Modulus.Valid, Divides, Val, Radix, Cong, ReducedSum;
    r := M.Add(c.md, a, b);
  }

  method Cube(c: Curve, x: Big, ghost xv: int) returns (r: Big)
    requires c.Valid() && Near(c, x, xv)
    ensures c.md.V(r) == EC.FMul(EC.FSq(xv, c.P()), xv, c.P())
  {
    hide M.Modulus.Valid, Divides, Val, Radix, Cong, Near, EC.FMul;
    ghost var p := c.P();
    var x2 := Mul(c, x, x, xv, xv);
    r := Mul(c, x2, x, EC.FSq(xv, p), xv);
  }

  method RightHandSide(c: Curve, x: Big) returns (r: Big)
    requires c.Valid()
    ensures c.md.V(r) == RightHandOf(c.md.V(x), c.md.V(c.b), c.P(), c.md.R()) && ZeroAbove(r, c.md.n)
  {
    hide M.Modulus.Valid, Divides, Val, Radix, Cong, EC.FMul, EC.FSq, ReducedSum, MinusThreeOf, Holds;
    ghost var xv := c.md.V(x) % c.P();
    var x3 := Cube(c, x, xv);
    var ax := MinusThreeTimes(c, x);
    r := Sum(c, x3, ax);
    r := Sum(c, r, c.b);
  }

  /** It is the residue of the cubic, and of what is lost of 3x. */
  lemma RightHandMeans(x: int, b: int, p: int, radix: int)
    requires 0 <= x < radix && 0 < p < radix && 0 <= b < p && (x <= p || 2 * radix <= 3 * p)
    ensures RightHandOf(x, b, p, radix) == (EC.Cubic(x % p, b) + Lost(x, p, radix)) % p
  {
    hide Cong, ReducedSum, MinusThreeOf, Lost, EC.Cubic, EC.FMul;
    var xv, a := x % p, MinusThreeOf(x, p, radix);
    MinusThree(x, p, radix);
    var x3 := EC.FMul(EC.FSq(xv, p), xv, p);
    FMulRange(EC.FSq(xv, p), xv, p);
    M.SumMod(x3 + a, p, radix);
    M.SumMod(EC.FAdd(x3, a, p) + b, p, radix);
    RightHandCong(x, xv, a, Lost(x, p, radix), b, p);
  }

  lemma FMulRange(a: int, b: int, p: int)
    requires p > 0
    ensures 0 <= EC.FMul(a, b, p) < p
  {
  }

  lemma RightHandCong(xx: int, xv: int, av: int, sh: int, b: int, p: int)
    requires p > 0 && xx % p == xv && Cong(av, sh - 3 * xx, p)
    ensures EC.FAdd(EC.FAdd(EC.FMul(EC.FSq(xv, p), xv, p), av, p), b, p) == (EC.Cubic(xv, b) + sh) % p
  {
    hide Cong, EC.FMul, EC.FSq;
    var x3 := EC.FMul(EC.FSq(xv, p), xv, p);
    CubeIs(xv, p);
    TripleCong(xx, xv, av, sh, p);
    EC.IsAdd(x3, xv * xv * xv, av, sh - 3 * xv, p);
    SelfCong(b, p);
    EC.IsAdd(EC.FAdd(x3, av, p), xv * xv * xv + (sh - 3 * xv), b, b, p);
    RemainderOf(EC.FAdd(EC.FAdd(x3, av, p), b, p), EC.Cubic(xv, b) + sh, p);
  }

  lemma CubeIs(x: int, p: int)
    requires p > 0
    ensures EC.Is(EC.FMul(EC.FSq(x, p), x, p), x * x * x, p)
  {
    EC.IsSq(x, x, p);
    EC.IsMul(EC.FSq(x, p), x * x, x, x, p);
  }

  lemma TripleCong(xx: int, xv: int, av: int, sh: int, p: int)
    requires p > 0 && xx % p == xv && Cong(av, sh - 3 * xx, p)
    ensures Cong(av, sh - 3 * xv, p)
  {
    CongMod(xx, p);
    CongMul(3, 3, xx, xv, p);
    CongAdd(sh, sh, 3 * xx, 3 * xv, p);
  }

  lemma SelfCong(b: int, p: int)
    requires p > 0
    ensures Cong(b, b, p)
  {
  }

  lemma RemainderOf(r: int, x: int, p: int)
    requires 0 <= r < p && Cong(r, x, p)
    ensures r == x % p
  {
    DivModUnique(r, 0, r, p);
  }

  lemma SameLimbs(c: Curve, a: Big, b: Big)
    requires c.Valid() && ZeroAbove(a, c.md.n) && ZeroAbove(b, c.md.n)
    ensures a == b <==> c.md.V(a) == c.md.V(b)
  {
    hide Divides, Cong, Val, Radix;
    var n := c.md.n;
    if Low(a, n) == Low(b, n) {
      ValInjective(a[..n], b[..n]);
      assert forall i :: 0 <= i < MAX_LIMBS ==> a[i] == if i < n then a[..n][i] else 0;
      assert forall i :: 0 <= i < MAX_LIMBS ==> b[i] == if i < n then b[..n][i] else 0;
    }
  }

  // ---- scalar multiplication -----------------------------------------------------------

  /** n times a: a added to the origin n times. */
  ghost function Multiple(n: nat, a: EC.Affine, p: int): EC.Affine
    requires IsPrime(p)
  {
    if n == 0 then EC.Origin else EC.AffineAdd(Multiple(n - 1, a, p), a, p)
  }

  /** What the scan over the bits of n computes. */
  ghost function DoubleAndAdd(n: nat, a: EC.Affine, p: int): EC.Affine
    requires IsPrime(p)
  {
    if n == 0 then EC.Origin
    else
      var d := EC.AffineDouble(DoubleAndAdd(n / 2, a, p), p);
      if n % 2 == 1 then EC.AffineAdd(d, a, p) else d
  }

  ghost predicate CurvePoint(a: EC.Affine, b: int, p: int)
    requires p > 0
  {
    EC.Residue(a, p) && EC.OnCurve(a, b, p)
  }

  /** The law is associative on the points of the curve. */
  ghost predicate Associative(b: int, p: int)
    requires IsPrime(p)
  {
    forall x, y, z | CurvePoint(x, b, p) && CurvePoint(y, b, p) && CurvePoint(z, b, p) ::
      EC.AffineAdd(EC.AffineAdd(x, y, p), z, p) == EC.AffineAdd(x, EC.AffineAdd(y, z, p), p)
  }

  lemma {:induction false} MultipleOnCurve(n: nat, a: EC.Affine, b: int, p: int)
    requires IsPrime(p) && p > 2 && CurvePoint(a, b, p)
    ensures CurvePoint(Multiple(n, a, p), b, p)
  {
    if n > 0 {
      MultipleOnCurve(n - 1, a, b, p);
      EC.AddOnCurve(Multiple(n - 1, a, p), a, b, p);
    }
  }

  lemma {:induction false} MultipleAdds(m: nat, n: nat, a: EC.Affine, b: int, p: int)
    requires IsPrime(p) && p > 2 && CurvePoint(a, b, p) && Associative(b, p)
    ensures Multiple(m + n, a, p) == EC.AffineAdd(Multiple(m, a, p), Multiple(n, a, p), p)
  {
    hide EC.AffineAdd, CurvePoint, IsPrime, Associative;
    if n == 0 {
      OriginRight(Multiple(m, a, p), p);
    } else {
      MultipleAdds(m, n - 1, a, b, p);
      MultipleOnCurve(m, a, b, p);
      MultipleOnCurve(n - 1, a, b, p);
      AssociativeAt(Multiple(m, a, p), Multiple(n - 1, a, p), a, b, p);
      assert Multiple(m + n, a, p) == EC.AffineAdd(Multiple(m + n - 1, a, p), a, p);
    }
  }

  lemma OriginRight(x: EC.Affine, p: int)
    requires IsPrime(p)
    ensures EC.AffineAdd(x, EC.Origin, p) == x
  {
  }

  lemma AssociativeAt(x: EC.Affine, y: EC.Affine, z: EC.Affine, b: int, p: int)
    requires IsPrime(p) && p > 2 && Associative(b, p) && CurvePoint(x, b, p) && CurvePoint(y, b, p) && CurvePoint(z, b, p)
    ensures EC.AffineAdd(EC.AffineAdd(x, y, p), z, p) == EC.AffineAdd(x, EC.AffineAdd(y, z, p), p)
  {
    hide EC.AffineAdd, CurvePoint, IsPrime;
  }

  lemma {:induction false} DoubleAndAddOnCurve(n: nat, a: EC.Affine, b: int, p: int)
    requires IsPrime(p) && p > 2 && CurvePoint(a, b, p)
    ensures CurvePoint(DoubleAndAdd(n, a, p), b, p)
  {
    if n > 0 {
      DoubleAndAddOnCurve(n / 2, a, b, p);
      var h := DoubleAndAdd(n / 2, a, p);
      EC.DoubleOnCurve(h, b, p);
      EC.AddOnCurve(EC.AffineDouble(h, p), a, b, p);
    }
  }

  lemma DoubleIsAdd(a: EC.Affine, p: int)
    requires IsPrime(p)
    ensures EC.AffineDouble(a, p) == EC.AffineAdd(a, a, p)
  {
    hide Divides, Inv;
  }

  /** In a group, the scan over the bits is the n-fold sum. */
  lemma {:induction false} DoubleAndAddIsMultiple(n: nat, a: EC.Affine, b: int, p: int)
    requires IsPrime(p) && p > 2 && CurvePoint(a, b, p) && Associative(b, p)
    ensures DoubleAndAdd(n, a, p) == Multiple(n, a, p)
  {
    hide Divides, Associative, CurvePoint, EC.AffineAdd, EC.AffineDouble;
    if n > 0 {
      var h := n / 2;
      DoubleAndAddIsMultiple(h, a, b, p);
      MultipleAdds(h, h, a, b, p);
      DoubleIsAdd(Multiple(h, a, p), p);
    }
  }

  /** Where the scan stands after the bits of e. */
  ghost predicate Scanned(c: Curve, started: bool, j: EC.Jac, g: EC.Jac, e: nat)
    requires c.Valid()
  {
    && (started <==> e > 0) && j.Reduced(c.P()) && g.Reduced(c.P())
    && EC.ToAffine(j, c.P()) == DoubleAndAdd(e, EC.ToAffine(g, c.P()), c.P())
  }

  lemma SamePoint(c: Curve, q: Point, d: EC.Jac, e: EC.Jac)
    requires c.Valid() && d == Coordinates(c, q) && c.md.V(q.z) < c.P() && Same(d, e)
    ensures Is(c, q, d) && d.Reduced(c.P()) && EC.ToAffine(d, c.P()) == EC.ToAffine(e, c.P())
  {
    hide M.Modulus.Valid, Divides, Inv, Val, Coordinates;
    IsCoordinates(c, q, d);
    IsReduced(c, q, d);
  }

  method ScanBit(c: Curve, acc: Point, started: bool, q: Point, bit: bool, ghost j: EC.Jac, ghost g: EC.Jac, ghost e: nat)
    returns (acc': Point, started': bool, ghost j': EC.Jac)
    requires c.Valid() && Is(c, acc, j) && Is(c, q, g) && Scanned(c, started, j, g, e)
    ensures Is(c, acc', j') && Scanned(c, started', j', g, 2 * e + if bit then 1 else 0)
  {
    acc', started', j' := acc, started, j;
    ghost var p := c.P();
    ghost var a := EC.ToAffine(g, p);
    ScanUnfold(e, bit, a, p);
    hide Curve.Valid, Holds, Near, Is, Same, EC.Double, EC.Add, EC.AffineAdd, EC.AffineDouble, EC.ToAffine, IsPrime, DoubleAndAdd;
    if started {
      EC.DoubleIsAffine(j', p);
      ghost var d := EC.Double(j', p);
      acc' := Double(c, acc', j');
      j' := Coordinates(c, acc');
      SamePoint(c, acc', j', d);
    }
    if bit {
      if started {
        EC.AddIsAffine(j', g, p);
        ghost var d := EC.Add(j', g, p);
        acc' := AddPoints(c, acc', q, j', g);
        j' := Coordinates(c, acc');
        SamePoint(c, acc', j', d);
      } else {
        acc', j' := q, g;
      }
      started' := true;
    }
  }

  lemma ScanUnfold(e: nat, bit: bool, a: EC.Affine, p: int)
    requires IsPrime(p)
    ensures var d := EC.AffineDouble(DoubleAndAdd(e, a, p), p);
            DoubleAndAdd(2 * e + if bit then 1 else 0, a, p) == if bit then EC.AffineAdd(d, a, p) else d
    ensures e == 0 ==> DoubleAndAdd(e, a, p) == EC.Origin && EC.AffineDouble(EC.Origin, p) == EC.Origin
    ensures EC.AffineAdd(EC.Origin, a, p) == a
  {
    var n := 2 * e + if bit then 1 else 0;
    assert n / 2 == e;
  }

  /** The bits of one limb of the scalar, from the top. */
  method ScanLimb(c: Curve, acc: Point, started: bool, q: Point, k: Limb, ghost j: EC.Jac, ghost g: EC.Jac, ghost e: nat)
    returns (acc': Point, started': bool, ghost j': EC.Jac)
    requires c.Valid() && Is(c, acc, j) && Is(c, q, g) && Scanned(c, started, j, g, e)
    ensures Is(c, acc', j') && Scanned(c, started', j', g, BASE * e + k)
  {
    acc', started', j' := acc, started, j;
    hide *;
    WordEnds(e, k);
    var bit := 64;
    while bit > 0
      invariant 0 <= bit <= 64 && M.Prefix(e, k, bit, 64) >= 0
      invariant Is(c, acc', j') && Scanned(c, started', j', g, M.Prefix(e, k, bit, 64))
    {
      bit := bit - 1;
      M.PrefixStep(e, k, bit, 64);
      acc', started', j' := ScanBit(c, acc', started', q, Bit(k, bit), j', g, M.Prefix(e, k, bit + 1, 64));
    }
  }

  lemma WordEnds(e: nat, k: Limb)
    ensures M.Prefix(e, k, 64, 64) == e && M.Prefix(e, k, 0, 64) == BASE * e + k
  {
    hide Twos;
    TwosIsPow(64);
    Pow64();
    M.PrefixEnds(e, k, 64);
  }

  /** What the scan means on the curve, and in the group. */
  lemma ScanMeans(c: Curve, e: nat, g: EC.Jac, j: EC.Jac)
    requires c.Valid() && j.Reduced(c.P()) && g.Reduced(c.P())
    requires EC.ToAffine(j, c.P()) == DoubleAndAdd(e, EC.ToAffine(g, c.P()), c.P())
    ensures CurvePoint(EC.ToAffine(g, c.P()), c.md.V(c.b), c.P()) ==>
              CurvePoint(EC.ToAffine(j, c.P()), c.md.V(c.b), c.P())
    ensures CurvePoint(EC.ToAffine(g, c.P()), c.md.V(c.b), c.P()) && Associative(c.md.V(c.b), c.P()) ==>
              EC.ToAffine(j, c.P()) == Multiple(e, EC.ToAffine(g, c.P()), c.P())
  {
    var a, b, p := EC.ToAffine(g, c.P()), c.md.V(c.b), c.P();
    hide CurvePoint, Multiple, DoubleAndAdd, Associative, EC.ToAffine;
    if CurvePoint(a, b, p) {
      DoubleAndAddOnCurve(e, a, b, p);
      if Associative(b, p) { DoubleAndAddIsMultiple(e, a, b, p); }
    }
  }

  /** The scan over all limbs of the scalar, with the point it stands for. */
  method ScanScalar(c: Curve, q: Point, k: Big, ghost g: EC.Jac) returns (acc: Point, ghost j: EC.Jac)
    requires c.Valid() && Is(c, q, g)
    ensures Is(c, acc, j) && j.Reduced(c.P())
    ensures EC.ToAffine(j, c.P()) == DoubleAndAdd(Low(k, c.orderLimbs), EC.ToAffine(g, c.P()), c.P())
  {
    hide Is, Scanned, M.Modulus.Valid, Divides, Val, DoubleAndAdd, EC.ToAffine, Low;
    acc, j := INFINITY, EC.INFINITY;
    var n := c.orderLimbs;
    var started := false;
    var i := n;
    ScanStart(c, q, g);
    assert k[n..n] == [];
    while i > 0
      invariant 0 <= i <= n
      invariant Is(c, acc, j) && Scanned(c, started, j, g, Val(k[i..n]))
    {
      i := i - 1;
      ValHead(k[i..n]);
      assert k[i..n][1..] == k[i + 1..n];
      acc, started, j := ScanLimb(c, acc, started, q, k[i], j, g, Val(k[i + 1..n]));
    }
    assert k[0..n] == k[..n];
    ScanEnd(c, started, j, g, Val(k[..n]));
    LowIs(k, n);
  }

  lemma ScanStart(c: Curve, q: Point, g: EC.Jac)
    requires c.Valid() && Is(c, q, g)
    ensures Is(c, INFINITY, EC.INFINITY) && Scanned(c, false, EC.INFINITY, g, Val([]))
  {
    hide M.Modulus.Valid, Divides, Inv;
    ZeroValue(c);
    IsReduced(c, q, g);
  }

  lemma ScanEnd(c: Curve, started: bool, j: EC.Jac, g: EC.Jac, e: nat)
    requires c.Valid() && Scanned(c, started, j, g, e)
    ensures j.Reduced(c.P()) && EC.ToAffine(j, c.P()) == DoubleAndAdd(e, EC.ToAffine(g, c.P()), c.P())
  {
    hide M.Modulus.Valid, Divides, EC.ToAffine, DoubleAndAdd;
  }

  lemma LowIs(k: Big, n: nat)
    requires n <= MAX_LIMBS
    ensures Low(k, n) == Val(k[..n])
  {
  }

  ghost function AffineOf(c: Curve, q: Point): EC.Affine
    requires c.Valid()
  {
    EC.ToAffine(Coordinates(c, q), c.P())
  }

  /** k times q, for the low order limbs of k and coordinates modulo p. */
  method ScalarMul(c: Curve, q: Point, k: Big) returns (acc: Point)
    requires c.Valid() && c.md.V(q.z) < c.P()
    ensures c.md.V(acc.z) < c.P()
    ensures AffineOf(c, acc) == DoubleAndAdd(Low(k, c.orderLimbs), AffineOf(c, q), c.P())
    ensures CurvePoint(AffineOf(c, q), c.md.V(c.b), c.P()) ==> CurvePoint(AffineOf(c, acc), c.md.V(c.b), c.P())
    ensures CurvePoint(AffineOf(c, q), c.md.V(c.b), c.P()) && Associative(c.md.V(c.b), c.P()) ==>
              AffineOf(c, acc) == Multiple(Low(k, c.orderLimbs), AffineOf(c, q), c.P())
  {
    hide CurvePoint, Multiple, DoubleAndAdd, Associative, EC.ToAffine, Low, Divides;
    ghost var j;
    acc, j := ScanScalar(c, q, k, Coordinates(c, q));
    ScanMeans(c, Low(k, c.orderLimbs), Coordinates(c, q), j);
    assert j == Coordinates(c, acc);
  }
}
