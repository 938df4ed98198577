/** Integer powers and congruences, shared by the modular-arithmetic models. */
module Arith {

  function Pow(b: int, e: nat): int
  {
    if e == 0 then 1 else b * Pow(b, e - 1)
  }

  lemma {:induction false} PowPositive(b: int, e: nat)
    requires b > 0
    ensures Pow(b, e) > 0
  {
    if e > 0 { PowPositive(b, e - 1); }
  }

  lemma {:induction false} PowAdd(b: int, e: nat, f: nat)
    ensures Pow(b, e + f) == Pow(b, e) * Pow(b, f)
  {
    if e > 0 {
      PowAdd(b, e - 1, f);
      MulAssoc(b, Pow(b, e - 1), Pow(b, f));
    }
  }

  lemma {:induction false} PowTimes(b: int, e: nat, f: nat)
    ensures e * f >= 0 && Pow(Pow(b, e), f) == Pow(b, e * f)
  {
    if f > 0 {
      PowTimes(b, e, f - 1);
      assert e * f == e + e * (f - 1);
      PowAdd(b, e, e * (f - 1));
    }
  }

  lemma {:induction false} PowMono(b: int, e: nat, f: nat)
    requires b > 1 && e <= f
    ensures 0 < Pow(b, e) <= Pow(b, f)
    decreases f - e
  {
    PowPositive(b, e);
    if e < f {
      PowMono(b, e, f - 1);
      MulLe(1, b, Pow(b, f - 1));
    }
  }

  lemma MulAssoc(a: int, b: int, c: int)
    ensures a * b * c == a * (b * c)
  {
  }

  lemma Distribute(a: int, b: int, c: int)
    ensures a * (b + c) == a * b + a * c
    ensures a * (b - c) == a * b - a * c
  {
  }

  lemma MulLe(a: int, b: int, c: int)
    requires a <= b && c >= 0
    ensures a * c <= b * c
  {
  }

  lemma MulStep(c: int, a: int, b: int)
    requires a < b && c >= 0
    ensures c * a + c <= c * b
  {
    MulLe(a + 1, b, c);
  }

  lemma MulBounds(a: int, b: int, c: int, d: int)
    requires 0 <= a <= b && 0 <= c <= d
    ensures 0 <= a * c <= b * d
  {
    MulLe(a, b, c);
    MulLe(c, d, b);
  }

  lemma MulLt(a: int, b: int, c: int)
    requires a < b && c > 0
    ensures a * c < b * c
  {
  }

  /** The only multiple of m strictly between -m and m is zero. */
  lemma SmallMultiple(k: int, m: int)
    requires m > 0 && -m < k * m < m
    ensures k == 0
  {
    if k >= 1 { MulLe(1, k, m); }
    if k <= -1 { MulLe(k, -1, m); }
  }

  lemma DivModUnique(x: int, q: int, r: int, m: int)
    requires 0 <= r < m
    requires x == q * m + r
    ensures x / m == q && x % m == r
  {
    var k := q - x / m;
    assert k * m == x % m - r;
    SmallMultiple(k, m);
  }

  /** a and b leave the same remainder modulo m. */
  ghost predicate Cong(a: int, b: int, m: int)
    requires m > 0
  {
    a % m == b % m
  }

  lemma CongIntro(a: int, b: int, k: int, m: int)
    requires m > 0 && a == b + k * m
    ensures Cong(a, b, m)
  {
    assert a == (b / m + k) * m + b % m;
    DivModUnique(a, b / m + k, b % m, m);
  }

  lemma CongElim(a: int, b: int, m: int) returns (k: int)
    requires m > 0 && Cong(a, b, m)
    ensures a == b + k * m
  {
    k := a / m - b / m;
    assert a == a / m * m + a % m;
    assert b == b / m * m + b % m;
  }

  lemma CongMod(a: int, m: int)
    requires m > 0
    ensures Cong(a % m, a, m)
  {
    CongIntro(a % m, a, -(a / m), m);
  }

  lemma CongSmall(a: int, b: int, m: int)
    requires 0 <= a < m && 0 <= b < m && Cong(a, b, m)
    ensures a == b
  {
    DivModUnique(a, 0, a, m);
    DivModUnique(b, 0, b, m);
  }

  lemma CongAdd(a: int, b: int, c: int, d: int, m: int)
    requires m > 0 && Cong(a, b, m) && Cong(c, d, m)
    ensures Cong(a + c, b + d, m) && Cong(a - c, b - d, m)
  {
    var k := CongElim(a, b, m);
    var l := CongElim(c, d, m);
    assert a + c == b + d + (k + l) * m;
    CongIntro(a + c, b + d, k + l, m);
    assert a - c == b - d + (k - l) * m;
    CongIntro(a - c, b - d, k - l, m);
  }

  lemma CongMul(a: int, b: int, c: int, d: int, m: int)
    requires m > 0 && Cong(a, b, m) && Cong(c, d, m)
    ensures Cong(a * c, b * d, m)
  {
    var k := CongElim(a, b, m);
    var l := CongElim(c, d, m);
    ScaledBy(a, b, k, m, c);
    ScaledBy(c, d, l, m, b);
    Distribute(k * c, l * b, m);
    CongIntro(a * c, b * d, k * c + l * b, m);
  }

  lemma ScaledBy(a: int, b: int, k: int, m: int, c: int)
    requires a == b + k * m
    ensures a * c == b * c + k * c * m
  {
    assert k * m * c == k * c * m;
  }

  lemma {:induction false} CongPow(a: int, b: int, e: nat, m: int)
    requires m > 0 && Cong(a, b, m)
    ensures Cong(Pow(a, e), Pow(b, e), m)
  {
    if e > 0 {
      CongPow(a, b, e - 1, m);
      CongMul(a, b, Pow(a, e - 1), Pow(b, e - 1), m);
    }
  }

  /** A factor with an inverse v modulo m cancels. */
  lemma CongCancel(a: int, b: int, c: int, v: int, m: int)
    requires m > 0 && Cong(a * c, b * c, m) && Cong(c * v, 1, m)
    ensures Cong(a, b, m)
  {
    CongMul(a * c, b * c, v, v, m);
    CongMul(a, a, c * v, 1, m);
    CongMul(b, b, c * v, 1, m);
    MulAssoc(a, c, v);
    MulAssoc(b, c, v);
  }

  /** Modulo an odd m every power of two is invertible. */
  lemma {:induction false} PowTwoInverse(e: nat, m: int)
    requires m > 0 && m % 2 == 1
    ensures Cong(Pow(2, e) * Pow((m + 1) / 2, e), 1, m)
  {
    var h := (m + 1) / 2;
    if e > 0 {
      PowTwoInverse(e - 1, m);
      CongIntro(2 * h, 1, 1, m);
      var x, y := Pow(2, e - 1), Pow(h, e - 1);
      CongMul(2 * h, 1, x * y, 1, m);
      assert 2 * h * (x * y) == 2 * x * (h * y);
    }
  }

  // ---- powers of two --------------------------------------------------------------

  /** 1 << k. */
  function Twos(k: nat): (v: nat)
    ensures v > 0
  {
    if k == 0 then 1 else 2 * Twos(k - 1)
  }

  /** Bit k of n. */
  predicate Bit(n: nat, k: nat)
  {
    n / Twos(k) % 2 == 1
  }

  lemma {:induction false} TwosAdd(i: nat, j: nat)
    ensures Twos(i + j) == Twos(i) * Twos(j)
  {
    if i > 0 {
      TwosAdd(i - 1, j);
      MulAssoc(2, Twos(i - 1), Twos(j));
    }
  }

  lemma {:induction false} TwosIsPow(k: nat)
    ensures Twos(k) == Pow(2, k)
  {
    if k > 0 { TwosIsPow(k - 1); }
  }
}
