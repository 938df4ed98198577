/** Inverses modulo a prime, and Fermat's little theorem for the exponent p - 2. */
module PrimeField {
  import opened Arith

  ghost predicate Divides(d: int, n: int)
    requires d > 0
  {
    n % d == 0
  }

  ghost predicate IsPrime(p: int)
  {
    p > 1 && forall d :: 1 < d < p ==> !Divides(d, p)
  }

  /** A number not divisible by p has an inverse modulo p. */
  lemma {:induction false} SmallInverse(a: int, p: int) returns (v: int)
    requires IsPrime(p) && 0 < a < p
    ensures Cong(a * v, 1, p)
    decreases a
  {
    if a == 1 {
      return 1;
    }
    var q, r := p / a, p % a;
    assert !Divides(a, p);
    var w := SmallInverse(r, p);
    v := -(q * w);
    assert r == -(q * a) + 1 * p;
    CongIntro(r, -(q * a), 1, p);
    CongMul(r, -(q * a), w, w, p);
    assert -(q * a) * w == a * v;
  }

  /** The inverse of a in [0, p), or 0 when a is a multiple of p. */
  ghost function Inv(a: int, p: int): (v: int)
    requires IsPrime(p)
    ensures 0 <= v < p
    ensures a % p != 0 ==> Cong(a * v, 1, p)
  {
    if a % p == 0 then 0
    else
      assert exists w :: 0 <= w < p && Cong(a * w, 1, p) by {
        var w := SmallInverse(a % p, p);
        CongMod(a, p);
        CongMod(w, p);
        CongMul(a % p, a, w, w % p, p);
        assert 0 <= w % p < p && Cong(a * (w % p), 1, p);
      }
      var w :| 0 <= w < p && Cong(a * w, 1, p);
      w
  }

  lemma CancelFactor(a: int, b: int, c: int, p: int)
    requires IsPrime(p) && c % p != 0 && Cong(a * c, b * c, p)
    ensures Cong(a, b, p)
  {
    CongCancel(a, b, c, Inv(c, p), p);
  }

  /** A product is a multiple of a prime only when a factor is. */
  lemma ZeroProduct(a: int, b: int, p: int)
    requires IsPrime(p)
    ensures a * b % p == 0 <==> a % p == 0 || b % p == 0
  {
    if a % p == 0 { CongMul(a, 0, b, b, p); }
    if b % p == 0 { CongMul(a, a, b, 0, p); }
    if a * b % p == 0 && b % p != 0 {
      CancelFactor(a, 0, b, p);
    }
  }

  // ---- Fermat's little theorem, by the binomial theorem -----------------------

  function Choose(n: nat, k: nat): nat
  {
    if k == 0 then 1 else if n == 0 then 0 else Choose(n - 1, k - 1) + Choose(n - 1, k)
  }

  lemma {:induction false} ChooseAbove(n: nat, k: nat)
    requires k > n
    ensures Choose(n, k) == 0
  {
    if n > 0 {
      ChooseAbove(n - 1, k - 1);
      ChooseAbove(n - 1, k);
    }
  }

  /** k C(n, k) = n C(n - 1, k - 1). */
  lemma {:induction false} Absorb(n: nat, k: nat)
    requires n > 0 && k > 0
    ensures k * Choose(n, k) == n * Choose(n - 1, k - 1)
  {
    if n == 1 {
      if k > 1 { ChooseAbove(0, k); ChooseAbove(0, k - 1); }
    } else if k == 1 {
      Absorb(n - 1, 1);
    } else {
      Absorb(n - 1, k);
      Absorb(n - 1, k - 1);
      AbsorbMath(n, k, Choose(n - 1, k - 1), Choose(n - 1, k), Choose(n - 2, k - 2), Choose(n - 2, k - 1));
    }
  }

  lemma AbsorbMath(n: int, k: int, x: int, y: int, a: int, b: int)
    requires x == a + b && k * y == (n - 1) * b && (k - 1) * x == (n - 1) * a
    ensures k * (x + y) == n * x
  {
    Distribute(k, x, y);
    Distribute(n - 1, a, b);
    assert (k - 1) * x == k * x - x;
    assert (n - 1) * x == n * x - x;
  }

  lemma ChoosePrime(p: int, k: nat)
    requires IsPrime(p) && 0 < k < p
    ensures Choose(p, k) % p == 0
  {
    Absorb(p, k);
    CongIntro(k * Choose(p, k), 0, Choose(p - 1, k - 1), p);
    ZeroProduct(k, Choose(p, k), p);
    DivModUnique(k, 0, k, p);
  }

  /** The terms C(n, i) a^i for i up to k. */
  function Terms(a: int, n: nat, k: nat): int
  {
    Choose(n, k) * Pow(a, k) + if k == 0 then 0 else Terms(a, n, k - 1)
  }

  lemma {:induction false} TermsStep(a: int, n: nat, k: nat)
    ensures Terms(a, n + 1, k) == Terms(a, n, k) + if k == 0 then 0 else a * Terms(a, n, k - 1)
  {
    if k > 0 {
      TermsStep(a, n, k - 1);
      var rest := if k == 1 then 0 else Terms(a, n, k - 2);
      StepMath(a, Choose(n, k - 1), Choose(n, k), Pow(a, k - 1), rest);
    }
  }

  lemma StepMath(a: int, c: int, d: int, q: int, rest: int)
    ensures (c + d) * (a * q) == d * (a * q) + a * (c * q)
    ensures a * (c * q + rest) == a * (c * q) + a * rest
  {
    var w := a * q;
    assert (c + d) * w == d * w + c * w;
    assert c * w == a * (c * q) by { MulAssoc(c, a, q); MulAssoc(a, c, q); }
  }

  lemma TermsEnd(a: int, n: nat)
    ensures Terms(a, n, n + 1) == Terms(a, n, n)
  {
    ChooseAbove(n, n + 1);
    assert 0 * Pow(a, n + 1) == 0;
  }

  lemma PowNext(a: int, n: nat)
    ensures Pow(a + 1, n + 1) == a * Pow(a + 1, n) + Pow(a + 1, n) && Pow(a + 1, 0) == Pow(a, 0) == 1
  {
    Distribute(Pow(a + 1, n), a, 1);
  }

  lemma {:induction false} Binomial(a: int, n: nat)
    ensures Pow(a + 1, n) == Terms(a, n, n)
  {
    if n > 0 {
      hide Terms, Pow;
      Binomial(a, n - 1);
      TermsStep(a, n - 1, n);
      TermsEnd(a, n - 1);
      PowNext(a, n - 1);
    } else {
      hide Pow;
      PowNext(a, 0);
    }
  }

  lemma {:induction false} MiddleTermsVanish(a: int, p: int, k: nat)
    requires IsPrime(p) && k < p
    ensures Cong(Terms(a, p, k), 1, p)
  {
    if k > 0 {
      MiddleTermsVanish(a, p, k - 1);
      ChoosePrime(p, k);
      CongMul(Choose(p, k), 0, Pow(a, k), Pow(a, k), p);
      CongAdd(Choose(p, k) * Pow(a, k), 0, Terms(a, p, k - 1), 1, p);
    }
  }

  lemma {:induction false} ChooseAll(n: nat)
    ensures Choose(n, n) == 1
  {
    if n > 0 {
      ChooseAll(n - 1);
      ChooseAbove(n - 1, n);
    }
  }

  lemma {:induction false} FermatNat(a: nat, p: int)
    requires IsPrime(p)
    ensures Cong(Pow(a, p), a, p)
  {
    if a == 0 {
      assert Pow(0, p) == 0 * Pow(0, p - 1);
    } else {
      FermatNat(a - 1, p);
      Binomial(a - 1, p);
      ChooseAll(p);
      MiddleTermsVanish(a - 1, p, p - 1);
      CongAdd(Pow(a - 1, p), a - 1, Terms(a - 1, p, p - 1), 1, p);
    }
  }

  lemma PowEnds(a: int, n: nat)
    requires n >= 2
    ensures Pow(a, n) == a * Pow(a, n - 2) * a
  {
    var w := Pow(a, n - 2);
    assert Pow(a, n - 1) == a * w && Pow(a, n) == a * Pow(a, n - 1);
  }

  lemma FermatPower(a: int, p: int)
    requires IsPrime(p)
    ensures Cong(Pow(a, p), a, p)
  {
    hide Pow, Divides;
    FermatNat(a % p, p);
    CongMod(a, p);
    CongPow(a % p, a, p, p);
  }

  /** a^(p-2) is the inverse of a. */
  lemma InverseByPower(a: int, p: int)
    requires IsPrime(p) && a % p != 0
    ensures Cong(a * Pow(a, p - 2), 1, p) && Pow(a, p - 2) % p == Inv(a, p)
  {
    hide Pow, Inv, Divides, Cong;
    var w := Pow(a, p - 2);
    PowEnds(a, p);
    FermatPower(a, p);
    assert 1 * a == a;
    CancelFactor(a * w, 1, a, p);
    InverseIs(a, w, Inv(a, p), p);
  }

  lemma InverseIs(a: int, w: int, v: int, p: int)
    requires IsPrime(p) && a % p != 0 && Cong(a * w, 1, p) && Cong(a * v, 1, p) && 0 <= v < p
    ensures w % p == v
  {
    hide Divides;
    CancelFactor(w, v, a, p);
    DivModUnique(v, 0, v, p);
  }
}
