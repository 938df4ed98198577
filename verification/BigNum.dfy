/** kernel/src/crypto/bignum.rs: Montgomery arithmetic on 64-bit limbs. */
module BigNum {
  import opened Arith
  import opened Limbs

  const MAX_LIMBS: nat := 64

  type U128 = x: int | 0 <= x < 0x1_0000_0000_0000_0000_0000_0000_0000_0000

  /** A fixed-width number; routines use the low n limbs. */
  type Big = s: seq<Limb> | |s| == MAX_LIMBS witness seq(64, _ => 0)

  /** The value of the low n limbs. */
  function Low(a: Big, n: nat): (v: int)
    requires n <= MAX_LIMBS
    ensures v >= 0
  {
    Val(a[..n])
  }

  lemma RadixMono(i: nat, j: nat)
    requires i <= j
    ensures Radix(i) <= Radix(j)
  {
    RadixAdd(i, j - i);
    MulLe(1, Radix(j - i), Radix(i));
  }

  lemma MacStep(before: int, after: int, p: int, old_: int, x: int, y: int, carry: int, w: int)
    requires w == old_ + x * y + carry
    requires after == before + p * (w % BASE - old_)
    ensures after + BASE * p * (w / BASE) == before + p * carry + p * (x * y)
  {
    var q, r := w / BASE, w % BASE;
    assert w == BASE * q + r;
    calc {
      after + BASE * p * q;
      before + p * (r - old_) + BASE * p * q;
      { assert BASE * p * q == p * (BASE * q); Distribute(p, r - old_, BASE * q); }
      before + p * (r - old_ + BASE * q);
      before + p * (x * y + carry);
      { Distribute(p, x * y, carry); }
      before + p * carry + p * (x * y);
    }
  }

  lemma RowScale(a: int, b: int, x: int, v: int, d: int)
    ensures a * (x * (v + b * d)) == a * (x * v) + a * b * (x * d)
  {
    Distribute(x, v, b * d);
    Distribute(a, x * v, x * (b * d));
    MulAssoc(x, b, d);
    MulAssoc(b, x, d);
    MulAssoc(a, b, x * d);
  }

  /** c standing k limbs up. */
  function Weighted(k: nat, c: int): int
  {
    Radix(k) * c
  }

  lemma RowStep(x: int, y: seq<Limb>, i: nat, j: nat)
    requires j < |y|
    ensures Weighted(i, x * Val(y[..j + 1])) == Weighted(i, x * Val(y[..j])) + Weighted(i + j, x * y[j])
  {
    hide Val, Radix;
    ValPush(y, j);
    RadixAdd(i, j);
    RowScale(Radix(i), Radix(j), x, Val(y[..j]), y[j]);
  }

  lemma MacBound(x: Limb, y: Limb)
    ensures 0 <= x * y <= (BASE - 1) * (BASE - 1)
  {
    MulBounds(x, BASE - 1, y, BASE - 1);
  }

  lemma RadixNext(k: nat)
    ensures Radix(k + 1) == BASE * Radix(k)
  {
  }

  lemma NoLimbs(s: seq<Limb>)
    requires s == []
    ensures Val(s) == 0
  {
  }

  lemma CarryStep(before: int, after: int, k: nat, old_: int, carry: int, w: int)
    requires w == old_ + carry
    requires after == before + Radix(k) * (w % BASE - old_)
    ensures after + Radix(k + 1) * (w / BASE) == before + Radix(k) * carry
  {
    RadixNext(k);
    hide Radix;
    MacStep(before, after, Radix(k), old_, 0, 0, carry, w);
    assert Radix(k) * 0 == 0;
  }

  lemma CarryBelow(v: int, carry: int, k: nat, top: nat)
    requires v >= 0 && carry > 0 && v + Radix(k) * carry < Radix(top)
    ensures k < top
  {
    hide Radix;
    MulStep(Radix(k), 0, carry);
    if top <= k { RadixMono(top, k); }
  }

  /** One limb of a row: t[k] and the carry absorb x * y. */
  method MacLimb(t: array<Limb>, k: nat, x: Limb, y: Limb, carry: U128) returns (out: U128)
    requires k < t.Length && carry < BASE
    modifies t
    ensures out < BASE
    ensures Val(t[..]) + Weighted(k + 1, out) == old(Val(t[..])) + Weighted(k, carry) + Weighted(k, x * y)
    ensures forall j :: 0 <= j < k ==> t[j] == old(t[j])
  {
    hide Val, Radix;
    ghost var s := t[..];
    MacBound(x, y);
    RadixNext(k);
    var w: U128 := t[k] + x * y + carry;
    t[k] := w % BASE;
    out := w / BASE;
    assert t[..] == s[k := w % BASE];
    ValUpdate(s, k, w % BASE);
    MacStep(Val(s), Val(t[..]), Radix(k), s[k], x, y, carry, w);
  }

  /** One limb of a ripple: t[k] absorbs the carry. */
  method CarryLimb(t: array<Limb>, k: nat, carry: U128) returns (out: U128)
    requires k < t.Length && carry < BASE
    modifies t
    ensures out < BASE
    ensures Val(t[..]) + Radix(k + 1) * out == old(Val(t[..])) + Radix(k) * carry
    ensures forall j :: 0 <= j < k ==> t[j] == old(t[j])
  {
    hide Val, Radix;
    ghost var s := t[..];
    var w: U128 := t[k] + carry;
    t[k] := w % BASE;
    out := w / BASE;
    assert t[..] == s[k := w % BASE];
    ValUpdate(s, k, w % BASE);
    CarryStep(Val(s), Val(t[..]), k, s[k], carry, w);
  }

  /** Propagate a carry from limb k on; it stops below limb `top`. */
  method Ripple(t: array<Limb>, start: nat, first: U128, ghost top: nat)
    requires top <= t.Length && first < BASE
    requires Val(t[..]) + Radix(start) * first < Radix(top)
    modifies t
    ensures Val(t[..]) == old(Val(t[..])) + Radix(start) * first
    ensures forall j :: 0 <= j < start && j < t.Length ==> t[j] == old(t[j])
  {
    hide Val, Radix;
    var k, carry: U128 := start, first;
    ghost var total := Val(t[..]) + Radix(start) * first;
    while carry != 0
      invariant start <= k && carry < BASE
      invariant Val(t[..]) + Radix(k) * carry == total
      invariant forall j :: 0 <= j < start && j < t.Length ==> t[j] == old(t[j])
      decreases top - k, carry
    {
      CarryBelow(Val(t[..]), carry, k, top);
      carry := CarryLimb(t, k, carry);
      k := k + 1;
    }
  }

  lemma NoCarry(i: nat)
    ensures Weighted(i, 0) == 0
  {
  }

  /** The limbs of a row; the carry is left over. */
  method MacRow(t: array<Limb>, x: Limb, y: seq<Limb>, i: nat) returns (carry: U128)
    requires i + |y| <= t.Length
    modifies t
    ensures carry < BASE
    ensures Val(t[..]) + Weighted(i + |y|, carry) == old(Val(t[..])) + Weighted(i, x * Val(y))
    ensures forall l :: 0 <= l < i ==> t[l] == old(t[l])
  {
    hide Val, Radix, Weighted;
    carry := 0;
    NoCarry(i);
    var j := 0;
    NoLimbs(y[..0]);
    while j < |y|
      invariant 0 <= j <= |y| && carry < BASE
      invariant Val(t[..]) + Weighted(i + j, carry) == old(Val(t[..])) + Weighted(i, x * Val(y[..j]))
      invariant forall l :: 0 <= l < i ==> t[l] == old(t[l])
    {
      RowStep(x, y, i, j);
      carry := MacLimb(t, i + j, x, y[j], carry);
      j := j + 1;
    }
    assert y[..j] == y;
  }

  /** t += x * y * 2^(64 i): one row of either pass of mont_mul.  The value stays
      below 2^(64 top), which is what keeps the carry ripple below limb `top`. */
  method AddRow(t: array<Limb>, x: Limb, y: seq<Limb>, i: nat, ghost top: nat)
    requires i + |y| <= top <= t.Length
    requires Val(t[..]) + Radix(i) * (x * Val(y)) < Radix(top)
    modifies t
    ensures Val(t[..]) == old(Val(t[..])) + Radix(i) * (x * Val(y))
    ensures t[..i] == old(t[..i])
  {
    hide Val, Radix;
    var carry := MacRow(t, x, y, i);
    Ripple(t, i + |y|, carry, top);
  }

  datatype Ordering = Less | Equal | Greater

  function Order(a: int, b: int): Ordering
  {
    if a < b then Less else if a == b then Equal else Greater
  }

  method Cmp(a: seq<Limb>, b: seq<Limb>, n: nat) returns (o: Ordering)
    requires n <= |a| && n <= |b|
    ensures o == Order(Val(a[..n]), Val(b[..n]))
  {
    var i := n;
    while i > 0
      invariant 0 <= i <= n
      invariant a[i..n] == b[i..n]
    {
      i := i - 1;
      if a[i] != b[i] {
        assert a[..n][i + 1..] == a[i + 1..n] == b[i + 1..n] == b[..n][i + 1..];
        if a[i] < b[i] {
          ValLess(a[..n], b[..n], i);
          return Less;
        } else {
          ValLess(b[..n], a[..n], i);
          return Greater;
        }
      }
      assert a[i..n] == [a[i]] + a[i + 1..n] && b[i..n] == [b[i]] + b[i + 1..n];
    }
    assert a[..n] == a[0..n] == b[0..n] == b[..n];
    return Equal;
  }

  function OverflowingSub(x: Limb, y: Limb): (r: (Limb, bool))
    ensures r.0 == x - y + (if r.1 then BASE else 0)
  {
    if x >= y then (x - y, false) else (x - y + BASE, true)
  }

  function OverflowingAdd(x: Limb, y: Limb): (r: (Limb, bool))
    ensures r.0 == x + y - (if r.1 then BASE else 0)
  {
    if x + y < BASE then (x + y, false) else (x + y - BASE, true)
  }

  /** Adding one digit position to a running sum or difference. */
  lemma DigitStep(p: int, v: int, x: int, y: int, cin: int, cout: int)
    requires v == x + y + cin - BASE * cout
    ensures p * v == p * x + p * y + p * cin - BASE * p * cout
  {
    calc {
      p * v;
      { Distribute(p, x + y + cin, BASE * cout); }
      p * (x + y + cin) - p * (BASE * cout);
      { Distribute(p, x + y, cin); Distribute(p, x, y); assert p * (BASE * cout) == BASE * p * cout; }
      p * x + p * y + p * cin - BASE * p * cout;
    }
  }

  /** r = a - b modulo 2^(64 n): the last borrow is dropped. */
  method SubInto(r: array<Limb>, a: seq<Limb>, b: seq<Limb>, n: nat)
    requires n <= r.Length && n <= |a| && n <= |b|
    modifies r
    ensures Val(r[..n]) == Val(a[..n]) - Val(b[..n]) + (if Val(a[..n]) < Val(b[..n]) then Radix(n) else 0)
    ensures forall j :: n <= j < r.Length ==> r[j] == old(r[j])
  {
    hide Val, Radix;
    var borrow := 0;
    var i := 0;
    NoLimbs(r[..0]);
    NoLimbs(a[..0]);
    NoLimbs(b[..0]);
    while i < n
      invariant 0 <= i <= n && 0 <= borrow <= 1
      invariant Val(r[..i]) == Val(a[..i]) - Val(b[..i]) + Radix(i) * borrow
      invariant forall j :: n <= j < r.Length ==> r[j] == old(r[j])
    {
      var (v1, b1) := OverflowingSub(a[i], b[i]);
      var (v, b2) := OverflowingSub(v1, borrow);
      ghost var s := r[..i];
      r[i] := v;
      assert r[..i] == s;
      var next := if b1 || b2 then 1 else 0;
      SubDigit(a, b, r[..], i, borrow, next);
      borrow := next;
      i := i + 1;
    }
    ValBound(r[..n]);
    ValBound(a[..n]);
    ValBound(b[..n]);
  }

  lemma SubDigit(a: seq<Limb>, b: seq<Limb>, r: seq<Limb>, i: nat, cin: int, cout: int)
    requires i < |a| && i < |b| && i < |r|
    requires r[i] == a[i] - b[i] - cin + BASE * cout
    requires Val(r[..i]) == Val(a[..i]) - Val(b[..i]) + Radix(i) * cin
    ensures Val(r[..i + 1]) == Val(a[..i + 1]) - Val(b[..i + 1]) + Radix(i + 1) * cout
  {
    hide Val, Radix;
    RadixNext(i);
    ValPush(a, i);
    ValPush(b, i);
    ValPush(r, i);
    var y: int := b[i];
    DigitStep(Radix(i), r[i], a[i], -y, -cin, -cout);
    Negate(Radix(i), y);
    Negate(Radix(i), cin);
    Negate(Radix(i + 1), cout);
  }

  lemma Negate(p: int, x: int)
    ensures p * (-x) == -(p * x)
  {
  }

  lemma AddDigit(a: seq<Limb>, b: seq<Limb>, r: seq<Limb>, i: nat, cin: int, cout: int)
    requires i < |a| && i < |b| && i < |r|
    requires r[i] == a[i] + b[i] + cin - BASE * cout
    requires Val(r[..i]) + Radix(i) * cin == Val(a[..i]) + Val(b[..i])
    ensures Val(r[..i + 1]) + Radix(i + 1) * cout == Val(a[..i + 1]) + Val(b[..i + 1])
  {
    hide Val, Radix;
    RadixNext(i);
    ValPush(a, i);
    ValPush(b, i);
    ValPush(r, i);
    DigitStep(Radix(i), r[i], a[i], b[i], cin, cout);
  }

  /** r = a + b, with the carry out of limb n. */
  method AddInto(r: array<Limb>, a: seq<Limb>, b: seq<Limb>, n: nat) returns (carry: Limb)
    requires n <= r.Length && n <= |a| && n <= |b|
    modifies r
    ensures carry <= 1 && Val(r[..n]) + Radix(n) * carry == Val(a[..n]) + Val(b[..n])
    ensures forall j :: n <= j < r.Length ==> r[j] == old(r[j])
  {
    hide Val, Radix;
    carry := 0;
    var i := 0;
    NoLimbs(r[..0]);
    NoLimbs(a[..0]);
    NoLimbs(b[..0]);
    while i < n
      invariant 0 <= i <= n && carry <= 1
      invariant Val(r[..i]) + Radix(i) * carry == Val(a[..i]) + Val(b[..i])
      invariant forall j :: n <= j < r.Length ==> r[j] == old(r[j])
    {
      var (v1, c1) := OverflowingAdd(a[i], b[i]);
      var (v, c2) := OverflowingAdd(v1, carry);
      ghost var s := r[..i];
      r[i] := v;
      assert r[..i] == s;
      var next := if c1 || c2 then 1 else 0;
      AddDigit(a, b, r[..], i, carry, next);
      carry := next;
      i := i + 1;
    }
  }

  /** A sum of two n-limb numbers as the code reduces it: less m once if it is at
      least m, and what n limbs hold of that. */
  function ReducedSum(sum: int, m: int, radix: int): int
  {
    if sum < m then sum else if sum - m < radix then sum - m else sum - m - radix
  }

  /** r = a + b, less m once if that is at least m. */
  method AddMod(r: array<Limb>, a: seq<Limb>, b: seq<Limb>, m: seq<Limb>, n: nat)
    requires n <= r.Length && n <= |a| && n <= |b| && n <= |m|
    modifies r
    ensures Val(r[..n]) == ReducedSum(Val(a[..n]) + Val(b[..n]), Val(m[..n]), Radix(n))
    ensures forall j :: n <= j < r.Length ==> r[j] == old(r[j])
  {
    hide Val, Radix;
    var carry := AddInto(r, a, b, n);
    var o := Cmp(r[..], m, n);
    assert r[..][..n] == r[..n];
    ValBound(r[..n]);
    ValBound(m[..n]);
    if carry != 0 || o != Less {
      var t := r[..];
      assert t[..n] == r[..n];
      SubInto(r, t, m, n);
    }
  }

  lemma ProductStep(a: seq<Limb>, bv: int, i: nat)
    requires i < |a|
    ensures Val(a[..i + 1]) * bv == Val(a[..i]) * bv + Radix(i) * (a[i] * bv)
  {
    hide Val, Radix;
    ValPush(a, i);
    MulAssoc(Radix(i), a[i], bv);
  }

  lemma ProductBound(x: seq<Limb>, y: seq<Limb>)
    ensures Val(x) * Val(y) < Radix(|x| + |y|)
  {
    hide Val, Radix;
    ValBound(x);
    ValBound(y);
    RadixAdd(|x|, |y|);
    MulLe(Val(x), Radix(|x|), Val(y));
    MulLt(Val(y), Radix(|y|), Radix(|x|));
  }

  /** The first pass of mont_mul: t = a * b, schoolbook. */
  method Product(t: array<Limb>, a: seq<Limb>, b: seq<Limb>)
    requires |a| == |b| && 2 * |a| <= t.Length
    requires Val(t[..]) == 0
    modifies t
    ensures Val(t[..]) == Val(a) * Val(b)
  {
    hide Val, Radix;
    var i := 0;
    NoLimbs(a[..0]);
    while i < |a|
      invariant 0 <= i <= |a|
      invariant Val(t[..]) == Val(a[..i]) * Val(b)
    {
      ProductStep(a, Val(b), i);
      ProductBound(a[..i + 1], b);
      AddRow(t, a[i], b, i, i + 1 + |b|);
      i := i + 1;
    }
    assert a[..i] == a;
  }

  /** u is chosen so that adding u * m clears the lowest limb. */
  lemma ClearsLimb(ti: int, np0: int, m0: int)
    requires Cong(m0 * np0, -1, BASE)
    ensures (ti + (ti * np0 % BASE) * m0) % BASE == 0
  {
    var u := ti * np0 % BASE;
    CongMod(ti * np0, BASE);
    CongMul(u, ti * np0, m0, m0, BASE);
    CongMul(ti, ti, m0 * np0, -1, BASE);
    assert ti * np0 * m0 == ti * (m0 * np0);
    CongAdd(ti, ti, u * m0, -ti, BASE);
  }

  /** After a reduction row the low i + 1 limbs are zero. */
  lemma RowClears(s: seq<Limb>, t: seq<Limb>, m: seq<Limb>, u: int, i: nat)
    requires |s| == |t| && i < |s| && m != []
    requires Val(s[..i]) == 0 && t[..i] == s[..i]
    requires Val(t) == Val(s) + Radix(i) * (u * Val(m))
    requires (s[i] + u * m[0]) % BASE == 0
    ensures Val(t[..i + 1]) == 0
  {
    ValSplit(s, i);
    ValSplit(t, i);
    Distribute(Radix(i), Val(s[i..]), u * Val(m));
    MulCancel(Radix(i), Val(t[i..]), Val(s[i..]) + u * Val(m));
    LowLimbZero(s[i..], t[i..], m, u);
    ValPush(t, i);
  }

  lemma LowLimbZero(s: seq<Limb>, t: seq<Limb>, m: seq<Limb>, u: int)
    requires s != [] && t != [] && m != []
    requires Val(t) == Val(s) + u * Val(m)
    requires (s[0] + u * m[0]) % BASE == 0
    ensures t[0] == 0
  {
    var w, z := u * Val(m[1..]), s[0] + u * m[0];
    ScaleSplit(u, m[0], Val(m[1..]));
    Multiple(t[0], z, Val(s[1..]) + w - Val(t[1..]));
  }

  lemma ScaleSplit(u: int, a: int, x: int)
    ensures u * (a + BASE * x) == u * a + BASE * (u * x)
  {
  }

  lemma Multiple(x: Limb, z: int, k: int)
    requires x == z + BASE * k && z % BASE == 0
    ensures x == 0
  {
  }

  lemma MulCancel(c: int, a: int, b: int)
    requires c > 0 && c * a == c * b
    ensures a == b
  {
    if a < b { MulLt(a, b, c); }
    if b < a { MulLt(b, a, c); }
  }

  /** q collects the row multipliers: q < 2^(64 i) after i rows. */
  lemma QuotientStep(q: int, u: Limb, i: nat, mv: int)
    requires 0 <= q < Radix(i)
    ensures 0 <= q + Radix(i) * u < Radix(i + 1)
    ensures (q + Radix(i) * u) * mv == q * mv + Radix(i) * (u * mv)
  {
    MulStep(Radix(i), u, BASE);
    MulBounds(0, u, 0, Radix(i));
    MulAssoc(Radix(i), u, mv);
  }

  /** Room for the reduction: everything stays below 2 m 2^(64 n) <= 2^(64 (2n+1)). */
  lemma ReduceBound(start: int, q: int, m: seq<Limb>, i: nat)
    requires 0 <= start < Val(m) * Radix(|m|) && 0 <= q < Radix(i) && i <= |m|
    ensures start + q * Val(m) < 2 * (Val(m) * Radix(|m|)) < Radix(2 * |m| + 1)
  {
    var n := |m|;
    RadixMono(i, n);
    MulLe(q, Radix(n), Val(m));
    ValBound(m);
    MulLe(Val(m), Radix(n), Radix(n));
    RadixAdd(n, n);
    assert Radix(2 * n + 1) == BASE * Radix(2 * n);
  }

  /** The second pass: add multiples of m until the low n limbs vanish. */
  method Reduce(t: array<Limb>, m: seq<Limb>, np0: Limb) returns (ghost q: int)
    requires m != [] && 2 * |m| + 1 <= t.Length
    requires Cong(m[0] * np0, -1, BASE)
    requires Val(t[..]) < Val(m) * Radix(|m|)
    modifies t
    ensures 0 <= q < Radix(|m|)
    ensures Val(t[..]) == old(Val(t[..])) + q * Val(m)
    ensures Val(t[..|m|]) == 0
  {
    q := 0;
    assert Radix(0) == 1;
    hide Val, Radix, Cong;
    var i := 0;
    NoLimbs(t[..0]);
    while i < |m|
      invariant 0 <= i <= |m|
      invariant 0 <= q < Radix(i)
      invariant Val(t[..]) == old(Val(t[..])) + q * Val(m)
      invariant Val(t[..i]) == 0
    {
      var u: Limb := t[i] * np0 % BASE;
      ghost var s := t[..];
      assert s[..i] == t[..i];
      QuotientStep(q, u, i, Val(m));
      q := q + Radix(i) * u;
      ReduceBound(old(Val(t[..])), q, m, i + 1);
      ClearsLimb(t[i], np0, m[0]);
      AddRow(t, u, m, i, 2 * |m| + 1);
      assert t[..][..i] == t[..i] && t[..][..i + 1] == t[..i + 1];
      RowClears(s, t[..], m, u, i);
      i := i + 1;
    }
  }

  /** x, plus r when the limb above it is set. */
  function WithTop(x: int, top: Limb, r: int): int
  {
    if top == 0 then x else x + r
  }

  /** The upper half of the reduced product: below 2m, so limb 2n is 0 or 1. */
  lemma UpperHalf(t: seq<Limb>, m: seq<Limb>)
    requires 2 * |m| < |t|
    requires Val(t[..|m|]) == 0
    requires Val(t) < 2 * (Val(m) * Radix(|m|))
    ensures t[2 * |m|] <= 1
    ensures Val(t) == Radix(|m|) * WithTop(Val(t[|m|..2 * |m|]), t[2 * |m|], Radix(|m|))
    ensures WithTop(Val(t[|m|..2 * |m|]), t[2 * |m|], Radix(|m|)) < 2 * Val(m)
  {
    hide *;
    var n := |m|;
    var hi := t[n..];
    ValBound(m);
    ValSplit(t, n);
    assert hi[..n] == t[n..2 * n];
    BelowTwice(Radix(n), Val(hi), Val(m));
    TopLimb(hi, n);
  }

  lemma TopLimb(hi: seq<Limb>, n: nat)
    requires n < |hi| && Val(hi) < 2 * Radix(n)
    ensures hi[n] <= 1 && Val(hi) == WithTop(Val(hi[..n]), hi[n], Radix(n))
  {
    var lo, up := Val(hi[..n]), Val(hi[n..]);
    assert Val(hi) == lo + Radix(n) * up by { ValSplit(hi, n); }
    assert up == hi[n] + BASE * Val(hi[n..][1..]);
    ZeroOrOne(Radix(n), up, Val(hi));
  }

  lemma ZeroOrOne(c: int, x: int, v: int)
    requires c > 0 && x >= 0 && c * x <= v < 2 * c
    ensures (x == 0 && c * x == 0) || (x == 1 && c * x == c)
  {
    if x >= 2 { MulLe(2, x, c); }
  }

  lemma BelowTwice(c: int, x: int, y: int)
    requires c > 0 && c * x < 2 * (y * c)
    ensures x < 2 * y
  {
    if x >= 2 * y { MulLe(2 * y, x, c); }
  }

  ghost predicate ZeroAbove(a: seq<Limb>, n: nat)
  {
    forall k :: n <= k < |a| ==> a[k] == 0
  }

  /** r = a b 2^(-64 n) mod m. */
  method MontMul(a: Big, b: Big, m: Big, np0: Limb, n: nat) returns (r: Big)
    requires 1 <= n <= MAX_LIMBS
    requires Cong(m[0] * np0, -1, BASE)
    requires Low(a, n) * Low(b, n) < Low(m, n) * Radix(n)
    ensures Low(r, n) < Low(m, n) && ZeroAbove(r, n)
    ensures Cong(Low(r, n) * Radix(n), Low(a, n) * Low(b, n), Low(m, n))
  {
    hide Val, Radix, Cong, WithTop;
    var u, top, q := WideReduced(a[..n], b[..n], m[..n], np0);
    ghost var wide := WithTop(Val(u[..n]), top, Radix(n));
    ghost var k := OneSubtraction(u, top, m, n);
    r := u[..];
    assert r[..n] == u[..n];
    assert wide == Low(r, n) + (if k then Low(m, n) else 0);
    MontResult(Low(m, n), Radix(n), Low(r, n), k, Low(a, n) * Low(b, n), q);
  }

  /** Both passes: (a b + q m) / 2^(64 n), as n limbs and the limb above them. */
  method WideReduced(a: seq<Limb>, b: seq<Limb>, m: seq<Limb>, np0: Limb)
    returns (u: array<Limb>, top: Limb, ghost q: int)
    requires 1 <= |a| == |b| == |m| <= MAX_LIMBS
    requires Cong(m[0] * np0, -1, BASE)
    requires Val(a) * Val(b) < Val(m) * Radix(|m|)
    ensures fresh(u) && u.Length == MAX_LIMBS && forall j :: |m| <= j < u.Length ==> u[j] == 0
    ensures top <= 1
    ensures WithTop(Val(u[..|m|]), top, Radix(|m|)) < 2 * Val(m)
    ensures Radix(|m|) * WithTop(Val(u[..|m|]), top, Radix(|m|)) == Val(a) * Val(b) + q * Val(m)
  {
    hide *;
    var n := |m|;
    var t := new Limb[2 * MAX_LIMBS + 2](_ => 0);
    ValZeros(t[..]);
    Product(t, a, b);
    q := Reduce(t, m, np0);
    ReduceBound(Val(a) * Val(b), q, m, n);
    ghost var w := t[..];
    assert w[..n] == t[..n];
    UpperHalf(w, m);
    top := t[2 * n];
    u := new Limb[MAX_LIMBS](_ => 0);
    forall i | 0 <= i < n { u[i] := t[n + i]; }
    assert u[..n] == w[n..2 * n];
    assert u[..|m|] == w[|m|..2 * |m|];
  }

  /** u + top 2^(64 n) is below 2m; take m off once if it is at least m. */
  method OneSubtraction(u: array<Limb>, top: Limb, m: Big, n: nat) returns (ghost k: bool)
    requires u.Length == MAX_LIMBS && n <= MAX_LIMBS
    requires WithTop(Val(u[..n]), top, Radix(n)) < 2 * Low(m, n)
    modifies u
    ensures Val(u[..n]) == WithTop(old(Val(u[..n])), top, Radix(n)) - (if k then Low(m, n) else 0)
    ensures Val(u[..n]) < Low(m, n)
    ensures forall j :: n <= j < u.Length ==> u[j] == old(u[j])
  {
    ValBound(m[..n]);
    ValBound(u[..n]);
    var o := Cmp(u[..], m, n);
    assert u[..][..n] == u[..n];
    k := false;
    if top != 0 || o != Less {
      var c := u[..];
      assert c[..n] == u[..n];
      SubInto(u, c, m, n);
      k := true;
    }
  }

  lemma MontResult(m: int, radix: int, r: int, k: bool, ab: int, q: int)
    requires m > 0 && radix * (r + if k then m else 0) == ab + q * m
    ensures Cong(r * radix, ab, m)
  {
    if k {
      Distribute(radix, r, m);
      CongIntro(r * radix, ab, q - radix, m);
    } else {
      CongIntro(r * radix, ab, q, m);
    }
  }
}
