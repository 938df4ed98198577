/** Little-endian numbers in base 2^64, the `Big` of the kernel. */
module Limbs {
  import opened Arith

  const BASE: int := 0x1_0000_0000_0000_0000

  type Limb = x: int | 0 <= x < BASE

  /** The number the limbs stand for, least significant limb first. */
  function Val(s: seq<Limb>): (v: int)
    ensures v >= 0
  {
    if s == [] then 0 else s[0] + BASE * Val(s[1..])
  }

  /** R = 2^(64 n). */
  function Radix(n: nat): (r: int)
    ensures r > 0
  {
    if n == 0 then 1 else BASE * Radix(n - 1)
  }

  lemma {:induction false} RadixAdd(i: nat, j: nat)
    ensures Radix(i + j) == Radix(i) * Radix(j)
  {
    if i > 0 {
      RadixAdd(i - 1, j);
      MulAssoc(BASE, Radix(i - 1), Radix(j));
    }
  }

  lemma {:induction false} RadixIsPow(n: nat)
    ensures Radix(n) == Pow(2, 64 * n)
  {
    if n > 0 {
      RadixIsPow(n - 1);
      PowAdd(2, 64, 64 * (n - 1));
      Pow64();
    }
  }

  lemma Pow64()
    ensures Pow(2, 64) == BASE
  {
    assert Pow(2, 8) == 256;
    PowAdd(2, 8, 8);
    PowAdd(2, 16, 16);
    PowAdd(2, 32, 32);
  }

  lemma {:induction false} ValSplit(s: seq<Limb>, k: nat)
    requires k <= |s|
    ensures Val(s) == Val(s[..k]) + Radix(k) * Val(s[k..])
  {
    if k == 0 {
      assert s[..0] == [] && s[0..] == s;
    } else {
      ValSplit(s[1..], k - 1);
      assert s[..k][1..] == s[1..][..k - 1];
      assert s[1..][k - 1..] == s[k..];
      MulAssoc(BASE, Radix(k - 1), Val(s[k..]));
    }
  }

  lemma ValAppend(s: seq<Limb>, t: seq<Limb>)
    ensures Val(s + t) == Val(s) + Radix(|s|) * Val(t)
  {
    ValSplit(s + t, |s|);
    assert (s + t)[..|s|] == s && (s + t)[|s|..] == t;
  }

  lemma ValHead(s: seq<Limb>)
    requires s != []
    ensures Val(s) == s[0] + BASE * Val(s[1..])
  {
  }

  lemma ValSingle(x: Limb)
    ensures Val([x]) == x
  {
    assert [x][1..] == [];
  }

  lemma ValPush(s: seq<Limb>, k: nat)
    requires k < |s|
    ensures Val(s[..k + 1]) == Val(s[..k]) + Radix(k) * s[k]
  {
    ValAppend(s[..k], [s[k]]);
    assert s[..k] + [s[k]] == s[..k + 1];
    ValSingle(s[k]);
  }

  lemma {:induction false} ValBound(s: seq<Limb>)
    ensures 0 <= Val(s) < Radix(|s|)
  {
    if s != [] {
      ValBound(s[1..]);
    }
  }

  lemma {:induction false} ValZeros(s: seq<Limb>)
    requires forall i :: 0 <= i < |s| ==> s[i] == 0
    ensures Val(s) == 0
  {
    if s != [] { ValZeros(s[1..]); }
  }

  /** Changing one limb changes the value by the difference, scaled. */
  lemma ValUpdate(s: seq<Limb>, k: nat, x: Limb)
    requires k < |s|
    ensures Val(s[k := x]) == Val(s) + Radix(k) * (x - s[k])
  {
    var u := s[k := x];
    ValSplit(s, k);
    ValSplit(u, k);
    assert u[..k] == s[..k];
    assert u[k..] == [x] + s[k + 1..] && s[k..] == [s[k]] + s[k + 1..];
    Distribute(Radix(k), Val(s[k..]), x - s[k]);
  }

  /** Equal values of equal length are equal limb for limb. */
  lemma {:induction false} ValInjective(s: seq<Limb>, t: seq<Limb>)
    requires |s| == |t| && Val(s) == Val(t)
    ensures s == t
  {
    if s != [] {
      DivModUnique(Val(s), Val(s[1..]), s[0], BASE);
      DivModUnique(Val(t), Val(t[1..]), t[0], BASE);
      ValInjective(s[1..], t[1..]);
      assert s == [s[0]] + s[1..] && t == [t[0]] + t[1..];
    }
  }

  /** The most significant differing limb decides a comparison. */
  lemma ValLess(s: seq<Limb>, t: seq<Limb>, k: nat)
    requires |s| == |t| && k < |s|
    requires s[k + 1..] == t[k + 1..] && s[k] < t[k]
    ensures Val(s) < Val(t)
  {
    var hi := Radix(k + 1) * Val(s[k + 1..]);
    assert Val(s) == Val(s[..k]) + Radix(k) * s[k] + hi by { ValSplit(s, k + 1); ValPush(s, k); }
    assert Val(t) == Val(t[..k]) + Radix(k) * t[k] + hi by { ValSplit(t, k + 1); ValPush(t, k); }
    ValBound(s[..k]);
    MulStep(Radix(k), s[k], t[k]);
  }
}
