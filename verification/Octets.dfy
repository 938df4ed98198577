/** Bytes, powers of 256 and little-endian strings. */
module Octets {
  import opened Arith

  type Byte = x: int | 0 <= x < 256

  /** 256^k. */
  function P256(k: nat): (v: int)
    ensures v > 0
  {
    if k == 0 then 1 else 256 * P256(k - 1)
  }

  lemma {:induction false} P256Add(i: nat, j: nat)
    ensures P256(i + j) == P256(i) * P256(j)
  {
    if i > 0 {
      P256Add(i - 1, j);
      MulAssoc(256, P256(i - 1), P256(j));
    }
  }

  function LittleEndian(s: seq<Byte>): (v: int)
    ensures v >= 0
  {
    if s == [] then 0 else s[0] + 256 * LittleEndian(s[1..])
  }

  lemma LittleEndianHead(s: seq<Byte>)
    requires s != []
    ensures LittleEndian(s) == s[0] + 256 * LittleEndian(s[1..])
  {
  }

  lemma {:induction false} LittleEndianSplit(s: seq<Byte>, k: nat)
    requires k <= |s|
    ensures LittleEndian(s) == LittleEndian(s[..k]) + P256(k) * LittleEndian(s[k..])
  {
    if k == 0 {
      assert s[..0] == [] && s[0..] == s;
    } else {
      LittleEndianSplit(s[1..], k - 1);
      assert s[..k][1..] == s[1..][..k - 1];
      assert s[1..][k - 1..] == s[k..];
      MulAssoc(256, P256(k - 1), LittleEndian(s[k..]));
    }
  }

  lemma LittleEndianAppend(s: seq<Byte>, t: seq<Byte>)
    ensures LittleEndian(s + t) == LittleEndian(s) + P256(|s|) * LittleEndian(t)
  {
    LittleEndianSplit(s + t, |s|);
    assert (s + t)[..|s|] == s && (s + t)[|s|..] == t;
  }

  lemma {:induction false} LittleEndianBound(s: seq<Byte>)
    ensures 0 <= LittleEndian(s) < P256(|s|)
  {
    if s != [] { LittleEndianBound(s[1..]); }
  }

  /** Strings of one length are equal when their values are. */
  lemma {:induction false} LittleEndianInjective(s: seq<Byte>, t: seq<Byte>)
    requires |s| == |t| && LittleEndian(s) == LittleEndian(t)
    ensures s == t
  {
    if s != [] {
      LittleEndianInjective(s[1..], t[1..]);
      assert s == [s[0]] + s[1..] && t == [t[0]] + t[1..];
    }
  }

  lemma DivDiv(v: int, a: int, b: int)
    requires v >= 0 && a > 0 && b > 0
    ensures a * b > 0 && v / a / b == v / (a * b)
  {
    var q, r := v / a, v % a;
    var q', r' := q / b, q % b;
    assert q == q' * b + r';
    assert v == q' * (a * b) + (r' * a + r) by {
      assert v == q * a + r;
      assert q * a == q' * b * a + r' * a;
      assert q' * b * a == q' * (a * b);
    }
    MulStep(a, r', b);
    MulBounds(0, r', 0, a);
    DivModUnique(v, q', r' * a + r, a * b);
  }
}
