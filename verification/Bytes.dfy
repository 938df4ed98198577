/** kernel/src/crypto/bignum.rs: big-endian byte strings to limbs and back. */
module ByteStrings {
  import opened Arith
  import opened Limbs
  import opened BigNum
  import opened Moduli
  import opened Octets

  lemma P256Eight()
    ensures P256(8) == BASE
  {
    assert P256(4) == 0x1_0000_0000;
    P256Add(4, 4);
  }

  lemma {:induction false} P256Radix(i: nat)
    ensures P256(8 * i) == Radix(i)
  {
    if i > 0 {
      P256Radix(i - 1);
      P256Add(8, 8 * (i - 1));
      P256Eight();
    }
  }

  lemma BigEndianLast(s: seq<Byte>, z: seq<Byte>, b: Byte)
    requires s == z + [b]
    ensures BigEndian(s) == 256 * BigEndian(z) + b
  {
    assert s[..|s| - 1] == z;
  }

  lemma P256Ends(k: nat)
    ensures P256(0) == 1 && P256(k + 1) == 256 * P256(k)
  {
  }

  lemma ShiftDigit(x: int, p: int, z: int, b: int)
    ensures 256 * (x * p + z) + b == x * (256 * p) + (256 * z + b)
  {
    MulAssoc(x, 256, p);
  }

  lemma {:induction false} BigEndianAppend(x: seq<Byte>, y: seq<Byte>)
    ensures BigEndian(x + y) == BigEndian(x) * P256(|y|) + BigEndian(y)
  {
    if y == [] {
      assert x + y == x;
    } else {
      hide BigEndian, P256;
      var z, b := y[..|y| - 1], y[|y| - 1];
      BigEndianAppend(x, z);
      assert x + y == (x + z) + [b];
      BigEndianLast(x + y, x + z, b);
      BigEndianLast(y, z, b);
      P256Ends(|z|);
      ShiftDigit(BigEndian(x), P256(|z|), BigEndian(z), b);
    }
  }

  lemma {:induction false} BigEndianBound(x: seq<Byte>)
    ensures BigEndian(x) < P256(|x|)
  {
    if x != [] { BigEndianBound(x[..|x| - 1]); }
  }

  /** I2OSP: v in exactly k bytes, most significant first. */
  function Encode(v: nat, k: nat): (s: seq<Byte>)
    ensures |s| == k
  {
    if k == 0 then [] else Encode(v / 256, k - 1) + [v % 256]
  }

  lemma {:induction false} EncodeValue(v: nat, k: nat)
    requires v < P256(k)
    ensures BigEndian(Encode(v, k)) == v
  {
    if k > 0 {
      EncodeValue(v / 256, k - 1);
      assert Encode(v, k)[..k - 1] == Encode(v / 256, k - 1);
    }
  }

  lemma {:induction false} EncodeOfValue(s: seq<Byte>)
    ensures Encode(BigEndian(s), |s|) == s
  {
    if s != [] {
      EncodeOfValue(s[..|s| - 1]);
    }
  }

  lemma {:induction false} EncodeDigit(v: nat, k: nat, i: nat)
    requires i < k
    ensures Encode(v, k)[i] == v / P256(k - 1 - i) % 256
  {
    if i < k - 1 {
      EncodeDigit(v / 256, k - 1, i);
      DivDiv(v, 256, P256(k - 2 - i));
    }
  }

  /** Byte f of a number, counted from the low end, sits in limb f / 8. */
  lemma LimbByte(s: seq<Limb>, f: nat)
    requires f < 8 * |s|
    ensures Val(s) / P256(f) % 256 == s[f / 8] / P256(f % 8) % 256
  {
    hide *;
    var j, r := f / 8, f % 8;
    var hi := Val(s[j..]);
    P256Radix(j);
    assert Val(s) / Radix(j) == hi by {
      ValSplit(s, j);
      ValBound(s[..j]);
      DivModUnique(Val(s), hi, Val(s[..j]), Radix(j));
    }
    P256Add(8 * j, r);
    DivDiv(Val(s), Radix(j), P256(r));
    ValHead(s[j..]);
    TopByte(s[j], Val(s[j..][1..]), r);
  }

  lemma TopByte(x: Limb, k: nat, r: nat)
    requires r < 8
    ensures (x + BASE * k) / P256(r) % 256 == x / P256(r) % 256
  {
    var p, c := P256(r), P256(7 - r);
    assert P256(8 - r) == 256 * c;
    hide *;
    P256Eight();
    P256Add(8 - r, r);
    SplitMultiple(BASE, x, k, p, c);
  }

  lemma SplitMultiple(base: int, x: int, k: int, p: int, c: int)
    requires p > 0 && x >= 0 && base == 256 * c * p
    ensures (x + base * k) / p % 256 == x / p % 256
  {
    PullFactor(c, p, k);
    QuotientShift(x, p, 256 * (c * k));
    SameByte(x / p, c * k);
  }

  lemma PullFactor(c: int, p: int, k: int)
    ensures 256 * c * p * k == 256 * (c * k) * p
  {
    MulAssoc(256 * c, p, k);
    MulAssoc(256 * c, k, p);
    MulAssoc(256, c, k);
  }

  lemma QuotientShift(x: int, p: int, d: int)
    requires p > 0
    ensures (x + d * p) / p == x / p + d
  {
    Distribute(p, x / p, d);
    DivModUnique(x + d * p, x / p + d, x % p, p);
  }

  lemma SameByte(q: int, w: int)
    ensures (q + 256 * w) % 256 == q % 256
  {
  }

  /** The bytes that fit: the last 512 of them. */
  function Kept(s: seq<Byte>): (t: seq<Byte>)
    ensures |t| <= 8 * MAX_LIMBS
  {
    if |s| <= 8 * MAX_LIMBS then s else s[|s| - 8 * MAX_LIMBS..]
  }

  lemma LimbOf(s: seq<Byte>, start: nat, end: nat)
    requires start <= end <= |s| && end - start <= 8
    ensures 0 <= BigEndian(s[start..end]) < BASE
  {
    BigEndianBound(s[start..end]);
    P256Eight();
    P256Add(end - start, 8 - (end - start));
    MulLe(1, P256(8 - (end - start)), P256(end - start));
  }

  method ReadLimb(s: seq<Byte>, start: nat, end: nat) returns (limb: Limb)
    requires start <= end <= |s| && end - start <= 8
    ensures limb == BigEndian(s[start..end])
  {
    limb := 0;
    var k := start;
    while k < end
      invariant start <= k <= end
      invariant limb == BigEndian(s[start..k])
    {
      LimbOf(s, start, k + 1);
      assert s[start..k + 1][..k - start] == s[start..k];
      limb := limb * 256 + s[k];
      k := k + 1;
    }
  }

  /** Bytes from the low end that the first i limbs cover. */
  function Tail(s: seq<Byte>, i: nat): seq<Byte>
  {
    if 8 * i >= |s| then s else s[|s| - 8 * i..]
  }

  lemma TailStep(s: seq<Byte>, i: nat, out: seq<Limb>)
    requires 8 * i < |s| && i < |out|
    requires Val(out[..i]) == BigEndian(Tail(s, i))
    requires out[i] == BigEndian(s[if |s| - 8 * i >= 8 then |s| - 8 * i - 8 else 0..|s| - 8 * i])
    ensures Val(out[..i + 1]) == BigEndian(Tail(s, i + 1))
  {
    hide *;
    var end := |s| - 8 * i;
    var start := if end >= 8 then end - 8 else 0;
    TailSplit(s, i, start, end);
    BigEndianAppend(s[start..end], Tail(s, i));
    P256Radix(i);
    ValPush(out, i);
  }

  lemma TailSplit(s: seq<Byte>, i: nat, start: nat, end: nat)
    requires 8 * i < |s| && end == |s| - 8 * i && start == if end >= 8 then end - 8 else 0
    ensures Tail(s, i + 1) == s[start..end] + Tail(s, i) && |Tail(s, i)| == 8 * i
  {
    assert Tail(s, i) == s[end..];
    assert s == s[..start] + s[start..end] + s[end..];
  }

  method FromBeBytes(bytes: seq<Byte>) returns (out: Big, used: nat)
    ensures used <= MAX_LIMBS && ZeroAbove(out, used)
    ensures Val(out) == Low(out, used) == BigEndian(Kept(bytes))
    ensures used == 0 <==> bytes == []
    ensures used > 1 ==> out[used - 1] != 0
    ensures 8 * used < |bytes| + 8
  {
    var n := (|bytes| + 7) / 8;
    if n > MAX_LIMBS { n := MAX_LIMBS; }
    out := ReadLimbs(bytes, n);
    DropZeros(out, n);
    used := n;
    while used > 1 && out[used - 1] == 0
      invariant used <= n && (used == 0 <==> n == 0)
      invariant ZeroAbove(out, used)
    {
      used := used - 1;
    }
    DropZeros(out, used);
  }

  method ReadLimbs(bytes: seq<Byte>, n: nat) returns (out: Big)
    requires n <= MAX_LIMBS && 8 * n < |bytes| + 8
    ensures ZeroAbove(out, n) && Low(out, n) == BigEndian(Tail(bytes, n))
  {
    var a := new Limb[MAX_LIMBS](_ => 0);
    var i := 0;
    assert Tail(bytes, 0) == [];
    while i < n
      invariant 0 <= i <= n
      invariant forall k :: i <= k < MAX_LIMBS ==> a[k] == 0
      invariant Val(a[..i]) == BigEndian(Tail(bytes, i))
    {
      hide *;
      var end := |bytes| - i * 8;
      var start := if end >= 8 then end - 8 else 0;
      ghost var before := a[..i];
      a[i] := ReadLimb(bytes, start, end);
      assert a[..][..i] == before && a[..][..i + 1] == a[..i + 1];
      TailStep(bytes, i, a[..]);
      i := i + 1;
    }
    out := a[..];
    assert out[..n] == a[..n];
  }

  lemma DropZeros(a: Big, n: nat)
    requires n <= MAX_LIMBS && ZeroAbove(a, n)
    ensures Val(a) == Low(a, n)
  {
    assert forall k :: 0 <= k < |a[n..]| ==> a[n..][k] == a[n + k];
    ValZeros(a[n..]);
    hide Val, Radix;
    ValSplit(a, n);
    assert Radix(n) * 0 == 0;
  }

  /** The low `limbs` limbs of a into out, most significant byte first. */
  method ToBeBytes(a: Big, limbs: nat, out: array<Byte>)
    requires limbs <= MAX_LIMBS
    modifies out
    ensures forall i :: 0 <= i < out.Length ==>
              out[i] == if i < 8 * limbs then Encode(Low(a, limbs), 8 * limbs)[i] else old(out[i])
  {
    var bytes := limbs * 8;
    var i := 0;
    while i < out.Length && i < bytes
      invariant 0 <= i <= out.Length && i <= bytes
      invariant forall j :: 0 <= j < out.Length ==>
                  out[j] == if j < i then Encode(Low(a, limbs), bytes)[j] else old(out[j])
    {
      var fromLow := bytes - 1 - i;
      EncodeDigit(Low(a, limbs), bytes, i);
      LimbByte(a[..limbs], fromLow);
      out[i] := a[fromLow / 8] / P256(fromLow % 8) % 256;
      i := i + 1;
    }
  }
}
