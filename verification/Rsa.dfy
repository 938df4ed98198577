/** kernel/src/crypto/rsa.rs: PKCS#1 v1.5 verification. */
module Rsa {
  import opened Arith
  import opened Limbs
  import opened BigNum
  import opened Moduli
  import opened Octets
  import opened ByteStrings
  import opened Wrappers

  datatype HashId = Sha256 | Sha384 | Sha512 {
    function DigestLen(): nat
    {
      match this
      case Sha256 => 32
      case Sha384 => 48
      case Sha512 => 64
    }

    function DigestInfoPrefix(): (p: seq<Byte>)
      ensures |p| == 19 && p[18] == DigestLen()
    {
      match this
      case Sha256 => [0x30, 0x31, 0x30, 0x0d, 0x06, 0x09, 0x60, 0x86, 0x48, 0x01, 0x65, 0x03, 0x04, 0x02, 0x01, 0x05, 0x00, 0x04, 0x20]
      case Sha384 => [0x30, 0x41, 0x30, 0x0d, 0x06, 0x09, 0x60, 0x86, 0x48, 0x01, 0x65, 0x03, 0x04, 0x02, 0x02, 0x05, 0x00, 0x04, 0x30]
      case Sha512 => [0x30, 0x51, 0x30, 0x0d, 0x06, 0x09, 0x60, 0x86, 0x48, 0x01, 0x65, 0x03, 0x04, 0x02, 0x03, 0x05, 0x00, 0x04, 0x40]
    }
  }

  // ---- DER (section 9.2 of RFC 8017, note 1) -----------------------------------------------

  /** A DER value with a short-form length. */
  function Tlv(tag: Byte, body: seq<Byte>): seq<Byte>
    requires |body| < 128
  {
    [tag, |body|] + body
  }

  /** The leading base-128 digits of an object identifier component. */
  function High(n: nat): seq<Byte>
  {
    if n == 0 then [] else High(n / 128) + [128 + n % 128]
  }

  function Component(n: nat): seq<Byte>
  {
    High(n / 128) + [n % 128]
  }

  /** 2.16.840.1.101.3.4.2.n, the first two components in one. */
  function HashOid(n: nat): seq<Byte>
  {
    Component(40 * 2 + 16) + Component(840) + Component(1) + Component(101) +
    Component(3) + Component(4) + Component(2) + Component(n)
  }

  lemma SmallComponent(n: nat)
    requires n < 128
    ensures Component(n) == [n]
  {
  }

  lemma OidIs(n: nat)
    requires n < 128
    ensures HashOid(n) == [0x60, 0x86, 0x48, 0x01, 0x65, 0x03, 0x04, 0x02, n]
  {
    assert High(6) == [0x86];
    assert Component(840) == [0x86, 0x48];
    hide Component, High;
    SmallComponent(96);
    SmallComponent(1);
    SmallComponent(101);
    SmallComponent(3);
    SmallComponent(4);
    SmallComponent(2);
    SmallComponent(n);
  }

  /** The last component of the hash's identifier in section B.1 of RFC 8017. */
  function OidNumber(hash: HashId): (n: nat)
    ensures n < 128
  {
    match hash case Sha256 => 1 case Sha384 => 2 case Sha512 => 3
  }

  lemma Framed(oid: seq<Byte>, digest: seq<Byte>)
    requires |oid| == 9 && |digest| <= 64
    ensures Tlv(0x30, Tlv(0x30, Tlv(6, oid) + Tlv(5, [])) + Tlv(4, digest)) ==
            [0x30, 17 + |digest|, 0x30, 13, 6, 9] + oid + [5, 0, 4, |digest|] + digest
  {
    var alg := Tlv(6, oid) + Tlv(5, []);
    assert alg == [6, 9] + oid + [5, 0];
    assert Tlv(0x30, alg) == [0x30, 13] + alg;
  }

  /** The prefix and a digest are the DER of DigestInfo: the algorithm with null parameters, and the digest. */
  lemma DigestInfoIs(hash: HashId, digest: seq<Byte>)
    requires |digest| == hash.DigestLen()
    ensures var oid := HashOid(OidNumber(hash));
            && |oid| == 9
            && hash.DigestInfoPrefix() + digest == Tlv(0x30, Tlv(0x30, Tlv(6, oid) + Tlv(5, [])) + Tlv(4, digest))
  {
    hide HashOid, Tlv, HashId.DigestInfoPrefix;
    var oid := HashOid(OidNumber(hash));
    OidIs(OidNumber(hash));
    PrefixIs(hash, oid);
    Framed(oid, digest);
  }

  lemma PrefixIs(hash: HashId, oid: seq<Byte>)
    requires oid == [0x60, 0x86, 0x48, 0x01, 0x65, 0x03, 0x04, 0x02, OidNumber(hash)]
    ensures hash.DigestInfoPrefix() == [0x30, 17 + hash.DigestLen(), 0x30, 13, 6, 9] + oid + [5, 0, 4, hash.DigestLen()]
  {
    match hash
    case Sha256 =>
    case Sha384 =>
    case Sha512 =>
  }

  /** Bytes in v without leading zeros: k of section 8.2.2 of RFC 8017 when v is the modulus. */
  function ByteLength(v: nat): nat
  {
    if v == 0 then 0 else 1 + ByteLength(v / 256)
  }

  /** EMSA-PKCS1-v1_5 (section 9.2 of RFC 8017): 00 01 FF..FF 00 T, of length k. */
  function Emsa(t: seq<Byte>, k: nat): (em: seq<Byte>)
    requires k >= |t| + 11
    ensures |em| == k
  {
    [0, 1] + seq(k - |t| - 3, _ => 0xFF) + [0] + t
  }

  /** Encode and compare with k-byte signatures. */
  predicate AcceptsAt(n: nat, e: nat, k: nat, sig: seq<Byte>, hash: HashId, digest: seq<Byte>)
    requires n > 0
  {
    var t := hash.DigestInfoPrefix() + digest;
    && |sig| == k
    && |digest| == hash.DigestLen()
    && BigEndian(sig) < n
    && k >= |t| + 11
    && Pow(BigEndian(sig), e) % n == BigEndian(Emsa(t, k))
  }

  /** RSASSA-PKCS1-v1_5 verification (section 8.2.2 of RFC 8017): k is the length of the modulus. */
  predicate Accepts(n: nat, e: nat, sig: seq<Byte>, hash: HashId, digest: seq<Byte>)
    requires n > 0
  {
    AcceptsAt(n, e, ByteLength(n), sig, hash, digest)
  }

  datatype RsaPublic = RsaPublic(md: Modulus, n: nat, exp: seq<Byte>) {
    ghost predicate Valid()
    {
      md.Valid() && n == md.n && (n > 1 ==> md.m[n - 1] != 0)
    }

    ghost function N(): (v: int)
      requires Valid()
      ensures v > 0
    {
      md.M()
    }

    ghost function E(): nat
    {
      BigEndian(exp)
    }
  }

  function DropLeadingZero(s: seq<Byte>): seq<Byte>
    requires s != []
  {
    if s[0] == 0 then s[1..] else s
  }

  lemma DropLeadingZeroValue(s: seq<Byte>)
    requires s != []
    ensures BigEndian(DropLeadingZero(s)) == BigEndian(s)
  {
    if s[0] == 0 {
      BigEndianAppend([0], s[1..]);
      assert [s[0]] + s[1..] == s;
      assert BigEndian([s[0]]) == 0 by { assert [s[0]][..0] == []; }
      assert 0 * P256(|s| - 1) == 0;
    }
  }

  /** A leading zero changes nothing of what is kept. */
  lemma KeptValue(s: seq<Byte>)
    requires s != []
    ensures BigEndian(Kept(DropLeadingZero(s))) == BigEndian(Kept(s))
  {
    hide BigEndian;
    if |s| <= 8 * MAX_LIMBS {
      DropLeadingZeroValue(s);
    } else {
      assert Kept(DropLeadingZero(s)) == Kept(s);
    }
  }

  lemma {:induction false} ZeroValue(s: seq<Byte>)
    ensures BigEndian(s) == 0 <==> forall i :: 0 <= i < |s| ==> s[i] == 0
  {
    if s != [] { ZeroValue(s[..|s| - 1]); }
  }

  /** Every byte before the last 512 is zero. */
  ghost predicate Fits(s: seq<Byte>)
  {
    forall i :: 0 <= i < |s| - 8 * MAX_LIMBS ==> s[i] == 0
  }

  /** The kept bytes have the whole value exactly when the others are zero. */
  lemma KeptWhole(s: seq<Byte>)
    ensures BigEndian(Kept(s)) == BigEndian(s) <==> Fits(s)
  {
    hide BigEndian;
    if |s| > 8 * MAX_LIMBS {
      var head := s[..|s| - 8 * MAX_LIMBS];
      assert s == head + Kept(s);
      BigEndianAppend(head, Kept(s));
      ZeroValue(head);
      if BigEndian(head) > 0 { MulLe(1, BigEndian(head), P256(|Kept(s)|)); }
      assert Fits(s) <==> forall i :: 0 <= i < |head| ==> head[i] == 0;
    }
  }

  /** The low limb decides whether a number is odd. */
  lemma LowLimbOdd(m: Big, n: nat)
    requires 1 <= n <= MAX_LIMBS
    ensures Low(m, n) % 2 == m[0] % 2
  {
    hide Val, Radix;
    LowLimb(m, n);
    var k :| Low(m, n) == m[0] + BASE * k;
  }

  /** A key from DER integers.  A modulus of more than 512 bytes keeps its low 512. */
  method New(modulusBe: seq<Byte>, expBe: seq<Byte>) returns (o: Option<RsaPublic>)
    ensures o.Some? <==>
            modulusBe != [] && expBe != [] && |expBe| <= 8 && BigEndian(Kept(modulusBe)) % 2 == 1
    ensures o.Some? ==> o.value.Valid() && o.value.N() == BigEndian(Kept(modulusBe)) && o.value.E() == BigEndian(expBe)
    ensures o.Some? ==> (o.value.N() == BigEndian(modulusBe) <==> Fits(modulusBe))
  {
    hide Val, Radix, Cong, BigEndian, Kept, Fits;
    if modulusBe == [] || expBe == [] || |expBe| > 8 { return None; }
    var mBe := DropLeadingZero(modulusBe);
    var m, n := FromBeBytes(mBe);
    KeptValue(modulusBe);
    KeptWhole(modulusBe);
    DropLeadingZeroValue(expBe);
    if n == 0 || n > MAX_LIMBS {
      EmptyKept(mBe);
      return None;
    }
    LowLimbOdd(m, n);
    var md := Moduli.New(m, n);
    if md.None? { return None; }
    return Some(RsaPublic(md.value, n, DropLeadingZero(expBe)));
  }

  lemma EmptyKept(s: seq<Byte>)
    requires s == []
    ensures BigEndian(Kept(s)) == 0
  {
  }

  lemma TopLimbLarge(a: Big, n: nat)
    requires 1 <= n <= MAX_LIMBS && a[n - 1] != 0
    ensures Low(a, n) >= Radix(n - 1)
  {
    ValPush(a, n - 1);
    hide Radix, Val;
    MulStep(Radix(n - 1), 0, a[n - 1]);
  }

  /** Comparing limb counts first, then limbs, decides Val(s) >= N. */
  lemma InRange(key: RsaPublic, s: Big, sn: nat)
    requires key.Valid() && sn <= MAX_LIMBS && ZeroAbove(s, sn) && (sn > 1 ==> s[sn - 1] != 0)
    ensures Val(s) >= key.N() <==> sn > key.n || (sn == key.n && Low(s, key.n) >= key.N())
    ensures sn <= key.n ==> Low(s, key.n) == Val(s)
  {
    var n := key.n;
    DropZeros(s, sn);
    LowBound(key.md.m, n);
    hide Val, Radix, Cong;
    if sn > n {
      TopLimbLarge(s, sn);
      RadixMono(n, sn - 1);
    } else {
      DropZeros(s, n);
      if sn < n {
        if n > 1 {
          LowBound(s, sn);
          TopLimbLarge(key.md.m, n);
          RadixMono(sn, n - 1);
        } else {
          assert s[..0] == [];
          ValZeros(s[..0]);
        }
      }
    }
  }

  /** sig^e mod N in a 512-byte buffer, or None when sig is not below N. */
  method Recover(key: RsaPublic, sig: seq<Byte>) returns (o: Option<seq<Byte>>)
    requires key.Valid()
    ensures o.None? <==> BigEndian(Kept(sig)) >= key.N()
    ensures o.Some? ==> |o.value| == 8 * MAX_LIMBS
    ensures o.Some? && !(key.N() == 1 && key.E() == 0) ==>
              o.value[..8 * key.n] == Encode(Pow(BigEndian(Kept(sig)), key.E()) % key.N(), 8 * key.n)
  {
    hide Val, Radix, Cong, Kept, BigEndian, Encode, Pow;
    var n := key.n;
    var s, sn := FromBeBytes(sig);
    InRange(key, s, sn);
    var c := Cmp(s, key.md.m, n);
    if sn > n || (sn == n && c != Less) {
      return None;
    }
    var m := PowMod(key.md, s, key.exp);
    var out := new Byte[8 * MAX_LIMBS](_ => 0);
    ToBeBytes(m, n, out);
    o := Some(out[..]);
    assert out[..8 * n] == Encode(Low(m, n), 8 * n);
  }

  /** The scan: a padding of FF bytes from index 2, then 00, then exactly t. */
  ghost predicate Scan(em: seq<Byte>, k: nat, t: seq<Byte>, i: nat)
    requires k <= |em|
  {
    && 10 <= i < k && em[0] == 0 && em[1] == 1
    && (forall j :: 2 <= j < i ==> em[j] == 0xFF)
    && em[i] == 0 && k - i - 1 == |t| && em[i + 1..k] == t
  }

  lemma ScanIsEmsa(em: seq<Byte>, k: nat, t: seq<Byte>, i: nat)
    requires |t| + 11 <= k <= |em| && 2 <= i <= k
    requires forall j :: 2 <= j < i ==> em[j] == 0xFF
    requires i < k ==> em[i] != 0xFF
    ensures Scan(em, k, t, i) <==> em[..k] == Emsa(t, k)
  {
    var e := Emsa(t, k);
    var z := k - |t| - 1;
    assert e[z] == 0 && e[z + 1..] == t;
    assert forall j :: 2 <= j < z ==> e[j] == 0xFF;
    if em[..k] == e {
      assert em[z] == e[z];
      assert em[i + 1..k] == em[..k][z + 1..];
    }
    if Scan(em, k, t, i) {
      assert em[..k] == em[..i + 1] + em[i + 1..k];
    }
  }

  method CheckPadding(em: seq<Byte>, n: nat, prefix: seq<Byte>, digest: seq<Byte>) returns (ok: bool)
    requires |prefix| + |digest| + 11 <= n <= |em|
    ensures ok <==> em[..n] == Emsa(prefix + digest, n)
  {
    var tLen := |prefix| + |digest|;
    ghost var t := prefix + digest;
    if em[0] != 0 || em[1] != 1 {
      assert Emsa(t, n)[0] == 0 && Emsa(t, n)[1] == 1;
      return false;
    }
    var i := 2;
    while i < n && em[i] == 0xFF
      invariant 2 <= i <= n
      invariant forall j :: 2 <= j < i ==> em[j] == 0xFF
    {
      i := i + 1;
    }
    ScanIsEmsa(em, n, t, i);
    hide Emsa;
    if i < 10 || i >= n || em[i] != 0 { return false; }
    i := i + 1;
    if n - i != tLen { return false; }
    assert em[i..n] == em[i..i + |prefix|] + em[i + |prefix|..n];
    if em[i..i + |prefix|] != prefix {
      assert t[..|prefix|] == prefix;
      return false;
    }
    ok := em[i + |prefix|..i + |prefix| + |digest|] == digest;
    assert t[|prefix|..] == digest;
  }

  /** Comparing encodings is comparing numbers. */
  lemma EncodeCompare(v: nat, s: seq<Byte>)
    requires v < P256(|s|)
    ensures Encode(v, |s|) == s <==> v == BigEndian(s)
  {
    EncodeValue(v, |s|);
    EncodeOfValue(s);
  }

  lemma LongKey(key: RsaPublic)
    requires key.Valid() && key.n > 1
    ensures key.N() > 1
  {
    TopLimbLarge(key.md.m, key.n);
    RadixMono(1, key.n - 1);
    assert Radix(1) == BASE * Radix(0);
  }

  /** Encode and compare at the length of the limbs, which is the standard's when
      the modulus fills them. */
  method VerifyPkcs1(key: RsaPublic, sig: seq<Byte>, hash: HashId, digest: seq<Byte>) returns (ok: bool)
    requires key.Valid()
    ensures ok <==> AcceptsAt(key.N(), key.E(), 8 * key.n, sig, hash, digest)
    ensures ByteLength(key.N()) == 8 * key.n ==> (ok <==> Accepts(key.N(), key.E(), sig, hash, digest))
  {
    hide Emsa, Encode, BigEndian, Radix, Val, Pow, ByteLength, HashId.DigestInfoPrefix;
    var n := 8 * key.n;
    if |sig| != n || |digest| != hash.DigestLen() { return false; }
    var r := Recover(key, sig);
    if r.None? { return false; }
    var prefix := hash.DigestInfoPrefix();
    if n < |prefix| + |digest| + 11 { return false; }
    ok := CheckPadding(r.value, n, prefix, digest);
    LongKey(key);
    LowBound(key.md.m, key.n);
    P256Radix(key.n);
    EncodeCompare(Pow(BigEndian(sig), key.E()) % key.N(), Emsa(prefix + digest, n));
  }

  // ---- keys that do not fill their limbs ------------------------------------------------

  lemma {:induction false} ByteLengthBounds(v: nat)
    requires v > 0
    ensures ByteLength(v) > 0 && P256(ByteLength(v) - 1) <= v < P256(ByteLength(v))
  {
    if v / 256 > 0 { ByteLengthBounds(v / 256); }
  }

  lemma {:induction false} P256Mono(i: nat, j: nat)
    requires i <= j
    ensures P256(i) <= P256(j)
  {
    if i < j { P256Mono(i, j - 1); }
  }

  /** The encoding is a one followed by k - 2 bytes. */
  lemma EmsaValue(t: seq<Byte>, k: nat)
    requires k >= |t| + 11
    ensures P256(k - 2) <= BigEndian(Emsa(t, k)) < 2 * P256(k - 2)
  {
    var tail := seq(k - |t| - 3, _ => 0xFF as Byte) + [0] + t;
    assert Emsa(t, k) == [0, 1] + tail;
    assert BigEndian([0, 1]) == 1 by { assert [0, 1][..1] == [0] && [0][..0] == []; }
    hide BigEndian, P256;
    BigEndianAppend([0, 1], tail);
    BigEndianBound(tail);
  }

  /** With two bytes or more to spare, every signature is refused. */
  lemma ShortKeyRefuses(n: nat, e: nat, k: nat, sig: seq<Byte>, hash: HashId, digest: seq<Byte>)
    requires n > 0 && ByteLength(n) + 1 < k
    ensures !AcceptsAt(n, e, k, sig, hash, digest)
  {
    hide P256, BigEndian, Pow, Emsa, ByteLength, HashId.DigestInfoPrefix;
    var t := hash.DigestInfoPrefix() + digest;
    if k >= |t| + 11 {
      EmsaValue(t, k);
      ByteLengthBounds(n);
      P256Mono(ByteLength(n), k - 2);
    }
  }

  lemma LeadingZero(sig: seq<Byte>)
    requires sig != [] && BigEndian(sig) < P256(|sig| - 1)
    ensures sig[0] == 0 && BigEndian(sig[1..]) == BigEndian(sig)
  {
    assert sig == [sig[0]] + sig[1..];
    assert BigEndian([sig[0]]) == sig[0] by { assert [sig[0]][..0] == []; }
    hide BigEndian, P256;
    BigEndianAppend([sig[0]], sig[1..]);
    if sig[0] > 0 { MulLe(1, sig[0], P256(|sig| - 1)); }
  }

  /** With one byte to spare, the standard refuses whatever is accepted, with or
      without its leading zero. */
  lemma SpareByte(n: nat, e: nat, k: nat, sig: seq<Byte>, hash: HashId, digest: seq<Byte>)
    requires n > 0 && k == ByteLength(n) + 1 && AcceptsAt(n, e, k, sig, hash, digest)
    ensures sig[0] == 0 && BigEndian(sig[1..]) == BigEndian(sig) < n
    ensures !Accepts(n, e, sig, hash, digest) && !Accepts(n, e, sig[1..], hash, digest)
  {
    hide P256, BigEndian, Pow, Emsa, ByteLength, HashId.DigestInfoPrefix;
    var t := hash.DigestInfoPrefix() + digest;
    ByteLengthBounds(n);
    LeadingZero(sig);
    EmsaValue(t, k);
    if k - 1 >= |t| + 11 {
      EmsaValue(t, k - 1);
      TwiceP256(k - 3);
    }
  }

  lemma TwiceP256(k: nat)
    ensures 2 * P256(k) <= P256(k + 1)
  {
  }

  /** With exponent 1 an encoding is its own signature, when it is below the modulus. */
  lemma OwnSignature(n: nat, k: nat, hash: HashId, digest: seq<Byte>, t: seq<Byte>)
    requires n > 0 && t == hash.DigestInfoPrefix() + digest && |digest| == hash.DigestLen() && k >= |t| + 11
    ensures AcceptsAt(n, 1, k, Emsa(t, k), hash, digest) <==> BigEndian(Emsa(t, k)) < n
  {
    hide BigEndian, Emsa, Pow, HashId.DigestInfoPrefix;
    var v := BigEndian(Emsa(t, k));
    PowOne(v, n);
  }

  lemma PowOne(v: nat, n: nat)
    requires n > 0
    ensures v < n ==> Pow(v, 1) % n == v
  {
    assert Pow(v, 1) == v * Pow(v, 0);
  }

  /** A signature only the standard accepts: any modulus that does not fill its limbs has one. */
  lemma OnlyTheStandard(n: nat, k: nat, hash: HashId, digest: seq<Byte>, t: seq<Byte>)
    requires n > 0 && t == hash.DigestInfoPrefix() + digest && |digest| == hash.DigestLen()
    requires ByteLength(n) >= |t| + 11 && k != ByteLength(n)
    ensures Accepts(n, 1, Emsa(t, ByteLength(n)), hash, digest)
    ensures !AcceptsAt(n, 1, k, Emsa(t, ByteLength(n)), hash, digest)
  {
    hide BigEndian, Emsa, Pow, P256, ByteLength, HashId.DigestInfoPrefix;
    var b := ByteLength(n);
    OwnSignature(n, b, hash, digest, t);
    EmsaValue(t, b);
    TwiceP256(b - 2);
    ByteLengthBounds(n);
  }

  /** A signature only the code accepts: one spare byte, and a modulus of 2^(8k - 15) or more. */
  lemma OnlyTheCode(n: nat, k: nat, hash: HashId, digest: seq<Byte>, t: seq<Byte>)
    requires n > 0 && t == hash.DigestInfoPrefix() + digest && |digest| == hash.DigestLen()
    requires k == ByteLength(n) + 1 >= |t| + 11 && 2 * P256(k - 2) <= n
    ensures AcceptsAt(n, 1, k, Emsa(t, k), hash, digest) && !Accepts(n, 1, Emsa(t, k), hash, digest)
  {
    hide BigEndian, Emsa, Pow, P256, ByteLength, HashId.DigestInfoPrefix;
    OwnSignature(n, k, hash, digest, t);
    EmsaValue(t, k);
  }
}
