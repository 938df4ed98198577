/** kernel/src/crypto/aes.rs:166-299: GCM over any block cipher. */
module Gcm {
  import opened Gf128
  import Octets
  import opened RawBytes
  import opened Wrappers

  /** Aes::new(key): nothing for a key of the wrong length. */
  type Cipher = Option<Block -> Block>

  // ---- GHASH ---------------------------------------------------------------------------------

  function FirstBlock(data: Bytes): Block
    requires |data| >= 16
  {
    data[..16]
  }

  /** y after the whole blocks of data. */
  function Ghash(h: Block, y: Block, data: Bytes): Block
    decreases |data|
  {
    if |data| < 16 then y else Ghash(h, GfMul(Xor(y, FirstBlock(data)), h), data[16..])
  }

  /** data and zeros up to a whole number of blocks. */
  function Padded(data: Bytes): (r: Bytes)
    ensures |r| % 16 == 0 && |data| <= |r| < |data| + 16
    ensures r[..|data|] == data && forall i :: |data| <= i < |r| ==> r[i] == 0
  {
    if |data| % 16 == 0 then data else data + Zeros(16 - |data| % 16)
  }

  lemma {:induction false} GhashAppend(h: Block, y: Block, a: Bytes, b: Bytes)
    requires |a| % 16 == 0
    ensures Ghash(h, y, a + b) == Ghash(h, Ghash(h, y, a), b)
    decreases |a|
  {
    hide GfMul, Xor;
    if a == [] {
      assert a + b == b;
    } else {
      assert (a + b)[..16] == a[..16] && (a + b)[16..] == a[16..] + b;
      GhashAppend(h, GfMul(Xor(y, FirstBlock(a)), h), a[16..], b);
    }
  }

  /** x times h, k times over. */
  function Times(x: Block, h: Block, k: nat): Block
  {
    if k == 0 then x else GfMul(Times(x, h, k - 1), h)
  }

  /** X1 h^m + X2 h^(m-1) + .. + Xm h for the whole blocks of data (section 6.4 of NIST SP 800-38D). */
  function Terms(h: Block, data: Bytes): Block
    decreases |data|
  {
    if |data| < 16 then ZERO else Xor(Times(FirstBlock(data), h, |data| / 16), Terms(h, data[16..]))
  }

  lemma {:induction false} TimesNext(x: Block, h: Block, k: nat)
    ensures Times(GfMul(x, h), h, k) == Times(x, h, k + 1)
  {
    hide GfMul;
    if k > 0 { TimesNext(x, h, k - 1); }
  }

  lemma {:induction false} TimesXor(a: Block, b: Block, h: Block, k: nat)
    ensures Times(Xor(a, b), h, k) == Xor(Times(a, h, k), Times(b, h, k))
  {
    hide GfMul, Xor;
    if k > 0 {
      TimesXor(a, b, h, k - 1);
      GfMulXor(Times(a, h, k - 1), Times(b, h, k - 1), h);
    }
  }

  /** The hash is the polynomial in h whose coefficients are the blocks. */
  lemma {:induction false} GhashIs(h: Block, y: Block, data: Bytes)
    ensures Ghash(h, y, data) == Xor(Times(y, h, |data| / 16), Terms(h, data))
    decreases |data|
  {
    hide GfMul, Xor, Times;
    if |data| < 16 {
      assert |data| / 16 == 0;
      TimesNone(y, h);
      XorZero(y);
    } else {
      var x, rest, m := FirstBlock(data), data[16..], |data| / 16;
      assert |rest| / 16 == m - 1;
      GhashIs(h, GfMul(Xor(y, x), h), rest);
      TimesNext(Xor(y, x), h, m - 1);
      TimesXor(y, x, h, m);
      XorShuffles(Times(y, h, m), Times(x, h, m), Terms(h, rest));
    }
  }

  lemma TimesNone(y: Block, h: Block)
    ensures Times(y, h, 0) == y
  {
  }

  /** Hashing the whole blocks and then the padded rest hashes the padded string. */
  lemma GhashPieces(h: Block, y: Block, data: Bytes)
    ensures var rem := |data| % 16;
            Ghash(h, y, Padded(data)) ==
            if rem == 0 then Ghash(h, y, data)
            else Ghash(h, Ghash(h, y, data), data[|data| - rem..] + Zeros(16 - rem))
  {
    hide GfMul, Xor;
    var rem := |data| % 16;
    if rem != 0 {
      var whole, tail := data[..|data| - rem], data[|data| - rem..];
      GhashAppend(h, y, whole, tail);
      assert whole + tail == data;
      GhashAppend(h, y, whole, tail + Zeros(16 - rem));
      assert whole + (tail + Zeros(16 - rem)) == Padded(data);
    }
  }

  method GhashInto(h: Block, data: Bytes, y: array<Byte>)
    requires y.Length == 16
    modifies y
    ensures y[..] == Ghash(h, old(y[..]), data)
  {
    hide GfMul, Xor;
    var i := 0;
    assert data[0..] == data;
    while i + 16 <= |data|
      invariant 0 <= i <= |data|
      invariant Ghash(h, old(y[..]), data) == Ghash(h, y[..], data[i..])
    {
      assert data[i..][..16] == data[i..i + 16] && data[i..][16..] == data[i + 16..];
      XorInto(y, data[i..i + 16]);
      Multiply(y, h);
      i := i + 16;
    }
  }

  // ---- the tag -------------------------------------------------------------------------------

  function Lengths(aad: Bytes, ct: Bytes): Block
  {
    BigEndian(8 * |aad|, 8) + BigEndian(8 * |ct|, 8)
  }

  const TWO64: nat := 0x1_0000_0000_0000_0000

  /** The last block carries the two lengths in bits, each modulo 2^64. */
  lemma LengthsAre(aad: Bytes, ct: Bytes)
    ensures Value(Lengths(aad, ct)[..8]) == 8 * |aad| % TWO64 && Value(Lengths(aad, ct)[8..]) == 8 * |ct| % TWO64
  {
    ValueIs(8 * |aad|, 8);
    ValueIs(8 * |ct|, 8);
    Power64();
    hide BigEndian, Value, Octets.P256;
    assert Lengths(aad, ct)[..8] == BigEndian(8 * |aad|, 8) && Lengths(aad, ct)[8..] == BigEndian(8 * |ct|, 8);
  }

  lemma Power64()
    ensures Octets.P256(8) == TWO64
  {
    assert Octets.P256(4) == 0x1_0000_0000;
    hide Octets.P256;
    Octets.P256Add(4, 4);
  }

  /** The string that the tag authenticates (section 7.1 of NIST SP 800-38D). */
  function Authenticated(aad: Bytes, ct: Bytes): (w: Bytes)
    ensures |w| >= 16
  {
    Padded(aad) + Padded(ct) + Lengths(aad, ct)
  }

  /** It is the two padded strings and the one block whose halves read as the lengths in bits. */
  lemma AuthenticatedIs(aad: Bytes, ct: Bytes, l: Block)
    requires Value(l[..8]) == 8 * |aad| % TWO64 && Value(l[8..]) == 8 * |ct| % TWO64
    ensures Authenticated(aad, ct) == Padded(aad) + Padded(ct) + l
  {
    LengthsAre(aad, ct);
    hide Value, Lengths, Padded;
    var m := Lengths(aad, ct);
    ValueInjective(l[..8], m[..8]);
    ValueInjective(l[8..], m[8..]);
    assert l == l[..8] + l[8..] && m == m[..8] + m[8..];
  }

  lemma PaddedLength(x: Bytes, y: Bytes)
    requires |x| == |y|
    ensures |Padded(x)| == |Padded(y)|
  {
  }

  lemma LengthsTell(a: Bytes, c: Bytes, a': Bytes, c': Bytes)
    requires 8 * |a| < TWO64 && 8 * |c| < TWO64 && 8 * |a'| < TWO64 && 8 * |c'| < TWO64
    requires Lengths(a, c) == Lengths(a', c')
    ensures |a| == |a'| && |c| == |c'|
  {
    hide Lengths, Value;
    LengthsAre(a, c);
    LengthsAre(a', c');
    SameMod(8 * |a|, 8 * |a'|, TWO64);
    SameMod(8 * |c|, 8 * |c'|, TWO64);
  }

  lemma SameMod(x: nat, y: nat, m: nat)
    requires x < m && y < m && x % m == y % m
    ensures x == y
  {
  }

  lemma Parts(x: Bytes, y: Bytes, l: Bytes)
    ensures var w := x + y + l; w[..|x|] == x && w[|x|..|x| + |y|] == y && w[|x| + |y|..] == l
  {
  }

  /** Data and ciphertext short of 2^61 bytes are fixed by the string authenticated. */
  lemma AuthenticatedInjective(a: Bytes, c: Bytes, a': Bytes, c': Bytes)
    requires 8 * |a| < TWO64 && 8 * |c| < TWO64 && 8 * |a'| < TWO64 && 8 * |c'| < TWO64
    requires Authenticated(a, c) == Authenticated(a', c')
    ensures a == a' && c == c'
  {
    hide Value, Lengths, Padded;
    var w := Authenticated(a, c);
    var l, m := Lengths(a, c), Lengths(a', c');
    assert w[|w| - 16..] == l && w[|w| - 16..] == m;
    LengthsTell(a, c, a', c');
    PaddedLength(a, a');
    PaddedLength(c, c');
    Parts(Padded(a), Padded(c), l);
    Parts(Padded(a'), Padded(c'), m);
    assert Padded(a)[..|a|] == a && Padded(a')[..|a'|] == a';
    assert Padded(c)[..|c|] == c && Padded(c')[..|c'|] == c';
  }

  function J0(iv: Bytes): Block
    requires |iv| == 12
  {
    iv + [0, 0, 0, 1]
  }

  function Tag(e: Block -> Block, iv: Bytes, aad: Bytes, ct: Bytes): Block
    requires |iv| == 12
  {
    Xor(Ghash(e(ZERO), ZERO, Authenticated(aad, ct)), e(J0(iv)))
  }

  lemma GhashThree(h: Block, aad: Bytes, ct: Bytes)
    ensures Ghash(h, ZERO, Authenticated(aad, ct)) ==
            Ghash(h, Ghash(h, Ghash(h, ZERO, Padded(aad)), Padded(ct)), Lengths(aad, ct))
  {
    hide GfMul, Xor, Ghash, Lengths, Padded;
    GhashAppend(h, ZERO, Padded(aad), Padded(ct));
    GhashAppend(h, ZERO, Padded(aad) + Padded(ct), Lengths(aad, ct));
  }

  /** Feeds data to the hash, its last partial block padded. */
  method GhashPadded(h: Block, data: Bytes, y: array<Byte>)
    requires y.Length == 16
    modifies y
    ensures y[..] == Ghash(h, old(y[..]), Padded(data))
  {
    hide GfMul, Xor, Ghash;
    GhashPieces(h, y[..], data);
    GhashInto(h, data, y);
    var rem := |data| % 16;
    if rem != 0 { GhashInto(h, data[|data| - rem..] + Zeros(16 - rem), y); }
  }

  method ComputeTag(c: Cipher, iv: Bytes, aad: Bytes, ct: Bytes) returns (r: Option<Block>)
    ensures r.Some? <==> |iv| == 12 && c.Some?
    ensures r.Some? ==> r.value == Tag(c.value, iv, aad, ct)
  {
    hide GfMul, Ghash, Padded, Lengths, Xor;
    if |iv| != 12 { return None; }
    if c.None? { return None; }
    var e := c.value;
    var h := e(ZERO);
    var y := new Byte[16](_ => 0);
    assert y[..] == ZERO;
    GhashThree(h, aad, ct);
    GhashPadded(h, aad, y);
    GhashPadded(h, ct, y);
    GhashInto(h, Lengths(aad, ct), y);
    XorInto(y, e(J0(iv)));
    return Some(y[..]);
  }

  // ---- counters ------------------------------------------------------------------------------

  /** The last four bytes as a big-endian number. */
  function Counter(b: Block): nat
  {
    Number(ValueOf(b[12]), ValueOf(b[13]), ValueOf(b[14]), ValueOf(b[15]))
  }

  function Inc32(b: Block): Block
  {
    if b[15] != 0xff then b[15 := b[15] + 1]
    else if b[14] != 0xff then b[15 := 0][14 := b[14] + 1]
    else if b[13] != 0xff then b[15 := 0][14 := 0][13 := b[13] + 1]
    else b[15 := 0][14 := 0][13 := 0][12 := b[12] + 1]
  }

  lemma IncKeepsIv(b: Block)
    ensures Inc32(b)[..12] == b[..12]
  {
  }

  function Number(a: nat, b: nat, c: nat, d: nat): nat
  {
    0x1000000 * a + 0x10000 * b + 0x100 * c + d
  }

  /** A four-digit number in base 256, one more. */
  lemma Carry(a: nat, b: nat, c: nat, d: nat)
    requires a < 256 && b < 256 && c < 256 && d < 256
    ensures (Number(a, b, c, d) + 1) % 0x100000000 ==
            if d != 255 then Number(a, b, c, d + 1)
            else if c != 255 then Number(a, b, c + 1, 0)
            else if b != 255 then Number(a, b + 1, 0, 0)
            else if a != 255 then Number(a + 1, 0, 0, 0) else 0
  {
  }

  lemma IncCounts(b: Block)
    ensures Counter(Inc32(b)) == (Counter(b) + 1) % 0x100000000
  {
    hide ValueOf, Number;
    NextByte(b[12]);
    NextByte(b[13]);
    NextByte(b[14]);
    NextByte(b[15]);
    Carry(ValueOf(b[12]), ValueOf(b[13]), ValueOf(b[14]), ValueOf(b[15]));
    NumberZero();
  }

  lemma NumberZero()
    ensures Number(0, 0, 0, 0) == 0
  {
  }

  /** Adds one at byte i and carries towards byte 12. */
  function IncFrom(b: Block, i: nat): Block
    requires 11 <= i <= 15
    decreases i
  {
    if i == 11 then b
    else
      var c := b[i := b[i] + 1];
      if c[i] != 0 then c else IncFrom(c, i - 1)
  }

  lemma IncFromIs(b: Block)
    ensures IncFrom(b, 15) == Inc32(b)
  {
    NotFull(b[15]);
    NotFull(b[14]);
    NotFull(b[13]);
    NotFull(b[12]);
    var c := b[15 := b[15] + 1];
    var d := c[14 := c[14] + 1];
    var e := d[13 := d[13] + 1];
    var f := e[12 := e[12] + 1];
    assert IncFrom(e, 12) == f;
    assert IncFrom(d, 13) == if e[13] != 0 then e else IncFrom(e, 12);
    assert IncFrom(c, 14) == if d[14] != 0 then d else IncFrom(d, 13);
  }

  lemma NotFull(b: Byte)
    ensures b + 1 == 0 <==> b == 0xff
  {
  }

  method Increment(b: array<Byte>)
    requires b.Length == 16
    modifies b
    ensures b[..] == Inc32(old(b[..]))
  {
    hide Inc32;
    IncFromIs(b[..]);
    var i: nat := 15;
    while i >= 12
      invariant 11 <= i <= 15
      invariant IncFrom(b[..], i) == Inc32(old(b[..]))
    {
      ghost var was := b[..];
      b[i] := b[i] + 1;
      assert b[..] == was[i := was[i] + 1];
      if b[i] != 0 { return; }
      i := i - 1;
    }
  }

  /** The counter block of keystream block i. */
  function CounterBlock(iv: Bytes, i: nat): Block
    requires |iv| == 12
  {
    if i == 0 then Inc32(J0(iv)) else Inc32(CounterBlock(iv, i - 1))
  }

  lemma {:induction false} CounterIs(iv: Bytes, i: nat)
    requires |iv| == 12
    ensures CounterBlock(iv, i)[..12] == iv && Counter(CounterBlock(iv, i)) == (i + 2) % 0x100000000
  {
    hide Inc32, Counter;
    if i == 0 {
      FirstCounter(iv);
      IncCounts(J0(iv));
      IncKeepsIv(J0(iv));
    } else {
      CounterIs(iv, i - 1);
      IncCounts(CounterBlock(iv, i - 1));
      IncKeepsIv(CounterBlock(iv, i - 1));
    }
  }

  lemma FirstCounter(iv: Bytes)
    requires |iv| == 12
    ensures Counter(J0(iv)) == 1 && J0(iv)[..12] == iv
  {
    assert ValueOf(0) == 0 && ValueOf(1) == 1;
  }

  /** No counter block comes twice in 2^32 blocks, and none of the first 2^32 - 1 is the one that masks the tag. */
  lemma CountersDistinct(iv: Bytes, i: nat, j: nat)
    requires |iv| == 12 && i < j < 0x100000000
    ensures CounterBlock(iv, i) != CounterBlock(iv, j)
    ensures j < 0xffffffff ==> CounterBlock(iv, j) != J0(iv) && CounterBlock(iv, i) != J0(iv)
  {
    hide CounterBlock, Counter;
    CounterIs(iv, i);
    CounterIs(iv, j);
    FirstCounter(iv);
  }

  // ---- counter mode --------------------------------------------------------------------------

  function Stream(e: Block -> Block, iv: Bytes, j: nat): Byte
    requires |iv| == 12
  {
    e(CounterBlock(iv, j / 16))[j % 16]
  }

  function Gctr(e: Block -> Block, iv: Bytes, data: Bytes): (r: Bytes)
    requires |iv| == 12
    ensures |r| == |data|
  {
    seq(|data|, j requires 0 <= j < |data| => data[j] ^ Stream(e, iv, j))
  }

  lemma GctrTwice(e: Block -> Block, iv: Bytes, data: Bytes)
    requires |iv| == 12
    ensures Gctr(e, iv, Gctr(e, iv, data)) == data
  {
    hide Stream;
    forall j | 0 <= j < |data| ensures (data[j] ^ Stream(e, iv, j)) ^ Stream(e, iv, j) == data[j] {
      XorTwice(data[j], Stream(e, iv, j));
    }
  }

  lemma XorTwice(a: Byte, b: Byte)
    ensures (a ^ b) ^ b == a
  {
  }

  method CounterMode(c: Cipher, iv: Bytes, data: Bytes, out: array<Byte>)
    requires |iv| == 12 && |data| <= out.Length
    modifies out
    ensures c.Some? ==> out[..|data|] == Gctr(c.value, iv, data)
    ensures forall j :: |data| <= j < out.Length ==> out[j] == old(out[j])
    ensures c.None? ==> out[..] == old(out[..])
  {
    hide Inc32, CounterBlock;
    if c.None? { return; }
    var e := c.value;
    var j0 := J0(iv);
    var ctr := new Byte[16](k requires 0 <= k < 16 => j0[k]);
    assert ctr[..] == j0;
    Increment(ctr);
    CounterStep(iv, 0);
    var i: nat := 0;
    while 16 * i < |data|
      invariant ctr[..] == CounterBlock(iv, i)
      invariant forall j :: 0 <= j < |data| && j < 16 * i ==> out[j] == data[j] ^ Stream(e, iv, j)
      invariant forall j :: |data| <= j < out.Length ==> out[j] == old(out[j])
    {
      var n := if |data| - 16 * i <= 16 then |data| - 16 * i else 16;
      MixBlock(e(ctr[..]), data, out, 16 * i, n);
      forall j | 16 * i <= j < 16 * i + n ensures out[j] == data[j] ^ Stream(e, iv, j) {
        assert j / 16 == i && j % 16 == j - 16 * i;
      }
      CounterStep(iv, i + 1);
      Increment(ctr);
      i := i + 1;
    }
    assert forall j :: 0 <= j < |data| ==> out[j] == data[j] ^ Stream(e, iv, j);
  }

  lemma CounterStep(iv: Bytes, i: nat)
    requires |iv| == 12
    ensures CounterBlock(iv, i) == if i == 0 then Inc32(J0(iv)) else Inc32(CounterBlock(iv, i - 1))
  {
  }

  /** out[at..at+n] = data[at..at+n] ^ ks. */
  method MixBlock(ks: Block, data: Bytes, out: array<Byte>, at: nat, n: nat)
    requires n <= 16 && at + n <= |data| <= out.Length
    modifies out
    ensures forall j :: at <= j < at + n ==> out[j] == data[j] ^ ks[j - at]
    ensures forall j :: 0 <= j < at || at + n <= j < out.Length ==> out[j] == old(out[j])
  {
    var k := 0;
    while k < n
      invariant 0 <= k <= n
      invariant forall j :: at <= j < at + k ==> out[j] == data[j] ^ ks[j - at]
      invariant forall j :: 0 <= j < at || at + k <= j < out.Length ==> out[j] == old(out[j])
    {
      out[at + k] := data[at + k] ^ ks[k];
      k := k + 1;
    }
  }

  // ---- authenticated encryption --------------------------------------------------------------

  function Seal(e: Block -> Block, iv: Bytes, aad: Bytes, data: Bytes): Bytes
    requires |iv| == 12
  {
    var ct := Gctr(e, iv, data);
    ct + Tag(e, iv, aad, ct)
  }

  function Open(e: Block -> Block, iv: Bytes, aad: Bytes, data: Bytes): Option<Bytes>
    requires |iv| == 12
  {
    if |data| < 16 then None
    else
      var ct := data[..|data| - 16];
      if data[|data| - 16..] == Tag(e, iv, aad, ct) then Some(Gctr(e, iv, ct)) else None
  }

  /** Decryption undoes encryption, for every block function. */
  lemma OpenSeal(e: Block -> Block, iv: Bytes, aad: Bytes, data: Bytes)
    requires |iv| == 12
    ensures Open(e, iv, aad, Seal(e, iv, aad, data)) == Some(data)
  {
    hide Gctr, Tag;
    var ct := Gctr(e, iv, data);
    var sealed := Seal(e, iv, aad, data);
    assert sealed[..|sealed| - 16] == ct && sealed[|sealed| - 16..] == Tag(e, iv, aad, ct);
    GctrTwice(e, iv, data);
  }

  method Encrypt(c: Cipher, iv: Bytes, aad: Bytes, data: Bytes, out: array<Byte>) returns (ok: bool)
    modifies out
    ensures ok <==> out.Length >= |data| + 16 && |iv| == 12 && c.Some?
    ensures ok ==> out[..|data| + 16] == Seal(c.value, iv, aad, data)
    ensures forall j :: |data| + 16 <= j < out.Length ==> out[j] == old(out[j])
    ensures !ok ==> out[..] == old(out[..])
  {
    hide Gctr, Tag;
    if out.Length < |data| + 16 || |iv| != 12 || c.None? { return false; }
    CounterMode(c, iv, data, out);
    var tag := ComputeTag(c, iv, aad, out[..|data|]);
    if tag.None? { return; }
    ghost var ct := out[..|data|];
    PutTag(out, |data|, tag.value);
    assert out[..|data| + 16] == ct + tag.value;
    return true;
  }

  method PutTag(out: array<Byte>, at: nat, tag: Block)
    requires at + 16 <= out.Length
    modifies out
    ensures out[..at] == old(out[..at]) && out[at..at + 16] == tag
    ensures forall j :: at + 16 <= j < out.Length ==> out[j] == old(out[j])
  {
    var k := 0;
    while k < 16
      invariant 0 <= k <= 16
      invariant forall j :: 0 <= j < at || at + 16 <= j < out.Length ==> out[j] == old(out[j])
      invariant forall j :: 0 <= j < k ==> out[at + j] == tag[j]
    {
      out[at + k] := tag[k];
      k := k + 1;
    }
  }

  /** Compares without stopping at the first difference. */
  method SameTag(a: Block, b: Block) returns (same: bool)
    ensures same <==> a == b
  {
    var diff: Byte := 0;
    var k := 0;
    while k < 16
      invariant 0 <= k <= 16
      invariant diff == 0 <==> forall j :: 0 <= j < k ==> a[j] == b[j]
    {
      NoDifference(diff, a[k], b[k]);
      diff := diff | (a[k] ^ b[k]);
      k := k + 1;
    }
    return diff == 0;
  }

  lemma NoDifference(d: Byte, a: Byte, b: Byte)
    ensures d | (a ^ b) == 0 <==> d == 0 && a == b
  {
  }

  method Decrypt(c: Cipher, iv: Bytes, aad: Bytes, data: Bytes, out: array<Byte>) returns (r: Option<nat>)
    modifies out
    ensures r.Some? <==> |iv| == 12 && c.Some? && |data| >= 16 && out.Length >= |data| - 16
                         && Open(c.value, iv, aad, data).Some?
    ensures r.Some? ==> r.value == |data| - 16 && Open(c.value, iv, aad, data) == Some(out[..r.value])
    ensures r.Some? ==> forall j :: r.value <= j < out.Length ==> out[j] == old(out[j])
    ensures r.None? ==> out[..] == old(out[..])
  {
    hide Gctr, Tag;
    if |data| < 16 || out.Length < |data| - 16 || |iv| != 12 { return None; }
    var ct, tag := data[..|data| - 16], data[|data| - 16..];
    var expected := ComputeTag(c, iv, aad, ct);
    if expected.None? { return None; }
    var same := SameTag(expected.value, tag);
    if !same { return None; }
    CounterMode(c, iv, ct, out);
    return Some(|ct|);
  }
}
