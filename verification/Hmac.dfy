/** kernel/src/crypto/hmac.rs:16-50: HMAC over the streaming hash. */
module Hmac {
  import opened Hash
  import opened RawBytes

  const BLOCK: nat := 64

  ghost predicate Suitable(alg: Algorithm)
  {
    alg.Valid() && alg.block == BLOCK
  }

  lemma DigestLength(alg: Algorithm, msg: Bytes)
    requires Suitable(alg)
    ensures |Digest(alg, msg)| == 32
  {
    hide Fold, Padding, Words;
    WordsLength(Fold(alg, alg.start, msg + Padding(alg, |msg|)), 4);
  }

  /** The key brought to one block. */
  ghost function BlockKey(alg: Algorithm, key: Bytes): (k: Bytes)
    requires Suitable(alg)
    ensures |k| == BLOCK
  {
    if |key| > BLOCK then
      DigestLength(alg, key);
      Digest(alg, key) + Zeros(32)
    else key + Zeros(BLOCK - |key|)
  }

  function XorEach(k: Bytes, b: Byte): (r: Bytes)
    ensures |r| == |k|
  {
    seq(|k|, i requires 0 <= i < |k| => b ^ k[i])
  }

  /** Section 2 of RFC 2104. */
  ghost function Mac(alg: Algorithm, key: Bytes, data: Bytes): Bytes
    requires Suitable(alg)
  {
    var k := BlockKey(alg, key);
    Digest(alg, XorEach(k, 0x5c) + Digest(alg, XorEach(k, 0x36) + data))
  }

  method MakeKey(alg: Algorithm, key: Bytes) returns (k: Bytes)
    requires Suitable(alg)
    ensures k == BlockKey(alg, key)
  {
    hide Digest;
    if |key| > BLOCK {
      var hashed := HashParts(alg, [key]);
      One(key);
      k := hashed + Zeros(32);
    } else {
      k := key + Zeros(BLOCK - |key|);
    }
  }

  lemma One(x: Bytes)
    ensures Concat([x]) == x
  {
    assert [x][..0] == [];
  }

  /** One pad, byte by byte. */
  method MakePad(k: Bytes, b: Byte) returns (pad: Bytes)
    requires |k| == BLOCK
    ensures pad == XorEach(k, b)
  {
    var buf := new Byte[BLOCK](_ => b);
    var i := 0;
    while i < BLOCK
      invariant 0 <= i <= BLOCK
      invariant forall j :: 0 <= j < i ==> buf[j] == b ^ k[j]
      invariant forall j :: i <= j < BLOCK ==> buf[j] == b
    {
      buf[i] := buf[i] ^ k[i];
      i := i + 1;
    }
    pad := buf[..];
  }

  method Inner(alg: Algorithm, ipad: Bytes, parts: seq<Bytes>) returns (ih: Bytes)
    requires alg.Valid()
    ensures ih == Digest(alg, ipad + Concat(parts))
  {
    hide Digest, Hasher.Holds;
    var inner := new Hasher(alg);
    inner.Update(ipad);
    var i := 0;
    assert ipad + Concat(parts[..0]) == ipad;
    while i < |parts|
      invariant 0 <= i <= |parts| && inner.Valid() && inner.alg == alg && inner.msg == ipad + Concat(parts[..i])
      invariant fresh(inner) && fresh(inner.buf)
    {
      assert parts[..i + 1][..i] == parts[..i];
      assert (ipad + Concat(parts[..i])) + parts[i] == ipad + Concat(parts[..i + 1]);
      inner.Update(parts[i]);
      i := i + 1;
    }
    assert parts[..|parts|] == parts;
    ih := inner.Finish();
  }

  /** The code depends on the parts only through their concatenation, and is the HMAC of it. */
  method MacParts(alg: Algorithm, key: Bytes, parts: seq<Bytes>) returns (mac: Bytes)
    requires Suitable(alg)
    ensures mac == Mac(alg, key, Concat(parts))
  {
    hide Digest, Concat, XorEach, BlockKey;
    var k := MakeKey(alg, key);
    var ipad := MakePad(k, 0x36);
    var opad := MakePad(k, 0x5c);
    var ih := Inner(alg, ipad, parts);
    var outer := new Hasher(alg);
    outer.Update(opad);
    outer.Update(ih);
    assert outer.msg == opad + ih;
    mac := outer.Finish();
  }
}
