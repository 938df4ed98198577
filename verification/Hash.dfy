/** kernel/src/sha256.rs and kernel/src/crypto/sha512.rs: the streaming hash, over any compression function. */
module Hash {
  import opened Arith
  import Octets
  import opened RawBytes

  type State = s: seq<nat> | |s| == 8 witness [0, 0, 0, 0, 0, 0, 0, 0]

  /** Block and length-field sizes in bytes, the initial state and the compression function. */
  datatype Algorithm = Algorithm(block: nat, field: nat, start: State, compress: (State, Bytes) -> State) {
    /** SHA-256, or SHA-384 and SHA-512. */
    predicate Valid()
    {
      (block == 64 && field == 8) || (block == 128 && field == 16)
    }
  }

  // ---- the standard's padding and fold -------------------------------------------------------

  /** The bytes the standard appends: a one bit, zeros, and the length in bits. */
  function Padding(alg: Algorithm, n: nat): Bytes
    requires alg.Valid()
  {
    var zeros := (alg.block - (n + 1 + alg.field) % alg.block) % alg.block;
    [0x80] + Zeros(zeros) + BigEndian(8 * n, alg.field)
  }

  /** The state after the whole blocks of data. */
  function Fold(alg: Algorithm, h: State, data: Bytes): State
    requires alg.Valid()
    decreases |data|
  {
    if |data| < alg.block then h else Fold(alg, alg.compress(h, data[..alg.block]), data[alg.block..])
  }

  function Words(h: seq<nat>, k: nat): Bytes
  {
    if h == [] then [] else Words(h[..|h| - 1], k) + BigEndian(h[|h| - 1], k)
  }

  /** Sections 5.1 and 6 of FIPS 180-4. */
  function Digest(alg: Algorithm, msg: Bytes): Bytes
    requires alg.Valid()
  {
    Words(Fold(alg, alg.start, msg + Padding(alg, |msg|)), alg.block / 16)
  }

  lemma PaddingFills(alg: Algorithm, n: nat)
    requires alg.Valid()
    ensures (n + |Padding(alg, n)|) % alg.block == 0
  {
    var y := n + 1 + alg.field;
    hide BigEndian;
    RoundUp(y, alg.block);
    assert |Padding(alg, n)| == 1 + (alg.block - y % alg.block) % alg.block + alg.field;
  }

  /** A one bit, fewer than a block of zeros, and the bit count modulo 256^field as a number. */
  lemma PaddingIs(alg: Algorithm, n: nat)
    requires alg.Valid()
    ensures var p, f := Padding(alg, n), alg.field;
            && 1 + f <= |p| <= alg.block + f && p[0] == 0x80 && (forall i :: 1 <= i < |p| - f ==> p[i] == 0)
            && Value(p[|p| - f..]) == 8 * n % Octets.P256(f)
  {
    hide BigEndian, Value, Octets.P256;
    ValueIs(8 * n, alg.field);
    var p := Padding(alg, n);
    assert p[|p| - alg.field..] == BigEndian(8 * n, alg.field);
  }

  lemma RoundUp(y: nat, b: nat)
    requires b in {64, 128}
    ensures (y + (b - y % b) % b) % b == 0
  {
  }

  lemma {:induction false} FoldAppend(alg: Algorithm, h: State, a: Bytes, b: Bytes)
    requires alg.Valid() && |a| % alg.block == 0
    ensures Fold(alg, h, a + b) == Fold(alg, Fold(alg, h, a), b)
    decreases |a|
  {
    var n := alg.block;
    if a == [] {
      assert a + b == b;
    } else {
      assert |a| >= n by { AtLeastOne(|a|, n); }
      assert (a + b)[..n] == a[..n] && (a + b)[n..] == a[n..] + b;
      LessBlock(|a|, n);
      FoldAppend(alg, alg.compress(h, a[..n]), a[n..], b);
    }
  }

  lemma AtLeastOne(x: nat, n: nat)
    requires n in {64, 128} && x % n == 0 && x > 0
    ensures x >= n
  {
  }

  lemma LessBlock(x: nat, n: nat)
    requires n in {64, 128} && x >= n
    ensures (x - n) % n == x % n
  {
  }

  /** The part of msg that does not fill a block. */
  function Rest(alg: Algorithm, msg: Bytes): (r: Bytes)
    requires alg.Valid()
    ensures |r| == |msg| % alg.block
  {
    msg[|msg| - |msg| % alg.block..]
  }

  /** Bytes that stay short of a block change nothing; bytes that complete one compress it. */
  lemma Absorb(alg: Algorithm, msg: Bytes, x: Bytes)
    requires alg.Valid() && |Rest(alg, msg)| + |x| <= alg.block
    ensures var h := Fold(alg, alg.start, msg);
            Fold(alg, alg.start, msg + x) ==
            if |Rest(alg, msg)| + |x| == alg.block then alg.compress(h, Rest(alg, msg) + x) else h
  {
    hide Fold;
    var r := Rest(alg, msg);
    var whole := msg[..|msg| - |r|];
    assert msg == whole + r && msg + x == whole + (r + x);
    hide Rest;
    WholeBlocks(|msg|, alg.block);
    FoldAppend(alg, alg.start, whole, r);
    FoldAppend(alg, alg.start, whole, r + x);
    var h := Fold(alg, alg.start, whole);
    OneBlock(alg, h, r + x);
    OneBlock(alg, h, r);
  }

  lemma WholeBlocks(x: nat, n: nat)
    requires n in {64, 128}
    ensures (x - x % n) % n == 0
  {
  }

  lemma OneBlock(alg: Algorithm, h: State, x: Bytes)
    requires alg.Valid() && |x| <= alg.block
    ensures Fold(alg, h, x) == if |x| == alg.block then alg.compress(h, x) else h
  {
    if |x| == alg.block { assert x[..alg.block] == x && |x[alg.block..]| == 0; }
  }

  // ---- the streaming state -------------------------------------------------------------------

  class Hasher {
    const alg: Algorithm
    const buf: array<Byte>
    var h: State
    var len: nat
    var total: nat
    /** All bytes given to Update so far. */
    ghost var msg: Bytes

    /** The state has taken in m: its whole blocks are folded, its rest is in the buffer. */
    ghost predicate Holds(m: Bytes)
      reads this`h, this`len, buf
    {
      && alg.Valid() && buf.Length == alg.block && len < alg.block
      && h == Fold(alg, alg.start, m) && len == |m| % alg.block && buf[..len] == Rest(alg, m)
    }

    ghost predicate Valid()
      reads this, buf
    {
      Holds(msg) && total == |msg| % Octets.P256(alg.field)
    }

    constructor (a: Algorithm)
      requires a.Valid()
      ensures Valid() && alg == a && msg == [] && fresh(buf)
    {
      alg := a;
      h := a.start;
      buf := new Byte[a.block](_ => 0);
      len, total, msg := 0, 0, [];
    }

    /** Appends x to the buffer and compresses the buffer when it is full. */
    method Take(x: Bytes, ghost m: Bytes)
      requires Holds(m) && len + |x| <= alg.block
      modifies this`h, this`len, buf
      ensures Holds(m + x) && len == if old(len) + |x| == alg.block then 0 else old(len) + |x|
    {
      hide Fold;
      Absorb(alg, m, x);
      CopyTo(buf, len, x);
      ghost var full := buf[..len + |x|];
      assert full == Rest(alg, m) + x;
      len := len + |x|;
      RestGrows(alg, m, x);
      if len == alg.block {
        assert buf[..] == full;
        h := alg.compress(h, buf[..]);
        len := 0;
      }
    }

    /** Fills a partial block first. */
    method TopUp(data: Bytes, ghost m: Bytes) returns (rest: Bytes)
      requires Holds(m)
      modifies this`h, this`len, buf
      ensures |rest| <= |data| && rest == data[|data| - |rest|..] && Holds(m + data[..|data| - |rest|])
      ensures len > 0 ==> rest == []
    {
      hide Fold, Rest;
      rest := data;
      if len > 0 {
        var need := alg.block - len;
        var take := if |data| < need then |data| else need;
        Take(data[..take], m);
        rest := data[take..];
        assert |data| - |rest| == take;
      } else {
        assert m + data[..0] == m;
      }
    }

    /** Compresses whole blocks straight from the input. */
    method TakeBlocks(data: Bytes, ghost m: Bytes) returns (rest: Bytes)
      requires Holds(m) && (len > 0 ==> data == [])
      modifies this`h
      ensures |rest| < alg.block && |rest| <= |data| && rest == data[|data| - |rest|..]
      ensures Holds(m + data[..|data| - |rest|])
    {
      hide Fold, Rest;
      var i := 0;
      assert m + data[..0] == m;
      while |data| - i >= alg.block
        invariant 0 <= i <= |data| && Holds(m + data[..i])
      {
        var block := data[i..i + alg.block];
        WholeBlock(alg, m + data[..i], block);
        assert (m + data[..i]) + block == m + data[..i + alg.block];
        h := alg.compress(h, block);
        i := i + alg.block;
      }
      rest := data[i..];
    }

    method Update(data: Bytes)
      requires Valid()
      modifies this, buf
      ensures Valid() && msg == old(msg) + data
    {
      hide Holds, Octets.P256;
      ghost var m := msg;
      TotalGrows(|msg|, |data|, Octets.P256(alg.field));
      total := (total + |data|) % Octets.P256(alg.field);
      var rest := TopUp(data, m);
      ghost var k := |data| - |rest|;
      var tail := TakeBlocks(rest, m + data[..k]);
      Joins(m, data, k, rest, tail);
      ghost var n := |data| - |tail|;
      Bounds(m + data[..n]);
      if tail != [] { Take(tail, m + data[..n]); }
      msg := m + data;
    }

    /** Feeds bytes one at a time, without counting them. */
    method Feed(data: Bytes, ghost m: Bytes)
      requires Holds(m)
      modifies this`h, this`len, buf
      ensures Holds(m + data)
    {
      hide Fold, Rest;
      var i := 0;
      assert m + data[..0] == m;
      while i < |data|
        invariant 0 <= i <= |data| && Holds(m + data[..i])
      {
        Take([data[i]], m + data[..i]);
        assert (m + data[..i]) + [data[i]] == m + data[..i + 1];
        i := i + 1;
      }
      assert data[..|data|] == data;
    }

    /** The padding, built in a buffer of one block and one length field. */
    method MakePadding() returns (bytes: Bytes)
      requires Valid()
      ensures bytes == Padding(alg, |msg|)
    {
      hide Fold, Rest, BigEndian, Octets.P256, Padding, PadLength;
      PadIs(alg, |msg|);
      BitLength(|msg|, alg.field);
      var bits := total * 8 % Octets.P256(alg.field);
      var n := PadLength(alg.block, alg.field, len);
      PadFits(alg.block, alg.field, len);
      var pad := new Byte[alg.block + alg.field](_ => 0);
      pad[0] := 0x80;
      assert pad[..n] == [0x80] + Zeros(n - 1);
      CopyTo(pad, n, BigEndian(bits, alg.field));
      bytes := pad[..n + alg.field];
      assert bytes == pad[..n] + pad[n..n + alg.field];
    }

    method Finish() returns (digest: Bytes)
      requires Valid()
      modifies this, buf
      ensures digest == Digest(alg, old(msg))
    {
      hide Fold, Padding, Rest, Words;
      var pad := MakePadding();
      Feed(pad, msg);
      digest := WordBytes(h, alg.block / 16);
    }

    /** SHA-384: the first 48 bytes. */
    method FinishTruncated() returns (digest: Bytes)
      requires Valid() && alg.block == 128
      modifies this, buf
      ensures |Digest(alg, old(msg))| == 64 && digest == Digest(alg, old(msg))[..48]
    {
      hide Fold, Padding, Words, Rest;
      ghost var m := msg;
      var out := Finish();
      WordsLength(Fold(alg, alg.start, m + Padding(alg, |m|)), 8);
      digest := out[..48];
    }

    lemma Bounds(m: Bytes)
      requires Holds(m)
      ensures alg.Valid() && buf.Length == alg.block && len < alg.block
    {
    }
  }

  method WordBytes(h: State, k: nat) returns (bytes: Bytes)
    ensures bytes == Words(h, k)
  {
    bytes := [];
    var i := 0;
    while i < 8
      invariant 0 <= i <= 8 && bytes == Words(h[..i], k)
    {
      assert h[..i + 1][..i] == h[..i];
      bytes := bytes + BigEndian(h[i], k);
      i := i + 1;
    }
    assert h[..8] == h;
  }

  lemma {:induction false} WordsLength(h: seq<nat>, k: nat)
    requires k in {4, 8}
    ensures |Words(h, k)| == if k == 4 then 4 * |h| else 8 * |h|
  {
    hide BigEndian;
    if h != [] { WordsLength(h[..|h| - 1], k); }
  }

  lemma {:induction false} WordsAre(h: seq<nat>, k: nat, i: nat)
    requires k in {4, 8} && i < |h|
    ensures |Words(h, k)| == k * |h|
    ensures Value(Words(h, k)[k * i..k * i + k]) == h[i] % Octets.P256(k)
  {
    hide BigEndian, Value, Octets.P256;
    var n := |h| - 1;
    var front := h[..n];
    WordsLength(h, k);
    WordsLength(front, k);
    ValueIs(h[n], k);
    var w := Words(h, k);
    assert w == Words(front, k) + BigEndian(h[n], k);
    if i < n {
      WordsAre(front, k, i);
      assert k * i + k <= k * n;
      assert w[k * i..k * i + k] == Words(front, k)[k * i..k * i + k];
    } else {
      assert w[k * i..k * i + k] == BigEndian(h[n], k);
    }
  }

  lemma Joins(m: Bytes, data: Bytes, k: nat, rest: Bytes, tail: Bytes)
    requires k <= |data| && rest == data[k..] && |tail| <= |rest| && tail == rest[|rest| - |tail|..]
    ensures var n := |data| - |tail|;
            && (m + data[..k]) + rest[..|rest| - |tail|] == m + data[..n] && (m + data[..n]) + tail == m + data
            && (tail == [] ==> m + data[..n] == m + data)
  {
  }

  method CopyTo(buf: array<Byte>, at: nat, x: Bytes)
    requires at + |x| <= buf.Length
    modifies buf
    ensures buf[..at] == old(buf[..at]) && buf[at..at + |x|] == x
  {
    var i := 0;
    while i < |x|
      invariant 0 <= i <= |x|
      invariant forall j :: 0 <= j < at ==> buf[j] == old(buf[j])
      invariant forall j :: 0 <= j < i ==> buf[at + j] == x[j]
    {
      buf[at + i] := x[i];
      i := i + 1;
    }
  }

  lemma RestGrows(alg: Algorithm, m: Bytes, x: Bytes)
    requires alg.Valid() && |Rest(alg, m)| + |x| <= alg.block
    ensures |Rest(alg, m)| + |x| < alg.block ==> Rest(alg, m + x) == Rest(alg, m) + x
    ensures |Rest(alg, m)| + |x| == alg.block ==> Rest(alg, m + x) == []
  {
    AddMod(|m|, |x|, alg.block);
  }

  lemma AddMod(a: nat, b: nat, n: nat)
    requires n in {64, 128} && a % n + b <= n
    ensures (a + b) % n == if a % n + b == n then 0 else a % n + b
  {
  }

  lemma WholeBlock(alg: Algorithm, m: Bytes, x: Bytes)
    requires alg.Valid() && |m| % alg.block == 0 && |x| == alg.block
    ensures Fold(alg, alg.start, m + x) == alg.compress(Fold(alg, alg.start, m), x)
    ensures |m + x| % alg.block == 0 && Rest(alg, m + x) == []
  {
    hide Fold;
    Absorb(alg, m, x);
    RestGrows(alg, m, x);
    assert Rest(alg, m) + x == x;
  }

  lemma TotalGrows(a: nat, b: nat, m: nat)
    requires m > 0
    ensures (a % m + b) % m == (a + b) % m
  {
    var q, c := a / m, a % m + b;
    Distribute(q, c / m, m);
    DivModUnique(a + b, q + c / m, c % m, m);
  }

  // ---- the padding buffer --------------------------------------------------------------------

  /** Bytes before the length field, when len bytes are in the buffer. */
  function PadLength(block: nat, field: nat, len: nat): nat
    requires len < block && field < block
  {
    if len < block - field then block - field - len else 2 * block - field - len
  }

  /** The padding never outgrows its buffer, and fills it for one length. */
  lemma PadFits(block: nat, field: nat, len: nat)
    requires len < block && field < block
    ensures 1 <= PadLength(block, field, len) <= block
    ensures PadLength(block, field, len) == block <==> (len == block - field || (len == 0 && field == 0))
  {
  }

  lemma ZerosCount(n: nat, b: nat, f: nat)
    requires (b == 64 && f == 8) || (b == 128 && f == 16)
    ensures PadLength(b, f, n % b) == 1 + (b - (n + 1 + f) % b) % b
  {
    if b == 64 { Zeros64(n); } else { Zeros128(n); }
  }

  lemma Zeros64(n: nat)
    ensures PadLength(64, 8, n % 64) == 1 + (64 - (n + 9) % 64) % 64
  {
    AfterBlocks(n / 64, n % 64 + 9, 64);
  }

  lemma Zeros128(n: nat)
    ensures PadLength(128, 16, n % 128) == 1 + (128 - (n + 17) % 128) % 128
  {
    AfterBlocks(n / 128, n % 128 + 17, 128);
  }

  lemma AfterBlocks(q: nat, y: nat, b: nat)
    requires b in {64, 128} && y < 2 * b
    ensures (b * q + y) % b == if y < b then y else y - b
  {
  }

  lemma PadIs(alg: Algorithm, n: nat)
    requires alg.Valid()
    ensures var p := PadLength(alg.block, alg.field, n % alg.block);
            Padding(alg, n) == [0x80] + Zeros(p - 1) + BigEndian(8 * n, alg.field)
  {
    ZerosCount(n, alg.block, alg.field);
  }

  lemma BitLength(n: nat, k: nat)
    ensures BigEndian(n % Octets.P256(k) * 8 % Octets.P256(k), k) == BigEndian(8 * n, k)
  {
    var p := Octets.P256(k);
    Scaled(n, 8, p);
    BigEndianMod(8 * n, k);
  }

  lemma Scaled(n: nat, c: nat, p: nat)
    requires p > 0
    ensures n % p * c % p == c * n % p
  {
    var q, r := n / p, n % p;
    var s := r * c;
    assert c * n == (c * q + s / p) * p + s % p by {
      assert n == q * p + r;
      assert c * n == c * q * p + s;
      Distribute(c * q, s / p, p);
    }
    DivModUnique(c * n, c * q + s / p, s % p, p);
  }

  // ---- any split -----------------------------------------------------------------------------

  function Concat(parts: seq<Bytes>): Bytes
  {
    if parts == [] then [] else Concat(parts[..|parts| - 1]) + parts[|parts| - 1]
  }

  /** However a message is cut into Update calls, the digest is that of the message. */
  method HashParts(alg: Algorithm, parts: seq<Bytes>) returns (digest: Bytes)
    requires alg.Valid()
    ensures digest == Digest(alg, Concat(parts))
  {
    hide Digest;
    var hasher := new Hasher(alg);
    var i := 0;
    while i < |parts|
      invariant 0 <= i <= |parts| && hasher.Valid() && hasher.alg == alg && hasher.msg == Concat(parts[..i])
      invariant fresh(hasher) && fresh(hasher.buf)
    {
      assert parts[..i + 1][..i] == parts[..i];
      hasher.Update(parts[i]);
      i := i + 1;
    }
    assert parts[..|parts|] == parts;
    digest := hasher.Finish();
  }
}
