/** scripts/compress-kernel.py: the LZ4 block encoder and its independent decoder. */
module Lz4 {
  import opened Octets

  const MIN_MATCH: nat := 4
  const MAX_MATCH: nat := 65535 + MIN_MATCH + 15
  const MAX_OFFSET: nat := 65535

  // ---- the format ---------------------------------------------------------------

  /** Literals, then `matchLen` bytes copied from `offset` back in the output. */
  datatype Sequence = Sequence(lits: seq<Byte>, offset: nat, matchLen: nat)

  /** A length past the nibble: a run of 255s and a byte that is not 255. */
  function Extension(rest: nat): (e: seq<Byte>)
    ensures |e| == rest / 255 + 1
  {
    if rest < 255 then [rest] else [255] + Extension(rest - 255)
  }

  lemma {:induction false} ExtensionIs(rest: nat)
    ensures var e := Extension(rest);
            (forall i :: 0 <= i < |e| - 1 ==> e[i] == 255) && e[|e| - 1] == rest % 255
  {
    if rest >= 255 {
      ExtensionIs(rest - 255);
      assert (rest - 255) % 255 == rest % 255;
    }
  }

  function Nibble(len: nat): nat
  {
    if len >= 15 then 15 else len
  }

  function LengthTail(len: nat): (e: seq<Byte>)
    ensures |e| <= len / 255 + 1 && (len < 15 ==> e == [])
  {
    if len >= 15 then Extension(len - 15) else []
  }

  ghost predicate Wellformed(s: Sequence)
  {
    1 <= s.offset <= MAX_OFFSET && s.matchLen >= MIN_MATCH
  }

  function Token(lits: nat, match_: nat): Byte
  {
    16 * Nibble(lits) + Nibble(match_)
  }

  /** Token, literal length and literals; `more` is what the match has above its minimum. */
  function EncodeHead(lits: seq<Byte>, more: nat): seq<Byte>
  {
    [Token(|lits|, more)] + LengthTail(|lits|) + lits
  }

  function EncodeMatch(offset: nat, more: nat): seq<Byte>
    requires offset <= MAX_OFFSET
  {
    [offset % 256, offset / 256] + LengthTail(more)
  }

  function EncodePair(lits: seq<Byte>, offset: nat, more: nat): seq<Byte>
    requires offset <= MAX_OFFSET
  {
    EncodeHead(lits, more) + EncodeMatch(offset, more)
  }

  function EncodeSequence(s: Sequence): seq<Byte>
    requires Wellformed(s)
  {
    EncodePair(s.lits, s.offset, s.matchLen - MIN_MATCH)
  }

  /** n bytes appended one at a time, each a copy of the one `offset` back: the source may overlap. */
  function Copy(out: seq<Byte>, offset: nat, n: nat): (r: seq<Byte>)
    requires 1 <= offset <= |out|
    ensures |r| == |out| + n && out <= r
  {
    if n == 0 then out
    else
      var most := Copy(out, offset, n - 1);
      most + [most[|most| - offset]]
  }

  /** How many bytes the sequences stand for. */
  ghost function Size(ss: seq<Sequence>): nat
  {
    if ss == [] then 0
    else Size(ss[..|ss| - 1]) + |ss[|ss| - 1].lits| + ss[|ss| - 1].matchLen
  }

  /** Every offset stays inside what is already written. */
  ghost predicate Decodable(ss: seq<Sequence>)
  {
    ss == [] ||
    (var s := ss[|ss| - 1];
     Decodable(ss[..|ss| - 1]) && Wellformed(s) && s.offset <= Size(ss[..|ss| - 1]) + |s.lits|)
  }

  /** What a list of sequences stands for. */
  ghost function Expand(ss: seq<Sequence>): (r: seq<Byte>)
    requires Decodable(ss)
    ensures |r| == Size(ss)
  {
    if ss == [] then []
    else
      var s := ss[|ss| - 1];
      Copy(Expand(ss[..|ss| - 1]) + s.lits, s.offset, s.matchLen)
  }

  ghost function EncodeAll(ss: seq<Sequence>): seq<Byte>
    requires Decodable(ss)
  {
    if ss == [] then [] else EncodeAll(ss[..|ss| - 1]) + EncodeSequence(ss[|ss| - 1])
  }

  // ---- decoding ---------------------------------------------------------------------

  datatype Error = Truncated | ZeroOffset | OffsetBeforeStart | WrongLength
  datatype Result<T> = Ok(value: T) | Err(error: Error)

  /** Add up extension bytes from index i: the new length and the index after them. */
  function ReadExtension(src: seq<Byte>, i: nat, len: nat): (r: Result<(nat, nat)>)
    ensures r.Ok? ==> i < r.value.1 <= |src|
    decreases |src| - i
  {
    if i >= |src| then Err(Truncated)
    else if src[i] == 255 then ReadExtension(src, i + 1, len + 255)
    else Ok((len + src[i], i + 1))
  }

  function ReadLength(src: seq<Byte>, i: nat, nibble: nat, base: nat): (r: Result<(nat, nat)>)
    ensures r.Ok? ==> i <= r.value.1
  {
    if nibble == 15 then ReadExtension(src, i, base + nibble) else Ok((base + nibble, i))
  }

  datatype Progress = More(at: nat, out: seq<Byte>) | Done(out: seq<Byte>) | Fail(error: Error)

  /** The literals: at most `n` of the bytes from index j, as a slice that stops at the end. */
  function Slice(src: seq<Byte>, j: nat, n: nat): seq<Byte>
  {
    if j >= |src| then [] else if j + n <= |src| then src[j..j + n] else src[j..]
  }

  /** The offset at index k, the rest of the match length, and the copy. */
  function DecodeMatch(src: seq<Byte>, k: nat, nibble: nat, out: seq<Byte>): (r: Progress)
    requires k < |src|
    ensures r.More? ==> k < r.at
  {
    if k + 1 >= |src| then Fail(Truncated)
    else
      var lo: int, hi: int := src[k], src[k + 1];
      var offset := lo + 256 * hi;
      if offset == 0 then Fail(ZeroOffset)
      else
        match ReadLength(src, k + 2, nibble, MIN_MATCH)
        case Err(e) => Fail(e)
        case Ok((matchLen, next)) =>
          if offset > |out| then Fail(OffsetBeforeStart)
          else More(next, Copy(out, offset, matchLen))
  }

  /** One sequence of the block at index i. */
  function DecodeOne(src: seq<Byte>, i: nat, out: seq<Byte>): (r: Progress)
    requires i < |src|
    ensures r.More? ==> i < r.at
  {
    match ReadLength(src, i + 1, src[i] / 16, 0)
    case Err(e) => Fail(e)
    case Ok((litLen, j)) =>
      var withLits := out + Slice(src, j, litLen);
      if j + litLen >= |src| then Done(withLits) else DecodeMatch(src, j + litLen, src[i] % 16, withLits)
  }

  function DecodeFrom(src: seq<Byte>, i: nat, out: seq<Byte>): Result<seq<Byte>>
    decreases |src| - i
  {
    if i >= |src| then Ok(out)
    else
      match DecodeOne(src, i, out)
      case Fail(e) => Err(e)
      case Done(o) => Ok(o)
      case More(j, o) => DecodeFrom(src, j, o)
  }

  /** Decoding stops at the end of a literal run, not after a match. */
  predicate EndsWithLiterals(src: seq<Byte>, i: nat, out: seq<Byte>)
    decreases |src| - i
  {
    i < |src| &&
    match DecodeOne(src, i, out)
    case Fail(_) => false
    case Done(_) => true
    case More(j, o) => EndsWithLiterals(src, j, o)
  }

  function Decode(src: seq<Byte>, outLen: nat): Result<seq<Byte>>
  {
    match DecodeFrom(src, 0, [])
    case Err(e) => Err(e)
    case Ok(out) => if |out| == outLen then Ok(out) else Err(WrongLength)
  }

  /** The bytes of t stand in src from index i. */
  ghost predicate At(src: seq<Byte>, i: nat, t: seq<Byte>)
  {
    i + |t| <= |src| && src[i..i + |t|] == t
  }

  lemma AtSplit(src: seq<Byte>, i: nat, s: seq<Byte>, t: seq<Byte>)
    requires At(src, i, s + t)
    ensures At(src, i, s) && At(src, i + |s|, t)
  {
    var w := src[i..i + |s + t|];
    assert w[..|s|] == s && w[|s|..] == t;
    assert src[i..i + |s|] == w[..|s|];
    assert src[i + |s|..i + |s| + |t|] == w[|s|..];
  }

  lemma {:induction false} ReadsExtension(src: seq<Byte>, i: nat, len: nat, rest: nat)
    requires At(src, i, Extension(rest))
    ensures ReadExtension(src, i, len) == Ok((len + rest, i + |Extension(rest)|))
    decreases rest
  {
    assert src[i] == src[i..i + |Extension(rest)|][0];
    if rest >= 255 {
      AtSplit(src, i, [255], Extension(rest - 255));
      ReadsExtension(src, i + 1, len + 255, rest - 255);
    }
  }

  lemma ReadsLength(src: seq<Byte>, i: nat, len: nat, base: nat)
    requires At(src, i, LengthTail(len))
    ensures ReadLength(src, i, Nibble(len), base) == Ok((base + len, i + |LengthTail(len)|))
  {
    if len >= 15 { ReadsExtension(src, i, base + 15, len - 15); }
  }

  lemma AtIndex(src: seq<Byte>, i: nat, t: seq<Byte>, k: nat)
    requires At(src, i, t) && k < |t|
    ensures src[i + k] == t[k]
  {
    assert src[i + k] == src[i..i + |t|][k];
  }

  lemma TokenParts(lits: nat, match_: nat)
    ensures Token(lits, match_) / 16 == Nibble(lits) && Token(lits, match_) % 16 == Nibble(match_)
  {
  }

  lemma AtSlice(src: seq<Byte>, j: nat, t: seq<Byte>)
    requires At(src, j, t)
    ensures Slice(src, j, |t|) == t && j + |t| <= |src|
  {
  }

  lemma HeadParts(src: seq<Byte>, i: nat, lits: seq<Byte>, more: nat)
    requires At(src, i, EncodeHead(lits, more))
    ensures i < |src| && src[i] == Token(|lits|, more)
    ensures At(src, i + 1, LengthTail(|lits|)) && At(src, i + 1 + |LengthTail(|lits|)|, lits)
    ensures |EncodeHead(lits, more)| == 1 + |LengthTail(|lits|)| + |lits|
  {
    hide *;
    HeadIs(lits, more);
    AtThree(src, i, Token(|lits|, more), LengthTail(|lits|), lits);
  }

  lemma HeadIs(lits: seq<Byte>, more: nat)
    ensures EncodeHead(lits, more) == [Token(|lits|, more)] + LengthTail(|lits|) + lits
  {
  }

  lemma AtThree(src: seq<Byte>, i: nat, b: Byte, s: seq<Byte>, t: seq<Byte>)
    requires At(src, i, [b] + s + t)
    ensures i < |src| && src[i] == b && At(src, i + 1, s) && At(src, i + 1 + |s|, t)
  {
    hide At;
    AtSplit(src, i, [b] + s, t);
    AtSplit(src, i, [b], s);
    AtIndex(src, i, [b], 0);
    AtSlice(src, i, [b]);
  }

  lemma HeadLength(src: seq<Byte>, i: nat, n: nat, more: nat)
    requires i < |src| && src[i] == Token(n, more) && At(src, i + 1, LengthTail(n))
    ensures src[i] % 16 == Nibble(more)
    ensures ReadLength(src, i + 1, src[i] / 16, 0) == Ok((n, i + 1 + |LengthTail(n)|))
  {
    hide At, LengthTail, ReadLength;
    TokenParts(n, more);
    ReadsLength(src, i + 1, n, 0);
  }

  /** Reading a head yields the literals and leaves the match nibble. */
  lemma ReadsHead(src: seq<Byte>, i: nat, lits: seq<Byte>, more: nat)
    requires At(src, i, EncodeHead(lits, more))
    ensures i < |src| && src[i] % 16 == Nibble(more) && |lits| <= |EncodeHead(lits, more)|
    ensures var j := i + |EncodeHead(lits, more)| - |lits|;
            ReadLength(src, i + 1, src[i] / 16, 0) == Ok((|lits|, j)) && Slice(src, j, |lits|) == lits
  {
    hide *;
    HeadParts(src, i, lits, more);
    HeadLength(src, i, |lits|, more);
    AtSlice(src, i + 1 + |LengthTail(|lits|)|, lits);
  }

  lemma MatchParts(src: seq<Byte>, k: nat, offset: nat, more: nat)
    requires offset <= MAX_OFFSET && At(src, k, EncodeMatch(offset, more))
    ensures k + 1 < |src| && src[k] == offset % 256 && src[k + 1] == offset / 256
    ensures At(src, k + 2, LengthTail(more)) && |EncodeMatch(offset, more)| == 2 + |LengthTail(more)|
  {
    var off: seq<Byte> := [offset % 256, offset / 256];
    hide At, LengthTail, Slice;
    AtSplit(src, k, off, LengthTail(more));
    AtSlice(src, k, off);
    AtIndex(src, k, off, 0);
    AtIndex(src, k, off, 1);
  }

  lemma DecodesMatch(src: seq<Byte>, k: nat, out: seq<Byte>, offset: nat, more: nat)
    requires 1 <= offset <= MAX_OFFSET && offset <= |out|
    requires k + 1 < |src| && src[k] == offset % 256 && src[k + 1] == offset / 256 && At(src, k + 2, LengthTail(more))
    ensures DecodeMatch(src, k, Nibble(more), out)
         == More(k + 2 + |LengthTail(more)|, Copy(out, offset, MIN_MATCH + more))
  {
    hide At, LengthTail, ReadLength, Copy, Nibble;
    ReadsLength(src, k + 2, more, MIN_MATCH);
  }

  lemma DecodeOneBy(src: seq<Byte>, i: nat, out: seq<Byte>, lits: seq<Byte>, j: nat)
    requires i < |src| && ReadLength(src, i + 1, src[i] / 16, 0) == Ok((|lits|, j)) && Slice(src, j, |lits|) == lits
    ensures DecodeOne(src, i, out) ==
            if j + |lits| >= |src| then Done(out + lits) else DecodeMatch(src, j + |lits|, src[i] % 16, out + lits)
  {
    hide ReadLength, Slice, DecodeMatch;
  }

  lemma DecodesMatchAt(src: seq<Byte>, k: nat, out: seq<Byte>, offset: nat, more: nat)
    requires 1 <= offset <= MAX_OFFSET && offset <= |out| && At(src, k, EncodeMatch(offset, more))
    ensures k < |src| && DecodeMatch(src, k, Nibble(more), out)
            == More(k + |EncodeMatch(offset, more)|, Copy(out, offset, MIN_MATCH + more))
  {
    hide *;
    MatchParts(src, k, offset, more);
    DecodesMatch(src, k, out, offset, more);
  }

  lemma DecodesParts(src: seq<Byte>, i: nat, out: seq<Byte>, lits: seq<Byte>, offset: nat, more: nat)
    requires 1 <= offset <= MAX_OFFSET && offset <= |out| + |lits|
    requires At(src, i, EncodeHead(lits, more)) && At(src, i + |EncodeHead(lits, more)|, EncodeMatch(offset, more))
    ensures i < |src| && DecodeOne(src, i, out)
            == More(i + |EncodeHead(lits, more)| + |EncodeMatch(offset, more)|, Copy(out + lits, offset, MIN_MATCH + more))
  {
    hide *;
    ReadsHead(src, i, lits, more);
    DecodeOneBy(src, i, out, lits, i + |EncodeHead(lits, more)| - |lits|);
    DecodesMatchAt(src, i + |EncodeHead(lits, more)|, out + lits, offset, more);
  }

  lemma DecodesSequence(src: seq<Byte>, i: nat, out: seq<Byte>, s: Sequence)
    requires Wellformed(s) && s.offset <= |out| + |s.lits|
    requires i < |src| && At(src, i, EncodeSequence(s))
    ensures DecodeOne(src, i, out) == More(i + |EncodeSequence(s)|, Copy(out + s.lits, s.offset, s.matchLen))
  {
    hide At, EncodePair, DecodeOne, Copy;
    DecodesPair(src, i, out, s.lits, s.offset, s.matchLen, EncodeSequence(s));
  }

  lemma DecodesPair(src: seq<Byte>, i: nat, out: seq<Byte>, lits: seq<Byte>, offset: nat, len: nat, code: seq<Byte>)
    requires 1 <= offset <= MAX_OFFSET && offset <= |out| + |lits| && len >= MIN_MATCH
    requires code == EncodePair(lits, offset, len - MIN_MATCH) && At(src, i, code)
    ensures DecodeOne(src, i, out) == More(i + |code|, Copy(out + lits, offset, len))
  {
    hide At, EncodeHead, EncodeMatch, DecodeOne, Copy;
    var more := len - MIN_MATCH;
    AtSplit(src, i, EncodeHead(lits, more), EncodeMatch(offset, more));
    DecodesParts(src, i, out, lits, offset, more);
  }

  lemma DecodesLast(src: seq<Byte>, i: nat, out: seq<Byte>, lits: seq<Byte>)
    requires i < |src| && At(src, i, EncodeHead(lits, 0)) && |src| == i + |EncodeHead(lits, 0)|
    ensures DecodeOne(src, i, out) == Done(out + lits)
  {
    hide *;
    ReadsHead(src, i, lits, 0);
    DecodeOneBy(src, i, out, lits, i + |EncodeHead(lits, 0)| - |lits|);
  }

  lemma DecodeMore(src: seq<Byte>, i: nat, out: seq<Byte>, j: nat, o: seq<Byte>)
    requires i < |src| && DecodeOne(src, i, out) == More(j, o)
    ensures DecodeFrom(src, i, out) == DecodeFrom(src, j, o)
    ensures EndsWithLiterals(src, i, out) == EndsWithLiterals(src, j, o)
  {
    hide DecodeOne;
  }

  /** The last of a list of sequences, inside a block. */
  lemma LastAt(src: seq<Byte>, ss: seq<Sequence>, a: seq<Byte>, e: seq<Byte>)
    requires ss != [] && Decodable(ss) && At(src, 0, EncodeAll(ss))
    requires a == EncodeAll(ss[..|ss| - 1]) && e == EncodeSequence(ss[|ss| - 1])
    ensures |a| < |src| && At(src, |a|, e) && At(src, 0, a) && |EncodeAll(ss)| == |a| + |e|
  {
    assert e != [];
    hide EncodeSequence, Expand;
    AtSplit(src, 0, a, e);
  }

  /** Decoding a block that starts with encoded sequences reaches their expansion. */
  lemma {:induction false} DecodesAll(src: seq<Byte>, ss: seq<Sequence>)
    requires Decodable(ss) && At(src, 0, EncodeAll(ss))
    ensures DecodeFrom(src, 0, []) == DecodeFrom(src, |EncodeAll(ss)|, Expand(ss))
    ensures EndsWithLiterals(src, 0, []) == EndsWithLiterals(src, |EncodeAll(ss)|, Expand(ss))
  {
    hide DecodeFrom, EndsWithLiterals, EncodeSequence, Copy, At, Expand, EncodeAll, Decodable, Wellformed;
    if ss == [] {
      EmptyBlock();
    } else {
      var init, s := ss[..|ss| - 1], ss[|ss| - 1];
      LastParts(ss, init, s);
      LastAt(src, ss, EncodeAll(init), EncodeSequence(s));
      DecodesAll(src, init);
      DecodesNext(src, |EncodeAll(init)|, Expand(init), s, Expand(ss));
    }
  }

  lemma EmptyBlock()
    ensures EncodeAll([]) == [] && Expand([]) == []
  {
  }

  lemma LastParts(ss: seq<Sequence>, init: seq<Sequence>, s: Sequence)
    requires ss != [] && Decodable(ss) && init == ss[..|ss| - 1] && s == ss[|ss| - 1]
    ensures Decodable(init) && Wellformed(s) && s.offset <= |Expand(init)| + |s.lits|
    ensures Expand(ss) == Copy(Expand(init) + s.lits, s.offset, s.matchLen)
  {
  }

  lemma DecodesNext(src: seq<Byte>, i: nat, out: seq<Byte>, s: Sequence, more: seq<Byte>)
    requires Wellformed(s) && s.offset <= |out| + |s.lits| && i < |src| && At(src, i, EncodeSequence(s))
    requires more == Copy(out + s.lits, s.offset, s.matchLen)
    ensures DecodeFrom(src, i, out) == DecodeFrom(src, i + |EncodeSequence(s)|, more)
    ensures EndsWithLiterals(src, i, out) == EndsWithLiterals(src, i + |EncodeSequence(s)|, more)
  {
    hide DecodeOne, DecodeFrom, EndsWithLiterals, EncodeSequence, Copy, At;
    DecodesSequence(src, i, out, s);
    DecodeMore(src, i, out, i + |EncodeSequence(s)|, more);
  }

  /** A block of sequences and a last literal run decodes to what it stands for. */
  lemma DecodesBlock(ss: seq<Sequence>, lits: seq<Byte>)
    requires Decodable(ss)
    ensures DecodeFrom(EncodeAll(ss) + EncodeHead(lits, 0), 0, []) == Ok(Expand(ss) + lits)
    ensures DecodeFrom(EncodeAll(ss), 0, []) == Ok(Expand(ss))
    ensures EndsWithLiterals(EncodeAll(ss) + EncodeHead(lits, 0), 0, []) && !EndsWithLiterals(EncodeAll(ss), 0, [])
  {
    hide EncodeHead, EncodeAll, Expand, Decodable, DecodeOne;
    assert At(EncodeAll(ss), 0, EncodeAll(ss));
    DecodesAll(EncodeAll(ss), ss);
    DecodesEnd(ss, EncodeAll(ss), EncodeHead(lits, 0), lits);
  }

  lemma DecodesEnd(ss: seq<Sequence>, a: seq<Byte>, h: seq<Byte>, lits: seq<Byte>)
    requires Decodable(ss) && a == EncodeAll(ss) && h == EncodeHead(lits, 0)
    ensures DecodeFrom(a + h, 0, []) == Ok(Expand(ss) + lits) && EndsWithLiterals(a + h, 0, [])
  {
    assert h != [];
    hide EncodeHead, EncodeAll, Expand, Decodable, DecodeOne;
    assert At(a + h, 0, a) && At(a + h, |a|, h);
    hide At;
    DecodesAll(a + h, ss);
    DecodesLast(a + h, |a|, Expand(ss), lits);
  }

  method ReadExtensionBytes(src: seq<Byte>, start: nat, len: nat) returns (r: Result<(nat, nat)>)
    ensures r == ReadExtension(src, start, len)
  {
    var i: nat, l: nat := start, len;
    while true
      invariant ReadExtension(src, i, l) == ReadExtension(src, start, len)
      decreases |src| - i
    {
      if i >= |src| { return Err(Truncated); }
      var b: int := src[i];
      i := i + 1;
      l := l + b;
      if b != 255 { return Ok((l, i)); }
    }
  }

  method CopyMatch(before: seq<Byte>, offset: nat, n: nat) returns (out: seq<Byte>)
    requires 1 <= offset <= |before|
    ensures out == Copy(before, offset, n)
  {
    out := before;
    var start := |out| - offset;
    var k := 0;
    while k < n
      invariant 0 <= k <= n
      invariant out == Copy(before, offset, k)
    {
      out := out + [out[start + k]];
      k := k + 1;
    }
  }

  method DecompressOne(src: seq<Byte>, at: nat, before: seq<Byte>) returns (r: Progress)
    requires at < |src|
    ensures r == DecodeOne(src, at, before)
  {
    hide Copy, ReadExtension;
    var token := src[at];
    var litLen, i := token / 16, at + 1;
    if litLen == 15 {
      var e := ReadExtensionBytes(src, i, litLen);
      if e.Err? { return Fail(e.error); }
      litLen, i := e.value.0, e.value.1;
    }
    var out := before + Slice(src, i, litLen);
    i := i + litLen;
    if i >= |src| { return Done(out); }
    r := DecompressMatch(src, i, token % 16, out);
  }

  method DecompressMatch(src: seq<Byte>, at: nat, nibble: nat, out: seq<Byte>) returns (r: Progress)
    requires at < |src|
    ensures r == DecodeMatch(src, at, nibble, out)
  {
    hide Copy, ReadExtension;
    if at + 1 >= |src| { return Fail(Truncated); }
    var lo: int, hi: int := src[at], src[at + 1];
    var offset, i := lo + 256 * hi, at + 2;
    if offset == 0 { return Fail(ZeroOffset); }
    var matchLen := nibble + MIN_MATCH;
    if nibble == 15 {
      var e := ReadExtensionBytes(src, i, matchLen);
      if e.Err? { return Fail(e.error); }
      matchLen, i := e.value.0, e.value.1;
    }
    if offset > |out| { return Fail(OffsetBeforeStart); }
    var o := CopyMatch(out, offset, matchLen);
    return More(i, o);
  }

  method Decompress(src: seq<Byte>, outLen: nat) returns (r: Result<seq<Byte>>)
    ensures r == Decode(src, outLen)
  {
    hide DecodeOne;
    var out: seq<Byte>, i := [], 0;
    while i < |src|
      invariant DecodeFrom(src, i, out) == DecodeFrom(src, 0, [])
      decreases |src| - i
    {
      var p := DecompressOne(src, i, out);
      match p {
        case Fail(e) => return Err(e);
        case Done(o) =>
          out := o;
          return if |out| == outLen then Ok(out) else Err(WrongLength);
        case More(j, o) => i, out := j, o;
      }
    }
    return if |out| == outLen then Ok(out) else Err(WrongLength);
  }

  // ---- compressing --------------------------------------------------------------------

  function KeyAt(data: seq<Byte>, k: nat): seq<Byte>
    requires k + MIN_MATCH <= |data|
  {
    data[k..k + MIN_MATCH]
  }

  /** Each key is indexed at its last position before i, and every key before i is indexed. */
  ghost predicate Indexed(table: map<seq<Byte>, nat>, data: seq<Byte>, i: nat)
  {
    && (forall key | key in table :: HasKey(data, table[key], key) && table[key] < i)
    && (forall k :: 0 <= k < i && k + MIN_MATCH <= |data| ==> KeyAt(data, k) in table && k <= table[KeyAt(data, k)])
  }

  /** The four bytes at i do not occur between lo and i. */
  ghost predicate NotSince(data: seq<Byte>, lo: int, i: nat)
    requires i + MIN_MATCH <= |data|
  {
    forall k :: 0 <= k < i && lo <= k ==> KeyAt(data, k) != KeyAt(data, i)
  }

  /** The match cannot be made longer. */
  ghost predicate Longest(data: seq<Byte>, cand: nat, i: nat, l: nat)
  {
    cand < i && i + l <= |data| && (i + l == |data| || data[cand + l] != data[i + l] || l >= MAX_MATCH)
  }

  ghost predicate HasKey(data: seq<Byte>, at: nat, key: seq<Byte>)
  {
    |key| == MIN_MATCH && at + MIN_MATCH <= |data| && data[at..at + MIN_MATCH] == key
  }

  /** l bytes at cand and at i agree. */
  ghost predicate Matches(data: seq<Byte>, cand: nat, i: nat, l: nat)
  {
    cand < i && i + l <= |data| && data[cand..cand + l] == data[i..i + l]
  }

  lemma MatchShrinks(data: seq<Byte>, cand: nat, i: nat, l: nat)
    requires cand < i && i + l < |data|
    ensures Matches(data, cand, i, l + 1) <==> Matches(data, cand, i, l) && data[cand + l] == data[i + l]
  {
    var a, b := data[cand..cand + l + 1], data[i..i + l + 1];
    assert data[cand..cand + l] == a[..l] && data[i..i + l] == b[..l];
    assert a == a[..l] + [a[l]] && b == b[..l] + [b[l]];
  }

  lemma {:induction false} CopyReproduces(data: seq<Byte>, cand: nat, i: nat, l: nat)
    requires Matches(data, cand, i, l)
    ensures Copy(data[..i], i - cand, l) == data[..i + l]
  {
    if l > 0 {
      MatchShrinks(data, cand, i, l - 1);
      CopyReproduces(data, cand, i, l - 1);
    }
  }

  // ---- the greedy parse -------------------------------------------------------------------

  /** The last place before k with the four bytes at i, or -1. */
  ghost function Last(data: seq<Byte>, i: nat, k: nat): (j: int)
    requires k <= i && i + MIN_MATCH <= |data|
    ensures -1 <= j < k
  {
    if k == 0 then -1 else if KeyAt(data, k - 1) == KeyAt(data, i) then k - 1 else Last(data, i, k - 1)
  }

  /** How far the bytes at cand and at i agree past the first l, up to the longest match. */
  ghost function Extent(data: seq<Byte>, cand: nat, i: nat, l: nat): (e: nat)
    requires cand < i && i + l <= |data|
    ensures l <= e && i + e <= |data|
    decreases |data| - l
  {
    if i + l < |data| && data[cand + l] == data[i + l] && l < MAX_MATCH then Extent(data, cand, i, l + 1) else l
  }

  /** Length and offset of the match at i, or (0, 0). */
  ghost function MatchAt(data: seq<Byte>, i: nat): (m: (nat, nat))
    ensures m.0 >= MIN_MATCH ==> 1 <= m.1 <= MAX_OFFSET && m.1 <= i && i + m.0 <= |data|
  {
    if i + MIN_MATCH > |data| then (0, 0)
    else
      var cand := Last(data, i, i);
      if cand < 0 || i - cand > MAX_OFFSET then (0, 0) else (Extent(data, cand, i, MIN_MATCH), i - cand)
  }

  /** The sequences from position i on, with literals pending from `lit`; and where the last literals start. */
  ghost function Parse(data: seq<Byte>, i: nat, lit: nat): (r: (seq<Sequence>, nat))
    requires lit <= i <= |data|
    ensures lit <= r.1 <= |data|
    decreases |data| - i
  {
    if i == |data| then ([], lit)
    else
      var (l, off) := MatchAt(data, i);
      if l >= MIN_MATCH then
        var (rest, e) := Parse(data, i + l, i + l);
        ([Sequence(data[lit..i], off, l)] + rest, e)
      else Parse(data, i + 1, lit)
  }

  lemma {:induction false} ExtentMatches(data: seq<Byte>, cand: nat, i: nat, l: nat)
    requires Matches(data, cand, i, l)
    ensures Matches(data, cand, i, Extent(data, cand, i, l))
    decreases |data| - l
  {
    if i + l < |data| && data[cand + l] == data[i + l] && l < MAX_MATCH {
      MatchShrinks(data, cand, i, l);
      ExtentMatches(data, cand, i, l + 1);
    }
  }

  lemma {:induction false} LastHas(data: seq<Byte>, i: nat, k: nat)
    requires k <= i && i + MIN_MATCH <= |data|
    ensures Last(data, i, k) >= 0 ==> KeyAt(data, Last(data, i, k)) == KeyAt(data, i)
  {
    if k > 0 { LastHas(data, i, k - 1); }
  }

  /** The last place is the one after which there is none. */
  lemma {:induction false} LastIs(data: seq<Byte>, i: nat, k: nat, j: int)
    requires k <= i && i + MIN_MATCH <= |data| && -1 <= j < k
    requires j >= 0 ==> KeyAt(data, j) == KeyAt(data, i)
    requires forall x :: 0 <= x < k && j < x ==> KeyAt(data, x) != KeyAt(data, i)
    ensures Last(data, i, k) == j
  {
    if k > 0 && j < k - 1 { LastIs(data, i, k - 1, j); }
  }

  lemma MatchAtMatches(data: seq<Byte>, i: nat)
    requires i <= |data| && MatchAt(data, i).0 >= MIN_MATCH
    ensures Matches(data, i - MatchAt(data, i).1, i, MatchAt(data, i).0)
  {
    var cand := Last(data, i, i);
    LastHas(data, i, i);
    ExtentMatches(data, cand, i, MIN_MATCH);
  }

  method AppendExtension(before: seq<Byte>, len: nat) returns (out: seq<Byte>)
    ensures out == before + Extension(len)
  {
    out := before;
    var rest := len;
    while rest >= 255
      invariant out + Extension(rest) == before + Extension(len)
    {
      assert out + [255] + Extension(rest - 255) == out + ([255] + Extension(rest - 255));
      out := out + [255];
      rest := rest - 255;
    }
    out := out + [rest];
  }

  method AppendHead(before: seq<Byte>, lits: seq<Byte>, more: nat) returns (out: seq<Byte>)
    ensures out == before + EncodeHead(lits, more)
  {
    hide Extension;
    var token: Byte := if |lits| >= 15 then 0xF0 else 16 * |lits|;
    token := token + if more >= 15 then 15 else more;
    out := before + [token];
    if |lits| >= 15 { out := AppendExtension(out, |lits| - 15); }
    out := out + lits;
  }

  method EmitSequence(before: seq<Byte>, s: Sequence) returns (out: seq<Byte>)
    requires Wellformed(s)
    ensures out == before + EncodeSequence(s)
  {
    hide Extension, EncodeHead;
    out := AppendHead(before, s.lits, s.matchLen - MIN_MATCH);
    out := out + [s.offset % 256];
    out := out + [s.offset / 256 % 256];
    if s.matchLen - MIN_MATCH >= 15 { out := AppendExtension(out, s.matchLen - MIN_MATCH - 15); }
  }

  method MatchLength(data: seq<Byte>, cand: nat, i: nat) returns (l: nat)
    requires cand < i && i + MIN_MATCH <= |data| && HasKey(data, cand, data[i..i + MIN_MATCH])
    ensures l >= MIN_MATCH && Matches(data, cand, i, l) && Longest(data, cand, i, l)
    ensures l == Extent(data, cand, i, MIN_MATCH)
  {
    l := MIN_MATCH;
    while i + l < |data| && data[cand + l] == data[i + l] && l < MAX_MATCH
      invariant l >= MIN_MATCH && Matches(data, cand, i, l)
      invariant Extent(data, cand, i, l) == Extent(data, cand, i, MIN_MATCH)
      decreases |data| - l
    {
      MatchShrinks(data, cand, i, l);
      l := l + 1;
    }
  }

  lemma IndexOne(t: map<seq<Byte>, nat>, data: seq<Byte>, i: nat)
    requires Indexed(t, data, i)
    ensures i + MIN_MATCH <= |data| ==> Indexed(t[KeyAt(data, i) := i], data, i + 1)
    ensures i + MIN_MATCH > |data| ==> Indexed(t, data, i + 1)
  {
  }

  /** The last earlier place of the four bytes at i, extended as far as it goes; and i is indexed. */
  method FindMatch(t: map<seq<Byte>, nat>, data: seq<Byte>, i: nat)
    returns (bestLen: nat, bestOff: nat, table: map<seq<Byte>, nat>)
    requires Indexed(t, data, i) && i < |data|
    ensures Indexed(table, data, i + 1) && (bestLen, bestOff) == MatchAt(data, i)
    ensures bestLen >= MIN_MATCH ==> 1 <= bestOff <= MAX_OFFSET && bestOff <= i && Matches(data, i - bestOff, i, bestLen)
    ensures bestLen >= MIN_MATCH ==> i + MIN_MATCH <= |data| && NotSince(data, i - bestOff + 1, i)
    ensures bestLen >= MIN_MATCH ==> Longest(data, i - bestOff, i, bestLen)
    ensures bestLen < MIN_MATCH && i + MIN_MATCH <= |data| ==> NotSince(data, i - MAX_OFFSET, i)
  {
    bestLen, bestOff, table := 0, 0, t;
    IndexOne(t, data, i);
    if i + MIN_MATCH <= |data| {
      var key := KeyAt(data, i);
      LastIs(data, i, i, if key in table then table[key] else -1);
      if key in table {
        var off := i - table[key];
        if off <= MAX_OFFSET {
          bestLen := MatchLength(data, table[key], i);
          bestOff := off;
        }
      }
      table := table[key := i];
    }
  }

  /** Index every position a match covers that has four bytes. */
  method IndexMatch(t: map<seq<Byte>, nat>, data: seq<Byte>, i: nat, l: nat) returns (table: map<seq<Byte>, nat>)
    requires Indexed(t, data, i + 1) && l >= 1 && i + l <= |data|
    ensures Indexed(table, data, i + l)
  {
    hide Indexed;
    table := t;
    var end := if i + l <= |data| - MIN_MATCH + 1 then i + l else |data| - MIN_MATCH + 1;
    var k: nat := i + 1;
    while k < end
      invariant i + 1 <= k <= i + l && Indexed(table, data, k)
    {
      IndexOne(table, data, k);
      table := table[KeyAt(data, k) := k];
      k := k + 1;
    }
    NoMoreKeys(table, data, k, i + l);
  }

  lemma NoMoreKeys(t: map<seq<Byte>, nat>, data: seq<Byte>, k: nat, n: nat)
    requires Indexed(t, data, k) && k <= n && (k == n || k + MIN_MATCH > |data|)
    ensures Indexed(t, data, n)
  {
  }

  /** Sequences that stand for the first `lit` bytes, and their encoding. */
  ghost predicate Emitted(data: seq<Byte>, out: seq<Byte>, ss: seq<Sequence>, lit: nat)
  {
    Decodable(ss) && out == EncodeAll(ss) && lit <= |data| && Expand(ss) == data[..lit] && |out| <= lit + lit / 255
  }

  lemma EmitStep(data: seq<Byte>, out: seq<Byte>, ss: seq<Sequence>, lit: nat, i: nat, cand: nat, l: nat)
    requires Emitted(data, out, ss, lit) && lit <= i && Matches(data, cand, i, l)
    requires l >= MIN_MATCH && i - cand <= MAX_OFFSET
    ensures var s := Sequence(data[lit..i], i - cand, l);
            Wellformed(s) && Emitted(data, out + EncodeSequence(s), ss + [s], i + l)
  {
    hide EncodeSequence, Copy, Decodable, EncodeAll, Expand, Matches;
    MatchFits(data, cand, i, l);
    var s := Sequence(data[lit..i], i - cand, l);
    assert data[..lit] + s.lits == data[..i];
    CopyReproduces(data, cand, i, l);
    PushParts(ss, s);
    SequenceSize(s);
    FloorAdds(lit, |s.lits|, l);
  }

  /** One sequence more. */
  lemma PushParts(ss: seq<Sequence>, s: Sequence)
    requires Decodable(ss) && Wellformed(s) && s.offset <= |Expand(ss)| + |s.lits|
    ensures Decodable(ss + [s]) && EncodeAll(ss + [s]) == EncodeAll(ss) + EncodeSequence(s)
    ensures Expand(ss + [s]) == Copy(Expand(ss) + s.lits, s.offset, s.matchLen)
  {
    hide EncodeSequence, Copy;
    var more := ss + [s];
    assert more[..|more| - 1] == ss && more[|more| - 1] == s;
  }

  /** A sequence costs its own length and at most one byte per 255 literals. */
  lemma SequenceSize(s: Sequence)
    requires Wellformed(s)
    ensures |EncodeSequence(s)| <= |s.lits| + s.matchLen + |s.lits| / 255
  {
    TailSize(|s.lits|);
    TailSize(s.matchLen - MIN_MATCH);
  }

  lemma TailSize(n: nat)
    ensures |LengthTail(n)| <= if n >= 15 then n / 255 + 1 else 0
    ensures n >= 15 ==> |LengthTail(n)| <= n - 13
  {
  }

  lemma FloorAdds(a: nat, b: nat, c: nat)
    ensures a / 255 + b / 255 <= (a + b + c) / 255
  {
  }

  /** Every sequence of the parse adds to what the sequences before it stand for. */
  lemma {:induction false} ParseEmits(data: seq<Byte>, out: seq<Byte>, ss: seq<Sequence>, i: nat, lit: nat)
    requires lit <= i <= |data| && Emitted(data, out, ss, lit)
    ensures var (rest, e) := Parse(data, i, lit);
            Decodable(ss + rest) && Emitted(data, EncodeAll(ss + rest), ss + rest, e)
    decreases |data| - i
  {
    hide Emitted, MatchAt, Matches, EncodeSequence;
    if i == |data| {
      assert ss + [] == ss;
      EmittedIs(data, out, ss, lit);
    } else {
      var (l, off) := MatchAt(data, i);
      if l >= MIN_MATCH {
        var s := Sequence(data[lit..i], off, l);
        MatchAtMatches(data, i);
        EmitStep(data, out, ss, lit, i, i - off, l);
        ParseEmits(data, out + EncodeSequence(s), ss + [s], i + l, i + l);
        assert ss + [s] + Parse(data, i + l, i + l).0 == ss + ([s] + Parse(data, i + l, i + l).0);
      } else {
        ParseEmits(data, out, ss, i + 1, lit);
      }
    }
  }

  lemma EmittedIs(data: seq<Byte>, out: seq<Byte>, ss: seq<Sequence>, lit: nat)
    requires Emitted(data, out, ss, lit)
    ensures Decodable(ss) && out == EncodeAll(ss)
  {
  }

  /** The block of the parse: its sequences, and the last literals if there are any or nothing else. */
  ghost function Block(data: seq<Byte>): seq<Byte>
  {
    var (ss, lit) := Parse(data, 0, 0);
    ParseDecodable(data);
    var a := EncodeAll(ss);
    if lit < |data| || a == [] then a + EncodeHead(data[lit..], 0) else a
  }

  lemma ParseDecodable(data: seq<Byte>)
    ensures var (ss, lit) := Parse(data, 0, 0);
            Decodable(ss) && Emitted(data, EncodeAll(ss), ss, lit)
  {
    hide Parse, Emitted;
    NothingEmitted(data);
    ParseEmits(data, [], [], 0, 0);
    assert [] + Parse(data, 0, 0).0 == Parse(data, 0, 0).0;
  }

  /** The block decodes to the data, is at most n + n/255 + 2 bytes long, and ends with a
      literal run exactly when literals are left over or there is no data. */
  lemma BlockMeans(data: seq<Byte>)
    ensures Decode(Block(data), |data|) == Ok(data)
    ensures |Block(data)| <= |data| + |data| / 255 + 2
    ensures EndsWithLiterals(Block(data), 0, []) <==> Parse(data, 0, 0).1 < |data| || data == []
  {
    hide Parse, Emitted, Decode, EndsWithLiterals, EncodeHead;
    var (ss, lit) := Parse(data, 0, 0);
    ParseDecodable(data);
    BlockDone(data, EncodeAll(ss), ss, lit);
    EmptyIff(data, EncodeAll(ss), ss, lit);
  }

  /** No sequences are written for no data, and some are when all of the data is matched. */
  lemma EmptyIff(data: seq<Byte>, out: seq<Byte>, ss: seq<Sequence>, lit: nat)
    requires Emitted(data, out, ss, lit)
    ensures lit == |data| ==> (out == [] <==> data == [])
  {
    hide EncodeSequence, Copy;
    if ss != [] {
      LastParts(ss, ss[..|ss| - 1], ss[|ss| - 1]);
      SequenceIsNotEmpty(ss[|ss| - 1]);
    }
  }

  lemma SequenceIsNotEmpty(s: Sequence)
    requires Wellformed(s)
    ensures EncodeSequence(s) != []
  {
  }

  /** A block that ends with a match repeats its last four bytes from within 65535 bytes. */
  lemma {:induction false} EndRepeats(data: seq<Byte>, i: nat, lit: nat)
    requires lit <= i <= |data| && lit < |data| && Parse(data, i, lit).1 == |data|
    ensures |data| >= MIN_MATCH && !NotSince(data, |data| - MIN_MATCH - MAX_OFFSET, |data| - MIN_MATCH)
    decreases |data| - i
  {
    hide MatchAt, NotSince;
    var (l, off) := MatchAt(data, i);
    if l >= MIN_MATCH {
      MatchAtMatches(data, i);
      if i + l == |data| {
        LastKey(data, i - off, i, l);
      } else {
        EndRepeats(data, i + l, i + l);
      }
    } else {
      EndRepeats(data, i + 1, lit);
    }
  }

  lemma LastKey(data: seq<Byte>, cand: nat, i: nat, l: nat)
    requires Matches(data, cand, i, l) && l >= MIN_MATCH && i + l == |data| && i - cand <= MAX_OFFSET
    ensures !NotSince(data, |data| - MIN_MATCH - MAX_OFFSET, |data| - MIN_MATCH)
  {
    var k := cand + l - MIN_MATCH;
    assert KeyAt(data, k) == data[cand..cand + l][l - MIN_MATCH..];
    assert KeyAt(data, i + l - MIN_MATCH) == data[i..i + l][l - MIN_MATCH..];
  }

  /** What can be told before compressing: when the last four bytes of the data do not occur
      in the 65535 bytes before them, the block ends with literals. */
  lemma FreshEnd(data: seq<Byte>)
    requires |data| >= MIN_MATCH ==> NotSince(data, |data| - MIN_MATCH - MAX_OFFSET, |data| - MIN_MATCH)
    ensures EndsWithLiterals(Block(data), 0, [])
  {
    hide Parse, NotSince, EndsWithLiterals, Block;
    BlockMeans(data);
    if data != [] && Parse(data, 0, 0).1 == |data| { EndRepeats(data, 0, 0); }
  }

  /** The rule that a block ends with a literal run is broken by five equal bytes. */
  lemma FiveEqualBytes(b: Byte)
    ensures Block([b, b, b, b, b]) == [0x10, b, 1, 0] && !EndsWithLiterals([0x10, b, 1, 0], 0, [])
  {
    hide Parse, EndsWithLiterals, Decode, EncodeAll, Emitted;
    var data: seq<Byte> := [b, b, b, b, b];
    FiveParse(b, data);
    ParseDecodable(data);
    BlockMeans(data);
    FiveEncoded(b, Sequence([b], 1, 4));
  }

  lemma FiveEncoded(b: Byte, s: Sequence)
    requires s == Sequence([b], 1, 4)
    ensures Decodable([s]) ==> EncodeAll([s]) == [0x10, b, 1, 0]
  {
    assert [s][..0] == [];
    assert EncodeSequence(s) == [0x10, b, 1, 0];
  }

  lemma FiveParse(b: Byte, data: seq<Byte>)
    requires data == [b, b, b, b, b]
    ensures Parse(data, 0, 0) == ([Sequence([b], 1, 4)], 5)
  {
    assert Last(data, 0, 0) == -1;
    assert KeyAt(data, 0) == [b, b, b, b] == KeyAt(data, 1);
    assert Last(data, 1, 1) == 0;
    assert Extent(data, 0, 1, 4) == 4;
    assert MatchAt(data, 0) == (0, 0) && MatchAt(data, 1) == (4, 1);
    hide MatchAt;
    assert data[0..1] == [b];
    ParseLiteral(data, 0, 0, 0, 0);
    ParseMatch(data, 1, 0, 4, 1, [], [Sequence([b], 1, 4)]);
    ParseEnd(data, 5, [Sequence([b], 1, 4)]);
    hide Parse;
    assert [] + Parse(data, 1, 0).0 == Parse(data, 1, 0).0;
  }

  /** The block of the greedy parse. */
  method Compress(data: seq<Byte>) returns (out: seq<Byte>)
    ensures out == Block(data)
    ensures Decode(out, |data|) == Ok(data)
    ensures |out| <= |data| + |data| / 255 + 2
    ensures EndsWithLiterals(out, 0, []) <==> Parse(data, 0, 0).1 < |data| || data == []
  {
    hide Emitted, Matches, Indexed, Decode, EndsWithLiterals, MatchAt, EncodeSequence, EncodeHead;
    var n := |data|;
    var table: map<seq<Byte>, nat> := map[];
    var i: nat, lit: nat := 0, 0;
    ghost var ss: seq<Sequence> := [];
    out := [];
    NothingEmitted(data);
    assert [] + Parse(data, 0, 0).0 == Parse(data, 0, 0).0;
    while i < n
      invariant lit <= i <= n
      invariant Indexed(table, data, i) && Emitted(data, out, ss, lit)
      invariant Parse(data, 0, 0) == (ss + Parse(data, i, lit).0, Parse(data, i, lit).1)
      decreases n - i
    {
      var bestLen, bestOff;
      bestLen, bestOff, table := FindMatch(table, data, i);
      ghost var was := ss;
      if bestLen >= MIN_MATCH {
        EmitStep(data, out, ss, lit, i, i - bestOff, bestLen);
        out := EmitSequence(out, Sequence(data[lit..i], bestOff, bestLen));
        ss := ss + [Sequence(data[lit..i], bestOff, bestLen)];
        table := IndexMatch(table, data, i, bestLen);
        ParseMatch(data, i, lit, bestLen, bestOff, was, ss);
        i := i + bestLen;
        lit := i;
      } else {
        ParseLiteral(data, i, lit, bestLen, bestOff);
        i := i + 1;
      }
    }
    ParseEnd(data, lit, ss);
    EmittedIs(data, out, ss, lit);
    if n - lit > 0 || |out| == 0 {
      out := AppendHead(out, data[lit..], 0);
    }
    BlockMeans(data);
  }

  lemma ParseMatch(data: seq<Byte>, i: nat, lit: nat, l: nat, off: nat, was: seq<Sequence>, ss: seq<Sequence>)
    requires lit <= i < |data| && (l, off) == MatchAt(data, i) && l >= MIN_MATCH
    requires ss == was + [Sequence(data[lit..i], off, l)]
    ensures i + l <= |data| && was + Parse(data, i, lit).0 == ss + Parse(data, i + l, i + l).0
    ensures Parse(data, i, lit).1 == Parse(data, i + l, i + l).1
  {
    hide MatchAt;
  }

  lemma ParseLiteral(data: seq<Byte>, i: nat, lit: nat, l: nat, off: nat)
    requires lit <= i < |data| && (l, off) == MatchAt(data, i) && l < MIN_MATCH
    ensures Parse(data, i, lit) == Parse(data, i + 1, lit)
  {
    hide MatchAt;
  }

  lemma ParseEnd(data: seq<Byte>, lit: nat, ss: seq<Sequence>)
    requires lit <= |data|
    ensures Parse(data, |data|, lit) == ([], lit) && ss + [] == ss
  {
  }

  lemma NothingEmitted(data: seq<Byte>)
    ensures Indexed(map[], data, 0) && Emitted(data, [], [], 0)
  {
  }

  lemma MatchFits(data: seq<Byte>, cand: nat, i: nat, l: nat)
    requires Matches(data, cand, i, l)
    ensures cand < i && i + l <= |data|
  {
  }

  lemma BlockDone(data: seq<Byte>, out: seq<Byte>, ss: seq<Sequence>, lit: nat)
    requires Emitted(data, out, ss, lit)
    ensures Decode(out + EncodeHead(data[lit..], 0), |data|) == Ok(data)
    ensures lit == |data| ==> Decode(out, |data|) == Ok(data)
    ensures EndsWithLiterals(out + EncodeHead(data[lit..], 0), 0, []) && !EndsWithLiterals(out, 0, [])
    ensures |out + EncodeHead(data[lit..], 0)| <= |data| + |data| / 255 + 2
    ensures |out| <= |data| + |data| / 255
  {
    hide Decode, EncodeHead, Decodable, EncodeAll, Expand, EndsWithLiterals;
    BlockDecodes(data, out, ss, lit);
    BlockSize(data, lit);
    FloorAdds(lit, |data| - lit, 0);
  }

  lemma BlockDecodes(data: seq<Byte>, out: seq<Byte>, ss: seq<Sequence>, lit: nat)
    requires Emitted(data, out, ss, lit)
    ensures Decode(out + EncodeHead(data[lit..], 0), |data|) == Ok(data)
    ensures lit == |data| ==> Decode(out, |data|) == Ok(data)
    ensures EndsWithLiterals(out + EncodeHead(data[lit..], 0), 0, []) && !EndsWithLiterals(out, 0, [])
  {
    hide DecodeFrom, EndsWithLiterals, EncodeHead, EncodeAll, Expand, Decodable;
    DecodesBlock(ss, data[lit..]);
    assert data[..lit] + data[lit..] == data;
    assert lit == |data| ==> data[..lit] == data;
  }

  lemma BlockSize(data: seq<Byte>, lit: nat)
    requires lit <= |data|
    ensures |EncodeHead(data[lit..], 0)| <= |data| - lit + (|data| - lit) / 255 + 2
  {
    TailSize(|data| - lit);
    hide LengthTail;
  }

  /** What the script's own check asserts: the round trip never fails. */
  method RoundTrip(data: seq<Byte>) returns (back: seq<Byte>)
    ensures back == data
  {
    var packed := Compress(data);
    var r := Decompress(packed, |data|);
    back := r.value;
  }
}
