/** Bytes as bit vectors, where the code shifts and masks them. */
module RawBytes {
  import opened Arith
  import Octets

  type Byte = bv8
  type Bytes = seq<Byte>

  function Zeros(n: nat): (s: Bytes)
    ensures |s| == n && forall i :: 0 <= i < n ==> s[i] == 0
  {
    seq(n, _ => 0)
  }

  /** 1 << j. */
  function Mask(j: nat): Byte
    requires j < 8
  {
    if j == 0 then 0x01 else if j == 1 then 0x02 else if j == 2 then 0x04 else if j == 3 then 0x08
    else if j == 4 then 0x10 else if j == 5 then 0x20 else if j == 6 then 0x40 else 0x80
  }

  /** Bit j of a byte, the least significant first. */
  predicate BitOf(b: Byte, j: nat)
    requires j < 8
  {
    b & Mask(j) != 0
  }

  /** The low byte of n. */
  function ByteOf(n: nat): Byte
  {
    (n % 256) as bv8
  }

  /** n as k big-endian bytes, modulo 256^k. */
  function BigEndian(n: nat, k: nat): (s: Bytes)
    ensures |s| == k
    decreases k
  {
    if k == 0 then [] else BigEndian(n / 256, k - 1) + [ByteOf(n)]
  }

  function ValueOf(b: Byte): nat
  {
    b as nat
  }

  /** The number that bytes stand for, the most significant first. */
  function Value(s: Bytes): nat
  {
    if s == [] then 0 else 256 * Value(s[..|s| - 1]) + ValueOf(s[|s| - 1])
  }

  lemma NextByte(b: Byte)
    ensures ValueOf(b) < 256 && ValueOf(0) == 0 && (b == 0xff <==> ValueOf(b) == 255)
    ensures b != 0xff ==> b + 1 != 0 && ValueOf(b + 1) == ValueOf(b) + 1
    ensures b == 0xff ==> b + 1 == 0
  {
  }

  lemma NumberBack(m: int)
    requires 0 <= m < 256
    ensures (m as bv8) as int == m
  {
    if m < 16 {} else if m < 32 {} else if m < 64 {} else if m < 128 {} else {}
  }

  lemma LowByte(n: nat)
    ensures ValueOf(ByteOf(n)) == n % 256
  {
    NumberBack(n % 256);
  }

  lemma NumberTells(a: Byte, b: Byte)
    requires ValueOf(a) == ValueOf(b)
    ensures a == b
  {
  }

  /** BigEndian writes the number modulo 256^k. */
  lemma {:induction false} ValueIs(n: nat, k: nat)
    ensures Value(BigEndian(n, k)) == n % Octets.P256(k)
    decreases k
  {
    if k > 0 {
      var q := Octets.P256(k - 1);
      var s := BigEndian(n, k);
      assert s[..k - 1] == BigEndian(n / 256, k - 1) && s[k - 1] == ByteOf(n);
      ValueIs(n / 256, k - 1);
      LowByte(n);
      SplitMod(n, q);
    }
  }

  lemma {:induction false} BigEndianMod(n: nat, k: nat)
    ensures BigEndian(n % Octets.P256(k), k) == BigEndian(n, k)
    decreases k
  {
    if k > 0 {
      var q := Octets.P256(k - 1);
      SplitMod(n, q);
      BigEndianMod(n / 256, k - 1);
    }
  }

  lemma SplitMod(n: nat, q: nat)
    requires q > 0
    ensures (n % (256 * q)) % 256 == n % 256 && (n % (256 * q)) / 256 == n / 256 % q
  {
    var a, b := n / 256, n % 256;
    var c, d := a / q, a % q;
    assert n == c * (256 * q) + (256 * d + b) by {
      assert a == c * q + d;
      assert 256 * a == c * (256 * q) + 256 * d;
    }
    DivModUnique(n, c, 256 * d + b, 256 * q);
    DivModUnique(256 * d + b, d, b, 256);
  }

  /** Byte strings of one length are told apart by their numbers. */
  lemma {:induction false} ValueInjective(s: Bytes, t: Bytes)
    requires |s| == |t| && Value(s) == Value(t)
    ensures s == t
  {
    hide ValueOf;
    if s != [] {
      var k := |s| - 1;
      NextByte(s[k]);
      NextByte(t[k]);
      assert Value(s[..k]) == Value(t[..k]) && ValueOf(s[k]) == ValueOf(t[k]);
      NumberTells(s[k], t[k]);
      ValueInjective(s[..k], t[..k]);
      assert s == s[..k] + [s[k]] && t == t[..k] + [t[k]];
    }
  }
}
