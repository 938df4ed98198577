/** kernel/src/fs/diskfs.rs:24-199: inodes and the superblock as bytes. */
module DiskFormat {
  import opened Octets
  import opened FsTree
  import opened Wrappers

  const BLOCK_SIZE: nat := 4096
  const BLOCK_COUNT: nat := 1024
  const INODE_SIZE: nat := 64
  const INODE_COUNT: nat := 64
  const INODE_TABLE_BLOCK: nat := 1
  const DATA_BITMAP_BLOCK: nat := 2
  const DATA_START_BLOCK: nat := 3
  const MAGIC: nat := 0x31465952524142

  type U64 = x: int | 0 <= x < 18446744073709551616

  datatype Inode = Inode(used: Byte, vtype: Byte, nameLen: Byte, mode: U16, uid: U32, gid: U32, size: U32,
                         parent: U32, first: U32, count: U32, name: seq<Byte>)

  datatype Superblock = Superblock(magic: U64, version: U32, blockSize: U32, inodeCount: U32, inodeTable: U32,
                                   bitmapBlock: U32, dataStart: U32, totalBlocks: U32, rootInode: U32, generation: U32)

  // ---- little-endian words -------------------------------------------------------------------

  /** Byte j of a word. */
  function Digit(v: U32, j: nat): Byte
  {
    if j == 0 then v % 256 else if j == 1 then v / 256 % 256 else if j == 2 then v / 65536 % 256 else v / 16777216
  }

  function Words(ws: seq<U32>): (s: seq<Byte>)
    ensures |s| == 4 * |ws|
  {
    seq(4 * |ws|, k requires 0 <= k < 4 * |ws| => Digit(ws[k / 4], k % 4))
  }

  function Joined(a: Byte, b: Byte, c: Byte, d: Byte): U32
  {
    a + 256 * b + 65536 * c + 16777216 * d
  }

  function Word(s: seq<Byte>, o: nat): (w: U32)
    requires o + 4 <= |s|
  {
    Joined(s[o], s[o + 1], s[o + 2], s[o + 3])
  }

  lemma JoinDigits(v: U32)
    ensures Joined(Digit(v, 0), Digit(v, 1), Digit(v, 2), Digit(v, 3)) == v
  {
    assert v / 65536 == v / 256 / 256 && v / 16777216 == v / 65536 / 256;
  }

  lemma WordsAt(ws: seq<U32>, i: nat)
    requires i < |ws|
    ensures Word(Words(ws), 4 * i) == ws[i]
  {
    var s, o := Words(ws), 4 * i;
    assert s[o] == Digit(ws[i], 0);
    assert s[o + 1] == Digit(ws[i], 1);
    assert s[o + 2] == Digit(ws[i], 2);
    assert s[o + 3] == Digit(ws[i], 3);
    hide *;
    JoinDigits(ws[i]);
  }

  lemma SameWord(s: seq<Byte>, a: seq<Byte>, b: seq<Byte>, c: seq<Byte>, o: nat, k: nat)
    requires s == a + b + c && o == |a| + k && k + 4 <= |b|
    ensures Word(s, o) == Word(b, k)
  {
    hide Joined;
    assert s[o] == b[k] && s[o + 1] == b[k + 1] && s[o + 2] == b[k + 2] && s[o + 3] == b[k + 3];
  }

  /** Word i of a record whose words follow a head. */
  lemma WordOf(s: seq<Byte>, head: seq<Byte>, ws: seq<U32>, tail: seq<Byte>, i: nat)
    requires s == head + Words(ws) + tail && i < |ws|
    ensures Word(s, |head| + 4 * i) == ws[i]
  {
    hide Words, Joined;
    WordsAt(ws, i);
    SameWord(s, head, Words(ws), tail, |head| + 4 * i, 4 * i);
  }

  /** A word is the little-endian number of its four bytes. */
  lemma WordIs(s: seq<Byte>, o: nat)
    requires o + 4 <= |s|
    ensures LittleEndian(s[o..o + 4]) == Word(s, o)
  {
    hide LittleEndian;
    Bytewise(s, o, 4);
    Bytewise(s, o + 1, 3);
    Bytewise(s, o + 2, 2);
    Bytewise(s, o + 3, 1);
  }

  lemma Bytewise(s: seq<Byte>, o: nat, n: nat)
    requires 0 < n && o + n <= |s|
    ensures LittleEndian(s[o..o + n]) == s[o] + if n == 1 then 0 else 256 * LittleEndian(s[o + 1..o + n])
  {
    LittleEndianHead(s[o..o + n]);
    assert s[o..o + n][1..] == s[o + 1..o + n];
  }

  lemma HalfIs(s: seq<Byte>, o: nat)
    requires o + 2 <= |s|
    ensures LittleEndian(s[o..o + 2]) == Half(s[o], s[o + 1])
  {
    hide LittleEndian;
    Bytewise(s, o, 2);
    Bytewise(s, o + 1, 1);
  }

  // ---- inodes --------------------------------------------------------------------------------

  function Head(d: Inode): (s: seq<Byte>)
    ensures |s| == 8
  {
    [d.used, d.vtype, d.nameLen, 0, d.mode % 256, d.mode / 256, 0, 0]
  }

  function Fields(d: Inode): seq<U32>
  {
    [d.uid, d.gid, d.size, d.parent, d.first, d.count]
  }

  function Pack(d: Inode): (s: seq<Byte>)
    requires |d.name| == 32
    ensures |s| == INODE_SIZE
  {
    Head(d) + Words(Fields(d)) + d.name
  }

  function Half(a: Byte, b: Byte): U16
  {
    a + 256 * b
  }

  function Unpack(s: seq<Byte>): (d: Inode)
    requires |s| == INODE_SIZE
    ensures |d.name| == 32
  {
    Inode(s[0], s[1], s[2], Half(s[4], s[5]), Word(s, 8), Word(s, 12), Word(s, 16), Word(s, 20), Word(s, 24),
          Word(s, 28), s[32..64])
  }

  lemma PackParts(d: Inode, s: seq<Byte>)
    requires |d.name| == 32 && s == Pack(d)
    ensures s[..8] == Head(d) && s[32..64] == d.name
  {
    hide Words, Head;
  }

  lemma PackWords(d: Inode, s: seq<Byte>)
    requires |d.name| == 32 && s == Pack(d)
    ensures Word(s, 8) == d.uid && Word(s, 12) == d.gid && Word(s, 16) == d.size
    ensures Word(s, 20) == d.parent && Word(s, 24) == d.first && Word(s, 28) == d.count
  {
    hide Words, Word, Head;
    WordOf(s, Head(d), Fields(d), d.name, 0);
    WordOf(s, Head(d), Fields(d), d.name, 1);
    WordOf(s, Head(d), Fields(d), d.name, 2);
    WordOf(s, Head(d), Fields(d), d.name, 3);
    WordOf(s, Head(d), Fields(d), d.name, 4);
    WordOf(s, Head(d), Fields(d), d.name, 5);
  }

  /** Where the fields of an inode lie, as little-endian numbers. */
  lemma PackLayout(d: Inode)
    requires |d.name| == 32
    ensures var s := Pack(d);
            && s[0] == d.used && s[1] == d.vtype && s[2] == d.nameLen && s[3] == s[6] == s[7] == 0
            && LittleEndian(s[4..6]) == d.mode && LittleEndian(s[8..12]) == d.uid && LittleEndian(s[12..16]) == d.gid
            && LittleEndian(s[16..20]) == d.size && LittleEndian(s[20..24]) == d.parent
            && LittleEndian(s[24..28]) == d.first && LittleEndian(s[28..32]) == d.count && s[32..64] == d.name
  {
    hide Word, Pack, LittleEndian;
    var s := Pack(d);
    PackParts(d, s);
    PackWords(d, s);
    var h := s[..8];
    assert h[0] == s[0] && h[1] == s[1] && h[2] == s[2] && h[3] == s[3] && h[4] == s[4] && h[5] == s[5] && h[6] == s[6] && h[7] == s[7];
    HalfIs(s, 4);
    WordIs(s, 8);
    WordIs(s, 12);
    WordIs(s, 16);
    WordIs(s, 20);
    WordIs(s, 24);
    WordIs(s, 28);
  }

  lemma UnpackPack(d: Inode)
    requires |d.name| == 32
    ensures Unpack(Pack(d)) == d
  {
    hide Word, Pack;
    var s := Pack(d);
    PackParts(d, s);
    PackWords(d, s);
    var h := s[..8];
    assert h[0] == s[0] && h[1] == s[1] && h[2] == s[2] && h[4] == s[4] && h[5] == s[5];
  }

  // ---- the superblock ------------------------------------------------------------------------

  function Zeros(n: nat): (s: seq<Byte>)
    ensures |s| == n && forall i :: 0 <= i < n ==> s[i] == 0
  {
    seq(n, _ => 0)
  }

  function SuperFields(b: Superblock): seq<U32>
  {
    [b.version, b.blockSize, b.inodeCount, b.inodeTable, b.bitmapBlock, b.dataStart, b.totalBlocks, b.rootInode,
     b.generation]
  }

  function PackSuper(b: Superblock): (s: seq<Byte>)
    ensures |s| == BLOCK_SIZE
  {
    Words([b.magic % 4294967296, b.magic / 4294967296] + SuperFields(b)) + Zeros(4052)
  }

  function UnpackSuper(s: seq<Byte>): Option<Superblock>
    requires |s| == BLOCK_SIZE
  {
    if Word(s, 0) + 4294967296 * Word(s, 4) != MAGIC then None
    else Some(Superblock(MAGIC, Word(s, 8), Word(s, 12), Word(s, 16), Word(s, 20), Word(s, 24), Word(s, 28),
                         Word(s, 32), Word(s, 36), Word(s, 40)))
  }

  lemma SuperWords(b: Superblock, i: nat)
    requires i < 11
    ensures Word(PackSuper(b), 4 * i) == ([b.magic % 4294967296, b.magic / 4294967296] + SuperFields(b))[i]
  {
    hide Word, Words, Zeros;
    var s, z := PackSuper(b), Zeros(4052);
    var f := [b.magic % 4294967296, b.magic / 4294967296] + SuperFields(b);
    assert s == [] + Words(f) + z;
    WordOf(s, [], f, z, i);
  }

  /** Where the fields of the superblock lie, as little-endian numbers. */
  lemma SuperLayout(b: Superblock)
    ensures var s := PackSuper(b);
            && LittleEndian(s[0..4]) + 4294967296 * LittleEndian(s[4..8]) == b.magic
            && LittleEndian(s[8..12]) == b.version && LittleEndian(s[12..16]) == b.blockSize
            && LittleEndian(s[16..20]) == b.inodeCount && LittleEndian(s[20..24]) == b.inodeTable
            && LittleEndian(s[24..28]) == b.bitmapBlock && LittleEndian(s[28..32]) == b.dataStart
            && LittleEndian(s[32..36]) == b.totalBlocks && LittleEndian(s[36..40]) == b.rootInode
            && LittleEndian(s[40..44]) == b.generation && forall i :: 44 <= i < BLOCK_SIZE ==> s[i] == 0
  {
    var s := PackSuper(b);
    assert s[44..] == Zeros(4052);
    forall i | 44 <= i < BLOCK_SIZE ensures s[i] == 0 { assert s[i] == s[44..][i - 44]; }
    hide Word, Words, Zeros, PackSuper, LittleEndian;
    SuperWordsAll(b, s);
  }

  lemma SuperWordsAll(b: Superblock, s: seq<Byte>)
    requires s == PackSuper(b)
    ensures LittleEndian(s[0..4]) == b.magic % 4294967296 && LittleEndian(s[4..8]) == b.magic / 4294967296
    ensures LittleEndian(s[8..12]) == b.version && LittleEndian(s[12..16]) == b.blockSize
    ensures LittleEndian(s[16..20]) == b.inodeCount && LittleEndian(s[20..24]) == b.inodeTable
    ensures LittleEndian(s[24..28]) == b.bitmapBlock && LittleEndian(s[28..32]) == b.dataStart
    ensures LittleEndian(s[32..36]) == b.totalBlocks && LittleEndian(s[36..40]) == b.rootInode
    ensures LittleEndian(s[40..44]) == b.generation
  {
    hide Word, PackSuper, LittleEndian;
    forall i: nat | i < 11 ensures LittleEndian(s[4 * i..4 * i + 4]) == Word(s, 4 * i) { WordIs(s, 4 * i); }
    SuperWords(b, 0);
    SuperWords(b, 1);
    SuperWords(b, 2);
    SuperWords(b, 3);
    SuperWords(b, 4);
    SuperWords(b, 5);
    SuperWords(b, 6);
    SuperWords(b, 7);
    SuperWords(b, 8);
    SuperWords(b, 9);
    SuperWords(b, 10);
  }

  lemma UnpackPackSuper(b: Superblock)
    ensures UnpackSuper(PackSuper(b)) == if b.magic == MAGIC then Some(b) else None
  {
    hide Word, PackSuper;
    SuperWords(b, 0);
    SuperWords(b, 1);
    SuperWords(b, 2);
    SuperWords(b, 3);
    SuperWords(b, 4);
    SuperWords(b, 5);
    SuperWords(b, 6);
    SuperWords(b, 7);
    SuperWords(b, 8);
    SuperWords(b, 9);
    SuperWords(b, 10);
  }
}
