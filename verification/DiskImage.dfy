/** What a saved filesystem looks like on the disk. */
module DiskImage {
  import opened Arith
  import opened Octets
  import opened FsTree
  import opened FsPool
  import opened FsOrder
  import opened DiskFormat

  /** One inode's worth: a directory, or a file and its bytes. Entry 0 is the root. */
  datatype Item = Item(dir: bool, name: seq<Byte>, mode: U16, uid: U32, gid: U32, parent: nat, data: seq<Byte>)

  ghost predicate ItemOk(it: Item)
  {
    GoodName(it.name) && |it.data| <= MAX_FILE_SIZE && it.parent < INODE_COUNT && (it.dir ==> it.data == [])
  }

  ghost predicate ItemsOk(items: seq<Item>)
  {
    |items| <= INODE_COUNT && forall k :: 0 <= k < |items| ==> ItemOk(items[k])
  }

  // ---- blocks --------------------------------------------------------------------------------

  function BlocksFor(n: nat): nat
  {
    (n + (BLOCK_SIZE - 1)) / BLOCK_SIZE
  }

  /** Block b of a file, padded with zeros. */
  function Chunk(data: seq<Byte>, b: nat): (s: seq<Byte>)
    requires b * BLOCK_SIZE <= |data|
    ensures |s| == BLOCK_SIZE
  {
    var lo := b * BLOCK_SIZE;
    if |data| - lo >= BLOCK_SIZE then data[lo..lo + BLOCK_SIZE] else data[lo..] + Zeros(BLOCK_SIZE - (|data| - lo))
  }

  /** Data blocks of all items together. */
  ghost function Used(items: seq<Item>): nat
  {
    if items == [] then 0 else Used(items[..|items| - 1]) + BlocksFor(|items[|items| - 1].data|)
  }

  ghost function First(items: seq<Item>, k: nat): nat
    requires k <= |items|
  {
    DATA_START_BLOCK + Used(items[..k])
  }

  lemma FirstStep(items: seq<Item>, k: nat)
    requires k < |items|
    ensures First(items, k + 1) == First(items, k) + BlocksFor(|items[k].data|)
  {
    assert items[..k + 1][..k] == items[..k];
  }

  lemma {:induction false} FirstMono(items: seq<Item>, j: nat, k: nat)
    requires j <= k <= |items|
    ensures First(items, j) <= First(items, k)
  {
    if j < k {
      FirstMono(items, j, k - 1);
      FirstStep(items, k - 1);
    }
  }

  /** The run of one file ends before the run of the next begins. */
  lemma RunsApart(items: seq<Item>, j: nat, k: nat)
    requires j < k < |items|
    ensures First(items, j) + BlocksFor(|items[j].data|) <= First(items, k)
  {
    FirstStep(items, j);
    FirstMono(items, j + 1, k);
  }

  /** Sixteen blocks at most per file, none for the root: the data always fits the disk. */
  lemma {:induction false} FirstBound(items: seq<Item>, k: nat)
    requires ItemsOk(items) && 1 <= k <= |items| && items[0].dir
    ensures First(items, k) <= DATA_START_BLOCK + 16 * (k - 1)
  {
    FirstStep(items, k - 1);
    if k == 1 {
      assert items[..0] == [];
    } else {
      FirstBound(items, k - 1);
    }
  }

  lemma RunInside(items: seq<Item>, k: nat)
    requires ItemsOk(items) && k < |items| && items[0].dir
    ensures DATA_START_BLOCK <= First(items, k) && First(items, k) + BlocksFor(|items[k].data|) <= BLOCK_COUNT
  {
    FirstStep(items, k);
    FirstBound(items, k + 1);
  }

  /** Every block below the end belongs to some file's run. */
  lemma {:induction false} RunCovers(items: seq<Item>, k: nat, b: nat) returns (j: nat)
    requires k <= |items| && DATA_START_BLOCK <= b < First(items, k)
    ensures j < k && First(items, j) <= b < First(items, j) + BlocksFor(|items[j].data|)
  {
    assert items[..0] == [];
    j := k - 1;
    FirstStep(items, j);
    if b < First(items, j) { j := RunCovers(items, j, b); }
  }

  // ---- the bitmap ----------------------------------------------------------------------------

  /** x | 1 << k. */
  function WithBit(x: nat, k: nat): nat
  {
    if Bit(x, k) then x else x + Twos(k)
  }

  ghost predicate Marked(bitmap: seq<Byte>, b: nat)
    requires |bitmap| == BLOCK_SIZE && b < 8 * BLOCK_SIZE
  {
    Bit(bitmap[b / 8], b % 8)
  }

  ghost predicate BitmapOk(bitmap: seq<Byte>, n: nat)
  {
    |bitmap| == BLOCK_SIZE && forall b :: 0 <= b < 8 * BLOCK_SIZE ==> (Marked(bitmap, b) <==> b < n)
  }

  /** Byte i of a bitmap whose first n bits are set. */
  function Filled(n: nat, i: nat): nat
  {
    if 8 * (i + 1) <= n then Twos(8) - 1 else if n <= 8 * i then 0 else Twos(n - 8 * i) - 1
  }

  lemma {:induction false} FilledBit(r: nat, k: nat)
    ensures Bit(Twos(r) - 1, k) <==> k < r
  {
    hide Bit, Twos;
    HalfFilled(r);
    if r == 0 {
      ZeroBit(k);
    } else if k == 0 {
      LowBit(Twos(r) - 1);
    } else {
      FilledBit(r - 1, k - 1);
      BitShift(Twos(r) - 1, k);
    }
  }

  lemma HalfFilled(r: nat)
    ensures if r == 0 then Twos(r) == 1 else (Twos(r) - 1) / 2 == Twos(r - 1) - 1 && (Twos(r) - 1) % 2 == 1
  {
  }

  lemma LowBit(n: nat)
    ensures Bit(n, 0) <==> n % 2 == 1
  {
    assert Twos(0) == 1;
  }

  lemma ZeroBit(k: nat)
    ensures !Bit(0, k)
  {
    hide Twos;
    DivModUnique(0, 0, 0, Twos(k));
  }

  lemma BitShift(n: nat, k: nat)
    requires k > 0
    ensures Bit(n, k) <==> Bit(n / 2, k - 1)
  {
    assert Twos(k) == 2 * Twos(k - 1);
    hide Twos;
    DivDiv(n, 2, Twos(k - 1));
  }

  lemma FilledStep(n: nat, i: nat)
    ensures Filled(n + 1, i) == if i == n / 8 then WithBit(Filled(n, i), n % 8) else Filled(n, i)
  {
    hide Bit;
    if i == n / 8 {
      FilledBit(n % 8, n % 8);
      assert Twos(0) == 1 && Twos(n % 8 + 1) == 2 * Twos(n % 8);
      assert n % 8 + 1 == n + 1 - 8 * i;
    }
  }

  lemma {:induction false} PowerMono(j: nat, k: nat)
    requires j <= k
    ensures Twos(j) <= Twos(k)
  {
    if j < k { PowerMono(j, k - 1); }
  }

  lemma FilledByte(n: nat, i: nat)
    ensures Filled(n, i) < 256
  {
    if 8 * i < n < 8 * (i + 1) { PowerMono(n - 8 * i, 8); }
    assert Twos(8) == 256;
  }

  lemma FilledMarks(bitmap: seq<Byte>, n: nat)
    requires |bitmap| == BLOCK_SIZE && forall i :: 0 <= i < BLOCK_SIZE ==> bitmap[i] == Filled(n, i)
    ensures BitmapOk(bitmap, n)
  {
    forall b | 0 <= b < 8 * BLOCK_SIZE ensures Marked(bitmap, b) <==> b < n {
      var i, k := b / 8, b % 8;
      assert bitmap[i] == Filled(n, i);
      FilledBit(if 8 * i + 8 <= n then 8 else if n <= 8 * i then 0 else n - 8 * i, k);
      assert Twos(0) == 1;
    }
  }

  // ---- the whole image -----------------------------------------------------------------------

  function InodeFor(it: Item, first: nat): (d: Inode)
    requires GoodName(it.name) && |it.data| <= MAX_FILE_SIZE && it.parent < INODE_COUNT && first <= BLOCK_COUNT
    ensures |d.name| == 32
  {
    Inode(1, if it.dir then 1 else 0, |it.name|, it.mode, it.uid, it.gid, |it.data|, it.parent,
          if it.data == [] then 0 else first, BlocksFor(|it.data|), it.name + Zeros(32 - |it.name|))
  }

  ghost function InodeOf(items: seq<Item>, k: nat): (d: Inode)
    requires ItemsOk(items) && k < |items| && items[0].dir
    ensures |d.name| == 32
  {
    RunInside(items, k);
    InodeFor(items[k], First(items, k))
  }

  function SlotBytes(table: seq<Byte>, k: nat): seq<Byte>
    requires |table| == BLOCK_SIZE && k < INODE_COUNT
  {
    table[k * INODE_SIZE..k * INODE_SIZE + INODE_SIZE]
  }

  /** The first n slots of the inode table hold the first n items; the others are unused. */
  ghost predicate InodesAt(table: seq<Byte>, items: seq<Item>, n: nat)
    requires ItemsOk(items) && n <= |items| && items != [] && items[0].dir
  {
    && |table| == BLOCK_SIZE
    && (forall k :: 0 <= k < n ==> SlotBytes(table, k) == Pack(InodeOf(items, k)))
    && (forall k :: n <= k < INODE_COUNT ==> SlotBytes(table, k) == Zeros(INODE_SIZE))
  }

  ghost predicate RunAt(blocks: seq<seq<Byte>>, data: seq<Byte>, first: nat)
    requires |blocks| == BLOCK_COUNT && first + BlocksFor(|data|) <= BLOCK_COUNT
  {
    forall b :: 0 <= b < BlocksFor(|data|) ==> blocks[first + b] == Chunk(data, b)
  }

  ghost predicate RunOf(blocks: seq<seq<Byte>>, items: seq<Item>, k: nat)
    requires |blocks| == BLOCK_COUNT && ItemsOk(items) && k < |items| && items[0].dir
  {
    RunInside(items, k);
    RunAt(blocks, items[k].data, First(items, k))
  }

  ghost predicate DataAt(blocks: seq<seq<Byte>>, items: seq<Item>, n: nat)
    requires |blocks| == BLOCK_COUNT && ItemsOk(items) && n <= |items| && items != [] && items[0].dir
  {
    forall k :: 0 <= k < n ==> RunOf(blocks, items, k)
  }

  function Super(generation: U32): Superblock
  {
    Superblock(MAGIC, 1, BLOCK_SIZE, INODE_COUNT, INODE_TABLE_BLOCK, DATA_BITMAP_BLOCK, DATA_START_BLOCK, BLOCK_COUNT,
               0, generation)
  }

  /** The disk holds exactly these items. */
  ghost predicate Image(blocks: seq<seq<Byte>>, items: seq<Item>, generation: U32)
  {
    && |blocks| == BLOCK_COUNT && ItemsOk(items) && items != [] && items[0].dir
    && blocks[0] == PackSuper(Super(generation))
    && InodesAt(blocks[INODE_TABLE_BLOCK], items, |items|)
    && BitmapOk(blocks[DATA_BITMAP_BLOCK], Used(items))
    && DataAt(blocks, items, |items|)
  }

  /** The bitmap marks the blocks of the files' runs and no others. */
  lemma BitmapExact(blocks: seq<seq<Byte>>, items: seq<Item>, generation: U32, b: nat)
    requires Image(blocks, items, generation) && b < BLOCK_COUNT - DATA_START_BLOCK
    ensures Marked(blocks[DATA_BITMAP_BLOCK], b) <==>
            exists k :: 0 <= k < |items| && InRun(items, k, b)
  {
    assert items[..|items|] == items;
    if Marked(blocks[DATA_BITMAP_BLOCK], b) {
      var k := RunCovers(items, |items|, b + DATA_START_BLOCK);
      assert InRun(items, k, b);
    }
    forall k | 0 <= k < |items| && InRun(items, k, b) ensures b < Used(items) {
      FirstStep(items, k);
      FirstMono(items, k + 1, |items|);
    }
  }

  /** Block b of the data area belongs to file k. */
  ghost predicate InRun(items: seq<Item>, k: nat, b: nat)
    requires k < |items|
  {
    First(items, k) <= DATA_START_BLOCK + b < First(items, k) + BlocksFor(|items[k].data|)
  }

  // ---- the items of a tree -------------------------------------------------------------------

  function IndexOf(order: seq<nat>, id: nat): nat
  {
    if order == [] || order[0] == id then 0 else 1 + IndexOf(order[1..], id)
  }

  ghost function ItemFor(s: Ram, order: seq<nat>, id: nat): Item
    requires id in s.tree.nodes
  {
    var n := s.tree.nodes[id];
    Item(n.kind.Dir?, n.name, n.mode, n.uid, n.gid, if n.parent == 0 then 0 else IndexOf(order, n.parent),
         if n.kind.Dir? then [] else Contents(s, id))
  }

  ghost function Items(s: Ram, order: seq<nat>): (items: seq<Item>)
    requires forall k :: 0 <= k < |order| ==> order[k] in s.tree.nodes
    ensures |items| == |order|
  {
    seq(|order|, k requires 0 <= k < |order| => ItemFor(s, order, order[k]))
  }

  lemma {:induction false} IndexOfAt(order: seq<nat>, id: nat, k: nat)
    requires k < |order| && order[k] == id && id !in order[..k]
    ensures IndexOf(order, id) == k
  {
    if k > 0 {
      assert order[0] != id by { assert order[0] == order[..k][0]; }
      assert order[1..][..k - 1] == order[..k][1..];
      IndexOfAt(order[1..], id, k - 1);
    }
  }

  lemma {:induction false} IndexOfIn(order: seq<nat>, id: nat)
    requires id in order
    ensures IndexOf(order, id) < |order| && order[IndexOf(order, id)] == id
  {
    if order[0] != id { IndexOfIn(order[1..], id); }
  }
}
