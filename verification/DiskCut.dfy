/** kernel/src/fs/diskfs.rs:374-402: what a save that stops between two writes leaves on the disk. */
module DiskCut {
  import opened Octets
  import opened FsTree
  import opened FsPool
  import opened DiskFormat
  import opened DiskImage
  import opened DiskSave
  import opened DiskLoad
  import opened DiskRoundTrip
  import opened SaveLoad
  import opened Wrappers

  /** The place of block b among the writes of a save of `end` blocks. */
  function Turn(b: nat, end: nat): nat
    requires DATA_START_BLOCK <= end && b < end
  {
    if b >= DATA_START_BLOCK then b - DATA_START_BLOCK
    else if b == INODE_TABLE_BLOCK then end - DATA_START_BLOCK
    else if b == DATA_BITMAP_BLOCK then end - DATA_START_BLOCK + 1
    else end - DATA_START_BLOCK + 2
  }

  lemma TurnIs(b: nat, end: nat)
    requires DATA_START_BLOCK <= end && b < end
    ensures Turn(b, end) < |WriteOrder(end)| && WriteOrder(end)[Turn(b, end)] == b
  {
  }

  /** The disk after the first p writes of a save that turns `was` into `now`. */
  function Cut(was: seq<seq<Byte>>, now: seq<seq<Byte>>, end: nat, p: nat): (cut: seq<seq<Byte>>)
    requires |was| == |now| == BLOCK_COUNT && DATA_START_BLOCK <= end <= BLOCK_COUNT
    ensures |cut| == BLOCK_COUNT
  {
    seq(BLOCK_COUNT, b requires 0 <= b < BLOCK_COUNT => if b < end && Turn(b, end) < p then now[b] else was[b])
  }

  ghost function End(items: seq<Item>): nat
  {
    First(items, |items|)
  }

  /** `was` holds the old items and `now` the new ones. */
  ghost predicate Saves(was: seq<seq<Byte>>, now: seq<seq<Byte>>, old_: seq<Item>, new_: seq<Item>, g: U32, h: U32)
  {
    Image(was, old_, g) && Image(now, new_, h)
  }

  lemma EndInside(blocks: seq<seq<Byte>>, items: seq<Item>, g: U32)
    requires Image(blocks, items, g)
    ensures DATA_START_BLOCK <= End(items) <= BLOCK_COUNT
  {
    hide InodesAt, DataAt, BitmapOk, PackSuper;
    RunInside(items, |items| - 1);
    FirstStep(items, |items| - 1);
  }

  // ---- before the inode table ----------------------------------------------------------------

  /** A block of the data area, as the image of the items has it. */
  lemma {:induction false} SameBlocks(a: seq<seq<Byte>>, b: seq<seq<Byte>>, items: seq<Item>)
    requires |a| == |b| == BLOCK_COUNT && ItemsOk(items) && items != [] && items[0].dir && DataAt(a, items, |items|)
    requires DATA_START_BLOCK <= End(items) <= BLOCK_COUNT
    ensures DataAt(b, items, |items|) <==> forall k :: DATA_START_BLOCK <= k < End(items) ==> b[k] == a[k]
  {
    hide ItemsOk, RunAt, First;
    if forall k :: DATA_START_BLOCK <= k < End(items) ==> b[k] == a[k] {
      forall j | 0 <= j < |items| ensures RunOf(b, items, j) {
        assert RunOf(a, items, j);
        RunInside(items, j);
        FirstStep(items, j);
        FirstMono(items, j + 1, |items|);
        RunKept(a, b, items[j].data, First(items, j));
      }
    }
    if DataAt(b, items, |items|) {
      forall k | DATA_START_BLOCK <= k < End(items) ensures b[k] == a[k] {
        var j := RunCovers(items, |items|, k);
        assert RunOf(a, items, j) && RunOf(b, items, j);
        SameRun(a, b, items, j, k);
      }
    }
  }

  lemma SameRun(a: seq<seq<Byte>>, b: seq<seq<Byte>>, items: seq<Item>, j: nat, k: nat)
    requires |a| == |b| == BLOCK_COUNT && ItemsOk(items) && j < |items| && items[0].dir
    requires RunOf(a, items, j) && RunOf(b, items, j)
    requires First(items, j) <= k < First(items, j) + BlocksFor(|items[j].data|)
    ensures k < BLOCK_COUNT && a[k] == b[k]
  {
    hide ItemsOk, Chunk;
    RunInside(items, j);
    var i := k - First(items, j);
    assert a[First(items, j) + i] == Chunk(items[j].data, i) && b[First(items, j) + i] == Chunk(items[j].data, i);
  }

  /** While only data blocks are written the old image is intact exactly as long as no block it
      owns was changed. */
  lemma CutKeepsOld(was: seq<seq<Byte>>, now: seq<seq<Byte>>, old_: seq<Item>, new_: seq<Item>, g: U32, h: U32, p: nat)
    requires Saves(was, now, old_, new_, g, h) && DATA_START_BLOCK + p <= End(new_) <= BLOCK_COUNT
    ensures Image(Cut(was, now, End(new_), p), old_, g) <==>
            forall b :: DATA_START_BLOCK <= b < DATA_START_BLOCK + p && b < End(old_) ==> now[b] == was[b]
  {
    hide ItemsOk, InodesAt, DataAt, BitmapOk, PackSuper, First;
    var end, cut := End(new_), Cut(was, now, End(new_), p);
    EndInside(was, old_, g);
    SameBlocks(was, cut, old_);
    assert cut[0] == was[0] && cut[1] == was[1] && cut[2] == was[2];
    assert forall b :: DATA_START_BLOCK <= b < BLOCK_COUNT ==>
             cut[b] == if b < end && b < DATA_START_BLOCK + p then now[b] else was[b];
  }

  // ---- between two files -----------------------------------------------------------------------

  /** Only file contents changed, and no file's size. */
  ghost predicate SameSizes(a: seq<Item>, b: seq<Item>)
  {
    |a| == |b| && forall k :: 0 <= k < |a| ==> a[k] == b[k].(data := a[k].data) && |a[k].data| == |b[k].data|
  }

  lemma {:induction false} SameUsed(a: seq<Item>, b: seq<Item>)
    requires SameSizes(a, b)
    ensures Used(a) == Used(b)
  {
    if a != [] {
      SameUsed(a[..|a| - 1], b[..|b| - 1]);
    }
  }

  lemma SameFirst(a: seq<Item>, b: seq<Item>, k: nat)
    requires SameSizes(a, b) && k <= |a|
    ensures First(a, k) == First(b, k)
  {
    SameUsed(a[..k], b[..k]);
  }

  /** The new contents of the first m items with the old contents of the others. */
  ghost function Mixed(old_: seq<Item>, new_: seq<Item>, m: nat): (items: seq<Item>)
    requires |old_| == |new_| && m <= |new_|
    ensures |items| == |new_|
  {
    new_[..m] + old_[m..]
  }

  lemma MixedIs(old_: seq<Item>, new_: seq<Item>, m: nat)
    requires |old_| == |new_| && m <= |new_|
    ensures Mixed(old_, new_, m) == old_ <==> new_[..m] == old_[..m]
    ensures Mixed(old_, new_, m) == new_ <==> old_[m..] == new_[m..]
  {
    var items := Mixed(old_, new_, m);
    assert items[..m] == new_[..m] && items[m..] == old_[m..];
    assert old_ == old_[..m] + old_[m..] && new_ == new_[..m] + new_[m..];
  }

  lemma MixedItems(old_: seq<Item>, new_: seq<Item>, m: nat)
    requires SameSizes(new_, old_) && m <= |new_| && ItemsOk(old_) && ItemsOk(new_) && old_ != [] && old_[0].dir
    ensures var items := Mixed(old_, new_, m);
            SameSizes(items, old_) && SameSizes(items, new_) && ItemsOk(items) && items != [] && items[0].dir
  {
    hide ItemOk;
    var items := Mixed(old_, new_, m);
    forall k | 0 <= k < |items| ensures ItemOk(items[k]) { assert ItemOk(if k < m then new_[k] else old_[k]); }
  }

  lemma SameInodes(a: seq<Item>, b: seq<Item>, table: seq<Byte>)
    requires SameSizes(a, b) && ItemsOk(a) && ItemsOk(b) && a != [] && a[0].dir && b[0].dir
    requires InodesAt(table, b, |b|)
    ensures InodesAt(table, a, |a|)
  {
    hide ItemOk, Pack, SlotBytes, First, BlocksFor;
    forall k | 0 <= k < |a| ensures SlotBytes(table, k) == Pack(InodeOf(a, k)) {
      SameFirst(a, b, k);
      assert InodeOf(a, k) == InodeOf(b, k);
    }
  }

  /** A save over files of unchanged sizes that stops before file m leaves an image all the same:
      of the new contents of the files before m, and the old contents of the others.  That is the
      old image exactly when no file before m changed, and the new one when none after did. */
  lemma CutMixes(was: seq<seq<Byte>>, now: seq<seq<Byte>>, old_: seq<Item>, new_: seq<Item>, g: U32, h: U32, m: nat)
    requires Saves(was, now, old_, new_, g, h) && SameSizes(new_, old_) && m <= |new_|
    ensures DATA_START_BLOCK <= First(new_, m) <= End(new_) <= BLOCK_COUNT
    ensures Image(Cut(was, now, End(new_), First(new_, m) - DATA_START_BLOCK), Mixed(old_, new_, m), g)
    ensures Mixed(old_, new_, m) == old_ <==> new_[..m] == old_[..m]
    ensures Mixed(old_, new_, m) == new_ <==> old_[m..] == new_[m..]
  {
    hide ItemsOk, InodesAt, DataAt, BitmapOk, PackSuper, First, Mixed, Cut;
    FileStart(now, new_, h, m);
    MixedIs(old_, new_, m);
    var items, end, p := Mixed(old_, new_, m), End(new_), First(new_, m) - DATA_START_BLOCK;
    MixedItems(old_, new_, m);
    SameInodes(items, old_, was[INODE_TABLE_BLOCK]);
    SameUsed(items, old_);
    CutBlocks(was, now, end, p);
    MixedData(was, now, Cut(was, now, end, p), old_, new_, items, m);
  }

  lemma FileStart(now: seq<seq<Byte>>, items: seq<Item>, h: U32, m: nat)
    requires Image(now, items, h) && m <= |items|
    ensures DATA_START_BLOCK <= First(items, m) <= End(items) <= BLOCK_COUNT
  {
    hide InodesAt, DataAt, BitmapOk, PackSuper, ItemsOk;
    EndInside(now, items, h);
    FirstMono(items, m, |items|);
  }

  /** Cut among the data blocks, the first three blocks are the old ones. */
  lemma CutBlocks(was: seq<seq<Byte>>, now: seq<seq<Byte>>, end: nat, p: nat)
    requires |was| == |now| == BLOCK_COUNT && DATA_START_BLOCK + p <= end <= BLOCK_COUNT
    ensures var cut := Cut(was, now, end, p);
            && cut[0] == was[0] && cut[INODE_TABLE_BLOCK] == was[INODE_TABLE_BLOCK]
            && cut[DATA_BITMAP_BLOCK] == was[DATA_BITMAP_BLOCK]
            && forall b :: DATA_START_BLOCK <= b < end ==> cut[b] == if b < DATA_START_BLOCK + p then now[b] else was[b]
  {
  }

  lemma MixedData(was: seq<seq<Byte>>, now: seq<seq<Byte>>, cut: seq<seq<Byte>>, old_: seq<Item>, new_: seq<Item>,
                  items: seq<Item>, m: nat)
    requires |was| == |now| == |cut| == BLOCK_COUNT && SameSizes(new_, old_) && m <= |new_| && items == Mixed(old_, new_, m)
    requires ItemsOk(old_) && ItemsOk(new_) && ItemsOk(items) && old_ != [] && old_[0].dir && new_[0].dir && items[0].dir
    requires SameSizes(items, old_) && SameSizes(items, new_)
    requires DataAt(was, old_, |old_|) && DataAt(now, new_, |new_|)
    requires forall b :: DATA_START_BLOCK <= b < End(new_) && b < BLOCK_COUNT ==>
               cut[b] == if b < First(new_, m) then now[b] else was[b]
    ensures DataAt(cut, items, |items|)
  {
    hide ItemsOk, RunAt, First;
    forall k | 0 <= k < |items| ensures RunOf(cut, items, k) {
      SameFirst(items, new_, k);
      SameFirst(items, old_, k);
      RunInside(items, k);
      FirstStep(new_, k);
      FirstMono(new_, k + 1, |new_|);
      RunInside(new_, k);
      RunInside(old_, k);
      if k < m {
        FirstMono(new_, k + 1, m);
        assert RunOf(now, new_, k);
        RunKept(now, cut, items[k].data, First(items, k));
      } else {
        FirstMono(new_, m, k);
        assert RunOf(was, old_, k);
        RunKept(was, cut, items[k].data, First(items, k));
      }
    }
  }

  // ---- from the inode table on -----------------------------------------------------------------

  /** Cut behind the data blocks, these and the inode table are the new ones. */
  lemma CutDone(was: seq<seq<Byte>>, now: seq<seq<Byte>>, end: nat, p: nat)
    requires DiskOk(was) && DiskOk(now) && DATA_START_BLOCK <= end <= BLOCK_COUNT && p > end - DATA_START_BLOCK
    ensures var cut := Cut(was, now, end, p);
            && DiskOk(cut) && (cut[0] == was[0] || cut[0] == now[0]) && cut[INODE_TABLE_BLOCK] == now[INODE_TABLE_BLOCK]
            && forall b :: DATA_START_BLOCK <= b < end ==> cut[b] == now[b]
  {
  }

  /** Once the inode table is written a load gives the new tree, whatever superblock is there. */
  lemma CutGivesNew(was: seq<seq<Byte>>, now: seq<seq<Byte>>, s: Ram, order: seq<nat>, old_: seq<Item>, g: U32, h: U32,
                    p: nat, pool: Pool, c: Loader)
    requires Ordered(s, order) && Saves(was, now, old_, Items(s, order), g, h) && DiskOk(was) && DiskOk(now)
    requires NamesText(s.tree, c.utf8) && c.root == 0 && AllGood(c.bad, 0, End(Items(s, order)))
    requires FreeOk(pool) && pool.next + Bytes(Items(s, order)) <= POOL
    requires DATA_START_BLOCK <= End(Items(s, order)) <= BLOCK_COUNT && p > End(Items(s, order)) - DATA_START_BLOCK
    ensures var cut := Cut(was, now, End(Items(s, order)), p);
            && DiskOk(cut) && (cut[0] == was[0] || cut[0] == now[0])
            && SameTree(s, LoadN(c, cut, cut[INODE_TABLE_BLOCK], pool, INODE_COUNT).0, order)
  {
    hide ItemsOk, InodesAt, DataAt, BitmapOk, PackSuper, First, RamInv, FreeOk, NamesText, Items, LoadN, SameTree,
         Bytes, AllGood, Cut;
    var items, end := Items(s, order), End(Items(s, order));
    var cut := Cut(was, now, end, p);
    CutDone(was, now, end, p);
    SameBlocks(now, cut, items);
    PartsRoundTrip(s, order, cut, pool, c);
  }

  // ---- a torn save -----------------------------------------------------------------------------

  lemma ChunkRoom(n: nat, b: nat)
    requires b < BlocksFor(n)
    ensures b * BLOCK_SIZE <= n
  {
  }

  function Chunks(data: seq<Byte>): (s: seq<seq<Byte>>)
    ensures |s| == BlocksFor(|data|)
  {
    seq(BlocksFor(|data|), b requires 0 <= b < BlocksFor(|data|) => ChunkRoom(|data|, b); Chunk(data, b))
  }

  /** The runs of the files, one after another. */
  ghost function Runs(items: seq<Item>): (s: seq<seq<Byte>>)
    ensures |s| == Used(items)
  {
    if items == [] then [] else Runs(items[..|items| - 1]) + Chunks(items[|items| - 1].data)
  }

  lemma {:induction false} RunBlock(items: seq<Item>, k: nat, b: nat)
    requires k < |items| && b < BlocksFor(|items[k].data|)
    ensures Used(items[..k]) + b < Used(items) && b * BLOCK_SIZE <= |items[k].data|
    ensures Runs(items)[Used(items[..k]) + b] == Chunk(items[k].data, b)
  {
    hide Chunk, BlocksFor;
    ChunkRoom(|items[k].data|, b);
    var init := items[..|items| - 1];
    if k == |items| - 1 {
      assert items[..k] == init;
      assert Chunks(items[k].data)[b] == Chunk(items[k].data, b);
    } else {
      assert init[..k] == items[..k];
      RunBlock(init, k, b);
    }
  }

  /** An image of any items. */
  ghost function ImageOf(items: seq<Item>, g: U32): (blocks: seq<seq<Byte>>)
    requires ItemsOk(items) && items != [] && items[0].dir
    ensures |blocks| == BLOCK_COUNT
  {
    seq(BLOCK_COUNT, b requires 0 <= b < BLOCK_COUNT =>
      if b == 0 then PackSuper(Super(g))
      else if b == INODE_TABLE_BLOCK then TableOf(items)
      else if b == DATA_BITMAP_BLOCK then BitmapOf(Used(items))
      else if b - DATA_START_BLOCK < Used(items) then Runs(items)[b - DATA_START_BLOCK]
      else Zeros(BLOCK_SIZE))
  }

  ghost function TableOf(items: seq<Item>): (table: seq<Byte>)
    requires ItemsOk(items) && items != [] && items[0].dir
    ensures |table| == BLOCK_SIZE
  {
    seq(BLOCK_SIZE, j requires 0 <= j < BLOCK_SIZE =>
      if j / INODE_SIZE < |items| then Pack(InodeOf(items, j / INODE_SIZE))[j % INODE_SIZE] else 0)
  }

  function BitmapOf(n: nat): (bitmap: seq<Byte>)
    ensures |bitmap| == BLOCK_SIZE && forall i :: 0 <= i < BLOCK_SIZE ==> bitmap[i] == Filled(n, i)
  {
    seq(BLOCK_SIZE, i requires 0 <= i < BLOCK_SIZE => FilledByte(n, i); Filled(n, i))
  }

  lemma TableSlots(items: seq<Item>)
    requires ItemsOk(items) && items != [] && items[0].dir
    ensures InodesAt(TableOf(items), items, |items|)
  {
    hide Pack, InodeOf, ItemOk;
    var table := TableOf(items);
    forall k | 0 <= k < INODE_COUNT
      ensures SlotBytes(table, k) == if k < |items| then Pack(InodeOf(items, k)) else Zeros(INODE_SIZE)
    {
      forall j | 0 <= j < INODE_SIZE
        ensures table[k * INODE_SIZE + j] == if k < |items| then Pack(InodeOf(items, k))[j] else 0
      {
        var i := k * INODE_SIZE + j;
        assert i / INODE_SIZE == k && i % INODE_SIZE == j;
      }
    }
  }

  lemma ImageExists(items: seq<Item>, g: U32)
    requires ItemsOk(items) && items != [] && items[0].dir
    ensures Image(ImageOf(items, g), items, g)
  {
    hide ItemsOk, InodesAt, PackSuper, TableOf, BitmapOk, Runs, Chunk, BlocksFor;
    var blocks := ImageOf(items, g);
    TableSlots(items);
    FilledMarks(BitmapOf(Used(items)), Used(items));
    forall k | 0 <= k < |items| ensures RunOf(blocks, items, k) {
      RunInside(items, k);
      forall b | 0 <= b < BlocksFor(|items[k].data|)
        ensures b * BLOCK_SIZE <= |items[k].data| && blocks[First(items, k) + b] == Chunk(items[k].data, b)
      {
        RunBlock(items, k, b);
      }
    }
  }

  /** A root with two files of one byte each. */
  function TwoFiles(a: Byte, b: Byte): seq<Item>
  {
    [Item(true, SLASH, 0, 0, 0, 0, []), Item(false, [97], 0, 0, 0, 0, [a]), Item(false, [98], 0, 0, 0, 0, [b])]
  }

  lemma TwoFilesOk(a: Byte, b: Byte)
    ensures ItemsOk(TwoFiles(a, b)) && First(TwoFiles(a, b), 2) == DATA_START_BLOCK + 1
    ensures End(TwoFiles(a, b)) == DATA_START_BLOCK + 2
  {
    var items := TwoFiles(a, b);
    assert items[..0] == [];
    assert BlocksFor(0) == 0 && BlocksFor(1) == 1;
    FirstStep(items, 0);
    FirstStep(items, 1);
    FirstStep(items, 2);
  }

  /** Two files of x saved over by two files of y, stopped after one write: the disk holds one of
      each, and neither the old image nor the new. */
  lemma TornSave(x: Byte, y: Byte, g: U32, h: U32)
    requires x != y
    ensures ItemsOk(TwoFiles(x, x)) && ItemsOk(TwoFiles(y, y)) && TwoFiles(x, x) != [] && TwoFiles(y, y) != []
    ensures var cut := Cut(ImageOf(TwoFiles(x, x), g), ImageOf(TwoFiles(y, y), h), DATA_START_BLOCK + 2, 1);
            Image(cut, TwoFiles(y, x), g) && !Image(cut, TwoFiles(x, x), g) && !Image(cut, TwoFiles(y, y), g)
  {
    var old_, new_, mixed := TwoFiles(x, x), TwoFiles(y, y), TwoFiles(y, x);
    TwoFilesOk(x, x);
    TwoFilesOk(y, y);
    assert new_[..2] + old_[2..] == mixed;
    hide ItemsOk, Image, ImageOf, Cut, First;
    var was, now := ImageOf(old_, g), ImageOf(new_, h);
    ImageExists(old_, g);
    ImageExists(new_, h);
    CutMixes(was, now, old_, new_, g, h, 2);
    var cut := Cut(was, now, DATA_START_BLOCK + 2, 1);
    Distinguished(cut, mixed, old_, g, 1);
    Distinguished(cut, mixed, new_, g, 2);
  }

  /** A disk cannot be the image of two lists that differ in a one-byte file in the same place. */
  lemma Distinguished(blocks: seq<seq<Byte>>, a: seq<Item>, b: seq<Item>, g: U32, k: nat)
    requires Image(blocks, a, g) && SameSizes(a, b) && k < |a| && |a[k].data| == 1 && a[k].data != b[k].data
    ensures !Image(blocks, b, g)
  {
    hide Image, First;
    SameFirst(a, b, k);
    OneByte(blocks, a, g, k);
    if Image(blocks, b, g) { OneByte(blocks, b, g, k); }
  }

  lemma OneByte(blocks: seq<seq<Byte>>, items: seq<Item>, g: U32, k: nat)
    requires Image(blocks, items, g) && k < |items| && |items[k].data| == 1
    ensures First(items, k) < BLOCK_COUNT == |blocks|
    ensures blocks[First(items, k)] != [] && items[k].data == [blocks[First(items, k)][0]]
  {
    hide ItemsOk, InodesAt, BitmapOk, PackSuper, First;
    var data := items[k].data;
    assert RunOf(blocks, items, k);
    RunInside(items, k);
    assert blocks[First(items, k) + 0] == Chunk(data, 0);
    assert Chunk(data, 0)[0] == data[0];
  }
}
