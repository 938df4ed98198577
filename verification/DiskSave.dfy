/** kernel/src/fs/diskfs.rs:99-113 and 282-405: the drive, and writing the tree to it. */
module DiskSave {
  import opened Octets
  import opened FsTree
  import opened FsPool
  import opened FsOrder
  import opened DiskFormat
  import opened DiskImage
  import opened Wrappers
  import RamFs
  import Vfs

  /** The drive works on every block from lo to hi. */
  predicate AllGood(bad: set<nat>, lo: nat, hi: nat)
  {
    forall b :: lo <= b < hi ==> b !in bad
  }

  /** The blocks from lo to hi, in order. */
  function Span(lo: nat, hi: nat): (s: seq<nat>)
    requires lo <= hi
    ensures |s| == hi - lo
  {
    seq(hi - lo, i requires 0 <= i < hi - lo => lo + i)
  }

  /** The filesystem's blocks, and those the drive fails to read or write. */
  class Disk {
    const blocks: array<seq<Byte>>
    const bad: set<nat>
    /** The blocks written, in the order of the writes. */
    ghost var log: seq<nat>

    ghost predicate Valid()
      reads this, blocks
    {
      blocks.Length == BLOCK_COUNT && forall i :: 0 <= i < blocks.Length ==> |blocks[i]| == BLOCK_SIZE
    }

    method ReadBlock(b: nat) returns (ok: bool, buf: seq<Byte>)
      requires Valid()
      ensures ok <==> b < BLOCK_COUNT && b !in bad
      ensures ok ==> buf == blocks[b] && |buf| == BLOCK_SIZE
    {
      if b >= BLOCK_COUNT || b in bad { return false, []; }
      return true, blocks[b];
    }

    /** A write that fails leaves anything in its block. */
    method WriteBlock(b: nat, buf: seq<Byte>) returns (ok: bool)
      requires Valid() && |buf| == BLOCK_SIZE
      modifies blocks, this`log
      ensures Valid() && (ok <==> b < BLOCK_COUNT && b !in bad)
      ensures ok ==> log == old(log) + [b]
      ensures ok ==> blocks[b] == buf
      ensures forall i :: 0 <= i < blocks.Length && i != b ==> blocks[i] == old(blocks[i])
    {
      if b >= BLOCK_COUNT { return false; }
      if b in bad {
        var junk: seq<Byte> :| |junk| == BLOCK_SIZE by { assert |blocks[b]| == BLOCK_SIZE; }
        blocks[b] := junk;
        return false;
      }
      blocks[b] := buf;
      log := log + [b];
      return true;
    }
  }

  method Clear(buf: array<Byte>)
    modifies buf
    ensures forall j :: 0 <= j < buf.Length ==> buf[j] == 0
  {
    var i := 0;
    while i < buf.Length
      invariant 0 <= i <= buf.Length && forall j :: 0 <= j < i ==> buf[j] == 0
    {
      buf[i] := 0;
      i := i + 1;
    }
  }

  lemma ChunkIs(data: seq<Byte>, b: nat, n: nat, block: seq<Byte>)
    requires b * BLOCK_SIZE <= |data| && |block| == BLOCK_SIZE
    requires n == if |data| - b * BLOCK_SIZE <= BLOCK_SIZE then |data| - b * BLOCK_SIZE else BLOCK_SIZE
    requires block[..n] == data[b * BLOCK_SIZE..b * BLOCK_SIZE + n] && block[n..] == Zeros(BLOCK_SIZE - n)
    ensures block == Chunk(data, b)
  {
    assert block == block[..n] + block[n..];
  }

  /** Reads block b of the file into a buffer, zeros behind its end. */
  method FetchChunk(fs: RamFs.Files, id: nat, b: nat, size: nat, buf: array<Byte>) returns (ok: bool)
    requires fs.Valid() && PoolInv(fs.View()) && buf != fs.pool && buf.Length == BLOCK_SIZE
    requires size == |Contents(fs.View(), id)| && b < BlocksFor(size)
    modifies buf
    ensures ok && buf[..] == Chunk(Contents(fs.View(), id), b)
  {
    hide PoolInv;
    Clear(buf);
    var off := b * BLOCK_SIZE;
    var n := if size - off <= BLOCK_SIZE then size - off else BLOCK_SIZE;
    ghost var blank := buf[..];
    var got := fs.ReadFileAt(id, off, buf, n);
    assert buf[n..] == blank[n..] == Zeros(BLOCK_SIZE - n);
    ChunkIs(Contents(fs.View(), id), b, n, buf[..]);
    return got == n;
  }

  /** Writes a file's bytes to one run of blocks. */
  method SaveData(fs: RamFs.Files, disk: Disk, id: nat, size: nat, first: nat) returns (ok: bool)
    requires fs.Valid() && PoolInv(fs.View()) && disk.Valid()
    requires size == |Contents(fs.View(), id)| && first + BlocksFor(size) <= BLOCK_COUNT
    modifies disk.blocks, disk`log
    ensures disk.Valid() && (ok <==> AllGood(disk.bad, first, first + BlocksFor(size)))
    ensures ok ==> RunAt(disk.blocks[..], Contents(fs.View(), id), first)
    ensures ok ==> disk.log == old(disk.log) + Span(first, first + BlocksFor(size))
    ensures forall i :: 0 <= i < BLOCK_COUNT && !(first <= i < first + BlocksFor(size)) ==> disk.blocks[i] == old(disk.blocks[i])
  {
    hide PoolInv, Chunk, Contents;
    var buf := new Byte[BLOCK_SIZE](_ => 0);
    ghost var data := Contents(fs.View(), id);
    var b := 0;
    while b < BlocksFor(size)
      invariant 0 <= b <= BlocksFor(size) && disk.Valid() && AllGood(disk.bad, first, first + b)
      invariant forall i :: 0 <= i < b ==> disk.blocks[first + i] == Chunk(data, i)
      invariant disk.log == old(disk.log) + Span(first, first + b)
      invariant forall i :: 0 <= i < BLOCK_COUNT && !(first <= i < first + b) ==> disk.blocks[i] == old(disk.blocks[i])
    {
      ok := FetchChunk(fs, id, b, size, buf);
      if !ok { return; }
      ok := disk.WriteBlock(first + b, buf[..]);
      if !ok { return; }
      SpanGrows(first, first + b);
      b := b + 1;
    }
    ok := true;
  }

  lemma SpanGrows(lo: nat, hi: nat)
    requires lo <= hi
    ensures Span(lo, hi + 1) == Span(lo, hi) + [hi]
  {
  }

  lemma SpanJoins(lo: nat, mid: nat, hi: nat)
    requires lo <= mid <= hi
    ensures Span(lo, mid) + Span(mid, hi) == Span(lo, hi)
  {
  }

  method MarkBlocks(bitmap: array<Byte>, start: nat, count: nat)
    requires bitmap.Length == BLOCK_SIZE && start + count <= 8 * BLOCK_SIZE
    requires forall i :: 0 <= i < BLOCK_SIZE ==> bitmap[i] == Filled(start, i)
    modifies bitmap
    ensures forall i :: 0 <= i < BLOCK_SIZE ==> bitmap[i] == Filled(start + count, i)
  {
    hide Filled;
    var b: nat := 0;
    while b < count
      invariant 0 <= b <= count
      invariant forall i :: 0 <= i < BLOCK_SIZE ==> bitmap[i] == Filled(start + b, i)
    {
      var bit := start + b;
      FilledStep(bit, bit / 8);
      FilledByte(bit + 1, bit / 8);
      bitmap[bit / 8] := WithBit(bitmap[bit / 8], bit % 8);
      b := b + 1;
      forall i | 0 <= i < BLOCK_SIZE ensures bitmap[i] == Filled(start + b, i) { FilledStep(bit, i); }
    }
  }

  /** Stores a packed inode in its slot of the table. */
  method PutInode(table: array<Byte>, slot: nat, bytes: seq<Byte>)
    requires table.Length == BLOCK_SIZE && slot < INODE_COUNT && |bytes| == INODE_SIZE
    modifies table
    ensures SlotBytes(table[..], slot) == bytes
    ensures forall k :: 0 <= k < INODE_COUNT && k != slot ==> SlotBytes(table[..], k) == old(SlotBytes(table[..], k))
  {
    var o := slot * INODE_SIZE;
    var i := 0;
    while i < INODE_SIZE
      invariant 0 <= i <= INODE_SIZE
      invariant forall j :: 0 <= j < i ==> table[o + j] == bytes[j]
      invariant forall j :: 0 <= j < o || o + INODE_SIZE <= j < BLOCK_SIZE ==> table[j] == old(table[j])
    {
      table[o + i] := bytes[i];
      i := i + 1;
    }
    forall k | 0 <= k < INODE_COUNT && k != slot ensures SlotBytes(table[..], k) == old(SlotBytes(table[..], k)) {
      SameSlot(table[..], old(table[..]), slot, k);
    }
  }

  lemma SameSlot(a: seq<Byte>, b: seq<Byte>, slot: nat, k: nat)
    requires |a| == |b| == BLOCK_SIZE && k < INODE_COUNT && slot < INODE_COUNT && k != slot
    requires forall j :: 0 <= j < slot * INODE_SIZE || slot * INODE_SIZE + INODE_SIZE <= j < BLOCK_SIZE ==> a[j] == b[j]
    ensures SlotBytes(a, k) == SlotBytes(b, k)
  {
  }

  /** The first slot that holds id, or 0. */
  method FindIndex(done: seq<nat>, id: nat) returns (k: nat)
    ensures k == if id in done then IndexOf(done, id) else 0
  {
    k := 0;
    while k < |done|
      invariant 0 <= k <= |done| && id !in done[..k]
    {
      if done[k] == id {
        IndexOfAt(done, id, k);
        return;
      }
      k := k + 1;
    }
    k := 0;
  }

  lemma PrefixIndex(order: seq<nat>, slot: nat, id: nat)
    requires slot <= |order| && id in order[..slot]
    ensures IndexOf(order[..slot], id) == IndexOf(order, id) < slot
  {
    var done := order[..slot];
    IndexOfIn(done, id);
    var k := IndexOf(done, id);
    FirstIndex(done, id);
    assert order[..k] == done[..k];
    IndexOfAt(order, id, k);
  }

  lemma {:induction false} FirstIndex(order: seq<nat>, id: nat)
    requires id in order
    ensures IndexOf(order, id) < |order| && id !in order[..IndexOf(order, id)]
  {
    if order[0] != id {
      FirstIndex(order[1..], id);
      var k := IndexOf(order, id);
      assert order[..k] == [order[0]] + order[1..][..k - 1];
    }
  }

  lemma LiveNode(s: Ram, id: nat)
    requires RamInv(s) && id in s.tree.nodes
    ensures var n := s.tree.nodes[id];
            && GoodName(n.name) && |Contents(s, id)| == n.size <= MAX_FILE_SIZE
            && (id == ROOT <==> n.parent == 0) && (id != ROOT ==> n.parent in s.tree.nodes)
  {
    hide Contents, PoolInv;
    RamFs.Owned(s, id);
    assert NodeOk(s.tree, id);
    if id != ROOT { assert NodeOk(s.tree, s.tree.nodes[id].parent); }
  }

  lemma ItemOfOk(s: Ram, order: seq<nat>, k: nat)
    requires RamInv(s) && BreadthFirst(s.tree, order) && |order| <= MAX_VNODES && k < |order|
    ensures order[k] in s.tree.nodes && ItemOk(ItemFor(s, order, order[k]))
  {
    hide RamInv, Contents, GoodName, IndexOf, NoDuplicates;
    var id := order[k];
    assert id in order;
    LiveNode(s, id);
    if id != ROOT { IndexOfIn(order, s.tree.nodes[id].parent); }
  }

  lemma ItemsOfOk(s: Ram, order: seq<nat>)
    requires RamInv(s) && BreadthFirst(s.tree, order) && |order| <= MAX_VNODES
    ensures order != [] && order[0] == ROOT && (forall k :: 0 <= k < |order| ==> order[k] in s.tree.nodes)
    ensures ItemsOk(Items(s, order)) && Items(s, order)[0].dir
  {
    hide RamInv, ItemFor, ItemOk;
    forall k | 0 <= k < |order| ensures order[k] in s.tree.nodes && ItemOk(ItemFor(s, order, order[k])) {
      ItemOfOk(s, order, k);
    }
    RootItem(s, order);
  }

  lemma RootItem(s: Ram, order: seq<nat>)
    requires RamInv(s) && BreadthFirst(s.tree, order)
    ensures order != [] && order[0] == ROOT && ROOT in s.tree.nodes
    ensures var it := ItemFor(s, order, ROOT); it.dir && it.name == SLASH && it.parent == 0 && it.data == []
  {
    hide PoolInv;
  }

  /** The first slot items are written: their inodes, their bitmap bits and their blocks. */
  ghost predicate Written(blocks: seq<seq<Byte>>, table: seq<Byte>, bitmap: seq<Byte>, items: seq<Item>, slot: nat, next: nat)
  {
    && |blocks| == BLOCK_COUNT && ItemsOk(items) && slot <= |items| && items != [] && items[0].dir
    && InodesAt(table, items, slot) && DataAt(blocks, items, slot)
    && |bitmap| == BLOCK_SIZE && (forall i :: 0 <= i < BLOCK_SIZE ==> bitmap[i] == Filled(next, i))
    && DATA_START_BLOCK + next == First(items, slot)
  }

  /** Writing one more run leaves the earlier ones alone. */
  lemma DataAdvances(old_: seq<seq<Byte>>, blocks: seq<seq<Byte>>, items: seq<Item>, slot: nat)
    requires |old_| == |blocks| == BLOCK_COUNT && ItemsOk(items) && slot < |items| && items[0].dir
    requires DataAt(old_, items, slot)
    requires RunOf(blocks, items, slot)
    requires forall i :: DATA_START_BLOCK <= i < First(items, slot) && i < BLOCK_COUNT ==> blocks[i] == old_[i]
    ensures DataAt(blocks, items, slot + 1)
  {
    forall k | 0 <= k < slot + 1 ensures RunOf(blocks, items, k) {
      if k < slot {
        RunInside(items, k);
        RunsApart(items, k, slot);
        assert RunOf(old_, items, k);
        RunKept(old_, blocks, items[k].data, First(items, k));
      }
    }
  }

  lemma RunKept(old_: seq<seq<Byte>>, blocks: seq<seq<Byte>>, data: seq<Byte>, first: nat)
    requires |old_| == |blocks| == BLOCK_COUNT && first + BlocksFor(|data|) <= BLOCK_COUNT
    requires RunAt(old_, data, first)
    requires forall i :: first <= i < first + BlocksFor(|data|) ==> blocks[i] == old_[i]
    ensures RunAt(blocks, data, first)
  {
  }

  lemma InodesAdvance(was: seq<Byte>, table: seq<Byte>, items: seq<Item>, slot: nat)
    requires ItemsOk(items) && slot < |items| && items[0].dir && |table| == BLOCK_SIZE && InodesAt(was, items, slot)
    requires SlotBytes(table, slot) == Pack(InodeOf(items, slot))
    requires forall k :: 0 <= k < INODE_COUNT && k != slot ==> SlotBytes(table, k) == SlotBytes(was, k)
    ensures InodesAt(table, items, slot + 1)
  {
    hide SlotBytes, Pack, InodeOf, ItemOk;
  }

  lemma Advance(was: seq<seq<Byte>>, blocks: seq<seq<Byte>>, table0: seq<Byte>, table: seq<Byte>, bitmap0: seq<Byte>,
                bitmap: seq<Byte>, items: seq<Item>, slot: nat, next: nat)
    requires Written(was, table0, bitmap0, items, slot, next) && slot < |items| && |blocks| == BLOCK_COUNT
    requires RunOf(blocks, items, slot)
    requires forall i :: DATA_START_BLOCK <= i < First(items, slot) && i < BLOCK_COUNT ==> blocks[i] == was[i]
    requires |table| == BLOCK_SIZE && SlotBytes(table, slot) == Pack(InodeOf(items, slot))
    requires forall k :: 0 <= k < INODE_COUNT && k != slot ==> SlotBytes(table, k) == SlotBytes(table0, k)
    requires |bitmap| == BLOCK_SIZE
    requires forall i :: 0 <= i < BLOCK_SIZE ==> bitmap[i] == Filled(next + BlocksFor(|items[slot].data|), i)
    ensures Written(blocks, table, bitmap, items, slot + 1, next + BlocksFor(|items[slot].data|))
  {
    hide ItemsOk, InodesAt, DataAt, SlotBytes, Pack, InodeOf, RunOf, First, Filled;
    DataAdvances(was, blocks, items, slot);
    InodesAdvance(table0, table, items, slot);
    FirstStep(items, slot);
  }

  /** A file's run and its bits; nothing for an empty file. */
  method SaveContents(fs: RamFs.Files, disk: Disk, bitmap: array<Byte>, id: nat, size: nat, next: nat)
    returns (ok: bool, first: nat)
    requires fs.Valid() && PoolInv(fs.View()) && disk.Valid() && bitmap != fs.pool && bitmap.Length == BLOCK_SIZE
    requires size == |Contents(fs.View(), id)| && DATA_START_BLOCK + next + BlocksFor(size) <= BLOCK_COUNT
    requires forall i :: 0 <= i < BLOCK_SIZE ==> bitmap[i] == Filled(next, i)
    modifies disk.blocks, disk`log, bitmap
    ensures disk.Valid()
    ensures ok <==> AllGood(disk.bad, DATA_START_BLOCK + next, DATA_START_BLOCK + next + BlocksFor(size))
    ensures ok ==> first == (if size == 0 then 0 else DATA_START_BLOCK + next)
    ensures ok ==> RunAt(disk.blocks[..], Contents(fs.View(), id), DATA_START_BLOCK + next)
    ensures ok ==> disk.log == old(disk.log) + Span(DATA_START_BLOCK + next, DATA_START_BLOCK + next + BlocksFor(size))
    ensures forall i :: 0 <= i < DATA_START_BLOCK + next ==> disk.blocks[i] == old(disk.blocks[i])
    ensures ok ==> forall i :: 0 <= i < BLOCK_SIZE ==> bitmap[i] == Filled(next + BlocksFor(size), i)
  {
    hide PoolInv, Contents, Chunk, Filled;
    if size == 0 {
      return true, 0;
    }
    var blocks := BlocksFor(size);
    ok, first := next + blocks <= BLOCK_COUNT - DATA_START_BLOCK, DATA_START_BLOCK + next;
    if !ok { return; }
    ok := SaveData(fs, disk, id, size, first);
    if !ok { return; }
    MarkBlocks(bitmap, next, blocks);
  }

  lemma SlotItem(s: Ram, order: seq<nat>, items: seq<Item>, slot: nat)
    requires RamInv(s) && BreadthFirst(s.tree, order) && |order| <= MAX_VNODES && slot < |order|
    requires (forall k :: 0 <= k < |order| ==> order[k] in s.tree.nodes) && items == Items(s, order)
    ensures ItemsOk(items) && items[0].dir && items[slot] == ItemFor(s, order, order[slot])
    ensures var n := s.tree.nodes[order[slot]]; n.parent != 0 ==> n.parent in order[..slot]
    ensures var n := s.tree.nodes[order[slot]]; |Contents(s, order[slot])| == n.size && GoodName(n.name)
  {
    ItemsOfOk(s, order);
    LiveNode(s, order[slot]);
    hide RamInv, ItemFor, ItemsOk, Contents;
    if slot == 0 { RootItem(s, order); }
  }

  method SaveSlot(fs: RamFs.Files, disk: Disk, order: seq<nat>, slot: nat, table: array<Byte>, bitmap: array<Byte>,
                  next: nat, ghost items: seq<Item>)
    returns (ok: bool, after: nat)
    requires fs.Valid() && RamInv(fs.View()) && disk.Valid()
    requires BreadthFirst(fs.View().tree, order) && |order| <= MAX_VNODES && slot < |order|
    requires (forall k :: 0 <= k < |order| ==> order[k] in fs.View().tree.nodes) && items == Items(fs.View(), order)
    requires table != bitmap && table != fs.pool && bitmap != fs.pool
    requires table.Length == BLOCK_SIZE && bitmap.Length == BLOCK_SIZE
    requires Written(disk.blocks[..], table[..], bitmap[..], items, slot, next)
    modifies disk.blocks, disk`log, table, bitmap
    ensures disk.Valid() && forall i :: 0 <= i < DATA_START_BLOCK ==> disk.blocks[i] == old(disk.blocks[i])
    ensures |items| == |order| && (ok <==> AllGood(disk.bad, First(items, slot), First(items, slot + 1)))
    ensures First(items, slot) <= First(items, slot + 1)
    ensures ok ==> disk.log == old(disk.log) + Span(First(items, slot), First(items, slot + 1))
    ensures ok ==> Written(disk.blocks[..], table[..], bitmap[..], items, slot + 1, after)
  {
    hide PoolInv, Inv, BreadthFirst, Contents, Chunk, Filled, Pack, InodeOf, ItemFor, ItemsOk, InodesAt, DataAt, First,
         IndexOf, Items, Zeros, Vfs.Nodes, Vfs.Unique, RunAt, RunOf, SlotBytes;
    ghost var s := fs.View();
    SlotItem(s, order, items, slot);
    var id := order[slot];
    var live, vslot := fs.table.FindSlot(id);
    var node := fs.table.slots[vslot];
    var parent := 0;
    if node.parent != 0 {
      parent := FindIndex(order[..slot], node.parent);
      PrefixIndex(order, slot, node.parent);
    }
    var size, first := 0, 0;
    ok, after := true, next;
    SlotRoom(s, order, items, slot, disk.blocks[..]);
    FirstStep(items, slot);
    if !node.kind.Dir? {
      size := node.size;
      ok, first := SaveContents(fs, disk, bitmap, id, size, next);
      if !ok { return; }
      FileRun(disk.blocks[..], items, slot, DATA_START_BLOCK + next);
    }
    var d := Inode(1, if node.kind.Dir? then 1 else 0, |node.name|, node.mode, node.uid, node.gid, size, parent, first,
                   BlocksFor(size), node.name + Zeros(32 - |node.name|));
    SlotInode(s, order, items, slot, d);
    PutInode(table, slot, Pack(d));
    after := next + BlocksFor(size);
    Advance(old(disk.blocks[..]), disk.blocks[..], old(table[..]), table[..], old(bitmap[..]), bitmap[..], items, slot, next);
  }

  lemma FileRun(blocks: seq<seq<Byte>>, items: seq<Item>, slot: nat, first: nat)
    requires |blocks| == BLOCK_COUNT && ItemsOk(items) && slot < |items| && items[0].dir && first == First(items, slot)
    requires first + BlocksFor(|items[slot].data|) <= BLOCK_COUNT && RunAt(blocks, items[slot].data, first)
    ensures RunOf(blocks, items, slot)
  {
  }

  lemma SlotRoom(s: Ram, order: seq<nat>, items: seq<Item>, slot: nat, blocks: seq<seq<Byte>>)
    requires slot < |order| && ItemsOk(items) && |items| == |order| && items[0].dir && |blocks| == BLOCK_COUNT
    requires order[slot] in s.tree.nodes && items[slot] == ItemFor(s, order, order[slot])
    ensures var n := s.tree.nodes[order[slot]];
            && DATA_START_BLOCK <= First(items, slot) && First(items, slot) + BlocksFor(|items[slot].data|) <= BLOCK_COUNT
            && items[slot].data == (if n.kind.Dir? then [] else Contents(s, order[slot]))
            && (n.kind.Dir? ==> RunOf(blocks, items, slot))
  {
    RunInside(items, slot);
  }

  /** The inode built for a node is the one its item calls for. */
  lemma SlotInode(s: Ram, order: seq<nat>, items: seq<Item>, slot: nat, d: Inode)
    requires slot < |order| && ItemsOk(items) && |items| == |order| && items[0].dir
    requires order[slot] in s.tree.nodes && items[slot] == ItemFor(s, order, order[slot])
    requires var n := s.tree.nodes[order[slot]];
             && GoodName(n.name) && d.used == 1 && d.vtype == (if n.kind.Dir? then 1 else 0) && d.nameLen == |n.name|
             && d.mode == n.mode && d.uid == n.uid && d.gid == n.gid && d.size == |items[slot].data|
             && d.parent == (if n.parent == 0 then 0 else IndexOf(order, n.parent))
             && d.first == (if items[slot].data == [] then 0 else First(items, slot))
             && d.count == BlocksFor(|items[slot].data|) && d.name == n.name + Zeros(32 - |n.name|)
    ensures d == InodeOf(items, slot)
  {
    hide First, IndexOf, Contents, BlocksFor, ItemsOk;
  }

  lemma NothingWritten(blocks: seq<seq<Byte>>, table: seq<Byte>, bitmap: seq<Byte>, items: seq<Item>)
    requires |blocks| == BLOCK_COUNT && ItemsOk(items) && items != [] && items[0].dir
    requires table == Zeros(BLOCK_SIZE) && bitmap == Zeros(BLOCK_SIZE)
    ensures Written(blocks, table, bitmap, items, 0, 0)
  {
    assert items[..0] == [];
    hide ItemsOk;
  }

  lemma DataElsewhere(was: seq<seq<Byte>>, blocks: seq<seq<Byte>>, items: seq<Item>, n: nat)
    requires |was| == |blocks| == BLOCK_COUNT && ItemsOk(items) && n <= |items| && items != [] && items[0].dir
    requires DataAt(was, items, n) && forall i :: DATA_START_BLOCK <= i < BLOCK_COUNT ==> blocks[i] == was[i]
    ensures DataAt(blocks, items, n)
  {
    forall k | 0 <= k < n ensures RunOf(blocks, items, k) {
      assert RunOf(was, items, k);
      RunInside(items, k);
      RunKept(was, blocks, items[k].data, First(items, k));
    }
  }

  lemma ImageComplete(was: seq<seq<Byte>>, blocks: seq<seq<Byte>>, items: seq<Item>, next: nat, generation: U32)
    requires |blocks| == BLOCK_COUNT
    requires Written(was, blocks[INODE_TABLE_BLOCK], blocks[DATA_BITMAP_BLOCK], items, |items|, next)
    requires forall i :: DATA_START_BLOCK <= i < BLOCK_COUNT ==> blocks[i] == was[i]
    requires blocks[0] == PackSuper(Super(generation))
    ensures Image(blocks, items, generation)
  {
    assert items[..|items|] == items;
    FilledMarks(blocks[DATA_BITMAP_BLOCK], next);
    DataElsewhere(was, blocks, items, |items|);
    hide ItemsOk, DataAt, InodesAt, BitmapOk;
  }

  function Generation(block: seq<Byte>): U32
    requires |block| == BLOCK_SIZE
  {
    match UnpackSuper(block) case Some(b) => b.generation case None => 0
  }

  function Later(generation: U32): U32
  {
    (generation + 1) % 4294967296
  }

  /** Inode table, then bitmap, then superblock. */
  method Finish(disk: Disk, table: array<Byte>, bitmap: array<Byte>, ghost items: seq<Item>, ghost next: nat)
    returns (ok: bool)
    requires disk.Valid() && table.Length == BLOCK_SIZE && bitmap.Length == BLOCK_SIZE
    requires Written(disk.blocks[..], table[..], bitmap[..], items, |items|, next)
    modifies disk.blocks, disk`log
    ensures disk.Valid() && (ok <==> AllGood(disk.bad, 0, DATA_START_BLOCK))
    ensures ok ==> Image(disk.blocks[..], items, Later(Generation(old(disk.blocks[0]))))
    ensures ok ==> disk.log == old(disk.log) + [INODE_TABLE_BLOCK, DATA_BITMAP_BLOCK, 0]
    ensures !ok && 0 !in disk.bad ==> disk.blocks[0] == old(disk.blocks[0])
  {
    hide Written, Image, PackSuper, UnpackSuper;
    ghost var was := disk.blocks[..];
    ok := disk.WriteBlock(INODE_TABLE_BLOCK, table[..]);
    if !ok { return; }
    ok := disk.WriteBlock(DATA_BITMAP_BLOCK, bitmap[..]);
    if !ok { return; }
    var generation, read, sb := 0, true, [];
    read, sb := disk.ReadBlock(0);
    if read { generation := Generation(sb); }
    ok := disk.WriteBlock(0, PackSuper(Super(Later(generation))));
    if !ok { return; }
    ImageComplete(was, disk.blocks[..], items, next, Later(generation));
  }

  /** The blocks a save of `end` blocks writes, in order: data, inode table, bitmap, superblock. */
  function WriteOrder(end: nat): seq<nat>
    requires end >= DATA_START_BLOCK
  {
    Span(DATA_START_BLOCK, end) + [INODE_TABLE_BLOCK, DATA_BITMAP_BLOCK, 0]
  }

  lemma GoodStart(bad: set<nat>, items: seq<Item>)
    ensures First(items, 0) == DATA_START_BLOCK <= First(items, |items|)
    ensures AllGood(bad, DATA_START_BLOCK, First(items, 0)) && Span(DATA_START_BLOCK, DATA_START_BLOCK) == []
    ensures AllGood(bad, 0, First(items, |items|)) <==>
            AllGood(bad, 0, DATA_START_BLOCK) && AllGood(bad, DATA_START_BLOCK, First(items, |items|))
  {
    assert items[..0] == [];
    FirstMono(items, 0, |items|);
  }

  lemma FirstOrder(items: seq<Item>, slot: nat)
    requires slot < |items|
    ensures DATA_START_BLOCK <= First(items, slot) <= First(items, slot + 1) <= First(items, |items|)
  {
    FirstMono(items, slot, slot + 1);
    FirstMono(items, slot + 1, |items|);
  }

  lemma GoodParts(bad: set<nat>, lo: nat, mid: nat, hi: nat)
    requires lo <= mid <= hi
    ensures AllGood(bad, lo, hi) <==> AllGood(bad, lo, mid) && AllGood(bad, mid, hi)
  {
  }

  /** Saving never runs out of blocks.  It succeeds exactly when the drive works on every block
      the image takes, and then leaves an image of the whole tree; when it fails the superblock
      is the old one. */
  method Save(fs: RamFs.Files, disk: Disk) returns (ok: bool, ghost order: seq<nat>)
    requires fs.Valid() && RamInv(fs.View()) && disk.Valid()
    modifies disk.blocks, disk`log
    ensures disk.Valid() && BreadthFirst(fs.View().tree, order) && |order| <= MAX_VNODES
    ensures forall k :: 0 <= k < |order| ==> order[k] in fs.View().tree.nodes
    ensures var items := Items(fs.View(), order);
            |items| == |order| && (ok <==> AllGood(disk.bad, 0, First(items, |items|)))
    ensures !ok && 0 !in disk.bad ==> disk.blocks[0] == old(disk.blocks[0])
    ensures var items := Items(fs.View(), order);
            ok ==> First(items, |items|) >= DATA_START_BLOCK && disk.log == old(disk.log) + WriteOrder(First(items, |items|))
    ensures ok ==> Image(disk.blocks[..], Items(fs.View(), order), Later(Generation(old(disk.blocks[0]))))
  {
    hide PoolInv, Inv, BreadthFirst, ItemFor, ItemsOk, Items, Written, Image, Vfs.Nodes, Vfs.Unique, Generation, Later,
         First, AllGood, Span;
    var ids := CollectOrder(fs.table);
    order := ids;
    ItemsOfOk(fs.View(), ids);
    ghost var items := Items(fs.View(), ids);
    var table := new Byte[BLOCK_SIZE](_ => 0);
    var bitmap := new Byte[BLOCK_SIZE](_ => 0);
    NothingWritten(disk.blocks[..], table[..], bitmap[..], items);
    var slot, next: nat := 0, 0;
    ghost var end := First(items, |items|);
    GoodStart(disk.bad, items);
    while slot < |ids|
      invariant 0 <= slot <= |ids| && disk.Valid()
      invariant Written(disk.blocks[..], table[..], bitmap[..], items, slot, next)
      invariant disk.blocks[0] == old(disk.blocks[0]) && AllGood(disk.bad, DATA_START_BLOCK, First(items, slot))
      invariant First(items, slot) >= DATA_START_BLOCK
      invariant disk.log == old(disk.log) + Span(DATA_START_BLOCK, First(items, slot))
    {
      FirstOrder(items, slot);
      GoodParts(disk.bad, DATA_START_BLOCK, First(items, slot), First(items, slot + 1));
      GoodParts(disk.bad, DATA_START_BLOCK, First(items, slot + 1), end);
      SpanJoins(DATA_START_BLOCK, First(items, slot), First(items, slot + 1));
      ok, next := SaveSlot(fs, disk, ids, slot, table, bitmap, next, items);
      if !ok { return; }
      slot := slot + 1;
    }
    ok := Finish(disk, table, bitmap, items, next);
  }
}
