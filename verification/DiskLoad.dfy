/** kernel/src/fs/diskfs.rs:407-497: rebuilding the tree from a disk. */
module DiskLoad {
  import opened Arith
  import opened Octets
  import opened FsTree
  import opened FsPool
  import opened DiskFormat
  import opened DiskImage
  import opened DiskSave
  import opened Wrappers
  import RamFs
  import Vfs

  /** The root's inode index, who is loading, what counts as UTF-8, and the blocks that cannot be read. */
  datatype Loader = Loader(root: nat, uid: U32, gid: U32, utf8: seq<Byte> -> bool, bad: set<nat>)

  /** load returns true, or false, or indexes past the inode table. */
  datatype Outcome = Loaded | Refused | Panicked

  // ---- one inode -----------------------------------------------------------------------------

  ghost predicate Tidy(s: Ram)
  {
    PoolInv(s) && forall id :: id in s.tree.nodes ==> id < s.tree.next
  }

  function NameStr(c: Loader, d: Inode): seq<Byte>
    requires |d.name| == 32
  {
    var s := if d.nameLen < 32 then d.name[..d.nameLen] else d.name;
    if c.utf8(s) then s else [63]
  }

  function SetMeta(s: Ram, id: nat, d: Inode): Ram
  {
    if id in s.tree.nodes
    then s.(tree := Replaced(s.tree, id, s.tree.nodes[id].(uid := d.uid, gid := d.gid, mode := d.mode)))
    else s
  }

  function KindOf(d: Inode): Kind
  {
    if d.vtype == 1 then Dir else File
  }

  ghost function LoadOne(c: Loader, s: Ram, ids: seq<nat>, i: nat, d: Inode, data: seq<Byte>): (Ram, seq<nat>)
    requires Tidy(s) && |ids| == INODE_COUNT && i < INODE_COUNT && |d.name| == 32
  {
    if d.used == 0 then (s, ids)
    else if i == c.root then (SetMeta(s, ROOT, d), ids[i := ROOT])
    else if d.parent >= INODE_COUNT || ids[d.parent] == 0 || NameStr(c, d) == [] then (s, ids)
    else
      var (t, id) := Create(s.tree, ids[d.parent], NameStr(c, d), KindOf(d), c.uid, c.gid);
      CreateKeepsData(s.tree, ids[d.parent], NameStr(c, d), KindOf(d), c.uid, c.gid);
      TreeOpKeepsPool(s, t);
      if id == 0 then (Ram(t, s.pool), ids)
      else
        var filled := if d.vtype == 0 && d.size > 0 then Write(Ram(t, s.pool), id, data).0 else Ram(t, s.pool);
        (SetMeta(filled, id, d), ids[i := id])
  }

  lemma SetMetaTidy(s: Ram, id: nat, d: Inode)
    requires Tidy(s)
    ensures Tidy(SetMeta(s, id, d)) && forall x :: Contents(SetMeta(s, id, d), x) == Contents(s, x)
  {
    hide PoolInv;
    TreeOpKeepsPool(s, SetMeta(s, id, d).tree);
  }

  lemma WriteTidy(s: Ram, id: nat, data: seq<Byte>)
    requires Tidy(s)
    ensures Tidy(Write(s, id, data).0)
  {
    hide PoolInv, Alloc, Release, Overwritten;
    WriteKeepsInv(s, id, data);
  }

  lemma CreateTidy(s: Ram, parent: nat, name: seq<Byte>, kind: Kind, uid: U32, gid: U32)
    requires Tidy(s)
    ensures Tidy(Ram(Create(s.tree, parent, name, kind, uid, gid).0, s.pool))
  {
    hide PoolInv, Lookup;
    CreateKeepsData(s.tree, parent, name, kind, uid, gid);
    TreeOpKeepsPool(s, Create(s.tree, parent, name, kind, uid, gid).0);
  }

  lemma LoadOneTidy(c: Loader, s: Ram, ids: seq<nat>, i: nat, d: Inode, data: seq<Byte>)
    requires Tidy(s) && |ids| == INODE_COUNT && i < INODE_COUNT && |d.name| == 32
    ensures Tidy(LoadOne(c, s, ids, i, d, data).0) && |LoadOne(c, s, ids, i, d, data).1| == INODE_COUNT
  {
    hide PoolInv, SetMeta, Create, Write;
    if d.used != 0 {
      if i == c.root {
        SetMetaTidy(s, ROOT, d);
      } else if d.parent < INODE_COUNT && ids[d.parent] != 0 && NameStr(c, d) != [] {
        var (t, id) := Create(s.tree, ids[d.parent], NameStr(c, d), KindOf(d), c.uid, c.gid);
        CreateTidy(s, ids[d.parent], NameStr(c, d), KindOf(d), c.uid, c.gid);
        var made := Ram(t, s.pool);
        if d.vtype == 0 && d.size > 0 {
          WriteTidy(made, id, data);
          SetMetaTidy(Write(made, id, data).0, id, d);
        } else {
          SetMetaTidy(made, id, d);
        }
      }
    }
  }

  // ---- reading a run -------------------------------------------------------------------------

  /** Byte j of a run; 0 from the first block that is not on the disk or cannot be read. */
  function RunByte(blocks: seq<seq<Byte>>, bad: set<nat>, first: nat, j: nat): Byte
    requires |blocks| == BLOCK_COUNT && forall i :: 0 <= i < BLOCK_COUNT ==> |blocks[i]| == BLOCK_SIZE
  {
    var b := first + j / BLOCK_SIZE;
    if b < BLOCK_COUNT && AllGood(bad, first, b + 1) then blocks[b][j % BLOCK_SIZE] else 0
  }

  function RunBytes(blocks: seq<seq<Byte>>, bad: set<nat>, first: nat, want: nat): (s: seq<Byte>)
    requires |blocks| == BLOCK_COUNT && forall i :: 0 <= i < BLOCK_COUNT ==> |blocks[i]| == BLOCK_SIZE
    ensures |s| == want
  {
    seq(want, j requires 0 <= j < want => RunByte(blocks, bad, first, j))
  }

  method ReadRun(disk: Disk, first: nat, want: nat) returns (data: seq<Byte>)
    requires disk.Valid()
    ensures data == RunBytes(disk.blocks[..], disk.bad, first, want)
  {
    hide RunByte;
    var buf := new Byte[want](_ => 0);
    var off: nat := 0;
    ghost var blocks := disk.blocks[..];
    while off < want
      invariant 0 <= off <= want && (off < want ==> off % BLOCK_SIZE == 0)
      invariant off < want ==> AllGood(disk.bad, first, first + off / BLOCK_SIZE)
      invariant forall j :: 0 <= j < off ==> buf[j] == RunByte(blocks, disk.bad, first, j)
      invariant forall j :: off <= j < want ==> buf[j] == 0
    {
      var ok, block := disk.ReadBlock(first + off / BLOCK_SIZE);
      if !ok {
        forall j | off <= j < want ensures RunByte(blocks, disk.bad, first, j) == 0 {
          ByteUnread(blocks, disk.bad, first, off, j);
        }
        break;
      }
      var chunk := if want - off <= BLOCK_SIZE then want - off else BLOCK_SIZE;
      CopyIn(buf, off, block[..chunk]);
      forall j | off <= j < off + chunk ensures buf[j] == RunByte(blocks, disk.bad, first, j) {
        ByteRead(blocks, disk.bad, first, off, j);
      }
      NextGood(disk.bad, first, off);
      off := off + chunk;
    }
    data := buf[..];
  }

  lemma ByteRead(blocks: seq<seq<Byte>>, bad: set<nat>, first: nat, off: nat, j: nat)
    requires DiskOk(blocks) && off % BLOCK_SIZE == 0 && off <= j < off + BLOCK_SIZE
    requires AllGood(bad, first, first + off / BLOCK_SIZE)
    requires first + off / BLOCK_SIZE < BLOCK_COUNT && first + off / BLOCK_SIZE !in bad
    ensures RunByte(blocks, bad, first, j) == blocks[first + off / BLOCK_SIZE][j - off]
  {
    DivModUnique(j, off / BLOCK_SIZE, j - off, BLOCK_SIZE);
  }

  lemma ByteUnread(blocks: seq<seq<Byte>>, bad: set<nat>, first: nat, off: nat, j: nat)
    requires DiskOk(blocks) && off <= j && !(first + off / BLOCK_SIZE < BLOCK_COUNT && first + off / BLOCK_SIZE !in bad)
    ensures RunByte(blocks, bad, first, j) == 0
  {
    assert off / BLOCK_SIZE <= j / BLOCK_SIZE;
  }

  lemma NextGood(bad: set<nat>, first: nat, off: nat)
    requires off % BLOCK_SIZE == 0 && AllGood(bad, first, first + off / BLOCK_SIZE) && first + off / BLOCK_SIZE !in bad
    ensures AllGood(bad, first, first + (off + BLOCK_SIZE) / BLOCK_SIZE)
  {
    DivModUnique(off + BLOCK_SIZE, off / BLOCK_SIZE + 1, 0, BLOCK_SIZE);
  }

  method CopyIn(buf: array<Byte>, off: nat, bytes: seq<Byte>)
    requires off + |bytes| <= buf.Length
    modifies buf
    ensures forall j :: 0 <= j < off || off + |bytes| <= j < buf.Length ==> buf[j] == old(buf[j])
    ensures forall j :: off <= j < off + |bytes| ==> buf[j] == bytes[j - off]
  {
    var i := 0;
    while i < |bytes|
      invariant 0 <= i <= |bytes|
      invariant forall j :: 0 <= j < off || off + i <= j < buf.Length ==> buf[j] == old(buf[j])
      invariant forall j :: off <= j < off + i ==> buf[j] == bytes[j - off]
    {
      buf[off + i] := bytes[i];
      i := i + 1;
    }
  }

  // ---- the whole table -----------------------------------------------------------------------

  ghost predicate DiskOk(blocks: seq<seq<Byte>>)
  {
    |blocks| == BLOCK_COUNT && forall i :: 0 <= i < BLOCK_COUNT ==> |blocks[i]| == BLOCK_SIZE
  }

  function Wanted(d: Inode): nat
  {
    if d.size <= MAX_FILE_SIZE then d.size else MAX_FILE_SIZE
  }

  lemma ResetTidy(pool: Pool)
    requires FreeOk(pool)
    ensures Tidy(Ram(INITIAL, pool))
  {
  }

  /** The filesystem and the ids handed out after the first n inodes of the table. */
  ghost function LoadN(c: Loader, blocks: seq<seq<Byte>>, table: seq<Byte>, pool: Pool, n: nat): (r: (Ram, seq<nat>))
    requires DiskOk(blocks) && |table| == BLOCK_SIZE && FreeOk(pool) && n <= INODE_COUNT
    ensures Tidy(r.0) && |r.1| == INODE_COUNT
  {
    if n == 0 then
      ResetTidy(pool);
      (Ram(INITIAL, pool), seq(INODE_COUNT, _ => 0))
    else
      var (s, ids) := LoadN(c, blocks, table, pool, n - 1);
      var d := Unpack(SlotBytes(table, n - 1));
      LoadOneTidy(c, s, ids, n - 1, d, RunBytes(blocks, c.bad, d.first, Wanted(d)));
      LoadOne(c, s, ids, n - 1, d, RunBytes(blocks, c.bad, d.first, Wanted(d)))
  }

  lemma MetaTwice(t: Tree, id: nat, d: Inode)
    requires id in t.nodes
    ensures var u := Replaced(t, id, t.nodes[id].(uid := d.uid, gid := d.gid));
            Replaced(u, id, u.nodes[id].(mode := d.mode)) ==
            Replaced(t, id, t.nodes[id].(uid := d.uid, gid := d.gid, mode := d.mode))
  {
  }

  method PutMeta(fs: RamFs.Files, id: nat, d: Inode)
    requires fs.Valid()
    modifies fs.table.slots
    ensures fs.Valid() && fs.View() == SetMeta(old(fs.View()), id, d)
  {
    hide Vfs.Nodes, Vfs.Unique;
    if id in fs.View().tree.nodes { MetaTwice(fs.View().tree, id, d); }
    var done := fs.table.SetOwner(id, d.uid, d.gid);
    done := fs.table.SetMode(id, d.mode);
  }

  /** Creates the node of one inode, fills it and gives it its owner and mode. */
  method LoadInode(fs: RamFs.Files, disk: Disk, c: Loader, ids: seq<nat>, i: nat, d: Inode) returns (r: seq<nat>)
    requires fs.Valid() && Tidy(fs.View()) && disk.Valid() && c.bad == disk.bad && |ids| == INODE_COUNT && i < INODE_COUNT && |d.name| == 32
    modifies fs, fs.pool, fs.table, fs.table.slots
    ensures fs.Valid() && Tidy(fs.View()) && |r| == INODE_COUNT
    ensures (fs.View(), r) == LoadOne(c, old(fs.View()), ids, i, d, RunBytes(disk.blocks[..], c.bad, d.first, Wanted(d)))
  {
    hide PoolInv, Create, Write, RunBytes, NameStr, Vfs.Nodes, Vfs.Unique;
    ghost var s := fs.View();
    ghost var bytes := RunBytes(disk.blocks[..], c.bad, d.first, Wanted(d));
    LoadOneTidy(c, s, ids, i, d, bytes);
    r := ids;
    if d.used == 0 { return; }
    if i == c.root {
      PutMeta(fs, ROOT, d);
      r := ids[i := ROOT];
      return;
    }
    if d.parent >= INODE_COUNT { return; }
    var parent := ids[d.parent];
    if parent == 0 { return; }
    var name := NameStr(c, d);
    if name == [] { return; }
    CreateTidy(s, parent, name, KindOf(d), c.uid, c.gid);
    var id := fs.table.Create(parent, name, KindOf(d), c.uid, c.gid);
    if id == 0 { return; }
    if d.vtype == 0 && d.size > 0 {
      var data := ReadRun(disk, d.first, Wanted(d));
      var n := fs.WriteFile(id, data);
    }
    PutMeta(fs, id, d);
    r := ids[i := id];
  }

  /** What load reads before it touches the tree. */
  ghost function Readable(blocks: seq<seq<Byte>>, bad: set<nat>): Option<Superblock>
    requires DiskOk(blocks)
  {
    if 0 in bad then None
    else
      match UnpackSuper(blocks[0])
      case None => None
      case Some(sb) =>
        if sb.blockSize != BLOCK_SIZE || sb.version != 1 || sb.inodeTable >= BLOCK_COUNT || sb.inodeTable in bad
        then None else Some(sb)
  }

  method Load(fs: RamFs.Files, disk: Disk, uid: U32, gid: U32, utf8: seq<Byte> -> bool) returns (r: Outcome)
    requires fs.Valid() && PoolInv(fs.View()) && disk.Valid()
    modifies fs, fs.pool, fs.table, fs.table.slots
    ensures fs.Valid() && PoolInv(fs.View())
    ensures r.Refused? <==> Readable(disk.blocks[..], disk.bad).None?
    ensures r.Refused? ==> fs.View() == old(fs.View())
    ensures r.Panicked? <==> Readable(disk.blocks[..], disk.bad).Some? && Readable(disk.blocks[..], disk.bad).value.inodeCount > INODE_COUNT
    ensures r.Loaded? ==> var sb := Readable(disk.blocks[..], disk.bad).value;
              fs.View() == LoadN(Loader(sb.rootInode, uid, gid, utf8, disk.bad), disk.blocks[..], disk.blocks[sb.inodeTable],
                                 old(fs.Pool()), sb.inodeCount).0
  {
    hide PoolInv, UnpackSuper, Unpack, LoadOne, RunBytes, Vfs.Nodes, Vfs.Unique;
    var ok, block := disk.ReadBlock(0);
    if !ok { return Refused; }
    var sb := UnpackSuper(block);
    if sb.None? { return Refused; }
    if sb.value.blockSize != BLOCK_SIZE || sb.value.version != 1 { return Refused; }
    var table;
    ok, table := disk.ReadBlock(sb.value.inodeTable);
    if !ok { return Refused; }
    FreeOfInv(fs.View());
    fs.table.Reset();
    var c := Loader(sb.value.rootInode, uid, gid, utf8, disk.bad);
    var ids := seq(INODE_COUNT, _ => 0);
    var i := 0;
    ResetTidy(fs.Pool());
    while i < sb.value.inodeCount
      invariant 0 <= i <= sb.value.inodeCount && i <= INODE_COUNT && |ids| == INODE_COUNT
      invariant fs.Valid() && Tidy(fs.View())
      invariant (fs.View(), ids) == LoadN(c, disk.blocks[..], table, old(fs.Pool()), i)
    {
      if i >= INODE_COUNT { return Panicked; }
      var d := Unpack(SlotBytes(table, i));
      ids := LoadInode(fs, disk, c, ids, i, d);
      i := i + 1;
    }
    return Loaded;
  }

  lemma FreeOfInv(s: Ram)
    requires PoolInv(s)
    ensures FreeOk(s.pool)
  {
  }
}
