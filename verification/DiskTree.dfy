/** kernel/src/fs/diskfs.rs:408-497: for which inode tables the loaded filesystem is a tree. */
module DiskTree {
  import opened Octets
  import opened FsTree
  import opened FsPool
  import opened DiskFormat
  import opened DiskImage
  import opened DiskLoad

  /** A file that has children. */
  ghost predicate Broken(t: Tree)
  {
    exists id :: id in t.nodes && t.nodes[id].children != [] && !t.nodes[id].kind.Dir?
  }

  lemma BrokenIsNoTree(t: Tree)
    requires Broken(t)
    ensures !Inv(t)
  {
    var id :| id in t.nodes && t.nodes[id].children != [] && !t.nodes[id].kind.Dir?;
    assert !NodeOk(t, id);
  }

  /** A tree, or one with children under a file. */
  ghost predicate Status(t: Tree, good: bool)
  {
    if good then Inv(t) else Broken(t)
  }

  lemma ReplacedStatus(t: Tree, id: nat, n: Vnode, good: bool)
    requires Status(t, good) && id in t.nodes && SameShape(t.nodes[id], n)
    ensures Status(Replaced(t, id, n), good)
  {
    hide Inv;
    if good {
      ReplacedKeepsInv(t, id, n);
    } else {
      var x :| x in t.nodes && t.nodes[x].children != [] && !t.nodes[x].kind.Dir?;
      assert x in Replaced(t, id, n).nodes;
    }
  }

  /** Nodes stay, and stay what they are. */
  ghost predicate Keeps(t: Tree, u: Tree)
  {
    forall id :: id in t.nodes ==> id in u.nodes && u.nodes[id].kind == t.nodes[id].kind
  }

  // ---- one node ------------------------------------------------------------------------------

  lemma UsedUpId(t: Tree)
    requires Inv(t)
    ensures Inv(t.(next := t.next + 1))
  {
    hide ChildrenOk;
    forall id | id in t.nodes ensures NodeOk(t.(next := t.next + 1), id) { assert NodeOk(t, id); }
  }

  lemma CreateBreaks(t: Tree, parent: nat, name: seq<Byte>, kind: Kind, uid: U32, gid: U32)
    requires parent in t.nodes && t.next !in t.nodes && Create(t, parent, name, kind, uid, gid).1 != 0
    ensures var u := Create(t, parent, name, kind, uid, gid).0;
            (Broken(t) || !t.nodes[parent].kind.Dir?) ==> Broken(u)
  {
    hide Lookup;
    var u := Create(t, parent, name, kind, uid, gid).0;
    assert u.nodes[parent].children == t.nodes[parent].children + [t.next];
    if Broken(t) {
      var x :| x in t.nodes && t.nodes[x].children != [] && !t.nodes[x].kind.Dir?;
      assert x in u.nodes && u.nodes[x].children != [] && !u.nodes[x].kind.Dir?;
    }
  }

  lemma CreateStatus(t: Tree, parent: nat, name: seq<Byte>, kind: Kind, uid: U32, gid: U32, good: bool)
    requires Status(t, good) && parent in t.nodes && t.next !in t.nodes && t.next > 0
    ensures var (u, id) := Create(t, parent, name, kind, uid, gid);
            && Keeps(t, u) && Status(u, good && (id == 0 || t.nodes[parent].kind.Dir?))
            && (id != 0 ==> id in u.nodes && u.nodes[id].kind == kind)
  {
    hide Inv, Lookup, Broken;
    var (u, id) := Create(t, parent, name, kind, uid, gid);
    CreateNodes(t, parent, name, kind, uid, gid);
    if id != 0 {
      CreateBreaks(t, parent, name, kind, uid, gid);
      if good && t.nodes[parent].kind.Dir? { CreateKeepsInv(t, parent, name, kind, uid, gid); }
    } else {
      FailedStatus(t, u, good);
    }
  }

  lemma CreateNodes(t: Tree, parent: nat, name: seq<Byte>, kind: Kind, uid: U32, gid: U32)
    requires parent in t.nodes && t.next !in t.nodes && t.next > 0
    ensures var (u, id) := Create(t, parent, name, kind, uid, gid);
            && Keeps(t, u) && (id != 0 ==> id in u.nodes && u.nodes[id].kind == kind)
            && (id == 0 ==> u == t || u == t.(next := t.next + 1))
  {
    hide Lookup;
  }

  lemma FailedStatus(t: Tree, u: Tree, good: bool)
    requires Status(t, good) && (u == t || u == t.(next := t.next + 1))
    ensures Status(u, good)
  {
    if good { UsedUpId(t); }
  }

  lemma WriteStatus(s: Ram, id: nat, data: seq<Byte>, good: bool)
    requires PoolInv(s) && id in s.tree.nodes && Status(s.tree, good)
    ensures Keeps(s.tree, Write(s, id, data).0.tree) && Status(Write(s, id, data).0.tree, good)
  {
    hide PoolInv, Status;
    var u := Write(s, id, data).0.tree;
    if u != s.tree {
      assert u == Replaced(s.tree, id, u.nodes[id]);
      ReplacedStatus(s.tree, id, u.nodes[id], good);
    }
  }

  lemma MetaStatus(s: Ram, id: nat, d: Inode, good: bool)
    requires id in s.tree.nodes && Status(s.tree, good)
    ensures Keeps(s.tree, SetMeta(s, id, d).tree) && Status(SetMeta(s, id, d).tree, good)
  {
    hide Status;
    ReplacedStatus(s.tree, id, s.tree.nodes[id].(uid := d.uid, gid := d.gid, mode := d.mode), good);
  }

  // ---- one inode -----------------------------------------------------------------------------

  function Slot(table: seq<Byte>, k: nat): (d: Inode)
    requires |table| == BLOCK_SIZE && k < INODE_COUNT
    ensures |d.name| == 32
  {
    Unpack(SlotBytes(table, k))
  }

  /** What inode k becomes: the root is a directory whatever its inode says. */
  function KindAt(c: Loader, table: seq<Byte>, k: nat): Kind
    requires |table| == BLOCK_SIZE && k < INODE_COUNT
  {
    if k == c.root then Dir else KindOf(Slot(table, k))
  }

  /** The table says that the parent of inode k is a directory. */
  predicate ParentIsDir(c: Loader, table: seq<Byte>, k: nat)
    requires |table| == BLOCK_SIZE && k < INODE_COUNT
  {
    var p := Slot(table, k).parent;
    p < INODE_COUNT && KindAt(c, table, p).Dir?
  }

  /** The ids handed out in the first n slots are those of live nodes of the right kind. */
  ghost predicate Known(c: Loader, table: seq<Byte>, t: Tree, ids: seq<nat>, n: nat)
    requires |table| == BLOCK_SIZE && |ids| == INODE_COUNT
  {
    && LiveDir(t, ROOT)
    && forall k :: 0 <= k < INODE_COUNT && ids[k] != 0 ==>
         k < n && ids[k] in t.nodes && t.nodes[ids[k]].kind == KindAt(c, table, k)
  }

  /** Inode i is loaded as a node of its own. */
  ghost predicate Made(c: Loader, ids: seq<nat>, i: nat)
    requires i < |ids|
  {
    i != c.root && ids[i] != 0
  }

  lemma LoadOneStatus(c: Loader, s: Ram, ids: seq<nat>, i: nat, table: seq<Byte>, data: seq<Byte>, good: bool)
    requires Tidy(s) && |ids| == INODE_COUNT && i < INODE_COUNT && |table| == BLOCK_SIZE
    requires Known(c, table, s.tree, ids, i) && Status(s.tree, good)
    ensures var (u, r) := LoadOne(c, s, ids, i, Slot(table, i), data);
            && |r| == INODE_COUNT && (forall k :: 0 <= k < INODE_COUNT && k != i ==> r[k] == ids[k])
            && Known(c, table, u.tree, r, i + 1)
            && Status(u.tree, good && (Made(c, r, i) ==> ParentIsDir(c, table, i)))
  {
    hide PoolInv, Create, Write, SetMeta, Status, NameStr, Slot;
    var d := Slot(table, i);
    if d.used != 0 {
      if i == c.root {
        MetaStatus(s, ROOT, d, good);
      } else if d.parent < INODE_COUNT && ids[d.parent] != 0 && NameStr(c, d) != [] {
        LoadMade(c, s, ids, i, d, data, good);
      }
    }
  }

  /** An inode whose parent was loaded: the parent's kind decides. */
  lemma LoadMade(c: Loader, s: Ram, ids: seq<nat>, i: nat, d: Inode, data: seq<Byte>, good: bool)
    requires Tidy(s) && |ids| == INODE_COUNT && i < INODE_COUNT && |d.name| == 32 && d.used != 0 && i != c.root
    requires d.parent < INODE_COUNT && ids[d.parent] != 0 && NameStr(c, d) != [] && ids[d.parent] in s.tree.nodes
    requires Status(s.tree, good) && ids[i] == 0
    ensures var (u, r) := LoadOne(c, s, ids, i, d, data);
            && Keeps(s.tree, u.tree) && |r| == INODE_COUNT && r == ids[i := r[i]]
            && (r[i] != 0 ==> r[i] in u.tree.nodes && u.tree.nodes[r[i]].kind == KindOf(d))
            && Status(u.tree, good && (r[i] == 0 || s.tree.nodes[ids[d.parent]].kind.Dir?))
  {
    hide PoolInv, Create, Write, SetMeta, Status, NameStr;
    var parent, name := ids[d.parent], NameStr(c, d);
    var (t, id) := Create(s.tree, parent, name, KindOf(d), c.uid, c.gid);
    CreateStatus(s.tree, parent, name, KindOf(d), c.uid, c.gid, good);
    CreateTidy(s, parent, name, KindOf(d), c.uid, c.gid);
    var made := Ram(t, s.pool);
    if id != 0 {
      var still := good && s.tree.nodes[parent].kind.Dir?;
      if d.vtype == 0 && d.size > 0 {
        WriteStatus(made, id, data, still);
        MetaStatus(Write(made, id, data).0, id, d, still);
      } else {
        MetaStatus(made, id, d, still);
      }
    }
  }

  // ---- the whole table -----------------------------------------------------------------------

  /** Every inode that became a node has a directory as its parent, by the table. */
  ghost predicate ParentsAreDirs(c: Loader, table: seq<Byte>, ids: seq<nat>, n: nat)
    requires |table| == BLOCK_SIZE && |ids| == INODE_COUNT && n <= INODE_COUNT
  {
    forall i :: 0 <= i < n && Made(c, ids, i) ==> ParentIsDir(c, table, i)
  }

  lemma {:induction false} LoadNStatus(c: Loader, blocks: seq<seq<Byte>>, table: seq<Byte>, pool: Pool, n: nat)
    requires DiskOk(blocks) && |table| == BLOCK_SIZE && FreeOk(pool) && n <= INODE_COUNT
    ensures var (s, ids) := LoadN(c, blocks, table, pool, n);
            Known(c, table, s.tree, ids, n) && Status(s.tree, ParentsAreDirs(c, table, ids, n))
  {
    hide FreeOk, Tidy, LoadOne, RunBytes, Status, Known, ParentIsDir, Unpack;
    if n == 0 {
      StartStatus(c, table);
    } else {
      LoadNStatus(c, blocks, table, pool, n - 1);
      var (s, ids) := LoadN(c, blocks, table, pool, n - 1);
      var d := Slot(table, n - 1);
      LoadOneStatus(c, s, ids, n - 1, table, RunBytes(blocks, c.bad, d.first, Wanted(d)),
                    ParentsAreDirs(c, table, ids, n - 1));
    }
  }

  lemma StartStatus(c: Loader, table: seq<Byte>)
    requires |table| == BLOCK_SIZE
    ensures Known(c, table, INITIAL, seq(INODE_COUNT, _ => 0), 0) && Status(INITIAL, true)
  {
    InitialInv();
  }

  /** Whatever the disk holds, what is loaded is a tree exactly when the table gives every inode
      that becomes a node a directory as its parent. */
  lemma LoadedIsTree(c: Loader, blocks: seq<seq<Byte>>, table: seq<Byte>, pool: Pool, n: nat)
    requires DiskOk(blocks) && |table| == BLOCK_SIZE && FreeOk(pool) && n <= INODE_COUNT
    ensures var (s, ids) := LoadN(c, blocks, table, pool, n); Inv(s.tree) <==> ParentsAreDirs(c, table, ids, n)
  {
    hide FreeOk, Tidy, LoadN, Inv, Known, ParentsAreDirs, Broken;
    LoadNStatus(c, blocks, table, pool, n);
    var (s, ids) := LoadN(c, blocks, table, pool, n);
    if Broken(s.tree) { BrokenIsNoTree(s.tree); }
  }

  /** A file inode, and an inode that names it as its parent: the second becomes its child. */
  lemma FileUnderFile(c: Loader, pool: Pool, a: Inode, b: Inode)
    requires FreeOk(pool) && c.root == 0 && |a.name| == |b.name| == 32 && c.utf8([97])
    requires a.used != 0 && a.vtype == 0 && a.size == 0 && a.parent == 0 && a.nameLen == 1 && a.name[0] == 97
    requires b == a.(parent := 1)
    ensures var ids := seq(INODE_COUNT, _ => 0)[0 := ROOT];
            Tidy(Ram(INITIAL, pool)) &&
            var (s, r) := LoadOne(c, Ram(INITIAL, pool), ids, 1, a, []);
            Tidy(s) && |r| == INODE_COUNT && !Inv(LoadOne(c, s, r, 2, b, []).0.tree)
  {
    hide FreeOk, PoolInv, Inv;
    var ids := seq(INODE_COUNT, _ => 0)[0 := ROOT];
    ResetTidy(pool);
    var s0 := Ram(INITIAL, pool);
    LoadOneTidy(c, s0, ids, 1, a, []);
    var (s, r) := LoadOne(c, s0, ids, 1, a, []);
    assert a.name[..1] == [97] && b.name[..1] == [97];
    assert r[1] == 2 && s.tree.nodes[2].kind == File && s.tree.nodes[2].children == [] && s.tree.next == 3;
    var u := LoadOne(c, s, r, 2, b, []).0;
    assert u.tree.nodes[2].children == [3];
    BrokenIsNoTree(u.tree);
  }
}
