/** kernel/src/fs/diskfs.rs:282-497: load after save. */
module SaveLoad {
  import opened Octets
  import opened FsTree
  import opened FsPool
  import opened FsOrder
  import opened DiskFormat
  import opened DiskImage
  import opened DiskSave
  import opened DiskLoad
  import opened DiskRoundTrip
  import opened Wrappers
  import RamFs

  /** The nodes that the disk order numbers cs. */
  function Named(order: seq<nat>, cs: seq<nat>): seq<nat>
    requires forall i :: 0 <= i < |cs| ==> 1 <= cs[i] <= |order|
  {
    seq(|cs|, i requires 0 <= i < |cs| => order[cs[i] - 1])
  }

  /** Node order[k] of s and node k + 1 of u: same name, kind, owner, mode, place and bytes. */
  ghost predicate SameNode(s: Ram, u: Ram, order: seq<nat>, k: nat)
    requires k < |order| && order[k] in s.tree.nodes && k + 1 in u.tree.nodes
  {
    var a, b := s.tree.nodes[order[k]], u.tree.nodes[k + 1];
    && b.name == a.name && b.uid == a.uid && b.gid == a.gid && b.mode == a.mode
    && b.kind == (if a.kind.Dir? then Dir else File)
    && Contents(u, k + 1) == (if a.kind.Dir? then [] else Contents(s, order[k]))
    && (if k == 0 then a.parent == 0 && b.parent == 0 else 1 <= b.parent <= |order| && order[b.parent - 1] == a.parent)
    && (forall i :: 0 <= i < |b.children| ==> 1 <= b.children[i] <= |order|)
    && Named(order, b.children) == a.children
  }

  /** The two trees are one tree, with order[k] renumbered k + 1. */
  ghost predicate SameTree(s: Ram, u: Ram, order: seq<nat>)
  {
    && NoDuplicates(order) && (forall id :: id in order <==> id in s.tree.nodes)
    && (forall id :: id in u.tree.nodes <==> 1 <= id <= |order|)
    && (forall k :: 0 <= k < |order| ==> order[k] in s.tree.nodes && SameNode(s, u, order, k))
  }

  // ---- child order survives ------------------------------------------------------------------

  ghost predicate AllLive(t: Tree, ids: seq<nat>)
  {
    forall i :: 0 <= i < |ids| ==> ids[i] in t.nodes
  }

  /** Those of ids whose parent is p. */
  ghost function Having(t: Tree, ids: seq<nat>, p: nat): seq<nat>
    requires AllLive(t, ids)
  {
    if ids == [] then []
    else
      var last := |ids| - 1;
      Having(t, ids[..last], p) + (if t.nodes[ids[last]].parent == p then [ids[last]] else [])
  }

  lemma {:induction false} HavingAppend(t: Tree, a: seq<nat>, b: seq<nat>, p: nat)
    requires AllLive(t, a) && AllLive(t, b)
    ensures AllLive(t, a + b) && Having(t, a + b, p) == Having(t, a, p) + Having(t, b, p)
  {
    if b == [] {
      assert a + b == a;
    } else {
      var last := |b| - 1;
      HavingAppend(t, a, b[..last], p);
      assert (a + b)[..|a + b| - 1] == a + b[..last];
    }
  }

  lemma {:induction false} HavingUniform(t: Tree, ids: seq<nat>, q: nat, p: nat)
    requires AllLive(t, ids) && forall i :: 0 <= i < |ids| ==> t.nodes[ids[i]].parent == q
    ensures Having(t, ids, p) == if p == q then ids else []
  {
    if ids != [] {
      var last := |ids| - 1;
      var init := ids[..last];
      assert forall i :: 0 <= i < |init| ==> init[i] == ids[i];
      HavingUniform(t, init, q, p);
      assert ids == init + [ids[last]];
    }
  }

  lemma ChildrenUniform(t: Tree, q: nat, p: nat)
    requires Inv(t) && q in t.nodes
    ensures AllLive(t, Children(t, q)) && Having(t, Children(t, q), p) == if p == q then Children(t, q) else []
  {
    assert NodeOk(t, q);
    hide Inv;
    HavingUniform(t, Children(t, q), q, p);
  }

  lemma SplitLast(t: Tree, ids: seq<nat>, init: seq<nat>, q: nat)
    requires ids != [] && init == ids[..|ids| - 1] && q == ids[|ids| - 1] && NoDuplicates(ids) && AllLive(t, ids)
    ensures q !in init && NoDuplicates(init) && AllLive(t, init) && q in t.nodes
    ensures forall p :: p in ids <==> p in init || p == q
  {
    assert ids == init + [q];
  }

  /** Of all children of ids, those with parent p are p's. */
  lemma {:induction false} HavingFlat(t: Tree, ids: seq<nat>, p: nat)
    requires Inv(t) && NoDuplicates(ids) && AllLive(t, ids)
    ensures AllLive(t, Flat(t, ids)) && Having(t, Flat(t, ids), p) == if p in ids then Children(t, p) else []
  {
    if ids != [] {
      var last := |ids| - 1;
      var q, init := ids[last], ids[..last];
      hide Inv, NoDuplicates, AllLive, Children, Having;
      SplitLast(t, ids, init, q);
      HavingFlat(t, init, p);
      ChildrenUniform(t, q, p);
      HavingAppend(t, Flat(t, init), Children(t, q), p);
    }
  }

  // ---- the items of a tree describe it -------------------------------------------------------

  /** The saved tree and the order it was saved in. */
  ghost predicate Ordered(s: Ram, order: seq<nat>)
  {
    RamInv(s) && BreadthFirst(s.tree, order) && |order| <= MAX_VNODES && AllLive(s.tree, order)
  }

  lemma ItemAt(s: Ram, order: seq<nat>, k: nat)
    requires Ordered(s, order) && k < |order|
    ensures Items(s, order)[k] == ItemFor(s, order, order[k])
    ensures k == 0 <==> order[k] == ROOT
    ensures var n, it := s.tree.nodes[order[k]], Items(s, order)[k];
            && (k == 0 ==> n.parent == 0 && it.parent == 0)
            && (k > 0 ==> n.parent != 0 && it.parent < k && order[it.parent] == n.parent && n.parent in s.tree.nodes)
  {
    hide RamInv, Contents, BreadthFirst, GoodName;
    RootItem(s, order);
    LiveNode(s, order[k]);
    if k > 0 {
      ParentBefore(s, order, k);
      PrefixIndex(order, k, s.tree.nodes[order[k]].parent);
      IndexOfIn(order, s.tree.nodes[order[k]].parent);
    }
  }

  lemma ParentBefore(s: Ram, order: seq<nat>, k: nat)
    requires Ordered(s, order) && 1 <= k < |order|
    ensures order[k] != order[0] && s.tree.nodes[order[k]].parent in order[..k]
    ensures s.tree.nodes[order[k]].parent in order
  {
    hide RamInv, Flat;
  }

  lemma {:induction false} NamedChildren(s: Ram, order: seq<nat>, n: nat, k: nat)
    requires Ordered(s, order) && 1 <= n <= |order| && k < |order|
    ensures var cs := ChildIds(Items(s, order), n, k);
            && (forall i :: 0 <= i < |cs| ==> 1 <= cs[i] <= |order|) && AllLive(s.tree, order[1..n])
            && Named(order, cs) == Having(s.tree, order[1..n], order[k])
  {
    hide RamInv, BreadthFirst, Items, ItemFor;
    if n > 1 {
      NamedChildren(s, order, n - 1, k);
      assert order[1..n][..n - 2] == order[1..n - 1];
      SameParent(s, order, n - 1, k);
      var items := Items(s, order);
      var cs, ds := ChildIds(items, n - 1, k), ChildIds(items, n, k);
      assert ds == if items[n - 1].parent == k then cs + [n] else cs;
      NamedPush(order, cs, n);
      HavingPush(s.tree, order[1..n], order[k]);
    }
  }

  lemma NamedPush(order: seq<nat>, cs: seq<nat>, n: nat)
    requires (forall i :: 0 <= i < |cs| ==> 1 <= cs[i] <= |order|) && 1 <= n <= |order|
    ensures Named(order, cs + [n]) == Named(order, cs) + [order[n - 1]]
  {
  }

  lemma HavingPush(t: Tree, ids: seq<nat>, p: nat)
    requires AllLive(t, ids) && ids != []
    ensures var last := |ids| - 1;
            Having(t, ids, p) == Having(t, ids[..last], p) + (if t.nodes[ids[last]].parent == p then [ids[last]] else [])
  {
  }

  /** Being the child of item k and of node order[k] is the same thing. */
  lemma SameParent(s: Ram, order: seq<nat>, j: nat, k: nat)
    requires Ordered(s, order) && 1 <= j < |order| && k < |order|
    ensures Items(s, order)[j].parent == k <==> s.tree.nodes[order[j]].parent == order[k]
  {
    ItemAt(s, order, j);
    hide RamInv, ItemFor;
  }

  /** The child ids of item k name the children of node order[k], in order. */
  lemma ChildOrder(s: Ram, order: seq<nat>, k: nat)
    requires Ordered(s, order) && k < |order|
    ensures var cs := ChildIds(Items(s, order), |order|, k);
            && (forall i :: 0 <= i < |cs| ==> 1 <= cs[i] <= |order|)
            && Named(order, cs) == s.tree.nodes[order[k]].children && |cs| <= MAX_CHILDREN
  {
    hide RamInv, Having, ChildIds, Items, BreadthFirst, AllLive, NoDuplicates, Inv;
    FlatPart(s, order, k);
    NamedChildren(s, order, |order|, k);
    HavingFlat(s.tree, order, order[k]);
  }

  lemma FlatPart(s: Ram, order: seq<nat>, k: nat)
    requires Ordered(s, order) && k < |order|
    ensures Inv(s.tree) && NoDuplicates(order) && order[1..|order|] == Flat(s.tree, order) && order[k] in s.tree.nodes
    ensures |Children(s.tree, order[k])| <= MAX_CHILDREN
  {
    hide PoolInv, Inv, NoDuplicates, Flat, Children;
    Behind(order, Flat(s.tree, order));
    FewChildren(s.tree, order[k]);
  }

  lemma Behind(order: seq<nat>, rest: seq<nat>)
    requires order == [ROOT] + rest
    ensures order[1..|order|] == rest
  {
  }

  lemma FewChildren(t: Tree, id: nat)
    requires Inv(t) && id in t.nodes
    ensures |Children(t, id)| <= MAX_CHILDREN
  {
    assert NodeOk(t, id);
  }

  lemma SiblingNames(s: Ram, order: seq<nat>, j: nat, k: nat)
    requires Ordered(s, order) && 1 <= j < k < |order| && Items(s, order)[j].parent == Items(s, order)[k].parent
    ensures Items(s, order)[j].name != Items(s, order)[k].name
  {
    ItemAt(s, order, j);
    ItemAt(s, order, k);
    var p := s.tree.nodes[order[j]].parent;
    assert NodeOk(s.tree, order[j]) && NodeOk(s.tree, order[k]) && NodeOk(s.tree, p);
    hide RamInv, Items;
    DistinctNames(s.tree, p, order[j], order[k]);
  }

  lemma DistinctNames(t: Tree, p: nat, a: nat, b: nat)
    requires p in t.nodes && NodeOk(t, p) && a in t.nodes[p].children && b in t.nodes[p].children && a != b
    ensures a in t.nodes && b in t.nodes && t.nodes[a].name != t.nodes[b].name
  {
    var cs := t.nodes[p].children;
    var i :| 0 <= i < |cs| && cs[i] == a;
    var j :| 0 <= j < |cs| && cs[j] == b;
    if i < j { assert t.nodes[cs[i]].name != t.nodes[cs[j]].name; } else { assert t.nodes[cs[j]].name != t.nodes[cs[i]].name; }
  }

  lemma ParentIsDir(s: Ram, order: seq<nat>, k: nat)
    requires Ordered(s, order) && 1 <= k < |order|
    ensures ParentOk(Items(s, order), k)
  {
    ItemAt(s, order, k);
    var p := Items(s, order)[k].parent;
    ItemAt(s, order, p);
    assert NodeOk(s.tree, order[k]) && NodeOk(s.tree, order[p]);
    hide RamInv, Contents;
  }

  ghost predicate NamesText(t: Tree, utf8: seq<Byte> -> bool)
  {
    forall id :: id in t.nodes ==> utf8(t.nodes[id].name)
  }

  lemma ItemsShaped(s: Ram, order: seq<nat>, utf8: seq<Byte> -> bool)
    requires Ordered(s, order) && NamesText(s.tree, utf8)
    ensures Shaped(Items(s, order), utf8)
  {
    hide RamInv, BreadthFirst, ItemsOk, ChildIds, ParentOk, Contents;
    ItemsOfOk(s, order);
    RootItem(s, order);
    var items := Items(s, order);
    forall k | 1 <= k < |items| ensures ParentOk(items, k) { ParentIsDir(s, order, k); }
    forall j, k | 1 <= j < k < |items| && items[j].parent == items[k].parent ensures items[j].name != items[k].name {
      SiblingNames(s, order, j, k);
    }
    forall k | 0 <= k < |items| ensures |ChildIds(items, |items|, k)| <= MAX_CHILDREN { ChildOrder(s, order, k); }
  }

  // ---- the round trip ------------------------------------------------------------------------

  lemma NodeSurvives(s: Ram, u: Ram, order: seq<nat>, k: nat)
    requires Ordered(s, order) && k < |order| && k + 1 in u.tree.nodes
    requires NodeMatches(u, Items(s, order), |order|, k)
    ensures SameNode(s, u, order, k)
  {
    hide RamInv, BreadthFirst, Contents, ChildIds, Named, ItemFor, Items;
    ItemAt(s, order, k);
    ItemSays(s, order, order[k]);
    ChildOrder(s, order, k);
  }

  lemma ItemSays(s: Ram, order: seq<nat>, id: nat)
    requires id in s.tree.nodes
    ensures var n, it := s.tree.nodes[id], ItemFor(s, order, id);
            && it.dir == n.kind.Dir? && it.name == n.name && it.mode == n.mode && it.uid == n.uid && it.gid == n.gid
            && it.data == if n.kind.Dir? then [] else Contents(s, id)
  {
  }

  lemma TreeSurvives(s: Ram, u: Ram, order: seq<nat>)
    requires Ordered(s, order) && Matches(u, Items(s, order), |order|)
    ensures SameTree(s, u, order)
  {
    hide RamInv, NodeMatches, SameNode, Items, Flat;
    forall k | 0 <= k < |order| ensures order[k] in s.tree.nodes && SameNode(s, u, order, k) {
      assert NodeMatches(u, Items(s, order), |order|, k);
      NodeSurvives(s, u, order, k);
    }
  }

  lemma ImageReadable(blocks: seq<seq<Byte>>, bad: set<nat>, items: seq<Item>, generation: U32)
    requires DiskOk(blocks) && Image(blocks, items, generation) && AllGood(bad, 0, DATA_START_BLOCK)
    ensures Readable(blocks, bad) == Some(Super(generation))
  {
    hide PackSuper, UnpackSuper, InodesAt, DataAt, BitmapOk, ItemsOk;
    UnpackPackSuper(Super(generation));
  }

  /** Loading the inode table and the data blocks of a tree gives the tree back. */
  lemma PartsRoundTrip(s: Ram, order: seq<nat>, blocks: seq<seq<Byte>>, pool: Pool, c: Loader)
    requires Ordered(s, order) && NamesText(s.tree, c.utf8) && c.root == 0
    requires DiskOk(blocks) && ItemsOk(Items(s, order)) && Items(s, order) != [] && Items(s, order)[0].dir
    requires InodesAt(blocks[INODE_TABLE_BLOCK], Items(s, order), |Items(s, order)|)
    requires DataAt(blocks, Items(s, order), |Items(s, order)|)
    requires AllGood(c.bad, 0, First(Items(s, order), |Items(s, order)|))
    requires FreeOk(pool) && pool.next + Bytes(Items(s, order)) <= POOL
    ensures SameTree(s, LoadN(c, blocks, blocks[INODE_TABLE_BLOCK], pool, INODE_COUNT).0, order)
  {
    hide RamInv, BreadthFirst, Items, ItemsOk, InodesAt, DataAt, BitmapOk, FreeOk, NamesText, Shaped, LoadN, Matches,
         SameTree, PackSuper, Bytes;
    ItemsShaped(s, order, c.utf8);
    LoadRest(c, blocks, Items(s, order), pool, INODE_COUNT);
    TreeSurvives(s, LoadN(c, blocks, blocks[INODE_TABLE_BLOCK], pool, INODE_COUNT).0, order);
  }

  /** Loading the image of a tree gives the tree back. */
  lemma RoundTrip(s: Ram, order: seq<nat>, blocks: seq<seq<Byte>>, generation: U32, pool: Pool, c: Loader)
    requires Ordered(s, order) && NamesText(s.tree, c.utf8) && c.root == 0
    requires DiskOk(blocks) && Image(blocks, Items(s, order), generation)
    requires AllGood(c.bad, 0, First(Items(s, order), |Items(s, order)|))
    requires FreeOk(pool) && pool.next + Bytes(Items(s, order)) <= POOL
    ensures SameTree(s, LoadN(c, blocks, blocks[INODE_TABLE_BLOCK], pool, INODE_COUNT).0, order)
  {
    hide RamInv, BreadthFirst, Items, ItemsOk, InodesAt, DataAt, BitmapOk, FreeOk, NamesText, LoadN, SameTree, PackSuper,
         Bytes, First, AllGood;
    PartsRoundTrip(s, order, blocks, pool, c);
  }

  /** A save followed by a load, on a pool with room for one more copy of the files.  It goes
      through exactly when the drive works on every block the image takes. */
  method SaveThenLoad(fs: RamFs.Files, disk: Disk, uid: U32, gid: U32, utf8: seq<Byte> -> bool)
    returns (saved: bool, loaded: Outcome, ghost order: seq<nat>)
    requires fs.Valid() && RamInv(fs.View()) && disk.Valid() && NamesText(fs.View().tree, utf8)
    modifies disk.blocks, disk`log, fs, fs.pool, fs.table, fs.table.slots
    ensures fs.Valid() && PoolInv(fs.View()) && Ordered(old(fs.View()), order)
    ensures var items := Items(old(fs.View()), order); saved <==> AllGood(disk.bad, 0, First(items, |items|))
    ensures !saved ==> fs.View() == old(fs.View())
    ensures saved ==> loaded.Loaded?
    ensures saved && old(fs.next) + Bytes(Items(old(fs.View()), order)) <= POOL ==> SameTree(old(fs.View()), fs.View(), order)
  {
    hide RamInv, BreadthFirst, Items, ItemsOk, InodesAt, DataAt, BitmapOk, FreeOk, NamesText, LoadN, SameTree, PackSuper,
         Readable, Image, DiskSave.Generation, Bytes, First, AllGood;
    ghost var s, pool := fs.View(), fs.Pool();
    saved, order := Save(fs, disk);
    SplitInv(s);
    loaded := Refused;
    if !saved { return; }
    loaded := Load(fs, disk, uid, gid, utf8);
    ghost var blocks := disk.blocks[..];
    ghost var generation := Later(Generation(old(disk.blocks[0])));
    GoodStart(disk.bad, Items(s, order));
    ImageReadable(blocks, disk.bad, Items(s, order), generation);
    if pool.next + Bytes(Items(s, order)) <= POOL {
      RoundTrip(s, order, blocks, generation, pool, Loader(0, uid, gid, utf8, disk.bad));
    }
  }

  lemma SplitInv(s: Ram)
    requires RamInv(s)
    ensures PoolInv(s) && FreeOk(s.pool)
  {
  }
}
