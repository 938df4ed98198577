/** Loading what was saved gives the same tree, up to the ids. */
module DiskRoundTrip {
  import opened Octets
  import opened FsTree
  import opened FsPool
  import opened FsOrder
  import opened DiskFormat
  import opened DiskImage
  import opened DiskSave
  import opened DiskLoad

  // ---- the tree that items describe ----------------------------------------------------------

  /** The ids of the children of item k among the first n items. */
  function ChildIds(items: seq<Item>, n: nat, k: nat): seq<nat>
    requires n <= |items|
  {
    if n <= 1 then [] else ChildIds(items, n - 1, k) + (if items[n - 1].parent == k then [n] else [])
  }

  ghost predicate ParentOk(items: seq<Item>, k: nat)
    requires k < |items|
  {
    items[k].parent < k && items[items[k].parent].dir
  }

  /** Parents first, sibling names distinct, no child list too long, names that survive as text. */
  ghost predicate Shaped(items: seq<Item>, utf8: seq<Byte> -> bool)
  {
    && ItemsOk(items) && items != [] && items[0].dir && items[0].name == SLASH
    && (forall k :: 1 <= k < |items| ==> ParentOk(items, k))
    && (forall k :: 1 <= k < |items| ==> utf8(items[k].name))
    && (forall j, k :: 1 <= j < k < |items| && items[j].parent == items[k].parent ==> items[j].name != items[k].name)
    && (forall k :: 0 <= k < |items| ==> |ChildIds(items, |items|, k)| <= MAX_CHILDREN)
  }

  /** Node k + 1 is item k, as the first n items know it. */
  ghost predicate NodeMatches(s: Ram, items: seq<Item>, n: nat, k: nat)
    requires k < n <= |items| && k + 1 in s.tree.nodes
  {
    var v, it := s.tree.nodes[k + 1], items[k];
    && v.id == k + 1 && v.kind == (if it.dir then Dir else File) && v.name == it.name
    && v.parent == (if k == 0 then 0 else it.parent + 1) && v.children == ChildIds(items, n, k)
    && v.uid == it.uid && v.gid == it.gid && v.mode == it.mode && Contents(s, k + 1) == it.data
  }

  ghost predicate Matches(s: Ram, items: seq<Item>, n: nat)
    requires n <= |items|
  {
    && s.tree.next == n + 1
    && (forall id :: id in s.tree.nodes <==> 1 <= id <= n)
    && (forall k :: 0 <= k < n ==> NodeMatches(s, items, n, k))
  }

  ghost function Bytes(items: seq<Item>): nat
  {
    if items == [] then 0 else |items[0].data| + Bytes(items[1..])
  }

  // ---- children ------------------------------------------------------------------------------

  lemma {:induction false} ChildIdsAre(items: seq<Item>, n: nat, k: nat, c: nat)
    requires n <= |items| && c in ChildIds(items, n, k)
    ensures 2 <= c <= n && items[c - 1].parent == k
  {
    if n > 1 && c in ChildIds(items, n - 1, k) { ChildIdsAre(items, n - 1, k, c); }
  }

  lemma {:induction false} ChildIdsGrow(items: seq<Item>, m: nat, n: nat, k: nat)
    requires m <= n <= |items|
    ensures |ChildIds(items, m, k)| <= |ChildIds(items, n, k)|
    ensures m < n && n > 1 && items[n - 1].parent == k ==> |ChildIds(items, m, k)| < |ChildIds(items, n, k)|
  {
    if m < n && n > 1 { ChildIdsGrow(items, m, n - 1, k); }
  }

  lemma RoomForChild(items: seq<Item>, utf8: seq<Byte> -> bool, n: nat)
    requires Shaped(items, utf8) && 1 <= n < |items|
    ensures |ChildIds(items, n, items[n].parent)| < MAX_CHILDREN
  {
    hide ChildIds, ItemsOk;
    assert ParentOk(items, n);
    var p := items[n].parent;
    ChildIdsGrow(items, n, n + 1, p);
    ChildIdsGrow(items, n + 1, |items|, p);
  }

  lemma OtherName(s: Ram, items: seq<Item>, utf8: seq<Byte> -> bool, n: nat, c: nat)
    requires Shaped(items, utf8) && 1 <= n < |items| && Matches(s, items, n) && c in ChildIds(items, n, items[n].parent)
    ensures c in s.tree.nodes && s.tree.nodes[c].name != items[n].name
  {
    ChildIdsAre(items, n, items[n].parent, c);
    assert NodeMatches(s, items, n, c - 1);
  }

  lemma NewName(s: Ram, items: seq<Item>, utf8: seq<Byte> -> bool, n: nat)
    requires Shaped(items, utf8) && 1 <= n < |items| && Matches(s, items, n)
    ensures Lookup(s.tree, items[n].parent + 1, items[n].name) == 0
  {
    assert ParentOk(items, n);
    var p, name := items[n].parent, items[n].name;
    assert NodeMatches(s, items, n, p);
    var kids := ChildIds(items, n, p);
    forall c | c in kids ensures c in s.tree.nodes && s.tree.nodes[c].name != name { OtherName(s, items, utf8, n, c); }
    FirstNamedSpec(s.tree.nodes, kids, name);
  }

  lemma {:induction false} Counted(nodes: set<nat>, n: nat)
    requires forall id :: id in nodes <==> 1 <= id <= n
    ensures |nodes| == n
  {
    if n > 0 { Counted(nodes - {n}, n - 1); }
  }

  // ---- one inode of an image -----------------------------------------------------------------

  /** The tree after the node of item n is created, before it is filled. */
  lemma Created(s: Ram, items: seq<Item>, utf8: seq<Byte> -> bool, n: nat, kind: Kind, uid: U32, gid: U32)
    returns (node: Vnode)
    requires Shaped(items, utf8) && 1 <= n < |items| && Matches(s, items, n)
    ensures var p := items[n].parent + 1;
            var (t, id) := Create(s.tree, p, items[n].name, kind, uid, gid);
            && id == n + 1 && Grown(s.tree, t, node, p)
            && node.kind == kind && node.name == items[n].name && node.off == 0 && node.size == 0
  {
    hide ChildIds, Lookup;
    assert ParentOk(items, n);
    var p := items[n].parent + 1;
    NewName(s, items, utf8, n);
    RoomForChild(items, utf8, n);
    Counted(s.tree.nodes.Keys, n);
    assert NodeMatches(s, items, n, p - 1);
    assert ItemOk(items[n]) && |s.tree.nodes| == |s.tree.nodes.Keys|;
    node := EMPTY.(id := n + 1, kind := kind, name := items[n].name, parent := p, uid := uid, gid := gid,
      mode := if kind.Dir? then MODE_DIR else MODE_FILE);
  }

  /** u is made with node id filled from the item, and nothing else touched. */
  ghost predicate FilledFrom(made: Ram, u: Ram, id: nat, it: Item)
  {
    && u.tree.next == made.tree.next && u.tree.nodes.Keys == made.tree.nodes.Keys && id in made.tree.nodes
    && (forall x :: x in made.tree.nodes && x != id ==> u.tree.nodes[x] == made.tree.nodes[x])
    && (forall x :: x != id ==> Contents(u, x) == Contents(made, x))
    && SameShape(made.tree.nodes[id], u.tree.nodes[id]) && Contents(u, id) == it.data
    && u.tree.nodes[id].uid == it.uid && u.tree.nodes[id].gid == it.gid && u.tree.nodes[id].mode == it.mode
  }

  lemma WriteFills(made: Ram, id: nat, data: seq<Byte>)
    requires PoolInv(made) && id in made.tree.nodes && |data| <= MAX_FILE_SIZE && made.pool.next + |data| <= POOL
    ensures var u := Write(made, id, data).0;
            && u.tree.next == made.tree.next && u.tree.nodes.Keys == made.tree.nodes.Keys
            && (forall x :: x in made.tree.nodes && x != id ==> u.tree.nodes[x] == made.tree.nodes[x])
            && (forall x :: x != id ==> Contents(u, x) == Contents(made, x)) && Contents(u, id) == data
            && SameShape(made.tree.nodes[id], u.tree.nodes[id]) && u.pool.next <= made.pool.next + |data|
  {
    hide PoolInv, Contents, Alloc, Release, Overwritten;
    WriteSucceeds(made, id, data);
    WriteReads(made, id, data);
    forall x | x != id ensures Contents(Write(made, id, data).0, x) == Contents(made, x) {
      WriteOthers(made, id, data, x);
    }
  }

  lemma MetaFills(made: Ram, w: Ram, id: nat, it: Item, d: Inode)
    requires Tidy(w) && id in made.tree.nodes
    requires w.tree.next == made.tree.next && w.tree.nodes.Keys == made.tree.nodes.Keys
    requires forall x :: x in made.tree.nodes && x != id ==> w.tree.nodes[x] == made.tree.nodes[x]
    requires forall x :: x != id ==> Contents(w, x) == Contents(made, x)
    requires Contents(w, id) == it.data && SameShape(made.tree.nodes[id], w.tree.nodes[id])
    requires d.uid == it.uid && d.gid == it.gid && d.mode == it.mode
    ensures FilledFrom(made, SetMeta(w, id, d), id, it) && SetMeta(w, id, d).pool == w.pool
  {
    hide Tidy, Contents;
    SetMetaTidy(w, id, d);
  }

  /** A node under parent p, filled from item n, completes the picture. */
  lemma OldMatches(s: Ram, t: Tree, u: Ram, node: Vnode, items: seq<Item>, n: nat, k: nat)
    requires 1 <= n < |items| && Matches(s, items, n) && k < n
    requires Grown(s.tree, t, node, items[n].parent + 1) && FilledFrom(Ram(t, s.pool), u, n + 1, items[n])
    requires DataKept(s.tree, t)
    ensures k + 1 in u.tree.nodes && NodeMatches(u, items, n + 1, k)
  {
    assert NodeMatches(s, items, n, k);
    assert u.tree.nodes[k + 1] == t.nodes[k + 1];
    assert Contents(u, k + 1) == Contents(Ram(t, s.pool), k + 1) == Contents(s, k + 1);
  }

  lemma {:induction false} NoChildren(items: seq<Item>, n: nat, k: nat)
    requires n <= k + 1 && n <= |items| && forall j :: 1 <= j < |items| ==> items[j].parent < j
    ensures ChildIds(items, n, k) == []
  {
    if n > 1 { NoChildren(items, n - 1, k); }
  }

  lemma NewMatches(s: Ram, t: Tree, u: Ram, node: Vnode, items: seq<Item>, n: nat)
    requires 1 <= n < |items| && s.tree.next == n + 1 && node.name == items[n].name
    requires Grown(s.tree, t, node, items[n].parent + 1) && FilledFrom(Ram(t, s.pool), u, n + 1, items[n])
    requires node.kind == if items[n].dir then Dir else File
    requires ChildIds(items, n + 1, n) == [] && items[n].parent < n
    ensures n + 1 in u.tree.nodes && NodeMatches(u, items, n + 1, n)
  {
    hide Contents, ChildIds;
  }

  lemma NextMatches(s: Ram, t: Tree, u: Ram, node: Vnode, items: seq<Item>, utf8: seq<Byte> -> bool, n: nat)
    requires Shaped(items, utf8) && 1 <= n < |items| && Matches(s, items, n) && node.name == items[n].name
    requires Grown(s.tree, t, node, items[n].parent + 1) && FilledFrom(Ram(t, s.pool), u, n + 1, items[n])
    requires DataKept(s.tree, t) && node.kind == if items[n].dir then Dir else File
    ensures Matches(u, items, n + 1)
  {
    hide Shaped, NodeMatches, Contents, ChildIds, DataKept;
    var m := n + 1;
    NoOwnChildren(items, utf8, n);
    NewMatches(s, t, u, node, items, n);
    forall k | 0 <= k < n ensures k + 1 in u.tree.nodes && NodeMatches(u, items, m, k) {
      OldMatches(s, t, u, node, items, n, k);
    }
  }

  lemma NoOwnChildren(items: seq<Item>, utf8: seq<Byte> -> bool, n: nat)
    requires Shaped(items, utf8) && 1 <= n < |items|
    ensures ChildIds(items, n + 1, n) == [] && items[n].parent < n
  {
    forall j | 1 <= j < |items| ensures items[j].parent < j { assert ParentOk(items, j); }
    hide Shaped;
    NoChildren(items, n + 1, n);
  }

  /** What the inode of item n says. */
  lemma InodeSays(items: seq<Item>, utf8: seq<Byte> -> bool, n: nat, c: Loader)
    requires Shaped(items, utf8) && 1 <= n < |items| && c.utf8 == utf8
    ensures var d, it := InodeOf(items, n), items[n];
            && d.used == 1 && d.parent == it.parent < n && NameStr(c, d) == it.name && it.name != []
            && KindOf(d) == (if it.dir then Dir else File) && d.size == |it.data| <= MAX_FILE_SIZE
            && (d.vtype == 0 <==> !it.dir) && (it.dir ==> it.data == [])
            && d.uid == it.uid && d.gid == it.gid && d.mode == it.mode && |d.name| == 32
  {
    assert ParentOk(items, n) && ItemOk(items[n]) && utf8(items[n].name);
    hide Shaped, ItemsOk, First, ParentOk;
    var d, it := InodeOf(items, n), items[n];
    assert d.name[..|it.name|] == it.name;
  }

  /** The bytes of an item go into its node. */
  ghost function Stored(made: Ram, id: nat, d: Inode, data: seq<Byte>): Ram
    requires PoolInv(made)
  {
    if d.vtype == 0 && d.size > 0 then Write(made, id, data).0 else made
  }

  lemma StoredFills(made: Ram, id: nat, d: Inode, it: Item)
    requires Tidy(made) && id in made.tree.nodes && Contents(made, id) == []
    requires |it.data| <= MAX_FILE_SIZE && made.pool.next + |it.data| <= POOL
    requires (d.vtype == 0 <==> !it.dir) && (it.dir ==> it.data == []) && d.size == |it.data|
    requires d.uid == it.uid && d.gid == it.gid && d.mode == it.mode
    ensures var u := SetMeta(Stored(made, id, d, it.data), id, d);
            FilledFrom(made, u, id, it) && u.pool.next <= made.pool.next + |it.data|
  {
    hide PoolInv, Contents, Write, SetMeta, FilledFrom;
    if d.vtype == 0 && d.size > 0 {
      WriteFills(made, id, it.data);
      WriteTidy(made, id, it.data);
      hide SameShape;
      MetaFills(made, Write(made, id, it.data).0, id, it, d);
    } else {
      MetaFills(made, made, id, it, d);
    }
  }

  /** Where an inode that is neither free nor the root nor an orphan leads. */
  lemma LoadOneIs(c: Loader, s: Ram, ids: seq<nat>, n: nat, d: Inode, data: seq<Byte>, p: nat)
    requires Tidy(s) && |ids| == INODE_COUNT && n < INODE_COUNT && |d.name| == 32 && d.used == 1 && n != c.root
    requires d.parent < INODE_COUNT && ids[d.parent] == p != 0 && NameStr(c, d) != []
    requires Create(s.tree, p, NameStr(c, d), KindOf(d), c.uid, c.gid).1 != 0
    ensures var (t, id) := Create(s.tree, p, NameStr(c, d), KindOf(d), c.uid, c.gid);
            && Tidy(Ram(t, s.pool))
            && LoadOne(c, s, ids, n, d, data) == (SetMeta(Stored(Ram(t, s.pool), id, d, data), id, d), ids[n := id])
  {
    hide PoolInv, Create, Write, SetMeta, NameStr, KindOf;
    CreateTidy(s, p, NameStr(c, d), KindOf(d), c.uid, c.gid);
  }

  lemma LoadNode(c: Loader, s: Ram, ids: seq<nat>, items: seq<Item>, n: nat, d: Inode)
    requires Shaped(items, c.utf8) && 1 <= n < |items| && n < INODE_COUNT && Matches(s, items, n) && Tidy(s) && c.root == 0
    requires |ids| == INODE_COUNT && (forall k :: 0 <= k < n ==> ids[k] == k + 1)
    requires d == InodeOf(items, n) && |d.name| == 32 && s.pool.next + |items[n].data| <= POOL
    ensures var (u, r) := LoadOne(c, s, ids, n, d, items[n].data);
            && Matches(u, items, n + 1) && r == ids[n := n + 1] && u.pool.next <= s.pool.next + |items[n].data|
  {
    hide Shaped, NodeMatches, Grown, NameStr, KindOf, Create, Stored, SetMeta, FilledFrom, InodeOf, PoolInv, Contents, DataKept,
         SameShape, LoadOne, ItemsOk, ItemOk;
    InodeSays(items, c.utf8, n, c);
    var it, p := items[n], items[n].parent + 1;
    var node := Created(s, items, c.utf8, n, KindOf(d), c.uid, c.gid);
    var t := Create(s.tree, p, it.name, KindOf(d), c.uid, c.gid).0;
    assert ids[d.parent] == p;
    LoadOneIs(c, s, ids, n, d, it.data, p);
    NewIsEmpty(s, t, node, p, n);
    StoredFills(Ram(t, s.pool), n + 1, d, it);
    NextKept(s, p, it.name, KindOf(d), c.uid, c.gid);
    NextMatches(s, t, SetMeta(Stored(Ram(t, s.pool), n + 1, d, it.data), n + 1, d), node, items, c.utf8, n);
  }

  lemma NextKept(s: Ram, p: nat, name: seq<Byte>, kind: Kind, uid: U32, gid: U32)
    requires Tidy(s)
    ensures DataKept(s.tree, Create(s.tree, p, name, kind, uid, gid).0)
  {
    hide PoolInv, Create;
    CreateKeepsData(s.tree, p, name, kind, uid, gid);
  }

  lemma NewIsEmpty(s: Ram, t: Tree, node: Vnode, p: nat, n: nat)
    requires Grown(s.tree, t, node, p) && node.off == 0 && s.tree.next == n + 1
    ensures n + 1 in t.nodes && Contents(Ram(t, s.pool), n + 1) == [] && SameShape(t.nodes[n + 1], t.nodes[n + 1])
  {
  }

  // ---- the whole image -----------------------------------------------------------------------

  lemma LoadRoot(c: Loader, pool: Pool, items: seq<Item>, d: Inode, data: seq<Byte>)
    requires Shaped(items, c.utf8) && FreeOk(pool) && d == InodeOf(items, 0) && |d.name| == 32 && c.root == 0
    requires Tidy(Ram(INITIAL, pool))
    ensures var (u, r) := LoadOne(c, Ram(INITIAL, pool), seq(INODE_COUNT, _ => 0), 0, d, data);
            Matches(u, items, 1) && r[0] == 1 && |r| == INODE_COUNT && u.pool == pool
  {
    assert ItemOk(items[0]);
    hide PoolInv, FreeOk;
    var s := Ram(INITIAL, pool);
    assert Contents(SetMeta(s, ROOT, d), ROOT) == [];
  }

  /** The blocks of a run, read back in order, are the file. */
  lemma RunIsData(blocks: seq<seq<Byte>>, bad: set<nat>, data: seq<Byte>, first: nat)
    requires DiskOk(blocks) && first + BlocksFor(|data|) <= BLOCK_COUNT && RunAt(blocks, data, first)
    requires AllGood(bad, first, first + BlocksFor(|data|))
    ensures RunBytes(blocks, bad, first, |data|) == data
  {
    forall j | 0 <= j < |data| ensures RunBytes(blocks, bad, first, |data|)[j] == data[j] {
      var b := j / BLOCK_SIZE;
      assert blocks[first + b] == Chunk(data, b);
      assert Chunk(data, b)[j % BLOCK_SIZE] == data[j];
    }
  }

  lemma ItemData(blocks: seq<seq<Byte>>, bad: set<nat>, items: seq<Item>, n: nat)
    requires DiskOk(blocks) && ItemsOk(items) && n < |items| && items[0].dir && RunOf(blocks, items, n)
    requires AllGood(bad, 0, First(items, |items|))
    ensures var d := InodeOf(items, n); RunBytes(blocks, bad, d.first, Wanted(d)) == items[n].data
  {
    assert ItemOk(items[n]);
    hide ItemsOk, RunAt, RunBytes;
    RunInside(items, n);
    FirstStep(items, n);
    FirstMono(items, n + 1, |items|);
    RunIsData(blocks, bad, items[n].data, First(items, n));
    NoBytes(blocks, bad, InodeOf(items, n).first);
  }

  lemma NoBytes(blocks: seq<seq<Byte>>, bad: set<nat>, first: nat)
    requires DiskOk(blocks)
    ensures RunBytes(blocks, bad, first, 0) == []
  {
  }

  /** The disk holds the items in blocks that can be read, and the pool has room for their bytes. */
  ghost predicate Ready(c: Loader, blocks: seq<seq<Byte>>, items: seq<Item>, pool: Pool)
  {
    && DiskOk(blocks) && FreeOk(pool) && c.root == 0 && Shaped(items, c.utf8)
    && InodesAt(blocks[INODE_TABLE_BLOCK], items, |items|) && DataAt(blocks, items, |items|)
    && pool.next + Bytes(items) <= POOL && AllGood(c.bad, 0, First(items, |items|))
  }

  lemma SlotSays(c: Loader, blocks: seq<seq<Byte>>, items: seq<Item>, pool: Pool, n: nat)
    requires Ready(c, blocks, items, pool) && n < |items| && n < INODE_COUNT
    ensures var d := Unpack(SlotBytes(blocks[INODE_TABLE_BLOCK], n));
            ItemsOk(items) && items[0].dir && d == InodeOf(items, n) && RunBytes(blocks, c.bad, d.first, Wanted(d)) == items[n].data
  {
    assert ItemsOk(items);
    assert SlotBytes(blocks[INODE_TABLE_BLOCK], n) == Pack(InodeOf(items, n));
    assert RunOf(blocks, items, n);
    hide *;
    ItemData(blocks, c.bad, items, n);
    UnpackPack(InodeOf(items, n));
  }

  ghost predicate LoadedSoFar(s: Ram, ids: seq<nat>, items: seq<Item>, n: nat)
    requires n <= |items|
  {
    && Matches(s, items, n) && |ids| == INODE_COUNT && n <= INODE_COUNT && (forall k :: 0 <= k < n ==> ids[k] == k + 1)
    && s.pool.next + Bytes(items[n..]) <= POOL
  }

  lemma {:induction false} LoadItems(c: Loader, blocks: seq<seq<Byte>>, items: seq<Item>, pool: Pool, n: nat)
    requires Ready(c, blocks, items, pool) && 1 <= n <= |items| && n <= INODE_COUNT
    ensures var (s, ids) := LoadN(c, blocks, blocks[INODE_TABLE_BLOCK], pool, n); LoadedSoFar(s, ids, items, n)
  {
    hide InodesAt, DataAt, Unpack, SlotBytes, RunBytes, LoadOne, InodeOf, Matches, Shaped, Tidy, FreeOk;
    SlotSays(c, blocks, items, pool, n - 1);
    if n == 1 {
      ResetTidy(pool);
      LoadRoot(c, pool, items, InodeOf(items, 0), items[0].data);
      FirstBytes(items, c.utf8);
    } else {
      LoadItems(c, blocks, items, pool, n - 1);
      var (s, ids) := LoadN(c, blocks, blocks[INODE_TABLE_BLOCK], pool, n - 1);
      BytesStep(items, n - 1);
      LoadNode(c, s, ids, items, n - 1, InodeOf(items, n - 1));
    }
  }

  lemma FirstBytes(items: seq<Item>, utf8: seq<Byte> -> bool)
    requires Shaped(items, utf8)
    ensures items != [] && Bytes(items) == Bytes(items[1..])
  {
    assert ItemOk(items[0]);
  }

  lemma BytesStep(items: seq<Item>, n: nat)
    requires n < |items|
    ensures Bytes(items[n..]) == |items[n].data| + Bytes(items[n + 1..])
  {
    assert items[n..][1..] == items[n + 1..];
  }

  lemma SlotUnused(c: Loader, blocks: seq<seq<Byte>>, items: seq<Item>, pool: Pool, n: nat)
    requires Ready(c, blocks, items, pool) && |items| <= n < INODE_COUNT
    ensures Unpack(SlotBytes(blocks[INODE_TABLE_BLOCK], n)).used == 0
  {
    hide SlotBytes, DataAt, Shaped, FreeOk;
    assert SlotBytes(blocks[INODE_TABLE_BLOCK], n) == Zeros(INODE_SIZE);
  }

  /** The slots behind the last item change nothing. */
  lemma {:induction false} LoadRest(c: Loader, blocks: seq<seq<Byte>>, items: seq<Item>, pool: Pool, n: nat)
    requires Ready(c, blocks, items, pool) && |items| <= n <= INODE_COUNT && items != []
    ensures Matches(LoadN(c, blocks, blocks[INODE_TABLE_BLOCK], pool, n).0, items, |items|)
  {
    hide InodesAt, DataAt, SlotBytes, RunBytes, Matches, Shaped, Tidy, FreeOk, Unpack, Create, Write, SetMeta, AllGood,
         First, Bytes;
    if n == |items| {
      LoadItems(c, blocks, items, pool, n);
    } else {
      LoadRest(c, blocks, items, pool, n - 1);
      SlotUnused(c, blocks, items, pool, n - 1);
    }
  }
}
