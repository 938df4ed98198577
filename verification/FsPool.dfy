/** kernel/src/fs/ramfs.rs: the data pool, its free list and the files in it, as values. */
module FsPool {
  import opened Octets
  import opened FsTree

  const POOL: nat := 262144
  const FREE_MAX: nat := 32
  const MAX_FILE_SIZE: nat := 65536

  datatype Block = Block(off: nat, size: nat)
  datatype Pool = Pool(bytes: seq<Byte>, free: seq<Block>, next: nat)

  /** The whole filesystem in memory. */
  datatype Ram = Ram(tree: Tree, pool: Pool)

  // ---- operations ----------------------------------------------------------------------------

  function FirstFit(free: seq<Block>, n: nat): (i: nat)
    ensures i <= |free|
    ensures forall j :: 0 <= j < i ==> free[j].size < n
    ensures i < |free| ==> free[i].size >= n
  {
    if free == [] || free[0].size >= n then 0 else 1 + FirstFit(free[1..], n)
  }

  /** Cuts n bytes off block i, or drops it by moving the last block in its place. */
  function Cut(free: seq<Block>, i: nat, n: nat): seq<Block>
    requires i < |free| && free[i].size >= n
  {
    if free[i].size > n then free[i := Block(free[i].off + n, free[i].size - n)]
    else free[i := free[|free| - 1]][..|free| - 1]
  }

  function Alloc(p: Pool, n: nat): (Pool, nat)
  {
    if n == 0 then (p, 0)
    else
      var i := FirstFit(p.free, n);
      if i < |p.free| then (p.(free := Cut(p.free, i, n)), p.free[i].off)
      else (p.(next := p.next + n), if p.next + n > POOL then 0 else p.next)
  }

  function Release(p: Pool, off: nat, size: nat): Pool
  {
    if off == 0 || size == 0 || |p.free| >= FREE_MAX then p else p.(free := p.free + [Block(off, size)])
  }

  function Overwritten(bytes: seq<Byte>, off: nat, data: seq<Byte>): (r: seq<Byte>)
    requires off + |data| <= |bytes|
    ensures |r| == |bytes|
  {
    bytes[..off] + data + bytes[off + |data|..]
  }

  function Cropped(data: seq<Byte>): seq<Byte>
  {
    if |data| <= MAX_FILE_SIZE then data else data[..MAX_FILE_SIZE]
  }

  function WithData(t: Tree, id: nat, off: nat, size: nat, cap: nat): Tree
    requires id in t.nodes
  {
    Replaced(t, id, t.nodes[id].(off := off, size := size, cap := cap))
  }

  /** The bytes a reader of the file gets. */
  function Contents(s: Ram, id: nat): seq<Byte>
  {
    if id !in s.tree.nodes then []
    else
      var n := s.tree.nodes[id];
      if n.size == 0 || n.off == 0 || n.off + n.size > |s.pool.bytes| then [] else s.pool.bytes[n.off..n.off + n.size]
  }

  // ---- the pool invariant --------------------------------------------------------------------

  ghost predicate Apart(a: Block, b: Block)
  {
    a.off + a.size <= b.off || b.off + b.size <= a.off
  }

  ghost predicate Inside(p: Pool, b: Block)
  {
    1 <= b.off && 1 <= b.size && b.off + b.size <= p.next && b.off + b.size <= POOL
  }

  ghost function Extent(n: Vnode): Block
  {
    Block(n.off, n.cap)
  }

  /** A node owns no bytes, or a block that holds its contents. */
  ghost predicate ExtentOk(p: Pool, n: Vnode)
  {
    || (n.off == 0 && n.size == 0 && n.cap == 0)
    || (Inside(p, Extent(n)) && 1 <= n.size <= n.cap && n.size <= MAX_FILE_SIZE)
  }

  ghost predicate ClearOfFree(p: Pool, b: Block)
  {
    forall i :: 0 <= i < |p.free| ==> Apart(p.free[i], b)
  }

  /** b touches no node's block, other than perhaps that of mine. */
  ghost predicate ClearOfNodes(nodes: map<nat, Vnode>, b: Block, mine: nat)
  {
    forall id :: id in nodes && id != mine ==> Apart(Extent(nodes[id]), b)
  }

  ghost predicate FreeOk(p: Pool)
  {
    && |p.bytes| == POOL && p.next >= 1 && |p.free| <= FREE_MAX
    && (forall i :: 0 <= i < |p.free| ==> Inside(p, p.free[i]))
    && (forall i, j :: 0 <= i < j < |p.free| ==> Apart(p.free[i], p.free[j]))
  }

  ghost predicate NodeClear(p: Pool, nodes: map<nat, Vnode>, id: nat)
    requires id in nodes
  {
    ExtentOk(p, nodes[id]) && ClearOfFree(p, Extent(nodes[id])) && ClearOfNodes(nodes, Extent(nodes[id]), id)
  }

  /** Free blocks and live extents are pairwise disjoint and inside the pool. */
  ghost predicate PoolInv(s: Ram)
  {
    FreeOk(s.pool) && forall id :: id in s.tree.nodes ==> NodeClear(s.pool, s.tree.nodes, id)
  }

  // ---- taking a block ------------------------------------------------------------------------

  ghost predicate Within(a: Block, b: Block)
  {
    b.off <= a.off && a.off + a.size <= b.off + b.size
  }

  /** What is left of the free list: parts of different old blocks, all apart from the block cut out. */
  lemma CutApart(free: seq<Block>, i: nat, n: nat, p: Pool)
    requires FreeOk(p) && p.free == free && i < |free| && free[i].size >= n > 0
    ensures FreeOk(p.(free := Cut(free, i, n)))
    ensures ClearOfFree(p.(free := Cut(free, i, n)), Block(free[i].off, n))
  {
  }

  /** Whatever was apart from the old free list is apart from the new one. */
  lemma CutKeepsClear(free: seq<Block>, i: nat, n: nat, p: Pool, b: Block)
    requires p.free == free && i < |free| && free[i].size >= n > 0 && ClearOfFree(p, b)
    ensures ClearOfFree(p.(free := Cut(free, i, n)), b) && Apart(b, Block(free[i].off, n))
  {
    var last := |free| - 1;
    assert Apart(free[i], b) && Apart(free[last], b);
  }

  lemma AllocFree(s: Ram, n: nat)
    requires FreeOk(s.pool) && n > 0
    ensures var (p, off) := Alloc(s.pool, n);
            && FreeOk(p) && p.bytes == s.pool.bytes && p.next >= s.pool.next
            && (off != 0 ==> Inside(p, Block(off, n)) && ClearOfFree(p, Block(off, n)))
  {
    var i := FirstFit(s.pool.free, n);
    if i < |s.pool.free| {
      CutApart(s.pool.free, i, n, s.pool);
    }
  }

  lemma AllocNode(s: Ram, n: nat, id: nat)
    requires PoolInv(s) && n > 0 && id in s.tree.nodes
    ensures var (p, off) := Alloc(s.pool, n);
            NodeClear(p, s.tree.nodes, id) && (off != 0 ==> Apart(Extent(s.tree.nodes[id]), Block(off, n)))
  {
    var i := FirstFit(s.pool.free, n);
    var e := Extent(s.tree.nodes[id]);
    assert NodeClear(s.pool, s.tree.nodes, id);
    if i < |s.pool.free| {
      CutKeepsClear(s.pool.free, i, n, s.pool, e);
    }
  }

  /** A block handed out is nobody else's, and nothing else moves. */
  lemma AllocSafe(s: Ram, n: nat)
    requires PoolInv(s) && n > 0
    ensures var (p, off) := Alloc(s.pool, n);
            && PoolInv(Ram(s.tree, p)) && p.bytes == s.pool.bytes && p.next >= s.pool.next
            && (off != 0 ==> Inside(p, Block(off, n)) && ClearOfFree(p, Block(off, n)))
            && (off != 0 ==> forall id :: id in s.tree.nodes ==> Apart(Extent(s.tree.nodes[id]), Block(off, n)))
  {
    hide Alloc, FreeOk, NodeClear, Inside, ClearOfFree, Apart, Extent;
    AllocFree(s, n);
    forall id | id in s.tree.nodes
      ensures NodeClear(Alloc(s.pool, n).0, s.tree.nodes, id)
      ensures Alloc(s.pool, n).1 != 0 ==> Apart(Extent(s.tree.nodes[id]), Block(Alloc(s.pool, n).1, n))
    {
      AllocNode(s, n, id);
    }
  }

  // ---- moving a file's block -----------------------------------------------------------------

  ghost predicate ClearOfAll(s: Ram, b: Block)
  {
    ClearOfFree(s.pool, b) && forall id :: id in s.tree.nodes ==> Apart(Extent(s.tree.nodes[id]), b)
  }

  lemma PlaceNode(s: Ram, id: nat, off: nat, size: nat, cap: nat)
    requires PoolInv(s) && id in s.tree.nodes
    requires var n := s.tree.nodes[id].(off := off, size := size, cap := cap);
             ExtentOk(s.pool, n) && ClearOfFree(s.pool, Extent(n)) && ClearOfNodes(s.tree.nodes, Extent(n), id)
    ensures PoolInv(Ram(WithData(s.tree, id, off, size, cap), s.pool))
  {
    hide Inside, FreeOk;
    var t := WithData(s.tree, id, off, size, cap);
    forall x | x in t.nodes ensures NodeClear(s.pool, t.nodes, x) {
      assert NodeClear(s.pool, s.tree.nodes, x);
    }
  }

  lemma ReleaseSafe(s: Ram, off: nat, size: nat)
    requires PoolInv(s) && (size > 0 ==> Inside(s.pool, Block(off, size)) && ClearOfAll(s, Block(off, size)))
    ensures PoolInv(Ram(s.tree, Release(s.pool, off, size)))
  {
    var p := Release(s.pool, off, size);
    assert FreeOk(p);
    forall x | x in s.tree.nodes ensures NodeClear(p, s.tree.nodes, x) {
      assert NodeClear(s.pool, s.tree.nodes, x);
      assert Apart(Block(off, size), Extent(s.tree.nodes[x])) || p == s.pool;
    }
  }

  lemma OverwriteSafe(s: Ram, bytes: seq<Byte>)
    requires PoolInv(s) && |bytes| == POOL
    ensures PoolInv(Ram(s.tree, s.pool.(bytes := bytes)))
  {
    var q := s.pool.(bytes := bytes);
    forall x | x in s.tree.nodes ensures NodeClear(q, s.tree.nodes, x) {
      assert NodeClear(s.pool, s.tree.nodes, x);
    }
  }

  /** A node that gives up its block leaves it clear of everything that stays. */
  lemma Moved(s: Ram, id: nat, off: nat, size: nat, cap: nat)
    requires PoolInv(s) && id in s.tree.nodes && ExtentOk(s.pool, s.tree.nodes[id].(off := off, size := size, cap := cap))
    requires ClearOfAll(s, Block(off, cap))
    ensures var n := s.tree.nodes[id];
            PoolInv(Ram(WithData(s.tree, id, off, size, cap), Release(s.pool, n.off, n.cap)))
  {
    var n := s.tree.nodes[id];
    var t := WithData(s.tree, id, off, size, cap);
    assert NodeClear(s.pool, s.tree.nodes, id);
    PlaceNode(s, id, off, size, cap);
    assert n.cap > 0 ==> ClearOfAll(Ram(t, s.pool), Extent(n));
    hide PoolInv;
    ReleaseSafe(Ram(t, s.pool), n.off, n.cap);
  }

  // ---- write_file ----------------------------------------------------------------------------

  ghost function Write(s: Ram, id: nat, data: seq<Byte>): (Ram, nat)
    requires PoolInv(s)
  {
    if id !in s.tree.nodes then (s, 0)
    else
      var d, n := Cropped(data), s.tree.nodes[id];
      assert NodeClear(s.pool, s.tree.nodes, id);
      if d == [] then (Ram(WithData(s.tree, id, 0, 0, 0), Release(s.pool, n.off, n.cap)), 0)
      else if n.cap >= |d| then
        (Ram(WithData(s.tree, id, n.off, |d|, n.cap), s.pool.(bytes := Overwritten(s.pool.bytes, n.off, d))), |d|)
      else
        var (p, off) := Alloc(s.pool, |d|);
        AllocSafe(s, |d|);
        if off == 0 then (Ram(s.tree, p), 0)
        else
          var q := Release(p, n.off, n.cap);
          (Ram(WithData(s.tree, id, off, |d|, |d|), q.(bytes := Overwritten(q.bytes, off, d))), |d|)
  }

  lemma WriteKeepsInv(s: Ram, id: nat, data: seq<Byte>)
    requires PoolInv(s)
    ensures PoolInv(Write(s, id, data).0)
  {
    if id in s.tree.nodes {
      var d, n := Cropped(data), s.tree.nodes[id];
      assert NodeClear(s.pool, s.tree.nodes, id);
      if d == [] {
        Moved(s, id, 0, 0, 0);
      } else if n.cap >= |d| {
        PlaceNode(s, id, n.off, |d|, n.cap);
        OverwriteSafe(Ram(WithData(s.tree, id, n.off, |d|, n.cap), s.pool), Overwritten(s.pool.bytes, n.off, d));
      } else {
        WriteElsewhere(s, id, d);
      }
    }
  }

  lemma WriteElsewhere(s: Ram, id: nat, d: seq<Byte>)
    requires PoolInv(s) && id in s.tree.nodes && s.tree.nodes[id].cap < |d| <= MAX_FILE_SIZE
    ensures PoolInv(Write(s, id, d).0)
  {
    hide Alloc, Release;
    AllocSafe(s, |d|);
    var (p, off) := Alloc(s.pool, |d|);
    if off != 0 {
      Moved(Ram(s.tree, p), id, off, |d|, |d|);
      var n := s.tree.nodes[id];
      var q := Release(p, n.off, n.cap);
      OverwriteSafe(Ram(WithData(s.tree, id, off, |d|, |d|), q), Overwritten(q.bytes, off, d));
    }
  }

  lemma OverwrittenAt(bytes: seq<Byte>, off: nat, data: seq<Byte>, lo: nat, hi: nat)
    requires off + |data| <= |bytes| && lo <= hi <= |bytes|
    ensures Overwritten(bytes, off, data)[off..off + |data|] == data
    ensures hi <= off || off + |data| <= lo ==> Overwritten(bytes, off, data)[lo..hi] == bytes[lo..hi]
  {
  }

  /** A write that succeeds is read back; one that fails leaves the old contents. */
  lemma WriteReads(s: Ram, id: nat, data: seq<Byte>)
    requires PoolInv(s) && id in s.tree.nodes
    ensures var (u, n) := Write(s, id, data);
            && (n == |Cropped(data)| ==> Contents(u, id) == Cropped(data))
            && (n != |Cropped(data)| ==> n == 0 && u.tree == s.tree && Contents(u, id) == Contents(s, id))
  {
    hide Alloc;
    var d, n := Cropped(data), s.tree.nodes[id];
    assert NodeClear(s.pool, s.tree.nodes, id);
    if d != [] {
      if n.cap >= |d| {
        OverwrittenAt(s.pool.bytes, n.off, d, 0, 0);
      } else {
        AllocSafe(s, |d|);
        var (p, off) := Alloc(s.pool, |d|);
        if off != 0 { OverwrittenAt(p.bytes, off, d, 0, 0); }
      }
    }
  }

  /** Bytes written to a block leave a file apart from it as it was. */
  lemma OverwriteApart(s: Ram, bytes: seq<Byte>, b: Block, d: seq<Byte>, other: nat)
    requires PoolInv(s) && other in s.tree.nodes && |bytes| == POOL && b.off + |d| <= POOL && |d| <= b.size
    requires Apart(Extent(s.tree.nodes[other]), b)
    ensures var o := s.tree.nodes[other];
            o.off == 0 || (o.off + o.size <= POOL &&
                           Overwritten(bytes, b.off, d)[o.off..o.off + o.size] == bytes[o.off..o.off + o.size])
  {
    hide FreeOk, ClearOfFree, ClearOfNodes;
    var o := s.tree.nodes[other];
    assert NodeClear(s.pool, s.tree.nodes, other);
    if o.off != 0 { OverwrittenAt(bytes, b.off, d, o.off, o.off + o.size); }
  }

  /** No other file's bytes change. */
  lemma WriteOthers(s: Ram, id: nat, data: seq<Byte>, other: nat)
    requires PoolInv(s) && other != id
    ensures Contents(Write(s, id, data).0, other) == Contents(s, other)
  {
    hide Alloc, Overwritten;
    if id in s.tree.nodes && other in s.tree.nodes {
      var d, n := Cropped(data), s.tree.nodes[id];
      assert NodeClear(s.pool, s.tree.nodes, id);
      assert FreeOk(s.pool);
      hide PoolInv, FreeOk, ClearOfFree;
      if d != [] {
        if n.cap >= |d| {
          OverwriteApart(s, s.pool.bytes, Extent(n), d, other);
        } else {
          AllocSafe(s, |d|);
          var (p, off) := Alloc(s.pool, |d|);
          if off != 0 { OverwriteApart(s, p.bytes, Block(off, |d|), d, other); }
        }
      }
    }
  }

  /** When the write cannot fail: it fits what the file has, or what the bump pointer has left. */
  lemma WriteSucceeds(s: Ram, id: nat, data: seq<Byte>)
    requires PoolInv(s) && id in s.tree.nodes
    requires |data| <= MAX_FILE_SIZE && s.pool.next + |data| <= POOL
    ensures var (u, n) := Write(s, id, data); n == |data| && u.pool.next <= s.pool.next + |data|
  {
    assert FreeOk(s.pool);
    assert forall i :: 0 <= i < |s.pool.free| ==> Inside(s.pool, s.pool.free[i]);
  }

  // ---- tree operations -----------------------------------------------------------------------

  ghost predicate SameData(a: Vnode, b: Vnode)
  {
    a.off == b.off && a.size == b.size && a.cap == b.cap
  }

  /** Every node of u keeps its block from t, or is new and has none. */
  ghost predicate DataKept(t: Tree, u: Tree)
  {
    forall id :: id in u.nodes ==>
      if id in t.nodes then SameData(t.nodes[id], u.nodes[id]) else SameData(EMPTY, u.nodes[id])
  }

  lemma TreeOpKeepsPool(s: Ram, u: Tree)
    requires PoolInv(s) && DataKept(s.tree, u)
    ensures PoolInv(Ram(u, s.pool))
    ensures forall id :: id in u.nodes ==> Contents(Ram(u, s.pool), id) == Contents(s, id)
  {
    hide FreeOk;
    forall x | x in u.nodes ensures NodeClear(s.pool, u.nodes, x) {
      assert x in s.tree.nodes ==> NodeClear(s.pool, s.tree.nodes, x);
    }
  }

  lemma CreateKeepsData(t: Tree, parent: nat, name: seq<Byte>, kind: Kind, uid: U32, gid: U32)
    requires t.next !in t.nodes
    ensures DataKept(t, Create(t, parent, name, kind, uid, gid).0)
  {
  }

  /** ramfs unlink: the node goes, and its block goes back to the pool. */
  function Remove(s: Ram, parent: nat, name: seq<Byte>): (Ram, bool)
  {
    var id := Lookup(s.tree, parent, name);
    if id == 0 || id !in s.tree.nodes then (s, false)
    else
      var n := s.tree.nodes[id];
      var (t, ok) := Unlink(s.tree, parent, name);
      if ok then (Ram(t, Release(s.pool, n.off, n.cap)), true) else (s, false)
  }

  lemma RemoveKeepsInv(s: Ram, parent: nat, name: seq<Byte>)
    requires PoolInv(s)
    ensures PoolInv(Remove(s, parent, name).0)
    ensures forall id :: id in Remove(s, parent, name).0.tree.nodes ==>
      Contents(Remove(s, parent, name).0, id) == Contents(s, id)
  {
    hide Lookup, Without;
    var id := Lookup(s.tree, parent, name);
    var (t, ok) := Unlink(s.tree, parent, name);
    if id in s.tree.nodes && id != 0 && ok {
      assert DataKept(s.tree, t);
      TreeOpKeepsPool(s, t);
      LeftClear(s, t, id);
      hide PoolInv;
      var n := s.tree.nodes[id];
      ReleaseSafe(Ram(t, s.pool), n.off, n.cap);
    }
  }

  lemma LeftClear(s: Ram, t: Tree, id: nat)
    requires PoolInv(s) && id in s.tree.nodes && id !in t.nodes && DataKept(s.tree, t)
    ensures var n := s.tree.nodes[id];
            n.cap > 0 ==> Inside(s.pool, Extent(n)) && ClearOfAll(Ram(t, s.pool), Extent(n))
  {
    assert NodeClear(s.pool, s.tree.nodes, id);
    hide FreeOk;
  }

  // ---- whole runs ----------------------------------------------------------------------------

  datatype FsOp = TreeOp(op: Op) | WriteOp(id: nat, data: seq<Byte>) | RemoveOp(parent: nat, name: seq<Byte>)

  ghost predicate RamInv(s: Ram)
  {
    Inv(s.tree) && PoolInv(s)
  }

  /** Nodes are made under live directories.  A TreeOp that unlinks is the bare vfs
      call, which forgets the block; a RemoveOp gives it back. */
  ghost predicate Allowed(s: Ram, op: FsOp)
  {
    op.TreeOp? && op.op.OpCreate? ==> LiveDir(s.tree, op.op.parent)
  }

  ghost function ApplyFs(s: Ram, op: FsOp): Ram
    requires RamInv(s)
  {
    match op
    case TreeOp(o) => s.(tree := Apply(s.tree, o))
    case WriteOp(id, data) => Write(s, id, data).0
    case RemoveOp(parent, name) => Remove(s, parent, name).0
  }

  /** Ids of new nodes come from the counter, which only grows. */
  ghost predicate Fresh(t: Tree, u: Tree)
  {
    t.next <= u.next && forall id :: id in u.nodes ==> id in t.nodes || id >= t.next
  }

  lemma TreeOpKeeps(s: Ram, o: Op)
    requires RamInv(s) && Allowed(s, TreeOp(o))
    ensures var u := s.(tree := Apply(s.tree, o));
            && RamInv(u) && Fresh(s.tree, u.tree)
            && forall id :: id in u.tree.nodes ==> Contents(u, id) == Contents(s, id)
  {
    hide PoolInv, Contents, Lookup, Without, Inv;
    match o
    case OpCreate(parent, name, kind, uid, gid) =>
      CreateKeepsInv(s.tree, parent, name, kind, uid, gid);
      NoZero(s.tree);
      CreateKeepsData(s.tree, parent, name, kind, uid, gid);
      TreeOpKeepsPool(s, Apply(s.tree, o));
    case OpUnlink(parent, name) =>
      UnlinkKeepsInv(s.tree, parent, name);
      TreeOpKeepsPool(s, Apply(s.tree, o));
    case OpRename(parent, from, to) =>
      RenameKeepsInv(s.tree, parent, from, to);
      TreeOpKeepsPool(s, Apply(s.tree, o));
  }

  lemma WriteKeepsTree(s: Ram, id: nat, data: seq<Byte>)
    requires RamInv(s)
    ensures Inv(Write(s, id, data).0.tree) && Fresh(s.tree, Write(s, id, data).0.tree)
  {
    hide PoolInv, Inv;
    if id in s.tree.nodes {
      var u := Write(s, id, data).0.tree;
      if u != s.tree {
        assert u == Replaced(s.tree, id, u.nodes[id]);
        ReplacedKeepsInv(s.tree, id, u.nodes[id]);
      }
    }
  }

  lemma RemoveKeepsTree(s: Ram, parent: nat, name: seq<Byte>)
    requires RamInv(s)
    ensures Inv(Remove(s, parent, name).0.tree) && Fresh(s.tree, Remove(s, parent, name).0.tree)
  {
    hide PoolInv, Inv, Lookup;
    UnlinkKeepsInv(s.tree, parent, name);
  }

  /** The operation writes its data to the file, rather than failing. */
  ghost predicate Writes(s: Ram, op: FsOp, id: nat)
  {
    && op.WriteOp? && op.id == id && id in s.tree.nodes
    && RamInv(s) && Write(s, id, op.data).1 == |Cropped(op.data)|
  }

  /** One step keeps both invariants, and every file has the bytes it had or those just written. */
  lemma StepKeeps(s: Ram, op: FsOp)
    requires RamInv(s) && Allowed(s, op)
    ensures RamInv(ApplyFs(s, op)) && Fresh(s.tree, ApplyFs(s, op).tree)
    ensures forall id :: id in ApplyFs(s, op).tree.nodes ==>
      Contents(ApplyFs(s, op), id) == if Writes(s, op, id) then Cropped(op.data) else Contents(s, id)
  {
    hide Contents, Write, Remove, Apply, PoolInv, Inv, Fresh;
    match op
    case TreeOp(o) => TreeOpKeeps(s, o);
    case WriteOp(id, data) =>
      WriteKeepsInv(s, id, data);
      WriteKeepsTree(s, id, data);
      forall other | other in Write(s, id, data).0.tree.nodes
        ensures Contents(Write(s, id, data).0, other) == if Writes(s, op, other) then Cropped(data) else Contents(s, other)
      {
        WriteEach(s, id, data, other);
      }
    case RemoveOp(parent, name) =>
      RemoveKeepsInv(s, parent, name);
      RemoveKeepsTree(s, parent, name);
  }

  lemma WriteEach(s: Ram, id: nat, data: seq<Byte>, other: nat)
    requires RamInv(s) && other in Write(s, id, data).0.tree.nodes
    ensures Contents(Write(s, id, data).0, other) ==
            if Writes(s, WriteOp(id, data), other) then Cropped(data) else Contents(s, other)
  {
    hide Contents, PoolInv, Inv;
    if other != id { WriteOthers(s, id, data, other); } else { WriteReads(s, id, data); }
  }

  ghost predicate FsStep(s: Ram, op: FsOp, u: Ram)
  {
    RamInv(s) ==> Allowed(s, op) && u == ApplyFs(s, op)
  }

  /** A run, state by state. */
  ghost predicate FsRun(states: seq<Ram>, ops: seq<FsOp>)
  {
    |states| == |ops| + 1 && forall i :: 0 <= i < |ops| ==> FsStep(states[i], ops[i], states[i + 1])
  }

  /** The data of the last successful write to the file in the first k steps, or what it held at the start. */
  ghost function LastWritten(states: seq<Ram>, ops: seq<FsOp>, id: nat, k: nat): seq<Byte>
    requires |states| == |ops| + 1 && k <= |ops|
  {
    if k == 0 then Contents(states[0], id)
    else if Writes(states[k - 1], ops[k - 1], id) then Cropped(ops[k - 1].data)
    else LastWritten(states, ops, id, k - 1)
  }

  lemma {:induction false} RunKeepsInv(states: seq<Ram>, ops: seq<FsOp>, k: nat)
    requires FsRun(states, ops) && RamInv(states[0]) && k <= |ops|
    ensures RamInv(states[k])
  {
    hide RamInv, ApplyFs, Allowed, Writes, Contents, Fresh;
    if k > 0 {
      RunKeepsInv(states, ops, k - 1);
      assert FsStep(states[k - 1], ops[k - 1], states[k - 1 + 1]);
      StepKeeps(states[k - 1], ops[k - 1]);
    }
  }

  /** An id the counter has not reached has never been written to. */
  lemma {:induction false} RunContents(states: seq<Ram>, ops: seq<FsOp>, k: nat, id: nat)
    requires FsRun(states, ops) && RamInv(states[0]) && k <= |ops|
    ensures id in states[k].tree.nodes ==> Contents(states[k], id) == LastWritten(states, ops, id, k)
    ensures id >= states[k].tree.next ==> LastWritten(states, ops, id, k) == []
  {
    hide ApplyFs, Allowed, Contents, RamInv;
    if k == 0 {
      Unused(states[0], id);
    } else {
      RunContents(states, ops, k - 1, id);
      RunKeepsInv(states, ops, k - 1);
      assert FsStep(states[k - 1], ops[k - 1], states[k - 1 + 1]);
      StepKeeps(states[k - 1], ops[k - 1]);
      Unused(states[k - 1], id);
    }
  }

  lemma Unused(s: Ram, id: nat)
    requires RamInv(s)
    ensures id >= s.tree.next ==> id !in s.tree.nodes
    ensures id !in s.tree.nodes ==> Contents(s, id) == []
  {
    hide PoolInv;
    assert id in s.tree.nodes ==> NodeOk(s.tree, id);
  }

  /** Over every run: both invariants hold, and each file reads back its last successful write. */
  lemma RunSafe(states: seq<Ram>, ops: seq<FsOp>, k: nat)
    requires FsRun(states, ops) && RamInv(states[0]) && k <= |ops|
    ensures RamInv(states[k])
    ensures forall id :: id in states[k].tree.nodes ==> Contents(states[k], id) == LastWritten(states, ops, id, k)
  {
    hide RamInv, Contents, LastWritten;
    RunKeepsInv(states, ops, k);
    forall id | id in states[k].tree.nodes ensures Contents(states[k], id) == LastWritten(states, ops, id, k) {
      RunContents(states, ops, k, id);
    }
  }
}
