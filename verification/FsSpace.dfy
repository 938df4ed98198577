/** kernel/src/fs/ramfs.rs:50-190: when a write finds room, and where the bytes of the pool go. */
module FsSpace {
  import opened Octets
  import opened FsTree
  import opened FsPool

  // ---- finding room --------------------------------------------------------------------------

  predicate FitsFree(p: Pool, n: nat)
  {
    exists i :: 0 <= i < |p.free| && p.free[i].size >= n
  }

  predicate HasRoom(p: Pool, n: nat)
  {
    FitsFree(p, n) || p.next + n <= POOL
  }

  lemma AllocIff(p: Pool, n: nat)
    requires FreeOk(p) && n > 0
    ensures Alloc(p, n).1 != 0 <==> HasRoom(p, n)
  {
    hide Apart;
    var i := FirstFit(p.free, n);
    if i < |p.free| { assert Inside(p, p.free[i]); }
  }

  /** A write succeeds exactly when the data is empty, fits the file's block, a free block, or the end of the pool. */
  lemma WriteSucceedsIff(s: Ram, id: nat, data: seq<Byte>)
    requires PoolInv(s) && id in s.tree.nodes
    ensures var d := Cropped(data);
            Write(s, id, data).1 == |d| <==> d == [] || s.tree.nodes[id].cap >= |d| || HasRoom(s.pool, |d|)
  {
    hide Alloc, HasRoom, Overwritten, Release;
    var d := Cropped(data);
    if d != [] {
      AllocIff(s.pool, |d|);
    }
  }

  lemma ReleasedFits(p: Pool, off: nat, size: nat, n: nat)
    requires off > 0 && size > 0 && |p.free| < FREE_MAX && n <= size
    ensures FitsFree(Release(p, off, size), n)
  {
    var q := Release(p, off, size);
    assert q.free[|p.free|].size >= n;
  }

  /** The bytes of a removed file serve the next write that fits them. */
  lemma ReuseAfterRemove(s: Ram, parent: nat, name: seq<Byte>, id: nat, data: seq<Byte>)
    requires PoolInv(s) && Remove(s, parent, name).1 && |s.pool.free| < FREE_MAX
    requires id in Remove(s, parent, name).0.tree.nodes
    requires |Cropped(data)| <= s.tree.nodes[Lookup(s.tree, parent, name)].cap
    ensures PoolInv(Remove(s, parent, name).0)
    ensures Write(Remove(s, parent, name).0, id, data).1 == |Cropped(data)|
  {
    RemoveKeepsInv(s, parent, name);
    hide Lookup, Unlink, Write, Release, Cropped;
    var gone := Lookup(s.tree, parent, name);
    var n := s.tree.nodes[gone];
    WriteSucceedsIff(Remove(s, parent, name).0, id, data);
    if Cropped(data) != [] {
      assert NodeClear(s.pool, s.tree.nodes, gone);
      ReleasedFits(s.pool, n.off, n.cap, |Cropped(data)|);
    }
  }

  /** So do the bytes of a file that was emptied. */
  lemma ReuseAfterEmptying(s: Ram, gone: nat, id: nat, data: seq<Byte>)
    requires PoolInv(s) && gone in s.tree.nodes && |s.pool.free| < FREE_MAX && id in s.tree.nodes
    requires |Cropped(data)| <= s.tree.nodes[gone].cap
    ensures PoolInv(Write(s, gone, []).0) && Write(Write(s, gone, []).0, id, data).1 == |Cropped(data)|
  {
    WriteKeepsInv(s, gone, []);
    var n := s.tree.nodes[gone];
    var u := Write(s, gone, []).0;
    assert u == Ram(WithData(s.tree, gone, 0, 0, 0), Release(s.pool, n.off, n.cap));
    assert NodeClear(s.pool, s.tree.nodes, gone);
    hide Write, Release, PoolInv;
    WriteSucceedsIff(u, id, data);
    if Cropped(data) != [] {
      hide Cropped;
      ReleasedFits(s.pool, n.off, n.cap, |Cropped(data)|);
    }
  }

  // ---- conservation --------------------------------------------------------------------------

  function FreeBytes(free: seq<Block>): nat
  {
    if free == [] then 0 else FreeBytes(free[..|free| - 1]) + free[|free| - 1].size
  }

  function CapOf(nodes: map<nat, Vnode>, id: nat): nat
  {
    if id in nodes then nodes[id].cap else 0
  }

  /** The bytes reserved by files with ids below k. */
  function HeldBelow(nodes: map<nat, Vnode>, k: nat): nat
  {
    if k == 0 then 0 else HeldBelow(nodes, k - 1) + CapOf(nodes, k - 1)
  }

  function Held(t: Tree): nat
  {
    HeldBelow(t.nodes, t.next)
  }

  /** Bytes handed out by the bump pointer that are neither free nor any file's. */
  function Lost(s: Ram): int
  {
    s.pool.next - 1 - FreeBytes(s.pool.free) - Held(s.tree)
  }

  lemma {:induction false} FreeBytesUpdate(free: seq<Block>, i: nat, b: Block)
    requires i < |free|
    ensures FreeBytes(free[i := b]) == FreeBytes(free) - free[i].size + b.size
    decreases |free|
  {
    var k := |free| - 1;
    var u := free[i := b];
    if i < k {
      FreeBytesUpdate(free[..k], i, b);
      assert u[..k] == free[..k][i := b];
    } else {
      assert u[..k] == free[..k];
    }
  }

  lemma CutBytes(free: seq<Block>, i: nat, n: nat)
    requires i < |free| && free[i].size >= n
    ensures FreeBytes(Cut(free, i, n)) == FreeBytes(free) - n
  {
    FreeBytesUpdate(free, i, Block(free[i].off + n, free[i].size - n));
    FreeBytesUpdate(free, i, free[|free| - 1]);
    var u := free[i := free[|free| - 1]];
    assert u[|u| - 1] == free[|free| - 1];
  }

  lemma AllocBytes(p: Pool, n: nat)
    requires n > 0
    ensures var q := Alloc(p, n).0; q.next - FreeBytes(q.free) == p.next - FreeBytes(p.free) + n
    ensures |Alloc(p, n).0.free| <= |p.free|
  {
    hide FreeBytes, Cut;
    var i := FirstFit(p.free, n);
    if i < |p.free| { CutBytes(p.free, i, n); CutLength(p.free, i, n); }
  }

  lemma CutLength(free: seq<Block>, i: nat, n: nat)
    requires i < |free| && free[i].size >= n
    ensures |Cut(free, i, n)| <= |free|
  {
  }

  lemma ReleaseBytes(p: Pool, off: nat, size: nat)
    requires off > 0 || size == 0
    ensures var q := Release(p, off, size);
            q.next == p.next && FreeBytes(q.free) == FreeBytes(p.free) + if |p.free| < FREE_MAX then size else 0
  {
    var q := Release(p, off, size);
    if q != p { assert q.free[..|q.free| - 1] == p.free; }
  }

  /** Replacing one node changes the sum by the change of its reservation. */
  lemma {:induction false} HeldUpdate(nodes: map<nat, Vnode>, more: map<nat, Vnode>, id: nat, k: nat)
    requires forall x :: x != id ==> CapOf(more, x) == CapOf(nodes, x)
    ensures HeldBelow(more, k) == HeldBelow(nodes, k) + if id < k then CapOf(more, id) - CapOf(nodes, id) else 0
  {
    hide CapOf;
    if k > 0 { HeldUpdate(nodes, more, id, k - 1); }
  }

  lemma OwnBlock(s: Ram, id: nat)
    requires RamInv(s) && id in s.tree.nodes
    ensures id < s.tree.next && (s.tree.nodes[id].off > 0 || s.tree.nodes[id].cap == 0)
  {
    assert NodeOk(s.tree, id) && NodeClear(s.pool, s.tree.nodes, id);
  }

  lemma HeldWith(t: Tree, id: nat, off: nat, size: nat, cap: nat)
    requires id in t.nodes && id < t.next
    ensures Held(WithData(t, id, off, size, cap)) == Held(t) - t.nodes[id].cap + cap
  {
    HeldUpdate(t.nodes, WithData(t, id, off, size, cap).nodes, id, t.next);
  }

  /** What a write loses: the bytes it could not get, or the old block when the free list has no place for it. */
  function WriteSpill(s: Ram, id: nat, data: seq<Byte>): nat
  {
    var d := Cropped(data);
    if id !in s.tree.nodes then 0
    else if d == [] then (if |s.pool.free| < FREE_MAX then 0 else s.tree.nodes[id].cap)
    else if s.tree.nodes[id].cap >= |d| then 0
    else if !HasRoom(s.pool, |d|) then |d|
    else if |Alloc(s.pool, |d|).0.free| < FREE_MAX then 0 else s.tree.nodes[id].cap
  }

  lemma WriteConserves(s: Ram, id: nat, data: seq<Byte>)
    requires RamInv(s)
    ensures Lost(Write(s, id, data).0) == Lost(s) + WriteSpill(s, id, data)
  {
    hide Inv, FreeBytes, Held, Alloc, Release, Overwritten, Cropped, WithData, HasRoom, NodeClear;
    if id in s.tree.nodes {
      OwnBlock(s, id);
      var d, v := Cropped(data), s.tree.nodes[id];
      if d == [] {
        ReleaseBytes(s.pool, v.off, v.cap);
        HeldWith(s.tree, id, 0, 0, 0);
      } else if v.cap >= |d| {
        HeldWith(s.tree, id, v.off, |d|, v.cap);
      } else {
        AllocBytes(s.pool, |d|);
        AllocIff(s.pool, |d|);
        var (p, off) := Alloc(s.pool, |d|);
        ReleaseBytes(p, v.off, v.cap);
        HeldWith(s.tree, id, off, |d|, |d|);
      }
    }
  }

  lemma UnlinkedCaps(t: Tree, parent: nat, name: seq<Byte>)
    requires Unlink(t, parent, name).1
    ensures var u, id := Unlink(t, parent, name).0, Lookup(t, parent, name);
            u.next == t.next && CapOf(u.nodes, id) == 0 && forall x :: x != id ==> CapOf(u.nodes, x) == CapOf(t.nodes, x)
  {
    hide Lookup, Without;
  }

  lemma HeldUnlinked(t: Tree, parent: nat, name: seq<Byte>)
    requires Inv(t) && Unlink(t, parent, name).1
    ensures var id := Lookup(t, parent, name);
            id in t.nodes && Held(Unlink(t, parent, name).0) == Held(t) - t.nodes[id].cap
  {
    hide Inv, Lookup, Unlink, HeldBelow;
    var u, id := Unlink(t, parent, name).0, Lookup(t, parent, name);
    UnlinkedLive(t, parent, name);
    UnlinkedCaps(t, parent, name);
    HeldUpdate(t.nodes, u.nodes, id, t.next);
  }

  lemma UnlinkedLive(t: Tree, parent: nat, name: seq<Byte>)
    requires Inv(t) && Unlink(t, parent, name).1
    ensures var id := Lookup(t, parent, name); id in t.nodes && id < t.next
  {
    LookupSpec(t, parent, name);
    assert NodeOk(t, Lookup(t, parent, name));
  }

  function RemoveSpill(s: Ram, parent: nat, name: seq<Byte>): nat
  {
    var id := Lookup(s.tree, parent, name);
    if Remove(s, parent, name).1 && |s.pool.free| >= FREE_MAX then s.tree.nodes[id].cap else 0
  }

  /** Removing a file frees its bytes while the free list has a place, and loses them when it is full. */
  lemma RemoveConserves(s: Ram, parent: nat, name: seq<Byte>)
    requires RamInv(s)
    ensures Lost(Remove(s, parent, name).0) == Lost(s) + RemoveSpill(s, parent, name)
  {
    hide Inv, PoolInv, FreeBytes, Held, Release, Lookup, Unlink;
    if Remove(s, parent, name).1 {
      var id := Lookup(s.tree, parent, name);
      OwnBlock(s, id);
      HeldUnlinked(s.tree, parent, name);
      ReleaseBytes(s.pool, s.tree.nodes[id].off, s.tree.nodes[id].cap);
    }
  }

  lemma HeldNext(nodes: map<nat, Vnode>, k: nat)
    ensures HeldBelow(nodes, k + 1) == HeldBelow(nodes, k) + CapOf(nodes, k)
  {
  }

  lemma HeldCreated(t: Tree, parent: nat, name: seq<Byte>, kind: Kind, uid: U32, gid: U32)
    requires t.next !in t.nodes
    ensures Held(Create(t, parent, name, kind, uid, gid).0) == Held(t)
  {
    hide Create, CapOf, HeldBelow;
    CreatedCaps(t, parent, name, kind, uid, gid);
    var u := Create(t, parent, name, kind, uid, gid).0;
    HeldUpdate(t.nodes, u.nodes, t.next, t.next);
    HeldNext(u.nodes, t.next);
  }

  lemma CreatedCaps(t: Tree, parent: nat, name: seq<Byte>, kind: Kind, uid: U32, gid: U32)
    requires t.next !in t.nodes
    ensures var u := Create(t, parent, name, kind, uid, gid).0;
            && u.next in {t.next, t.next + 1} && CapOf(u.nodes, t.next) == 0
            && forall x :: CapOf(u.nodes, x) == CapOf(t.nodes, x)
  {
    hide Lookup;
  }

  lemma HeldRenamed(t: Tree, parent: nat, from: seq<Byte>, to: seq<Byte>)
    ensures Held(Rename(t, parent, from, to).0) == Held(t)
  {
    var u := Rename(t, parent, from, to).0;
    hide Lookup, HeldBelow;
    if u != t { HeldUpdate(t.nodes, u.nodes, Lookup(t, parent, from), t.next); }
  }

  /** The bare vfs unlink forgets the block. */
  function TreeSpill(t: Tree, o: Op): nat
  {
    match o
    case OpUnlink(parent, name) =>
      var id := Lookup(t, parent, name);
      if Unlink(t, parent, name).1 && id in t.nodes then t.nodes[id].cap else 0
    case _ => 0
  }

  lemma TreeConserves(t: Tree, o: Op)
    requires Inv(t)
    ensures Held(Apply(t, o)) == Held(t) - TreeSpill(t, o)
  {
    hide Inv, Held, Lookup, Create, Unlink, Rename;
    match o
    case OpCreate(parent, name, kind, uid, gid) =>
      NoZero(t);
      HeldCreated(t, parent, name, kind, uid, gid);
    case OpUnlink(parent, name) =>
      if Unlink(t, parent, name).1 { HeldUnlinked(t, parent, name); } else { UnlinkFails(t, parent, name); }
    case OpRename(parent, from, to) => HeldRenamed(t, parent, from, to);
  }

  lemma UnlinkFails(t: Tree, parent: nat, name: seq<Byte>)
    requires !Unlink(t, parent, name).1
    ensures Unlink(t, parent, name).0 == t
  {
  }

  function Spill(s: Ram, op: FsOp): nat
  {
    match op
    case TreeOp(o) => TreeSpill(s.tree, o)
    case WriteOp(id, data) => WriteSpill(s, id, data)
    case RemoveOp(parent, name) => RemoveSpill(s, parent, name)
  }

  lemma StepConserves(s: Ram, op: FsOp)
    requires RamInv(s)
    ensures Lost(ApplyFs(s, op)) == Lost(s) + Spill(s, op)
  {
    hide RamInv, Inv, PoolInv, FreeBytes, Held, TreeSpill, WriteSpill, RemoveSpill, Write, Remove, Apply;
    match op
    case TreeOp(o) => OnlyTree(s, o);
    case WriteOp(id, data) => WriteConserves(s, id, data);
    case RemoveOp(parent, name) => RemoveConserves(s, parent, name);
  }

  lemma OnlyTree(s: Ram, o: Op)
    requires RamInv(s)
    ensures Lost(s.(tree := Apply(s.tree, o))) == Lost(s) + TreeSpill(s.tree, o)
  {
    hide Inv, PoolInv, FreeBytes, Held, TreeSpill, Apply;
    TreeConserves(s.tree, o);
  }

  ghost function Spilled(states: seq<Ram>, ops: seq<FsOp>, k: nat): nat
    requires |states| == |ops| + 1 && k <= |ops|
  {
    if k == 0 then 0 else Spilled(states, ops, k - 1) + Spill(states[k - 1], ops[k - 1])
  }

  /** Over every run, each byte handed out is free, some file's, or was spilled by a step that says so. */
  lemma {:induction false} RunConserves(states: seq<Ram>, ops: seq<FsOp>, k: nat)
    requires FsRun(states, ops) && RamInv(states[0]) && k <= |ops|
    ensures Lost(states[k]) == Lost(states[0]) + Spilled(states, ops, k)
  {
    hide RamInv, ApplyFs, Allowed, Lost, Spill;
    if k > 0 {
      RunConserves(states, ops, k - 1);
      FsPool.RunKeepsInv(states, ops, k - 1);
      assert FsStep(states[k - 1], ops[k - 1], states[k - 1 + 1]);
      StepConserves(states[k - 1], ops[k - 1]);
    }
  }
}
