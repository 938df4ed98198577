/** kernel/src/fs/diskfs.rs:253-280: the breadth-first order of the tree. */
module FsOrder {
  import opened Octets
  import opened FsTree
  import Vfs

  function Children(t: Tree, id: nat): seq<nat>
  {
    if id in t.nodes then t.nodes[id].children else []
  }

  /** The child lists of ids, one after another. */
  function Flat(t: Tree, ids: seq<nat>): seq<nat>
  {
    if ids == [] then [] else Flat(t, ids[..|ids| - 1]) + Children(t, ids[|ids| - 1])
  }

  /** Every node once, the root first, and after it the child lists in order. */
  ghost predicate BreadthFirst(t: Tree, order: seq<nat>)
  {
    && order == [ROOT] + Flat(t, order)
    && NoDuplicates(order)
    && (forall id :: id in order <==> id in t.nodes)
    && (forall k :: 1 <= k < |order| ==> t.nodes[order[k]].parent in order[..k])
  }

  /** The queue of the walk when its first h nodes have been visited. */
  ghost predicate Visited(t: Tree, queue: seq<nat>, h: nat)
  {
    && h <= |queue| && queue == [ROOT] + Flat(t, queue[..h])
    && NoDuplicates(queue)
    && (forall id :: id in queue ==> id in t.nodes)
    && (forall k :: 1 <= k < |queue| ==> t.nodes[queue[k]].parent in queue[..k])
  }

  lemma {:induction false} FlatHas(t: Tree, ids: seq<nat>, c: nat) returns (m: nat)
    requires c in Flat(t, ids)
    ensures m < |ids| && c in Children(t, ids[m])
  {
    var k := |ids| - 1;
    if c in Children(t, ids[k]) { m := k; } else { m := FlatHas(t, ids[..k], c); }
  }

  lemma {:induction false} FlatContains(t: Tree, ids: seq<nat>, m: nat, c: nat)
    requires m < |ids| && c in Children(t, ids[m])
    ensures c in Flat(t, ids)
  {
    if m < |ids| - 1 { FlatContains(t, ids[..|ids| - 1], m, c); }
  }

  /** A node of the queue's next child list is not in the queue yet. */
  lemma NotQueued(t: Tree, queue: seq<nat>, h: nat, c: nat)
    requires Inv(t) && Visited(t, queue, h) && h < |queue| && c in Children(t, queue[h])
    ensures c !in queue
  {
    assert NodeOk(t, queue[h]);
    if c in queue {
      assert c != ROOT;
      assert c in Flat(t, queue[..h]);
      var m := FlatHas(t, queue[..h], c);
    }
  }

  lemma VisitedOnce(t: Tree, queue: seq<nat>, h: nat, kids: seq<nat>)
    requires Inv(t) && Visited(t, queue, h) && h < |queue| && kids == Children(t, queue[h])
    ensures NoDuplicates(queue + kids)
  {
    assert NodeOk(t, queue[h]);
    forall i | 0 <= i < |kids| ensures kids[i] !in queue { NotQueued(t, queue, h, kids[i]); }
    hide Inv, Visited, Children;
  }

  lemma VisitedFlat(t: Tree, queue: seq<nat>, h: nat, kids: seq<nat>)
    requires h < |queue| && queue == [ROOT] + Flat(t, queue[..h]) && kids == Children(t, queue[h])
    ensures queue + kids == [ROOT] + Flat(t, (queue + kids)[..h + 1])
  {
    var seen := (queue + kids)[..h + 1];
    assert seen[..h] == queue[..h] && seen[h] == queue[h];
    assert Flat(t, seen) == Flat(t, queue[..h]) + kids;
  }

  lemma VisitedParents(t: Tree, queue: seq<nat>, h: nat, kids: seq<nat>, k: nat)
    requires Inv(t) && h < |queue| && queue[h] in t.nodes && kids == Children(t, queue[h]) && 1 <= k < |queue + kids|
    requires k < |queue| ==> queue[k] in t.nodes && t.nodes[queue[k]].parent in queue[..k]
    ensures (queue + kids)[k] in t.nodes && t.nodes[(queue + kids)[k]].parent in (queue + kids)[..k]
  {
    var more := queue + kids;
    if k < |queue| {
      assert more[..k] == queue[..k];
    } else {
      assert NodeOk(t, queue[h]);
      assert more[k] in kids;
      assert more[..k][h] == queue[h];
    }
  }

  lemma VisitOne(t: Tree, queue: seq<nat>, h: nat)
    requires Inv(t) && Visited(t, queue, h) && h < |queue|
    ensures Visited(t, queue + Children(t, queue[h]), h + 1)
  {
    hide Inv, Children, NoDuplicates, Flat;
    var kids := Children(t, queue[h]);
    VisitedOnce(t, queue, h, kids);
    VisitedFlat(t, queue, h, kids);
    var more := queue + kids;
    forall k | 1 <= k < |more| ensures more[k] in t.nodes && t.nodes[more[k]].parent in more[..k] {
      VisitedParents(t, queue, h, kids, k);
    }
  }

  /** A list without repetition is no longer than the set it is drawn from. */
  lemma {:induction false} Pigeonhole(s: seq<nat>, all: set<nat>)
    requires NoDuplicates(s) && forall x :: x in s ==> x in all
    ensures |s| <= |all|
  {
    if s != [] {
      var k := |s| - 1;
      Pigeonhole(s[..k], all - {s[k]});
    }
  }

  lemma QueueFits(t: Tree, queue: seq<nat>, h: nat)
    requires Inv(t) && Visited(t, queue, h)
    ensures |queue| <= MAX_VNODES
  {
    Pigeonhole(queue, t.nodes.Keys);
    assert |t.nodes| == |t.nodes.Keys|;
  }

  /** Every live node is reached. */
  lemma {:induction false} Reached(t: Tree, queue: seq<nat>, id: nat)
    requires Inv(t) && Visited(t, queue, |queue|) && id in t.nodes
    ensures id in queue
    decreases id
  {
    assert queue[..|queue|] == queue;
    if id != ROOT {
      assert NodeOk(t, id);
      var p := t.nodes[id].parent;
      Reached(t, queue, p);
      var m :| 0 <= m < |queue| && queue[m] == p;
      FlatContains(t, queue, m, id);
    }
  }

  lemma AllVisited(t: Tree, queue: seq<nat>)
    requires Inv(t) && Visited(t, queue, |queue|)
    ensures BreadthFirst(t, queue)
  {
    assert queue[..|queue|] == queue;
    forall id | id in t.nodes ensures id in queue { Reached(t, queue, id); }
  }

  method CollectOrder(table: Vfs.Table) returns (order: seq<nat>)
    requires table.Valid() && Inv(table.View())
    ensures BreadthFirst(table.View(), order) && |order| <= MAX_VNODES
  {
    hide Inv, Visited, Children, BreadthFirst;
    ghost var t := table.View();
    var queue := [ROOT];
    order := [];
    StartVisit(t);
    while |order| < |queue| && |order| < MAX_VNODES
      invariant |order| <= |queue| <= MAX_VNODES && order == queue[..|order|]
      invariant Visited(t, queue, |order|)
      decreases MAX_VNODES - |order|
    {
      var id := queue[|order|];
      InTree(t, queue, |order|);
      VisitOne(t, queue, |order|);
      QueueFits(t, queue + Children(t, id), |order| + 1);
      var kids := ReadDir(table, id);
      order := order + [id];
      queue := Enqueue(queue, kids);
    }
    assert order == queue;
    AllVisited(t, order);
  }

  lemma InTree(t: Tree, queue: seq<nat>, h: nat)
    requires Visited(t, queue, h) && h < |queue|
    ensures queue[h] in t.nodes
  {
  }

  /** Adds the ids to the queue while there is room. */
  method Enqueue(queue: seq<nat>, ids: seq<nat>) returns (r: seq<nat>)
    requires |queue| <= MAX_VNODES
    ensures |queue + ids| <= MAX_VNODES ==> r == queue + ids
  {
    r := queue;
    var i := 0;
    while i < |ids|
      invariant 0 <= i <= |ids|
      invariant |queue + ids| <= MAX_VNODES ==> r == queue + ids[..i]
    {
      if |r| < MAX_VNODES { r := r + [ids[i]]; }
      i := i + 1;
    }
  }

  lemma StartVisit(t: Tree)
    requires Inv(t)
    ensures Visited(t, [ROOT], 0)
  {
  }

  lemma ChildrenLive(t: Tree, id: nat)
    requires Inv(t) && id in t.nodes
    ensures forall i :: 0 <= i < |t.nodes[id].children| ==> t.nodes[id].children[i] in t.nodes
  {
    assert NodeOk(t, id);
  }

  /** The live children of a node, as listed for its reader. */
  method ReadDir(table: Vfs.Table, id: nat) returns (ids: seq<nat>)
    requires table.Valid() && Inv(table.View()) && id in table.View().nodes
    ensures ids == Children(table.View(), id)
  {
    hide Vfs.Nodes, Vfs.Unique, Inv;
    ids := [];
    var found, slot := table.FindSlot(id);
    if !found { return; }
    ChildrenLive(table.View(), id);
    var all := table.slots[slot].children;
    var i := 0;
    while i < |all|
      invariant 0 <= i <= |all| && ids == all[..i]
    {
      var live, cslot := table.FindSlot(all[i]);
      if live { ids := ids + [table.slots[cslot].id]; }
      i := i + 1;
    }
  }
}
