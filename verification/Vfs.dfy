/** kernel/src/fs/vfs.rs: the vnode table, changed in place, against the tree of FsTree. */
module Vfs {
  import opened Octets
  import opened FsTree
  import opened FsPaths

  // ---- a table as a map ----------------------------------------------------------------------

  ghost predicate Unique(s: seq<Vnode>)
  {
    forall i, j :: 0 <= i < j < |s| && s[i].id != 0 ==> s[i].id != s[j].id
  }

  ghost function Nodes(s: seq<Vnode>): map<nat, Vnode>
  {
    if s == [] then map[]
    else
      var n := s[|s| - 1];
      if n.id == 0 then Nodes(s[..|s| - 1]) else Nodes(s[..|s| - 1])[n.id := n]
  }

  /** m holds the occupied slots of s and nothing else. */
  ghost predicate Represents(s: seq<Vnode>, m: map<nat, Vnode>)
  {
    && (forall i :: 0 <= i < |s| && s[i].id != 0 ==> s[i].id in m && m[s[i].id] == s[i])
    && (forall id :: id in m ==> id != 0 && exists i :: 0 <= i < |s| && s[i].id == id)
  }

  lemma {:induction false} NodesRepresents(s: seq<Vnode>)
    requires Unique(s)
    ensures Represents(s, Nodes(s))
  {
    if s != [] {
      var k := |s| - 1;
      var r := s[..k];
      NodesRepresents(r);
      var m, w := Nodes(s), Nodes(r);
      forall i | 0 <= i < |s| && s[i].id != 0 ensures s[i].id in m && m[s[i].id] == s[i] {
        if i < k { assert r[i] == s[i]; }
      }
      forall id | id in m ensures id != 0 && exists i :: 0 <= i < |s| && s[i].id == id {
        if id in w {
          var i :| 0 <= i < |r| && r[i].id == id;
          assert s[i].id == id;
        } else {
          assert s[k].id == id;
        }
      }
    }
  }

  lemma RepresentsOnce(s: seq<Vnode>, m: map<nat, Vnode>, w: map<nat, Vnode>)
    requires Represents(s, m) && Represents(s, w)
    ensures m == w
  {
    forall id | id in m ensures id in w && m[id] == w[id] {
      var i :| 0 <= i < |s| && s[i].id == id;
    }
    forall id | id in w ensures id in m {
      var i :| 0 <= i < |s| && s[i].id == id;
    }
  }

  lemma LastKey(s: seq<Vnode>, k: nat)
    requires Unique(s) && k == |s| - 1 && s[k].id != 0
    ensures s[k].id !in Nodes(s[..k])
  {
    var r := s[..k];
    assert forall i :: 0 <= i < k ==> r[i].id != s[k].id;
    NodesRepresents(r);
    hide Nodes, Unique;
  }

  lemma FullPrefix(s: seq<Vnode>, k: nat)
    requires k == |s| - 1
    ensures (forall i :: 0 <= i < |s| ==> s[i].id != 0) <==> s[k].id != 0 && forall i :: 0 <= i < k ==> s[..k][i].id != 0
  {
    var r := s[..k];
    assert forall i :: 0 <= i < k ==> r[i] == s[i];
  }

  /** The map is as large as the table exactly when no slot is free. */
  lemma {:induction false} NodesSize(s: seq<Vnode>)
    requires Unique(s)
    ensures |Nodes(s)| <= |s|
    ensures |Nodes(s)| == |s| <==> forall i :: 0 <= i < |s| ==> s[i].id != 0
  {
    if s != [] {
      var k := |s| - 1;
      var r := s[..k];
      assert Unique(r);
      NodesSize(r);
      FullPrefix(s, k);
      hide Unique;
      if s[k].id != 0 {
        LastKey(s, k);
        assert |Nodes(r)[s[k].id := s[k]]| == |Nodes(r)| + 1;
      }
    }
  }

  lemma RepresentsStore(s: seq<Vnode>, k: nat, n: Vnode, m: map<nat, Vnode>)
    requires Represents(s, m) && k < |s| && n.id != 0
    requires s[k].id == n.id || s[k].id == 0
    requires forall i :: 0 <= i < |s| && s[i].id == n.id ==> i == k
    ensures Represents(s[k := n], m[n.id := n])
  {
    var u, w := s[k := n], m[n.id := n];
    forall id | id in w ensures id != 0 && exists i :: 0 <= i < |u| && u[i].id == id {
      if id == n.id {
        assert u[k].id == id;
      } else {
        var i :| 0 <= i < |s| && s[i].id == id;
        assert u[i].id == id;
      }
    }
  }

  /** Storing a node in the slot it had, or a new node in a free slot. */
  lemma StoredNodes(s: seq<Vnode>, k: nat, n: Vnode)
    requires Unique(s) && k < |s| && n.id != 0
    requires s[k].id == n.id || (s[k].id == 0 && forall i :: 0 <= i < |s| ==> s[i].id != n.id)
    ensures Unique(s[k := n]) && Nodes(s[k := n]) == Nodes(s)[n.id := n]
  {
    assert Unique(s[k := n]);
    assert forall i :: 0 <= i < |s| && s[i].id == n.id ==> i == k;
    hide Nodes, Represents, Unique;
    NodesRepresents(s);
    NodesRepresents(s[k := n]);
    RepresentsStore(s, k, n, Nodes(s));
    RepresentsOnce(s[k := n], Nodes(s[k := n]), Nodes(s)[n.id := n]);
  }

  lemma RepresentsClear(s: seq<Vnode>, k: nat, m: map<nat, Vnode>)
    requires Represents(s, m) && k < |s| && s[k].id != 0 && Unique(s)
    ensures Represents(s[k := EMPTY], m - {s[k].id})
  {
    var u, w := s[k := EMPTY], m - {s[k].id};
    forall id | id in w ensures id != 0 && exists i :: 0 <= i < |u| && u[i].id == id {
      var i :| 0 <= i < |s| && s[i].id == id;
      assert u[i].id == id;
    }
  }

  lemma ClearedNodes(s: seq<Vnode>, k: nat)
    requires Unique(s) && k < |s| && s[k].id != 0
    ensures Unique(s[k := EMPTY]) && Nodes(s[k := EMPTY]) == Nodes(s) - {s[k].id}
  {
    assert Unique(s[k := EMPTY]);
    hide Nodes, Represents, Unique;
    NodesRepresents(s);
    NodesRepresents(s[k := EMPTY]);
    RepresentsClear(s, k, Nodes(s));
    RepresentsOnce(s[k := EMPTY], Nodes(s[k := EMPTY]), Nodes(s) - {s[k].id});
  }

  // ---- the table -----------------------------------------------------------------------------

  method SameName(a: seq<Byte>, b: seq<Byte>) returns (same: bool)
    ensures same <==> a == b
  {
    if |a| != |b| { return false; }
    var j := 0;
    while j < |a|
      invariant 0 <= j <= |a| && a[..j] == b[..j]
    {
      if a[j] != b[j] { return false; }
      j := j + 1;
    }
    return true;
  }

  lemma {:induction false} WithoutAt(s: seq<nat>, id: nat, i: nat)
    requires i < |s| && s[i] == id && id !in s[..i]
    ensures Without(s, id) == s[..i] + s[i + 1..]
  {
    if i > 0 {
      assert s[1..][..i - 1] == s[..i][1..];
      WithoutAt(s[1..], id, i - 1);
      assert s[..i] + s[i + 1..] == [s[0]] + (s[1..][..i - 1] + s[1..][i..]);
    }
  }

  /** Closes the gap at position i, one shift at a time. */
  method CloseGap(ids: seq<nat>, i: nat) returns (r: seq<nat>)
    requires i < |ids|
    ensures r == ids[..i] + ids[i + 1..]
  {
    r := ids;
    var j := i;
    while j < |ids| - 1
      invariant i <= j <= |ids| - 1 && |r| == |ids|
      invariant forall k :: i <= k < j ==> r[k] == ids[k + 1]
      invariant forall k :: (0 <= k < i || j <= k < |ids|) ==> r[k] == ids[k]
    {
      r := r[j := r[j + 1]];
      j := j + 1;
    }
    r := r[..|ids| - 1];
  }

  class Table {
    const slots: array<Vnode>
    var next: nat

    ghost predicate Valid()
      reads this, slots
    {
      && slots.Length == MAX_VNODES && next >= 2
      && Unique(slots[..])
      && (forall i :: 0 <= i < slots.Length ==> slots[i].id < next)
    }

    /** The tree the table holds. */
    ghost function View(): Tree
      reads this, slots
    {
      Tree(Nodes(slots[..]), next)
    }

    lemma At(i: nat)
      requires Valid() && i < slots.Length && slots[i].id != 0
      ensures slots[i].id in View().nodes && View().nodes[slots[i].id] == slots[i]
    {
      NodesRepresents(slots[..]);
      assert slots[..][i] == slots[i];
    }

    method FindSlot(id: nat) returns (found: bool, slot: nat)
      requires Valid()
      ensures found <==> id in View().nodes
      ensures found ==> slot < slots.Length && id != 0 && slots[slot].id == id && slots[slot] == View().nodes[id]
    {
      NodesRepresents(slots[..]);
      if id == 0 { return false, 0; }
      slot := 0;
      while slot < slots.Length
        invariant 0 <= slot <= slots.Length
        invariant forall i :: 0 <= i < slot ==> slots[i].id != id
      {
        if slots[slot].id == id {
          At(slot);
          return true, slot;
        }
        slot := slot + 1;
      }
      assert forall i :: 0 <= i < slots.Length ==> slots[..][i] == slots[i];
      return false, 0;
    }

    method AllocSlot() returns (found: bool, slot: nat)
      requires Valid()
      ensures found <==> |View().nodes| < MAX_VNODES
      ensures found ==> slot < slots.Length && slots[slot].id == 0
    {
      NodesSize(slots[..]);
      slot := 0;
      while slot < slots.Length
        invariant 0 <= slot <= slots.Length
        invariant forall i :: 0 <= i < slot ==> slots[i].id != 0
      {
        if slots[slot].id == 0 {
          assert slots[..][slot].id == 0;
          return true, slot;
        }
        slot := slot + 1;
      }
      return false, 0;
    }

    /** Overwrites the slot of a live node with the same node, changed. */
    method Store(slot: nat, n: Vnode)
      requires Valid() && slot < slots.Length && slots[slot].id == n.id && n.id != 0
      modifies slots
      ensures Valid() && View() == Replaced(old(View()), n.id, n)
    {
      StoredNodes(slots[..], slot, n);
      slots[slot] := n;
      assert slots[..] == old(slots[..])[slot := n];
    }

    method Lookup(parent: nat, name: seq<Byte>) returns (r: nat)
      requires Valid()
      ensures r == FsTree.Lookup(View(), parent, name)
    {
      var found, pslot := FindSlot(parent);
      if !found { return 0; }
      var ids := slots[pslot].children;
      var i := 0;
      assert ids[0..] == ids;
      while i < |ids|
        invariant 0 <= i <= |ids|
        invariant FirstNamed(View().nodes, ids, name) == FirstNamed(View().nodes, ids[i..], name)
      {
        var live, cslot := FindSlot(ids[i]);
        assert ids[i..][1..] == ids[i + 1..];
        if live {
          var same := SameName(slots[cslot].name, name);
          if same { return ids[i]; }
        }
        i := i + 1;
      }
      return 0;
    }

    method LinkChild(parent: nat, child: nat)
      requires Valid()
      modifies slots
      ensures Valid() && View() == old(View()).(nodes := Linked(old(View().nodes), parent, child))
    {
      var found, pslot := FindSlot(parent);
      if found && |slots[pslot].children| < MAX_CHILDREN {
        Store(pslot, slots[pslot].(children := slots[pslot].children + [child]));
      }
    }

    /** Fills a free slot with a node that has the next id. */
    method Fill(slot: nat, n: Vnode)
      requires Valid() && slot < slots.Length && slots[slot].id == 0 && n.id == next
      modifies this, slots
      ensures Valid() && View() == Tree(old(View().nodes)[n.id := n], old(next) + 1)
    {
      StoredNodes(slots[..], slot, n);
      slots[slot] := n;
      next := next + 1;
      assert slots[..] == old(slots[..])[slot := n];
    }

    method Create(parent: nat, name: seq<Byte>, kind: Kind, uid: U32, gid: U32) returns (id: nat)
      requires Valid()
      modifies this, slots
      ensures Valid() && (View(), id) == FsTree.Create(old(View()), parent, name, kind, uid, gid)
    {
      hide Nodes, Unique, FirstNamed, FsTree.Lookup, Linked;
      if !GoodName(name) { return 0; }
      var known := Lookup(parent, name);
      if known != 0 { return 0; }
      var found, pslot := FindSlot(parent);
      if found && |slots[pslot].children| >= MAX_CHILDREN { return 0; }
      var free, slot := AllocSlot();
      if !free {
        next := next + 1;
        return 0;
      }
      id := next;
      var mode := if kind.Dir? then MODE_DIR else MODE_FILE;
      Fill(slot, EMPTY.(id := id, kind := kind, name := name, parent := parent, uid := uid, gid := gid, mode := mode));
      LinkChild(parent, id);
    }

    method UnlinkChild(parent: nat, child: nat) returns (ok: bool)
      requires Valid()
      modifies slots
      ensures Valid() && ok == (parent in old(View().nodes) && child in old(View().nodes)[parent].children)
      ensures ok ==> var p := old(View().nodes)[parent];
                     View() == Replaced(old(View()), parent, p.(children := Without(p.children, child)))
      ensures !ok ==> View() == old(View())
    {
      var found, pslot := FindSlot(parent);
      if !found { return false; }
      var ids := slots[pslot].children;
      var i := 0;
      while i < |ids|
        invariant 0 <= i <= |ids| && child !in ids[..i]
      {
        if ids[i] == child {
          var rest := CloseGap(ids, i);
          WithoutAt(ids, child, i);
          Store(pslot, slots[pslot].(children := rest));
          return true;
        }
        i := i + 1;
      }
      return false;
    }

    method Clear(slot: nat)
      requires Valid() && slot < slots.Length && slots[slot].id != 0
      modifies slots
      ensures Valid() && View() == old(View()).(nodes := old(View().nodes) - {old(slots[slot].id)})
    {
      ClearedNodes(slots[..], slot);
      slots[slot] := EMPTY;
      assert slots[..] == old(slots[..])[slot := EMPTY];
    }

    lemma Found(parent: nat, name: seq<Byte>)
      requires Valid()
      ensures var r := FsTree.Lookup(View(), parent, name);
              r != 0 ==> parent in View().nodes && r in View().nodes[parent].children && r in View().nodes
    {
      NodesRepresents(slots[..]);
      if parent in View().nodes { FirstNamedSpec(View().nodes, View().nodes[parent].children, name); }
    }

    method Unlink(parent: nat, name: seq<Byte>) returns (ok: bool)
      requires Valid()
      modifies slots
      ensures Valid() && (View(), ok) == FsTree.Unlink(old(View()), parent, name)
    {
      hide Nodes, Unique, FirstNamed, FsTree.Lookup, Without;
      var id := Lookup(parent, name);
      Found(parent, name);
      if id == 0 { return false; }
      var live, slot := FindSlot(id);
      if live && slots[slot].kind.Dir? && |slots[slot].children| > 0 { return false; }
      ok := UnlinkChild(parent, id);
      live, slot := FindSlot(id);
      if live { Clear(slot); }
    }

    method Rename(parent: nat, from: seq<Byte>, to: seq<Byte>) returns (ok: bool)
      requires Valid()
      modifies slots
      ensures Valid() && (View(), ok) == FsTree.Rename(old(View()), parent, from, to)
    {
      hide Nodes, Unique, FirstNamed, FsTree.Lookup;
      if !GoodName(to) { return false; }
      var id := Lookup(parent, from);
      if id == 0 { return false; }
      var other := Lookup(parent, to);
      if other != 0 && other != id { return false; }
      var live, slot := FindSlot(id);
      if !live { return false; }
      Store(slot, slots[slot].(name := to));
      return true;
    }

    method SetMode(id: nat, mode: U16) returns (ok: bool)
      requires Valid()
      modifies slots
      ensures Valid() && ok == (id in old(View().nodes))
      ensures View() == if ok then Replaced(old(View()), id, old(View().nodes)[id].(mode := mode)) else old(View())
    {
      var live, slot := FindSlot(id);
      if live { Store(slot, slots[slot].(mode := mode)); }
      return live;
    }

    method SetOwner(id: nat, uid: U32, gid: U32) returns (ok: bool)
      requires Valid()
      modifies slots
      ensures Valid() && ok == (id in old(View().nodes))
      ensures View() == if ok then Replaced(old(View()), id, old(View().nodes)[id].(uid := uid, gid := gid)) else old(View())
    {
      var live, slot := FindSlot(id);
      if live { Store(slot, slots[slot].(uid := uid, gid := gid)); }
      return live;
    }

    method SetDataFull(id: nat, off: nat, size: nat, cap: nat)
      requires Valid()
      modifies slots
      ensures Valid()
      ensures var t := old(View());
              View() == if id in t.nodes then Replaced(t, id, t.nodes[id].(off := off, size := size, cap := cap)) else t
    {
      var live, slot := FindSlot(id);
      if live { Store(slot, slots[slot].(off := off, size := size, cap := cap)); }
    }

    /** Empties the table and makes the root again. */
    method Reset()
      requires slots.Length == MAX_VNODES
      modifies this, slots
      ensures Valid() && View() == INITIAL
    {
      var i := 0;
      while i < MAX_VNODES
        invariant 0 <= i <= MAX_VNODES
        invariant forall j :: 0 <= j < i ==> slots[j] == EMPTY
      {
        slots[i] := EMPTY;
        i := i + 1;
      }
      next := 2;
      EmptyNodes(slots[..]);
      var found, slot := AllocSlot();
      StoredNodes(slots[..], slot, ROOT_NODE);
      ghost var was := slots[..];
      slots[slot] := ROOT_NODE;
      assert slots[..] == was[slot := ROOT_NODE];
    }

    constructor ()
      ensures Valid() && View() == INITIAL && fresh(slots)
    {
      slots := new Vnode[MAX_VNODES](_ => EMPTY);
      next := 2;
      new;
      Reset();
    }

    /** One component of a path. */
    method Descend(cur: nat, part: seq<Byte>) returns (r: nat)
      requires Valid()
      ensures r == Step(View(), cur, part) && (cur == 0 ==> r == 0)
    {
      if part == [] || part == [DOT] { return cur; }
      if part == [DOT, DOT] {
        var live, slot := FindSlot(cur);
        return if live && slots[slot].parent != 0 then slots[slot].parent else cur;
      }
      NodesRepresents(slots[..]);
      r := Lookup(cur, part);
    }

    method ResolveFrom(cwd: nat, path: seq<Byte>) returns (cur: nat)
      requires Valid()
      ensures cur == Resolved(View(), cwd, path)
    {
      hide Nodes, Unique, Step, Split;
      cur := if path != [] && path[0] == SEPARATOR then ROOT else cwd;
      ghost var start := cur;
      var i := 0;
      assert path[0..] == path;
      while i <= |path|
        invariant 0 <= i <= |path| + 1
        invariant Walk(View(), start, Split(path)) == if i <= |path| then Walk(View(), cur, Split(path[i..])) else cur
      {
        var j := PartEnd(path, i);
        var part := path[i..j];
        assert path[i..][..j - i] == part && path[i..][j - i..] == path[j..];
        assert j < |path| ==> path[i..][j - i] == path[j] && path[i..][j - i + 1..] == path[j + 1..];
        if cur != 0 { NextPart(path[i..], part, j - i, View(), cur); }
        cur := Descend(cur, part);
        i := j + 1;
        if cur == 0 { return; }
      }
    }

    method Resolve(path: seq<Byte>) returns (cur: nat)
      requires Valid()
      ensures cur == Walk(View(), ROOT, Split(path))
    {
      cur := ResolveFrom(ROOT, path);
    }

    /** The node and its ancestors below the root, nearest first. */
    method Ancestors(id: nat) returns (chain: seq<nat>)
      requires Valid()
      ensures chain == Chain(View(), id, MAX_DEPTH)
    {
      hide Nodes, Unique, Chain;
      chain := [];
      var cur: nat := id;
      while cur != 0 && cur != ROOT && |chain| < MAX_DEPTH
        invariant |chain| <= MAX_DEPTH
        invariant chain + Chain(View(), cur, MAX_DEPTH - |chain|) == Chain(View(), id, MAX_DEPTH)
        decreases MAX_DEPTH - |chain|
      {
        var live, slot := FindSlot(cur);
        ChainStep(View(), cur, MAX_DEPTH - |chain|);
        chain := chain + [cur];
        cur := if live then slots[slot].parent else 0;
      }
      ChainStep(View(), cur, MAX_DEPTH - |chain|);
    }

    /** The absolute path of a node, cut off at the end of the buffer. */
    method PathInto(id: nat, out: array<Byte>) returns (n: nat)
      requires Valid()
      modifies out
      ensures n <= out.Length && out[..n] <= PathOf(View(), id)
      ensures n < out.Length ==> out[..n] == PathOf(View(), id)
    {
      hide Nodes, Unique, Chain;
      var chain := Ancestors(id);
      if chain == [] {
        if out.Length > 0 {
          out[0] := SEPARATOR;
          return 1;
        }
        return 0;
      }
      n := 0;
      var i := |chain|;
      while i > 0
        invariant 0 <= i <= |chain| && n <= out.Length
        invariant out[..n] <= Text(View(), chain[i..])
        invariant n < out.Length ==> out[..n] == Text(View(), chain[i..])
      {
        i := i - 1;
        TextPrefix(View(), chain[i..], 1);
        assert chain[i..][1..] == chain[i + 1..];
        if n >= out.Length { break; }
        var live, slot := FindSlot(chain[i]);
        ghost var above := out[..n];
        out[n] := SEPARATOR;
        n := n + 1;
        assert out[..n] == above + [SEPARATOR];
        n := Append(out, n, if live then slots[slot].name else []);
      }
      TextPrefix(View(), chain, i);
      assert chain[0..] == chain;
    }
  }

  /** Where the part of the path that starts at i ends. */
  method PartEnd(path: seq<Byte>, i: nat) returns (j: nat)
    requires i <= |path|
    ensures i <= j <= |path| && SEPARATOR !in path[i..j] && (j < |path| ==> path[j] == SEPARATOR)
  {
    j := i;
    while j < |path| && path[j] != SEPARATOR
      invariant i <= j <= |path| && SEPARATOR !in path[i..j]
    {
      j := j + 1;
    }
  }

  /** Writes bytes at position n until the buffer is full. */
  method Append(out: array<Byte>, n: nat, bytes: seq<Byte>) returns (m: nat)
    requires n <= out.Length
    modifies out
    ensures m <= out.Length && out[..m] <= old(out[..n]) + bytes
    ensures m < out.Length ==> out[..m] == old(out[..n]) + bytes
  {
    m := n;
    var k := 0;
    while k < |bytes| && m < out.Length
      invariant 0 <= k <= |bytes| && m == n + k <= out.Length
      invariant forall j :: 0 <= j < n ==> out[j] == old(out[j])
      invariant forall j :: 0 <= j < k ==> out[n + j] == bytes[j]
    {
      out[m] := bytes[k];
      m := m + 1;
      k := k + 1;
    }
    assert out[..m] == old(out[..n]) + bytes[..k];
  }

  lemma {:induction false} EmptyNodes(s: seq<Vnode>)
    requires forall i :: 0 <= i < |s| ==> s[i] == EMPTY
    ensures Unique(s) && Nodes(s) == map[]
  {
    if s != [] { EmptyNodes(s[..|s| - 1]); }
  }

  /** The walk over a path from its first part on. */
  lemma NextPart(path: seq<Byte>, part: seq<Byte>, k: nat, t: Tree, cur: nat)
    requires k <= |path| && part == path[..k] && SEPARATOR !in part && (k < |path| ==> path[k] == SEPARATOR) && cur != 0
    ensures k == |path| ==> Walk(t, cur, Split(path)) == Step(t, cur, part)
    ensures k < |path| ==> Walk(t, cur, Split(path)) == Walk(t, Step(t, cur, part), Split(path[k + 1..]))
  {
    hide Step, Split;
    if k == |path| {
      SplitOne(path);
      assert path == part;
    } else {
      assert path == part + [SEPARATOR] + path[k + 1..];
      SplitFirst(path, part, path[k + 1..]);
      assert Split(path)[1..] == Split(path[k + 1..]);
    }
  }
}
