/** kernel/src/fs/vfs.rs: the vnode tree, as values. */
module FsTree {
  import opened Octets

  const ROOT: nat := 1
  const MAX_NAME: nat := 31
  const MAX_CHILDREN: nat := 16
  const MAX_VNODES: nat := 64

  type U16 = x: int | 0 <= x < 65536
  type U32 = x: int | 0 <= x < 4294967296

  const MODE_DIR: U16 := 0x1ED
  const MODE_FILE: U16 := 0x1A4

  datatype Kind = File | Dir | Symlink

  /** id 0 is a free slot; parent 0 is no parent. */
  datatype Vnode = Vnode(id: nat, kind: Kind, name: seq<Byte>, size: nat, parent: nat, children: seq<nat>,
                         off: nat, cap: nat, uid: U32, gid: U32, mode: U16)

  const EMPTY: Vnode := Vnode(0, File, [], 0, 0, [], 0, 0, 0, 0, 0)

  /** The live nodes by id, and the next id to hand out. */
  datatype Tree = Tree(nodes: map<nat, Vnode>, next: nat)

  const SLASH: seq<Byte> := [47]

  const ROOT_NODE: Vnode := EMPTY.(id := ROOT, kind := Dir, name := SLASH, mode := MODE_DIR)

  /** The table after reset: the root alone. */
  const INITIAL: Tree := Tree(map[ROOT := ROOT_NODE], 2)

  // ---- operations --------------------------------------------------------------------

  /** The first of ids that carries the name, or 0. */
  function FirstNamed(nodes: map<nat, Vnode>, ids: seq<nat>, name: seq<Byte>): nat
  {
    if ids == [] then 0
    else if ids[0] in nodes && nodes[ids[0]].name == name then ids[0]
    else FirstNamed(nodes, ids[1..], name)
  }

  function Lookup(t: Tree, parent: nat, name: seq<Byte>): nat
  {
    if parent in t.nodes then FirstNamed(t.nodes, t.nodes[parent].children, name) else 0
  }

  function ChildCount(t: Tree, id: nat): nat
  {
    if id in t.nodes then |t.nodes[id].children| else 0
  }

  function Linked(nodes: map<nat, Vnode>, parent: nat, child: nat): map<nat, Vnode>
  {
    if parent in nodes && |nodes[parent].children| < MAX_CHILDREN
    then nodes[parent := nodes[parent].(children := nodes[parent].children + [child])]
    else nodes
  }

  predicate GoodName(name: seq<Byte>)
  {
    1 <= |name| <= MAX_NAME
  }

  function Create(t: Tree, parent: nat, name: seq<Byte>, kind: Kind, uid: U32, gid: U32): (Tree, nat)
  {
    if !GoodName(name) || Lookup(t, parent, name) != 0 || ChildCount(t, parent) >= MAX_CHILDREN then (t, 0)
    else if |t.nodes| >= MAX_VNODES then (t.(next := t.next + 1), 0)
    else
      var mode := if kind.Dir? then MODE_DIR else MODE_FILE;
      var node := EMPTY.(id := t.next, kind := kind, name := name, parent := parent, uid := uid, gid := gid, mode := mode);
      (Tree(Linked(t.nodes[t.next := node], parent, t.next), t.next + 1), t.next)
  }

  function Without(ids: seq<nat>, id: nat): seq<nat>
  {
    if ids == [] then [] else if ids[0] == id then ids[1..] else [ids[0]] + Without(ids[1..], id)
  }

  function Unlink(t: Tree, parent: nat, name: seq<Byte>): (Tree, bool)
  {
    var id := Lookup(t, parent, name);
    if id == 0 || (id in t.nodes && t.nodes[id].kind.Dir? && t.nodes[id].children != []) then (t, false)
    else if parent !in t.nodes then (t, false)
    else
      var p := t.nodes[parent];
      (t.(nodes := t.nodes[parent := p.(children := Without(p.children, id))] - {id}), true)
  }

  function Rename(t: Tree, parent: nat, from: seq<Byte>, to: seq<Byte>): (Tree, bool)
  {
    var id, other := Lookup(t, parent, from), Lookup(t, parent, to);
    if !GoodName(to) || id == 0 || (other != 0 && other != id) || id !in t.nodes then (t, false)
    else (t.(nodes := t.nodes[id := t.nodes[id].(name := to)]), true)
  }

  // ---- the tree invariant ----------------------------------------------------------------

  ghost predicate NoDuplicates(s: seq<nat>)
  {
    forall i, j :: 0 <= i < j < |s| ==> s[i] != s[j]
  }

  /** Every child is live and points back, no id twice, no name twice. */
  ghost predicate ChildrenOk(nodes: map<nat, Vnode>, id: nat, s: seq<nat>)
  {
    && NoDuplicates(s)
    && (forall c :: c in s ==> c in nodes && nodes[c].parent == id)
    && (forall i, j :: 0 <= i < j < |s| ==> nodes[s[i]].name != nodes[s[j]].name)
  }

  ghost predicate NodeOk(t: Tree, id: nat)
    requires id in t.nodes
  {
    var n := t.nodes[id];
    && 0 < id < t.next && n.id == id
    && |n.children| <= MAX_CHILDREN && (n.children != [] ==> n.kind.Dir?)
    && ChildrenOk(t.nodes, id, n.children)
    && (id != ROOT ==> GoodName(n.name) && n.parent in t.nodes && n.parent < id && id in t.nodes[n.parent].children)
  }

  ghost predicate LiveDir(t: Tree, id: nat)
  {
    id in t.nodes && t.nodes[id].kind.Dir?
  }

  ghost predicate Inv(t: Tree)
  {
    && t.next >= 2
    && LiveDir(t, ROOT) && t.nodes[ROOT].parent == 0 && t.nodes[ROOT].name == SLASH
    && |t.nodes| <= MAX_VNODES
    && forall id :: id in t.nodes ==> NodeOk(t, id)
  }

  // ---- looking up --------------------------------------------------------------------------

  lemma {:induction false} FirstNamedSpec(nodes: map<nat, Vnode>, ids: seq<nat>, name: seq<Byte>)
    requires 0 !in nodes
    ensures var r := FirstNamed(nodes, ids, name);
            && (r != 0 ==> r in ids && r in nodes && nodes[r].name == name)
            && (r == 0 ==> forall c :: c in ids && c in nodes ==> nodes[c].name != name)
  {
    if ids != [] { FirstNamedSpec(nodes, ids[1..], name); }
  }

  lemma NoZero(t: Tree)
    requires Inv(t)
    ensures 0 !in t.nodes && t.next !in t.nodes
  {
    assert 0 in t.nodes ==> NodeOk(t, 0);
    assert t.next in t.nodes ==> NodeOk(t, t.next);
  }

  /** In a tree, a lookup finds exactly the child of that name. */
  lemma LookupSpec(t: Tree, parent: nat, name: seq<Byte>)
    requires Inv(t) && parent in t.nodes
    ensures var r := Lookup(t, parent, name);
            && (r != 0 ==> r in t.nodes[parent].children && r in t.nodes && t.nodes[r].name == name)
            && (forall c :: c in t.nodes[parent].children ==> c in t.nodes && (t.nodes[c].name == name <==> r == c))
  {
    assert NodeOk(t, parent);
    NoZero(t);
    FirstNamedSpec(t.nodes, t.nodes[parent].children, name);
  }

  // ---- create --------------------------------------------------------------------------------

  /** A child list stays well-formed while its members keep their names and parents. */
  lemma ChildrenFrame(nodes: map<nat, Vnode>, more: map<nat, Vnode>, id: nat, s: seq<nat>)
    requires ChildrenOk(nodes, id, s)
    requires forall c :: c in s ==> c in more && more[c].parent == nodes[c].parent && more[c].name == nodes[c].name
    ensures ChildrenOk(more, id, s)
  {
  }

  lemma ChildrenExtend(nodes: map<nat, Vnode>, id: nat, s: seq<nat>, c: nat)
    requires ChildrenOk(nodes, id, s) && c !in s
    requires c in nodes && nodes[c].parent == id
    requires forall d :: d in s ==> nodes[d].name != nodes[c].name
    ensures ChildrenOk(nodes, id, s + [c])
  {
  }

  /** u is t with node under parent. */
  ghost predicate Grown(t: Tree, u: Tree, node: Vnode, parent: nat)
  {
    && LiveDir(t, parent) && |t.nodes[parent].children| < MAX_CHILDREN && GoodName(node.name)
    && node.id == t.next && node.parent == parent && node.children == [] && t.next !in t.nodes
    && u.nodes == t.nodes[t.next := node][parent := t.nodes[parent].(children := t.nodes[parent].children + [t.next])]
    && u.next == t.next + 1
  }

  lemma GrownNew(t: Tree, u: Tree, node: Vnode, parent: nat)
    requires Grown(t, u, node, parent) && NodeOk(t, parent)
    ensures NodeOk(u, t.next)
  {
    assert ChildrenOk(u.nodes, t.next, []);
    assert t.next in u.nodes[parent].children by { assert u.nodes[parent].children[|t.nodes[parent].children|] == t.next; }
  }

  lemma GrownParent(t: Tree, u: Tree, node: Vnode, parent: nat)
    requires Grown(t, u, node, parent) && NodeOk(t, parent)
    requires forall c :: c in t.nodes[parent].children ==> t.nodes[c].name != node.name
    ensures ChildrenOk(u.nodes, parent, u.nodes[parent].children)
  {
    var s := t.nodes[parent].children;
    ChildrenFrame(t.nodes, u.nodes, parent, s);
    ChildrenExtend(u.nodes, parent, s, t.next);
  }

  lemma GrownOther(t: Tree, u: Tree, node: Vnode, parent: nat, x: nat)
    requires Grown(t, u, node, parent) && x in t.nodes && NodeOk(t, x)
    requires x == parent ==> ChildrenOk(u.nodes, parent, u.nodes[parent].children)
    ensures NodeOk(u, x)
  {
    if x != parent { ChildrenFrame(t.nodes, u.nodes, x, t.nodes[x].children); }
    hide ChildrenOk;
  }

  lemma GrownNode(t: Tree, u: Tree, node: Vnode, parent: nat, x: nat)
    requires Inv(t) && Grown(t, u, node, parent) && x in u.nodes
    requires forall c :: c in t.nodes[parent].children ==> t.nodes[c].name != node.name
    ensures NodeOk(u, x)
  {
    hide NodeOk, ChildrenOk, GoodName;
    if x == t.next {
      GrownNew(t, u, node, parent);
    } else {
      if x == parent { GrownParent(t, u, node, parent); }
      GrownOther(t, u, node, parent, x);
    }
  }

  lemma CreateGrows(t: Tree, parent: nat, name: seq<Byte>, kind: Kind, uid: U32, gid: U32, node: Vnode)
    requires LiveDir(t, parent) && t.next !in t.nodes && Create(t, parent, name, kind, uid, gid).1 != 0
    requires node == EMPTY.(id := t.next, kind := kind, name := name, parent := parent, uid := uid, gid := gid,
                            mode := if kind.Dir? then MODE_DIR else MODE_FILE)
    ensures Grown(t, Create(t, parent, name, kind, uid, gid).0, node, parent)
  {
  }

  lemma CreateKeepsInv(t: Tree, parent: nat, name: seq<Byte>, kind: Kind, uid: U32, gid: U32)
    requires Inv(t) && LiveDir(t, parent)
    ensures Inv(Create(t, parent, name, kind, uid, gid).0)
  {
    hide NodeOk, ChildrenOk, Lookup, Linked;
    var (u, id) := Create(t, parent, name, kind, uid, gid);
    NoZero(t);
    LookupSpec(t, parent, name);
    CreateSize(t, parent, name, kind, uid, gid);
    if id != 0 {
      var node := EMPTY.(id := t.next, kind := kind, name := name, parent := parent, uid := uid, gid := gid,
        mode := if kind.Dir? then MODE_DIR else MODE_FILE);
      CreateGrows(t, parent, name, kind, uid, gid, node);
      forall x | x in u.nodes ensures NodeOk(u, x) { GrownNode(t, u, node, parent, x); }
    } else {
      forall x | x in u.nodes ensures NodeOk(u, x) { NextFrame(t, u.next, x); }
    }
  }

  lemma NextFrame(t: Tree, next: nat, x: nat)
    requires x in t.nodes && NodeOk(t, x) && t.next <= next
    ensures NodeOk(t.(next := next), x)
  {
  }

  lemma CreateSize(t: Tree, parent: nat, name: seq<Byte>, kind: Kind, uid: U32, gid: U32)
    requires Inv(t) && LiveDir(t, parent) && t.next !in t.nodes
    ensures var u := Create(t, parent, name, kind, uid, gid).0;
            |u.nodes| <= MAX_VNODES && u.next >= 2 && LiveDir(u, ROOT) && u.nodes[ROOT].parent == 0
            && u.nodes[ROOT].name == t.nodes[ROOT].name
  {
    hide NodeOk, Lookup;
    var u := Create(t, parent, name, kind, uid, gid).0;
    assert u.nodes.Keys <= t.nodes.Keys + {t.next} && |u.nodes| == |u.nodes.Keys| && |t.nodes| == |t.nodes.Keys|;
  }

  // ---- unlink --------------------------------------------------------------------------------

  lemma {:induction false} WithoutSpec(s: seq<nat>, id: nat) returns (k: nat)
    requires id in s
    ensures k < |s| && s[k] == id && Without(s, id) == s[..k] + s[k + 1..]
  {
    if s[0] == id {
      k := 0;
    } else {
      var j := WithoutSpec(s[1..], id);
      k := j + 1;
    }
  }

  lemma ChildrenRemove(nodes: map<nat, Vnode>, id: nat, s: seq<nat>, k: nat)
    requires ChildrenOk(nodes, id, s) && k < |s|
    ensures var r := s[..k] + s[k + 1..];
            ChildrenOk(nodes, id, r) && s[k] !in r && (forall c :: c in s && c != s[k] ==> c in r)
            && forall c :: c in r ==> c in nodes && c in s
  {
    var r := s[..k] + s[k + 1..];
    forall c | c in s && c != s[k] ensures c in r {
      var i :| 0 <= i < |s| && s[i] == c;
      assert r[if i < k then i else i - 1] == c;
    }
  }

  /** u is t without the leaf id, whose parent is parent. */
  ghost predicate Shrunk(t: Tree, u: Tree, parent: nat, id: nat)
  {
    && parent in t.nodes && id in t.nodes[parent].children && parent < id
    && id in t.nodes && t.nodes[id].children == [] && t.nodes[id].parent == parent
    && u.nodes == t.nodes[parent := t.nodes[parent].(children := Without(t.nodes[parent].children, id))] - {id}
    && u.next == t.next
  }

  lemma UnlinkShrinks(t: Tree, parent: nat, name: seq<Byte>)
    requires Inv(t) && Unlink(t, parent, name).1
    ensures Shrunk(t, Unlink(t, parent, name).0, parent, Lookup(t, parent, name))
  {
    LookupSpec(t, parent, name);
    var id := Lookup(t, parent, name);
    assert NodeOk(t, parent) && NodeOk(t, id);
    hide Lookup, Without, Inv;
  }

  lemma ShrunkParent(t: Tree, u: Tree, parent: nat, id: nat)
    requires Shrunk(t, u, parent, id) && NodeOk(t, parent)
    ensures NodeOk(u, parent) && forall c :: c in t.nodes[parent].children && c != id ==> c in u.nodes[parent].children
  {
    hide ChildrenOk, Without;
    var s := t.nodes[parent].children;
    var k := WithoutSpec(s, id);
    ChildrenRemove(t.nodes, parent, s, k);
    ChildrenFrame(t.nodes, u.nodes, parent, s[..k] + s[k + 1..]);
  }

  lemma ShrunkOther(t: Tree, u: Tree, parent: nat, id: nat, x: nat)
    requires Shrunk(t, u, parent, id) && x in t.nodes && NodeOk(t, x) && x != id && x != parent
    requires forall c :: c in t.nodes[parent].children && c != id ==> c in u.nodes[parent].children
    ensures NodeOk(u, x)
  {
    ChildrenFrame(t.nodes, u.nodes, x, t.nodes[x].children);
    hide ChildrenOk;
  }

  lemma ShrunkNode(t: Tree, u: Tree, parent: nat, id: nat, x: nat)
    requires Inv(t) && Shrunk(t, u, parent, id) && x in u.nodes
    ensures NodeOk(u, x)
  {
    hide NodeOk, ChildrenOk, Without;
    ShrunkParent(t, u, parent, id);
    if x != parent { ShrunkOther(t, u, parent, id, x); }
  }

  lemma ShrunkRoot(t: Tree, u: Tree, parent: nat, id: nat)
    requires Inv(t) && Shrunk(t, u, parent, id)
    ensures LiveDir(u, ROOT) && u.nodes[ROOT].parent == 0 && u.nodes[ROOT].name == t.nodes[ROOT].name && |u.nodes| == |t.nodes| - 1
  {
    hide Without, ChildrenOk;
    assert NodeOk(t, parent);
    var mid := t.nodes[parent := t.nodes[parent].(children := Without(t.nodes[parent].children, id))];
    assert mid.Keys == t.nodes.Keys;
    assert |mid| == |mid.Keys| && |t.nodes| == |t.nodes.Keys|;
    assert u.nodes.Keys == t.nodes.Keys - {id} && |u.nodes| == |u.nodes.Keys|;
  }

  lemma UnlinkKeepsInv(t: Tree, parent: nat, name: seq<Byte>)
    requires Inv(t)
    ensures Inv(Unlink(t, parent, name).0)
  {
    hide NodeOk, ChildrenOk, Lookup;
    var (u, ok) := Unlink(t, parent, name);
    if ok {
      UnlinkShrinks(t, parent, name);
      ShrunkRoot(t, u, parent, Lookup(t, parent, name));
      forall x | x in u.nodes ensures NodeOk(u, x) { ShrunkNode(t, u, parent, Lookup(t, parent, name), x); }
    }
  }

  // ---- rename --------------------------------------------------------------------------------

  lemma ChildrenRename(nodes: map<nat, Vnode>, more: map<nat, Vnode>, parent: nat, s: seq<nat>, id: nat)
    requires ChildrenOk(nodes, parent, s) && id in nodes && id in more && more == nodes[id := more[id]]
    requires more[id].parent == nodes[id].parent
    requires forall c :: c in s && c != id ==> nodes[c].name != more[id].name
    ensures ChildrenOk(more, parent, s)
  {
  }

  lemma RenamedNode(t: Tree, u: Tree, parent: nat, id: nat, to: seq<Byte>, x: nat)
    requires x in t.nodes && NodeOk(t, x) && id in t.nodes && id != ROOT && t.nodes[id].parent == parent && GoodName(to)
    requires parent in t.nodes && forall c :: c in t.nodes[parent].children && c in t.nodes && t.nodes[c].name == to ==> c == id
    requires u == t.(nodes := t.nodes[id := t.nodes[id].(name := to)])
    ensures NodeOk(u, x)
  {
    if x == parent {
      ChildrenRename(t.nodes, u.nodes, parent, t.nodes[parent].children, id);
    } else {
      assert id !in t.nodes[x].children;
      ChildrenFrame(t.nodes, u.nodes, x, t.nodes[x].children);
    }
    hide ChildrenOk;
  }

  lemma RenameKeepsInv(t: Tree, parent: nat, from: seq<Byte>, to: seq<Byte>)
    requires Inv(t)
    ensures Inv(Rename(t, parent, from, to).0)
  {
    hide ChildrenOk, FirstNamed;
    var (u, ok) := Rename(t, parent, from, to);
    if ok {
      var id := Lookup(t, parent, from);
      LookupSpec(t, parent, from);
      LookupSpec(t, parent, to);
      RenamedChild(t, parent, id);
      hide NodeOk, Lookup;
      forall x | x in u.nodes ensures NodeOk(u, x) { RenamedNode(t, u, parent, id, to, x); }
    }
  }

  lemma RenamedChild(t: Tree, parent: nat, id: nat)
    requires Inv(t) && parent in t.nodes && id in t.nodes[parent].children
    ensures id in t.nodes && id != ROOT && t.nodes[id].parent == parent
  {
    assert NodeOk(t, parent);
  }

  // ---- data, owner and mode --------------------------------------------------------------------

  function Replaced(t: Tree, id: nat, n: Vnode): Tree
  {
    t.(nodes := t.nodes[id := n])
  }

  /** Same place in the tree. */
  predicate SameShape(a: Vnode, b: Vnode)
  {
    a.id == b.id && a.kind == b.kind && a.name == b.name && a.parent == b.parent && a.children == b.children
  }

  lemma ReplacedNode(t: Tree, id: nat, n: Vnode, x: nat)
    requires id in t.nodes && SameShape(t.nodes[id], n) && x in t.nodes && NodeOk(t, x)
    ensures NodeOk(Replaced(t, id, n), x)
  {
    ChildrenFrame(t.nodes, Replaced(t, id, n).nodes, x, t.nodes[x].children);
    hide ChildrenOk;
  }

  lemma ReplacedKeepsInv(t: Tree, id: nat, n: Vnode)
    requires Inv(t) && id in t.nodes && SameShape(t.nodes[id], n)
    ensures Inv(Replaced(t, id, n))
  {
    hide NodeOk;
    var u := Replaced(t, id, n);
    assert u.nodes.Keys == t.nodes.Keys && |u.nodes| == |u.nodes.Keys| && |t.nodes| == |t.nodes.Keys|;
    forall x | x in u.nodes ensures NodeOk(u, x) { ReplacedNode(t, id, n, x); }
  }

  // ---- whole runs ----------------------------------------------------------------------------

  lemma InitialInv()
    ensures Inv(INITIAL)
  {
  }

  /** A node that does get created keeps the tree a tree exactly when its parent is a live directory. */
  lemma CreateKeepsInvIff(t: Tree, parent: nat, name: seq<Byte>, kind: Kind, uid: U32, gid: U32)
    requires Inv(t) && Create(t, parent, name, kind, uid, gid).1 != 0
    ensures Inv(Create(t, parent, name, kind, uid, gid).0) <==> LiveDir(t, parent)
  {
    if LiveDir(t, parent) {
      CreateKeepsInv(t, parent, name, kind, uid, gid);
    } else {
      NoZero(t);
      BadParent(t, parent, name, kind, uid, gid);
    }
  }

  /** Creating under an id that does not exist succeeds, and leaves no tree. */
  lemma DeadParent(kind: Kind, uid: U32, gid: U32)
    ensures Create(INITIAL, 7, [97], kind, uid, gid).1 != 0 && !Inv(Create(INITIAL, 7, [97], kind, uid, gid).0)
  {
    InitialInv();
    CreateKeepsInvIff(INITIAL, 7, [97], kind, uid, gid);
  }

  lemma BadParent(t: Tree, parent: nat, name: seq<Byte>, kind: Kind, uid: U32, gid: U32)
    requires Inv(t) && t.next !in t.nodes && !LiveDir(t, parent) && Create(t, parent, name, kind, uid, gid).1 != 0
    ensures !Inv(Create(t, parent, name, kind, uid, gid).0)
  {
    hide FirstNamed;
    var u := Create(t, parent, name, kind, uid, gid).0;
    if parent in t.nodes {
      assert NodeOk(t, parent);
      assert !NodeOk(u, parent);
    } else {
      assert u.nodes[t.next].parent == parent;
      assert !NodeOk(u, t.next);
    }
  }

  datatype Op =
    | OpCreate(parent: nat, name: seq<Byte>, kind: Kind, uid: U32, gid: U32)
    | OpUnlink(parent: nat, name: seq<Byte>)
    | OpRename(parent: nat, from: seq<Byte>, to: seq<Byte>)

  function Apply(t: Tree, op: Op): Tree
  {
    match op
    case OpCreate(parent, name, kind, uid, gid) => Create(t, parent, name, kind, uid, gid).0
    case OpUnlink(parent, name) => Unlink(t, parent, name).0
    case OpRename(parent, from, to) => Rename(t, parent, from, to).0
  }

  function Run(t: Tree, ops: seq<Op>): Tree
    decreases |ops|
  {
    if ops == [] then t else Run(Apply(t, ops[0]), ops[1..])
  }

  /** Every create of the run names a directory that is live when it is called. */
  ghost predicate ParentsLive(t: Tree, ops: seq<Op>)
    decreases |ops|
  {
    ops != [] ==> (ops[0].OpCreate? ==> LiveDir(t, ops[0].parent)) && ParentsLive(Apply(t, ops[0]), ops[1..])
  }

  lemma {:induction false} RunKeepsInv(t: Tree, ops: seq<Op>)
    requires Inv(t) && ParentsLive(t, ops)
    ensures Inv(Run(t, ops))
    decreases |ops|
  {
    hide Inv, Create, Unlink, Rename;
    if ops != [] {
      match ops[0] {
        case OpCreate(parent, name, kind, uid, gid) => CreateKeepsInv(t, parent, name, kind, uid, gid);
        case OpUnlink(parent, name) => UnlinkKeepsInv(t, parent, name);
        case OpRename(parent, from, to) => RenameKeepsInv(t, parent, from, to);
      }
      RunKeepsInv(Apply(t, ops[0]), ops[1..]);
    }
  }

  /** In a tree, a node sits in one child list only, once: its parent's. */
  lemma OneParent(t: Tree, id: nat, holder: nat)
    requires Inv(t) && id in t.nodes && id != ROOT && holder in t.nodes
    ensures id in t.nodes[holder].children <==> holder == t.nodes[id].parent
    ensures NoDuplicates(t.nodes[holder].children) && t.nodes[id].parent < id
  {
    assert NodeOk(t, id) && NodeOk(t, holder);
  }

  // ---- what a lookup finds afterwards --------------------------------------------------------

  /** Other names in the directory, and other directories, look the same. */
  ghost predicate OthersFound(t: Tree, u: Tree, parent: nat, id: nat)
    requires parent in t.nodes && parent in u.nodes
  {
    && (forall c :: c != id ==> (c in t.nodes[parent].children <==> c in u.nodes[parent].children))
    && (forall c :: c in t.nodes && c != id && c != parent ==> c in u.nodes && u.nodes[c] == t.nodes[c])
  }

  lemma GrownOthers(t: Tree, u: Tree, node: Vnode, parent: nat)
    requires Grown(t, u, node, parent)
    ensures parent in u.nodes && t.next in u.nodes && u.nodes[t.next].name == node.name
    ensures t.next in u.nodes[parent].children && OthersFound(t, u, parent, t.next)
  {
    var s := t.nodes[parent].children;
    assert u.nodes[parent].children == s + [t.next];
  }

  lemma CreateFound(t: Tree, parent: nat, name: seq<Byte>, kind: Kind, uid: U32, gid: U32)
    requires Inv(t) && LiveDir(t, parent) && Create(t, parent, name, kind, uid, gid).1 != 0
    ensures var (u, id) := Create(t, parent, name, kind, uid, gid);
            && id !in t.nodes && parent in u.nodes && Lookup(u, parent, name) == id && OthersFound(t, u, parent, id)
            && id in u.nodes && u.nodes[id] == Vnode(id, kind, name, 0, parent, [], 0, 0, uid, gid, if kind.Dir? then 0x1ED else 0x1A4)
  {
    hide Inv, Lookup, Grown, OthersFound, Linked;
    var (u, id) := Create(t, parent, name, kind, uid, gid);
    var node := EMPTY.(id := t.next, kind := kind, name := name, parent := parent, uid := uid, gid := gid,
      mode := if kind.Dir? then MODE_DIR else MODE_FILE);
    NoZero(t);
    CreateGrows(t, parent, name, kind, uid, gid, node);
    CreateKeepsInv(t, parent, name, kind, uid, gid);
    GrownOthers(t, u, node, parent);
    LookupSpec(u, parent, name);
  }

  lemma {:induction false} WithoutMembers(s: seq<nat>, id: nat, c: nat)
    requires c != id
    ensures c in s <==> c in Without(s, id)
  {
    if s != [] { WithoutMembers(s[1..], id, c); }
  }

  lemma ShrunkOthers(t: Tree, u: Tree, parent: nat, id: nat)
    requires Shrunk(t, u, parent, id)
    ensures parent in u.nodes && id !in u.nodes && OthersFound(t, u, parent, id)
    ensures forall c :: c in u.nodes && c in t.nodes ==> u.nodes[c].name == t.nodes[c].name
  {
    hide Without;
    forall c | c != id ensures c in t.nodes[parent].children <==> c in u.nodes[parent].children {
      WithoutMembers(t.nodes[parent].children, id, c);
    }
  }

  lemma UnlinkGone(t: Tree, parent: nat, name: seq<Byte>)
    requires Inv(t) && Unlink(t, parent, name).1
    ensures var u, id := Unlink(t, parent, name).0, Lookup(t, parent, name);
            && id !in u.nodes && parent in t.nodes && parent in u.nodes && Lookup(u, parent, name) == 0
            && OthersFound(t, u, parent, id)
  {
    hide Inv, Lookup, Without, Unlink, Shrunk;
    var u, id := Unlink(t, parent, name).0, Lookup(t, parent, name);
    UnlinkShrinks(t, parent, name);
    UnlinkKeepsInv(t, parent, name);
    Unlinked(t, u, parent, id);
    ShrunkOthers(t, u, parent, id);
    LookupSpec(t, parent, name);
    LookupSpec(u, parent, name);
  }

  /** A live child of parent carries the name. */
  ghost predicate HasChild(t: Tree, parent: nat, name: seq<Byte>)
  {
    exists id :: IsChild(t, parent, id, name)
  }

  ghost predicate IsChild(t: Tree, parent: nat, id: nat, name: seq<Byte>)
  {
    parent in t.nodes && id in t.nodes[parent].children && id in t.nodes && t.nodes[id].name == name
  }

  lemma LookupFinds(t: Tree, parent: nat, name: seq<Byte>)
    requires Inv(t)
    ensures Lookup(t, parent, name) != 0 <==> HasChild(t, parent, name)
    ensures forall id :: IsChild(t, parent, id, name) ==> id == Lookup(t, parent, name)
    ensures HasChild(t, parent, name) ==> IsChild(t, parent, Lookup(t, parent, name), name)
  {
    NoZero(t);
    if parent in t.nodes { LookupSpec(t, parent, name); }
    hide Inv, Lookup;
    assert Lookup(t, parent, name) != 0 ==> parent in t.nodes by { Orphaned(t, parent, name); }
    assert Lookup(t, parent, name) != 0 ==> IsChild(t, parent, Lookup(t, parent, name), name);
  }

  lemma Orphaned(t: Tree, parent: nat, name: seq<Byte>)
    ensures parent !in t.nodes ==> Lookup(t, parent, name) == 0
  {
  }

  /** create fails exactly for a bad or taken name, a full directory or a full table. */
  lemma CreateSucceedsIff(t: Tree, parent: nat, name: seq<Byte>, kind: Kind, uid: U32, gid: U32)
    requires Inv(t)
    ensures Create(t, parent, name, kind, uid, gid).1 != 0 <==>
            && GoodName(name) && !HasChild(t, parent, name) && |t.nodes| < MAX_VNODES
            && (parent in t.nodes ==> |t.nodes[parent].children| < MAX_CHILDREN)
    ensures var (u, id) := Create(t, parent, name, kind, uid, gid);
            id == 0 ==> u.nodes == t.nodes && (u.next == t.next + 1 <==>
              && GoodName(name) && !HasChild(t, parent, name)
              && (parent in t.nodes ==> |t.nodes[parent].children| < MAX_CHILDREN))
  {
    LookupFinds(t, parent, name);
    hide Lookup, HasChild;
  }

  /** unlink succeeds exactly for a child of that name that is no directory with children. */
  lemma UnlinkSucceedsIff(t: Tree, parent: nat, name: seq<Byte>)
    requires Inv(t)
    ensures Unlink(t, parent, name).1 <==>
            exists id :: IsChild(t, parent, id, name) && !(t.nodes[id].kind.Dir? && t.nodes[id].children != [])
  {
    LookupFinds(t, parent, name);
    hide Inv, Lookup;
    var id := Lookup(t, parent, name);
    if Unlink(t, parent, name).1 { assert IsChild(t, parent, id, name); }
  }

  /** rename succeeds exactly for a child of the old name and a good new name that no other child carries. */
  lemma RenameSucceedsIff(t: Tree, parent: nat, from: seq<Byte>, to: seq<Byte>)
    requires Inv(t)
    ensures Rename(t, parent, from, to).1 <==>
            GoodName(to) && HasChild(t, parent, from) && (from != to ==> !HasChild(t, parent, to))
  {
    LookupFinds(t, parent, from);
    LookupFinds(t, parent, to);
    hide Inv, Lookup;
  }

  lemma Unlinked(t: Tree, u: Tree, parent: nat, id: nat)
    requires Shrunk(t, u, parent, id)
    ensures parent in t.nodes
  {
  }

  lemma RenameMoved(t: Tree, parent: nat, from: seq<Byte>, to: seq<Byte>)
    requires Inv(t) && Rename(t, parent, from, to).1
    ensures var u, id := Rename(t, parent, from, to).0, Lookup(t, parent, from);
            && parent in t.nodes && parent in u.nodes && id in u.nodes && u.nodes[id] == t.nodes[id].(name := to)
            && Lookup(u, parent, to) == id && (from != to ==> Lookup(u, parent, from) == 0) && OthersFound(t, u, parent, id)
  {
    hide Inv, Lookup, Rename;
    var u, id := Rename(t, parent, from, to).0, Lookup(t, parent, from);
    RenameKeepsInv(t, parent, from, to);
    RenameIs(t, parent, from, to);
    LookupSpec(t, parent, from);
    LookupSpec(u, parent, to);
    LookupSpec(u, parent, from);
  }

  lemma RenameIs(t: Tree, parent: nat, from: seq<Byte>, to: seq<Byte>)
    requires Inv(t) && Rename(t, parent, from, to).1
    ensures var id := Lookup(t, parent, from);
            && parent in t.nodes && id != 0 && id in t.nodes && id in t.nodes[parent].children && id != parent
            && Rename(t, parent, from, to).0 == Replaced(t, id, t.nodes[id].(name := to))
  {
    hide FirstNamed;
    var id := Lookup(t, parent, from);
    LookupSpec(t, parent, from);
    assert NodeOk(t, parent) && NodeOk(t, id);
  }
}
