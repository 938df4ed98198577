/** kernel/src/fs/vfs.rs:511-627: paths, as values. */
module FsPaths {
  import opened Octets
  import opened FsTree

  const SEPARATOR: Byte := 47
  const DOT: Byte := 46
  const MAX_DEPTH: nat := 16

  // ---- resolving -----------------------------------------------------------------------------

  function FirstSlash(p: seq<Byte>): (k: nat)
    ensures k <= |p| && SEPARATOR !in p[..k] && (k < |p| ==> p[k] == SEPARATOR)
  {
    if p == [] || p[0] == SEPARATOR then 0 else 1 + FirstSlash(p[1..])
  }

  /** The pieces between slashes; one more than there are slashes. */
  function Split(p: seq<Byte>): seq<seq<Byte>>
    decreases |p|
  {
    var k := FirstSlash(p);
    if k == |p| then [p] else [p[..k]] + Split(p[k + 1..])
  }

  function ParentOf(t: Tree, id: nat): nat
  {
    if id in t.nodes then t.nodes[id].parent else 0
  }

  /** One component from cur; 0 when it is missing. */
  function Step(t: Tree, cur: nat, part: seq<Byte>): nat
  {
    if part == [] || part == [DOT] then cur
    else if part == [DOT, DOT] then (if ParentOf(t, cur) != 0 then ParentOf(t, cur) else cur)
    else Lookup(t, cur, part)
  }

  function Walk(t: Tree, cur: nat, parts: seq<seq<Byte>>): nat
    decreases |parts|
  {
    if parts == [] || cur == 0 then cur else Walk(t, Step(t, cur, parts[0]), parts[1..])
  }

  // ---- naming --------------------------------------------------------------------------------

  /** The node and its ancestors below the root, nearest first, at most k of them. */
  function Chain(t: Tree, id: nat, k: nat): seq<nat>
    decreases k
  {
    if id == 0 || id == ROOT || k == 0 then [] else [id] + Chain(t, ParentOf(t, id), k - 1)
  }

  lemma ChainStep(t: Tree, id: nat, k: nat)
    ensures Chain(t, id, k) ==
            if id == 0 || id == ROOT || k == 0 then [] else [id] + Chain(t, ParentOf(t, id), k - 1)
  {
  }

  function NameOf(t: Tree, id: nat): seq<Byte>
  {
    if id in t.nodes then t.nodes[id].name else []
  }

  function Text(t: Tree, chain: seq<nat>): seq<Byte>
  {
    if chain == [] then [] else Text(t, chain[1..]) + [SEPARATOR] + NameOf(t, chain[0])
  }

  function PathOf(t: Tree, id: nat): seq<Byte>
  {
    var chain := Chain(t, id, MAX_DEPTH);
    if chain == [] then [SEPARATOR] else Text(t, chain)
  }

  lemma {:induction false} TextPrefix(t: Tree, chain: seq<nat>, i: nat)
    requires i <= |chain|
    ensures Text(t, chain[i..]) <= Text(t, chain)
  {
    if i > 0 {
      TextPrefix(t, chain[1..], i - 1);
      assert chain[1..][i - 1..] == chain[i..];
    } else {
      assert chain[0..] == chain;
    }
  }

  // ---- resolving a name back -----------------------------------------------------------------

  /** The number of nodes from id up to, not including, the root. */
  ghost function Depth(t: Tree, id: nat): nat
    requires Inv(t) && id in t.nodes
    decreases id
  {
    assert NodeOk(t, id);
    if id == ROOT then 0 else 1 + Depth(t, t.nodes[id].parent)
  }

  predicate Plain(name: seq<Byte>)
  {
    SEPARATOR !in name && name != [DOT] && name != [DOT, DOT]
  }

  /** id and all its ancestors below the root have plain names. */
  ghost predicate PlainPath(t: Tree, id: nat)
    requires Inv(t) && id in t.nodes
    decreases id
  {
    assert NodeOk(t, id);
    id != ROOT ==> Plain(t.nodes[id].name) && PlainPath(t, t.nodes[id].parent)
  }

  lemma {:induction false} FirstSlashAppend(a: seq<Byte>, b: seq<Byte>)
    ensures SEPARATOR in a ==> FirstSlash(a + b) == FirstSlash(a)
    ensures SEPARATOR !in a ==> FirstSlash(a) == |a| && FirstSlash(a + [SEPARATOR] + b) == |a|
  {
    if a != [] && a[0] != SEPARATOR {
      FirstSlashAppend(a[1..], b);
      assert (a + b)[1..] == a[1..] + b && (a + [SEPARATOR] + b)[1..] == a[1..] + [SEPARATOR] + b;
    }
  }

  lemma SplitFirst(p: seq<Byte>, head: seq<Byte>, rest: seq<Byte>)
    requires SEPARATOR !in head && p == head + [SEPARATOR] + rest
    ensures Split(p) == [head] + Split(rest)
  {
    FirstSlashAppend(head, rest);
    assert p[..|head|] == head && p[|head| + 1..] == rest;
  }

  lemma SplitOne(p: seq<Byte>)
    requires SEPARATOR !in p
    ensures Split(p) == [p]
  {
    FirstSlashAppend(p, []);
  }

  /** Splitting two paths joined by a slash splits each. */
  lemma {:induction false} SplitJoin(a: seq<Byte>, b: seq<Byte>)
    ensures Split(a + [SEPARATOR] + b) == Split(a) + Split(b)
    decreases |a|
  {
    hide Split, FirstSlash;
    if SEPARATOR in a {
      var k := FirstSlash(a);
      var head, rest := a[..k], a[k + 1..];
      assert a == head + [SEPARATOR] + rest;
      SplitJoin(rest, b);
      SplitFirst(a, head, rest);
      assert a + [SEPARATOR] + b == head + [SEPARATOR] + (rest + [SEPARATOR] + b);
      SplitFirst(a + [SEPARATOR] + b, head, rest + [SEPARATOR] + b);
    } else {
      SplitFirst(a + [SEPARATOR] + b, a, b);
      SplitOne(a);
    }
  }

  lemma {:induction false} WalkConcat(t: Tree, cur: nat, a: seq<seq<Byte>>, b: seq<seq<Byte>>)
    ensures Walk(t, cur, a + b) == Walk(t, Walk(t, cur, a), b)
    decreases |a|
  {
    hide Step;
    if a == [] || cur == 0 {
      assert a == [] ==> a + b == b;
    } else {
      assert (a + b)[1..] == a[1..] + b;
      WalkConcat(t, Step(t, cur, a[0]), a[1..], b);
    }
  }

  /** Where the second part of a path leads depends only on where the first part leads. */
  lemma Joined(t: Tree, cur: nat, a: seq<Byte>, b: seq<Byte>)
    ensures Walk(t, cur, Split(a + [SEPARATOR] + b)) == Walk(t, Walk(t, cur, Split(a)), Split(b))
  {
    hide Split, Walk;
    SplitJoin(a, b);
    WalkConcat(t, cur, Split(a), Split(b));
  }

  lemma OnePart(t: Tree, cur: nat, part: seq<Byte>)
    requires SEPARATOR !in part
    ensures Walk(t, cur, Split(part)) == if cur == 0 then 0 else Step(t, cur, part)
  {
    hide Split, Step;
    SplitOne(part);
    assert [part][1..] == [];
  }

  /** One step towards the root. */
  lemma Up(t: Tree, id: nat)
    requires Inv(t) && id in t.nodes && id != ROOT && PlainPath(t, id)
    ensures var p := t.nodes[id].parent;
            && p in t.nodes && 0 < p && 0 < id && id in t.nodes[p].children
            && Depth(t, id) == 1 + Depth(t, p) && PlainPath(t, p)
            && Plain(t.nodes[id].name) && GoodName(t.nodes[id].name)
  {
    assert NodeOk(t, id);
    var p := t.nodes[id].parent;
    assert NodeOk(t, p);
  }

  lemma RootResolves(t: Tree)
    ensures Walk(t, ROOT, Split([])) == ROOT && Walk(t, ROOT, Split([SEPARATOR])) == ROOT
  {
    SplitOne([]);
    SplitFirst([SEPARATOR], [], []);
    hide Split;
    assert Step(t, ROOT, []) == ROOT;
    assert Split([SEPARATOR])[1..] == Split([]);
  }

  lemma {:induction false} TextResolves(t: Tree, id: nat, k: nat)
    requires Inv(t) && id in t.nodes && PlainPath(t, id) && Depth(t, id) <= k
    ensures Walk(t, ROOT, Split(Text(t, Chain(t, id, k)))) == id
    decreases k
  {
    hide Inv, Walk, Split, PlainPath, Plain, GoodName;
    if id == ROOT {
      RootResolves(t);
    } else {
      Up(t, id);
      var p, name := t.nodes[id].parent, t.nodes[id].name;
      TextResolves(t, p, k - 1);
      assert Chain(t, id, k)[1..] == Chain(t, p, k - 1);
      ChildResolves(t, p, id, Text(t, Chain(t, p, k - 1)), name);
    }
  }

  lemma ChildResolves(t: Tree, p: nat, id: nat, above: seq<Byte>, name: seq<Byte>)
    requires Inv(t) && p in t.nodes && id in t.nodes[p].children && id in t.nodes && t.nodes[id].name == name && id != 0
    requires Plain(name) && GoodName(name) && p != 0 && Walk(t, ROOT, Split(above)) == p
    ensures Walk(t, ROOT, Split(above + [SEPARATOR] + name)) == id
  {
    LookupSpec(t, p, name);
    hide Inv, Walk, Split, Lookup;
    Joined(t, ROOT, above, name);
    OnePart(t, p, name);
  }

  /** The path written for a node leads back to it. */
  lemma PathResolves(t: Tree, id: nat)
    requires Inv(t) && id in t.nodes && PlainPath(t, id) && Depth(t, id) <= MAX_DEPTH
    ensures Walk(t, ROOT, Split(PathOf(t, id))) == id
  {
    hide Walk, Split, PlainPath, NodeOk;
    NoZero(t);
    if id == ROOT { RootResolves(t); } else { TextResolves(t, id, MAX_DEPTH); }
  }

  // ---- "." and ".." --------------------------------------------------------------------------

  /** The node whose child list holds id, and the root for the root. */
  ghost predicate IsAbove(t: Tree, up: nat, id: nat)
  {
    up in t.nodes && if id == ROOT then up == ROOT else id in t.nodes[up].children
  }

  /** ".." leads to the one node above. */
  lemma DotDot(t: Tree, id: nat)
    requires Inv(t) && id in t.nodes
    ensures var up := Walk(t, id, Split([DOT, DOT]));
            IsAbove(t, up, id) && forall d :: IsAbove(t, d, id) ==> d == up
  {
    NoZero(t);
    OnePart(t, id, [DOT, DOT]);
    hide Walk, Split;
    assert NodeOk(t, id);
    forall d | IsAbove(t, d, id) ensures d == Step(t, id, [DOT, DOT]) {
      assert NodeOk(t, d);
    }
  }

  /** From a live node every path leads to a live node or to nothing. */
  lemma {:induction false} WalkLive(t: Tree, cur: nat, parts: seq<seq<Byte>>)
    requires Inv(t) && (cur == 0 || cur in t.nodes)
    ensures Walk(t, cur, parts) == 0 || Walk(t, cur, parts) in t.nodes
    decreases |parts|
  {
    hide Inv, Lookup;
    if parts != [] && cur != 0 {
      StepLive(t, cur, parts[0]);
      WalkLive(t, Step(t, cur, parts[0]), parts[1..]);
    }
  }

  lemma StepLive(t: Tree, cur: nat, part: seq<Byte>)
    requires Inv(t) && cur in t.nodes
    ensures Step(t, cur, part) == 0 || Step(t, cur, part) in t.nodes
  {
    assert NodeOk(t, cur);
    LookupSpec(t, cur, part);
    hide Lookup;
  }

  /** A path followed by "/.." leads above what the path leads to, and to nothing if that is missing. */
  lemma ThenDotDot(t: Tree, cur: nat, path: seq<Byte>)
    requires Inv(t)
    ensures var id, up := Walk(t, cur, Split(path)), Walk(t, cur, Split(path + [SEPARATOR] + [DOT, DOT]));
            (id == 0 ==> up == 0) && (id in t.nodes ==> IsAbove(t, up, id))
  {
    hide Split, Step, Inv, IsAbove;
    Joined(t, cur, path, [DOT, DOT]);
    var id := Walk(t, cur, Split(path));
    if id in t.nodes { DotDot(t, id); }
  }

  /** Into a child by its name and out again. */
  lemma ThereAndBack(t: Tree, d: nat, name: seq<Byte>)
    requires Inv(t) && d in t.nodes && Plain(name) && exists c :: c in t.nodes[d].children && t.nodes[c].name == name
    ensures Walk(t, d, Split(name + [SEPARATOR] + [DOT, DOT])) == d
  {
    NoZero(t);
    assert NodeOk(t, d);
    var c :| c in t.nodes[d].children && t.nodes[c].name == name;
    assert NodeOk(t, c);
    LookupSpec(t, d, name);
    hide Split, Walk, Inv, NodeOk, Lookup;
    OnePart(t, d, name);
    Joined(t, d, name, [DOT, DOT]);
    DotDot(t, c);
    assert IsAbove(t, d, c);
  }

  /** A trailing "/" or "/." changes nothing. */
  lemma TrailingDot(t: Tree, cur: nat, path: seq<Byte>)
    ensures Walk(t, cur, Split(path + [SEPARATOR])) == Walk(t, cur, Split(path))
    ensures Walk(t, cur, Split(path + [SEPARATOR] + [DOT])) == Walk(t, cur, Split(path))
  {
    hide Split, Walk;
    Joined(t, cur, path, []);
    Joined(t, cur, path, [DOT]);
    assert path + [SEPARATOR] + [] == path + [SEPARATOR];
    OnePart(t, Walk(t, cur, Split(path)), []);
    OnePart(t, Walk(t, cur, Split(path)), [DOT]);
  }

  /** Where a path leads from cwd: an absolute one starts at the root. */
  function Resolved(t: Tree, cwd: nat, path: seq<Byte>): nat
  {
    Walk(t, if path != [] && path[0] == SEPARATOR then ROOT else cwd, Split(path))
  }

  /** Resolving a joined path, except that joining to the empty path makes it absolute. */
  lemma ResolvedJoins(t: Tree, cwd: nat, a: seq<Byte>, b: seq<Byte>)
    ensures Resolved(t, cwd, a + [SEPARATOR] + b) == Walk(t, Resolved(t, if a == [] then ROOT else cwd, a), Split(b))
  {
    hide Walk;
    var cur := if a == [] || a[0] == SEPARATOR then ROOT else cwd;
    assert (a + [SEPARATOR] + b)[0] == if a == [] then SEPARATOR else a[0];
    hide Split;
    Joined(t, cur, a, b);
  }
}
