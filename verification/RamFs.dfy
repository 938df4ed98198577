/** kernel/src/fs/ramfs.rs: the data pool, changed in place, against FsPool. */
module RamFs {
  import opened Octets
  import opened FsTree
  import opened FsPool
  import Vfs

  lemma {:induction false} FirstFitIs(free: seq<Block>, n: nat, i: nat)
    requires i <= |free| && (forall j :: 0 <= j < i ==> free[j].size < n) && (i < |free| ==> free[i].size >= n)
    ensures FirstFit(free, n) == i
  {
    if i > 0 {
      assert free[0].size < n;
      FirstFitIs(free[1..], n, i - 1);
    }
  }

  class Files {
    const table: Vfs.Table
    const pool: array<Byte>
    var free: seq<Block>
    var next: nat

    ghost predicate Valid()
      reads this, pool, table, table.slots
    {
      table.Valid() && pool.Length == POOL
    }

    ghost function Pool(): Pool
      reads this, pool
    {
      FsPool.Pool(pool[..], free, next)
    }

    ghost function View(): Ram
      reads this, pool, table, table.slots
    {
      Ram(table.View(), Pool())
    }

    constructor ()
      ensures Valid() && fresh(table) && fresh(table.slots) && fresh(pool)
      ensures table.View() == INITIAL && free == [] && next == 1
    {
      table := new Vfs.Table();
      pool := new Byte[POOL](_ => 0);
      free := [];
      next := 1;
    }

    method AllocData(n: nat) returns (off: nat)
      requires Valid()
      modifies this
      ensures Valid() && (Pool(), off) == Alloc(old(Pool()), n)
    {
      if n == 0 { return 0; }
      var i := 0;
      while i < |free|
        invariant 0 <= i <= |free| && free == old(free) && next == old(next)
        invariant forall j :: 0 <= j < i ==> free[j].size < n
      {
        if free[i].size >= n {
          FirstFitIs(free, n, i);
          off := free[i].off;
          if free[i].size > n {
            free := free[i := Block(free[i].off + n, free[i].size - n)];
          } else {
            var last := |free| - 1;
            free := free[i := free[last]];
            free := free[..last];
          }
          return off;
        }
        i := i + 1;
      }
      FirstFitIs(free, n, i);
      off := next;
      next := next + n;
      if off + n > POOL { return 0; }
    }

    method FreeData(off: nat, size: nat)
      requires Valid()
      modifies this
      ensures Valid() && Pool() == Release(old(Pool()), off, size)
    {
      if off == 0 || size == 0 { return; }
      if |free| >= FREE_MAX { return; }
      free := free + [Block(off, size)];
    }

    /** Copies bytes into the pool. */
    method Fill(off: nat, data: seq<Byte>)
      requires Valid() && off + |data| <= POOL
      modifies pool
      ensures Valid() && Pool() == old(Pool()).(bytes := Overwritten(old(pool[..]), off, data))
    {
      var i := 0;
      while i < |data|
        invariant 0 <= i <= |data|
        invariant forall j :: 0 <= j < i ==> pool[off + j] == data[j]
        invariant forall j :: 0 <= j < off || off + i <= j < POOL ==> pool[j] == old(pool[j])
      {
        pool[off + i] := data[i];
        i := i + 1;
      }
      assert pool[..] == Overwritten(old(pool[..]), off, data);
    }

    method WriteFile(id: nat, data: seq<Byte>) returns (n: nat)
      requires Valid() && PoolInv(View())
      modifies this, pool, table.slots
      ensures Valid() && PoolInv(View()) && (View(), n) == Write(old(View()), id, data)
    {
      hide PoolInv, Alloc, Release;
      WriteKeepsInv(View(), id, data);
      var live, slot := table.FindSlot(id);
      if !live { return 0; }
      var d := Cropped(data);
      var node := table.slots[slot];
      ghost var s := View();
      Owned(s, id);
      if |d| == 0 {
        if node.cap > 0 { FreeData(node.off, node.cap); }
        table.SetDataFull(id, 0, 0, 0);
        NothingToRelease(s.pool, node.off);
        return 0;
      }
      if node.cap >= |d| {
        table.SetDataFull(id, node.off, |d|, node.cap);
        Fill(node.off, d);
        return |d|;
      }
      AllocSafe(s, |d|);
      var off := AllocData(|d|);
      if off == 0 { return 0; }
      NothingToRelease(Pool(), node.off);
      if node.cap > 0 { FreeData(node.off, node.cap); }
      table.SetDataFull(id, off, |d|, |d|);
      Fill(off, d);
      return |d|;
    }

    /** Copies bytes out of the pool into the first n places of buf. */
    method CopyOut(src: nat, n: nat, buf: array<Byte>)
      requires Valid() && src + n <= POOL && n <= buf.Length && buf != pool
      modifies buf
      ensures buf[..n] == pool[..][src..src + n] && buf[n..] == old(buf[n..])
    {
      var i := 0;
      while i < n
        invariant 0 <= i <= n
        invariant forall j :: 0 <= j < i ==> buf[j] == pool[src + j]
        invariant forall j :: n <= j < buf.Length ==> buf[j] == old(buf[j])
      {
        buf[i] := pool[src + i];
        i := i + 1;
      }
    }

    /** Reads into the first limit places of buf. */
    method ReadFile(id: nat, buf: array<Byte>, limit: nat) returns (n: nat)
      requires Valid() && PoolInv(View()) && limit <= buf.Length && buf != pool
      modifies buf
      ensures n == if limit <= |Contents(View(), id)| then limit else |Contents(View(), id)|
      ensures buf[..n] == Contents(View(), id)[..n] && buf[n..] == old(buf[n..])
    {
      hide PoolInv, Contents;
      NoContents(View(), id);
      var live, slot := table.FindSlot(id);
      if !live { return 0; }
      var node := table.slots[slot];
      Owned(View(), id);
      if node.size == 0 || node.off == 0 { return 0; }
      n := if node.size <= limit then node.size else limit;
      if n > 0 { PartOf(View(), id, 0, n); }
      CopyOut(node.off, n, buf);
    }

    method ReadFileAt(id: nat, offset: nat, buf: array<Byte>, limit: nat) returns (n: nat)
      requires Valid() && PoolInv(View()) && limit <= buf.Length && buf != pool
      modifies buf
      ensures var c := Contents(View(), id);
              && n == (if offset >= |c| then 0 else if |c| - offset <= limit then |c| - offset else limit)
              && (n > 0 ==> buf[..n] == c[offset..offset + n])
      ensures buf[n..] == old(buf[n..])
    {
      hide PoolInv, Contents;
      NoContents(View(), id);
      var live, slot := table.FindSlot(id);
      if !live { return 0; }
      var node := table.slots[slot];
      Owned(View(), id);
      if node.off == 0 || offset >= node.size { return 0; }
      n := if node.size - offset <= limit then node.size - offset else limit;
      if n > 0 { PartOf(View(), id, offset, n); }
      CopyOut(node.off + offset, n, buf);
    }

    method Unlink(parent: nat, name: seq<Byte>) returns (ok: bool)
      requires Valid() && PoolInv(View())
      modifies this, pool, table.slots
      ensures Valid() && PoolInv(View()) && (View(), ok) == Remove(old(View()), parent, name)
    {
      hide PoolInv, FsTree.Unlink, FsTree.Lookup;
      RemoveKeepsInv(View(), parent, name);
      table.Found(parent, name);
      var id := table.Lookup(parent, name);
      if id == 0 { return false; }
      var live, slot := table.FindSlot(id);
      var cap, off := table.slots[slot].cap, table.slots[slot].off;
      var gone := table.Unlink(parent, name);
      UnlinkFails(old(table.View()), parent, name);
      if !gone { return false; }
      NothingToRelease(Pool(), off);
      if cap > 0 { FreeData(off, cap); }
      return true;
    }
  }

  /** A piece of a file is a piece of the pool. */
  lemma PartOf(s: Ram, id: nat, o: nat, n: nat)
    requires PoolInv(s) && id in s.tree.nodes && o + n <= s.tree.nodes[id].size && n > 0
    ensures var a := s.tree.nodes[id].off + o;
            |Contents(s, id)| == s.tree.nodes[id].size && a + n <= |s.pool.bytes|
            && Contents(s, id)[o..o + n] == s.pool.bytes[a..a + n]
  {
    assert NodeClear(s.pool, s.tree.nodes, id);
    var c, v := Contents(s, id), s.tree.nodes[id];
    assert c == s.pool.bytes[v.off..v.off + v.size];
    hide *;
    var x, y := c[o..o + n], s.pool.bytes[v.off + o..v.off + o + n];
    forall i | 0 <= i < n ensures x[i] == y[i] {
      assert c[o + i] == s.pool.bytes[v.off + (o + i)];
    }
  }

  lemma UnlinkFails(t: Tree, parent: nat, name: seq<Byte>)
    ensures !Unlink(t, parent, name).1 ==> Unlink(t, parent, name).0 == t
  {
  }

  lemma NothingToRelease(p: Pool, off: nat)
    ensures Release(p, off, 0) == p
  {
  }

  lemma NoContents(s: Ram, id: nat)
    ensures id !in s.tree.nodes ==> Contents(s, id) == []
  {
  }

  lemma Owned(s: Ram, id: nat)
    requires PoolInv(s) && id in s.tree.nodes
    ensures var n := s.tree.nodes[id]; n.off + n.cap <= POOL && n.size <= n.cap && (n.off == 0 <==> n.size == 0) && n.size <= MAX_FILE_SIZE
    ensures |Contents(s, id)| == s.tree.nodes[id].size
  {
    assert NodeClear(s.pool, s.tree.nodes, id);
  }
}
