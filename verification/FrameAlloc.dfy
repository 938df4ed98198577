/** kernel/src/mem/frame_alloc.rs: the bitmap frame allocator. */
module FrameAlloc {
  import opened RawBytes

  const BITMAP_BYTES: nat := 8192
  const MAX_FRAMES: nat := 65536
  const PAGE_SIZE: nat := 4096
  /** Frames of the kernel image and its stack, [1 MiB, 16 MiB). */
  const KERNEL_FIRST: nat := 256
  const KERNEL_LAST: nat := 4096

  /** One flag per frame, set when it is in use or not usable. */
  type Frames = s: seq<bool> | |s| == MAX_FRAMES witness seq(MAX_FRAMES, _ => true)

  /** What the allocator knows: the bitmap, the running count and where to look next. */
  datatype State = State(bits: Frames, used: int, hint: nat)

  // ---- allocation, as values -----------------------------------------------------------------

  /** How far beyond hint the first free frame is, counting from i; MAX_FRAMES when there is none. */
  function Distance(bits: Frames, hint: nat, i: nat): (d: nat)
    requires i <= MAX_FRAMES
    ensures i <= d <= MAX_FRAMES
    ensures d < MAX_FRAMES ==> !bits[(hint + d) % MAX_FRAMES]
    decreases MAX_FRAMES - i
  {
    if i == MAX_FRAMES || !bits[(hint + i) % MAX_FRAMES] then i else Distance(bits, hint, i + 1)
  }

  function TakeOne(s: State): (State, nat)
  {
    var d := Distance(s.bits, s.hint, 0);
    if d == MAX_FRAMES then (s, 0)
    else
      var k := (s.hint + d) % MAX_FRAMES;
      (State(s.bits[k := true], s.used + 1, (k + 1) % MAX_FRAMES), k * PAGE_SIZE)
  }

  predicate RunAt(bits: Frames, k: nat, n: nat)
  {
    k + n <= MAX_FRAMES && forall j :: k <= j < k + n ==> !bits[j]
  }

  function Fill(bits: Frames, k: nat, n: nat): (r: Frames)
    requires k + n <= MAX_FRAMES
    ensures forall j :: 0 <= j < MAX_FRAMES ==> r[j] == (bits[j] || k <= j < k + n)
  {
    seq(MAX_FRAMES, j requires 0 <= j < MAX_FRAMES => bits[j] || k <= j < k + n)
  }

  /** The lowest run of n free frames that starts at k or above. */
  function LowestRun(bits: Frames, n: nat, k: nat): (r: nat)
    requires k <= MAX_FRAMES
    ensures k <= r <= MAX_FRAMES && (r < MAX_FRAMES ==> RunAt(bits, r, n))
    decreases MAX_FRAMES - k
  {
    if k == MAX_FRAMES || RunAt(bits, k, n) then k else LowestRun(bits, n, k + 1)
  }

  function TakeRun(s: State, n: nat): (State, nat)
  {
    if n == 0 then (s, 0)
    else
      var k := LowestRun(s.bits, n, 0);
      if k == MAX_FRAMES then (s, 0)
      else (State(Fill(s.bits, k, n), s.used + n, (k + n) % MAX_FRAMES), k * PAGE_SIZE)
  }

  function GiveBack(s: State, addr: nat): State
  {
    var k := addr / PAGE_SIZE;
    if k < MAX_FRAMES && s.bits[k] then
      State(s.bits[k := false], s.used - 1, if k < s.hint then k else s.hint)
    else s
  }

  // ---- what the searches find ----------------------------------------------------------------

  lemma {:induction false} DistanceSkips(bits: Frames, hint: nat, i: nat, j: nat)
    requires i <= MAX_FRAMES && i <= j < Distance(bits, hint, i)
    ensures bits[(hint + j) % MAX_FRAMES]
    decreases MAX_FRAMES - i
  {
    if i < j { DistanceSkips(bits, hint, i + 1, j); }
  }

  lemma DistanceStep(bits: Frames, hint: nat, i: nat)
    requires i < MAX_FRAMES
    ensures Distance(bits, hint, i) == if bits[(hint + i) % MAX_FRAMES] then Distance(bits, hint, i + 1) else i
  {
  }

  /** TakeOne fails exactly when no frame is free. */
  lemma AllocFails(s: State)
    requires s.hint < MAX_FRAMES
    ensures Distance(s.bits, s.hint, 0) == MAX_FRAMES <==> forall k :: 0 <= k < MAX_FRAMES ==> s.bits[k]
  {
    hide Distance;
    if Distance(s.bits, s.hint, 0) == MAX_FRAMES {
      forall k | 0 <= k < MAX_FRAMES ensures s.bits[k] {
        var j := if k >= s.hint then k - s.hint else k + MAX_FRAMES - s.hint;
        Wraps(s.hint, k, j);
        DistanceSkips(s.bits, s.hint, 0, j);
      }
    }
  }

  lemma Wraps(hint: nat, k: nat, j: nat)
    requires hint < MAX_FRAMES && k < MAX_FRAMES && j == if k >= hint then k - hint else k + MAX_FRAMES - hint
    ensures (hint + j) % MAX_FRAMES == k
  {
  }

  /** TakeRun takes the lowest run, and fails exactly when there is none. */
  lemma {:induction false} LowestRunIs(bits: Frames, n: nat, k: nat, j: nat)
    requires k <= j < MAX_FRAMES && RunAt(bits, j, n)
    ensures LowestRun(bits, n, k) <= j
    decreases MAX_FRAMES - k
  {
    if k < j && !RunAt(bits, k, n) { LowestRunIs(bits, n, k + 1, j); }
  }

  ghost predicate AllUsed(bits: Frames)
  {
    forall k :: 0 <= k < MAX_FRAMES ==> bits[k]
  }

  ghost predicate NoRunOf(bits: Frames, n: nat)
  {
    forall k :: 0 <= k < MAX_FRAMES ==> !RunAt(bits, k, n)
  }

  /** Some frame at or above the hint, below the wrap, is free. */
  ghost predicate FreeAbove(s: State)
  {
    exists k :: s.hint <= k < MAX_FRAMES && !s.bits[k]
  }

  /** Frame 0 is taken exactly when it is free and the search from the hint wraps around to it. */
  lemma TakesZero(s: State)
    requires s.hint < MAX_FRAMES
    ensures Distance(s.bits, s.hint, 0) < MAX_FRAMES && TakeOne(s).1 == 0 <==>
            !s.bits[0] && !(s.hint > 0 && FreeAbove(s))
  {
    hide Distance;
    var d := Distance(s.bits, s.hint, 0);
    var zero := if s.hint == 0 then 0 else MAX_FRAMES - s.hint;
    Wraps(s.hint, 0, zero);
    if s.hint + d < MAX_FRAMES { Wraps(s.hint, s.hint + d, d); }
    if s.hint + d >= MAX_FRAMES { NoneAbove(s); }
    if !s.bits[0] && d > zero { DistanceSkips(s.bits, s.hint, 0, zero); }
  }

  /** A search that goes past the last frame has found nothing from the hint up. */
  lemma NoneAbove(s: State)
    requires s.hint < MAX_FRAMES && s.hint + Distance(s.bits, s.hint, 0) >= MAX_FRAMES
    ensures !FreeAbove(s)
  {
    hide Distance;
    forall k | s.hint <= k < MAX_FRAMES ensures s.bits[k] {
      Wraps(s.hint, k, k - s.hint);
      DistanceSkips(s.bits, s.hint, 0, k - s.hint);
    }
  }

  /** Address 0 means that nothing was free exactly when frame 0 is in use, or a frame above a moved hint is free. */
  lemma ZeroMeansFullIff(s: State)
    requires s.hint < MAX_FRAMES
    ensures (TakeOne(s).1 == 0 <==> AllUsed(s.bits)) <==> s.bits[0] || (s.hint > 0 && FreeAbove(s))
  {
    hide Distance;
    AllocFails(s);
    TakesZero(s);
  }

  /** Address 0 means that there was no run exactly when no run of n starts at frame 0. */
  lemma ZeroMeansNoRunIff(s: State, n: nat)
    requires n > 0
    ensures (TakeRun(s, n).1 == 0 <==> NoRunOf(s.bits, n)) <==> !RunAt(s.bits, 0, n)
  {
    hide LowestRun, Fill;
    var r := LowestRun(s.bits, n, 0);
    if RunAt(s.bits, 0, n) { LowestRunIs(s.bits, n, 0, 0); }
    if r == MAX_FRAMES {
      forall k | 0 <= k < MAX_FRAMES ensures !RunAt(s.bits, k, n) {
        if RunAt(s.bits, k, n) { LowestRunIs(s.bits, n, 0, k); }
      }
    }
  }

  /** The lowest free frame at or above the hint is the one taken. */
  lemma TakesNext(s: State, k: nat)
    requires s.hint <= k < MAX_FRAMES && !s.bits[k] && forall j :: s.hint <= j < k ==> s.bits[j]
    ensures Distance(s.bits, s.hint, 0) == k - s.hint && TakeOne(s).1 == k * PAGE_SIZE
  {
    hide Distance;
    var d := Distance(s.bits, s.hint, 0);
    Wraps(s.hint, k, k - s.hint);
    if d > k - s.hint { DistanceSkips(s.bits, s.hint, 0, k - s.hint); }
    if s.hint + d < MAX_FRAMES { Wraps(s.hint, s.hint + d, d); }
  }

  /** A frame above a free one at or above the hint is not the next one taken. */
  lemma TakesEarlier(s: State, j: nat, k: nat)
    requires s.hint <= j < k < MAX_FRAMES && !s.bits[j]
    ensures TakeOne(s).1 != k * PAGE_SIZE
  {
    hide Distance;
    var d := Distance(s.bits, s.hint, 0);
    Wraps(s.hint, j, j - s.hint);
    if d > j - s.hint { DistanceSkips(s.bits, s.hint, 0, j - s.hint); }
    if s.hint + d < MAX_FRAMES { Wraps(s.hint, s.hint + d, d); }
  }

  /** The frame taken by alloc. */
  function Taken(s: State): nat
  {
    (s.hint + Distance(s.bits, s.hint, 0)) % MAX_FRAMES
  }

  /** The alloc after an alloc goes on above it: the first free frame there, if there is one. */
  lemma AllocAscends(s: State, f: nat)
    requires Distance(s.bits, s.hint, 0) < MAX_FRAMES && Taken(s) < f < MAX_FRAMES
    requires !s.bits[f] && forall j :: Taken(s) < j < f ==> s.bits[j]
    ensures TakeOne(s).1 == Taken(s) * PAGE_SIZE && TakeOne(TakeOne(s).0).1 == f * PAGE_SIZE
  {
    hide Distance;
    var k := Taken(s);
    Wraps(0, k + 1, k + 1);
    TakesNext(TakeOne(s).0, f);
  }

  /** The alloc after an alloc_contig goes on above the run. */
  lemma ContigAscends(s: State, n: nat, f: nat)
    requires n > 0 && LowestRun(s.bits, n, 0) < MAX_FRAMES && LowestRun(s.bits, n, 0) + n <= f < MAX_FRAMES
    requires !s.bits[f] && forall j :: LowestRun(s.bits, n, 0) + n <= j < f ==> s.bits[j]
    ensures TakeOne(TakeRun(s, n).0).1 == f * PAGE_SIZE
  {
    hide Distance, LowestRun, Fill;
    var e := LowestRun(s.bits, n, 0) + n;
    Wraps(0, e, e);
    TakesNext(TakeRun(s, n).0, f);
  }

  /** A frame given back is free again, and no other frame changes. */
  lemma GivenBack(s: State, addr: nat)
    requires s.hint < MAX_FRAMES
    ensures var u, k := GiveBack(s, addr), addr / PAGE_SIZE;
            && u.hint < MAX_FRAMES && (k < MAX_FRAMES ==> !u.bits[k])
            && forall j :: 0 <= j < MAX_FRAMES && j != k ==> u.bits[j] == s.bits[j]
  {
  }

  /** It is the next one granted exactly when it lies below the hint, or no frame from the hint up to it is free;
      taking it then undoes giving it back. */
  lemma GivenBackNext(s: State, k: nat)
    requires s.hint < MAX_FRAMES && k < MAX_FRAMES && s.bits[k]
    ensures var u := GiveBack(s, k * PAGE_SIZE);
            var next := k < s.hint || forall j :: s.hint <= j < k ==> s.bits[j];
            && Distance(u.bits, u.hint, 0) < MAX_FRAMES && (TakeOne(u).1 == k * PAGE_SIZE <==> next)
            && (next ==> TakeOne(u).0.bits == s.bits && TakeOne(u).0.used == s.used)
  {
    hide Distance;
    var u := GiveBack(s, k * PAGE_SIZE);
    assert k * PAGE_SIZE / PAGE_SIZE == k;
    assert !u.bits[k];
    AllocFails(u);
    if k < s.hint || forall j :: s.hint <= j < k ==> s.bits[j] {
      TakesNext(u, k);
      Wraps(u.hint, k, k - u.hint);
    } else {
      var j :| s.hint <= j < k && !s.bits[j];
      TakesEarlier(u, j, k);
    }
  }

  // ---- the count -----------------------------------------------------------------------------

  ghost function Population(bits: seq<bool>): nat
  {
    if bits == [] then 0 else (if bits[|bits| - 1] then 1 else 0) + Population(bits[..|bits| - 1])
  }

  lemma {:induction false} PopulationSet(bits: seq<bool>, k: nat)
    requires k < |bits|
    ensures Population(bits[k := true]) == Population(bits[k := false]) + 1
  {
    var last := |bits| - 1;
    if k < last {
      PopulationSet(bits[..last], k);
      assert bits[k := true][..last] == bits[..last][k := true];
      assert bits[k := false][..last] == bits[..last][k := false];
    } else {
      assert bits[k := true][..last] == bits[k := false][..last];
    }
  }

  lemma {:induction false} PopulationFill(bits: Frames, k: nat, n: nat)
    requires RunAt(bits, k, n)
    ensures Population(Fill(bits, k, n)) == Population(bits) + n
  {
    if n == 0 {
      assert Fill(bits, k, 0) == bits;
    } else {
      PopulationFill(bits, k, n - 1);
      var f, e := Fill(bits, k, n), k + n - 1;
      PopulationSet(f, e);
      assert f[e := true] == f;
      assert f[e := false] == Fill(bits, k, n - 1);
    }
  }

  ghost function Excess(s: State): int
  {
    s.used - Population(s.bits)
  }

  lemma AllocCount(s: State)
    ensures Excess(TakeOne(s).0) == Excess(s)
  {
    hide Population, Distance;
    var d := Distance(s.bits, s.hint, 0);
    if d < MAX_FRAMES { OneMore(s.bits, (s.hint + d) % MAX_FRAMES); }
  }

  lemma OneMore(bits: Frames, k: nat)
    requires k < MAX_FRAMES && !bits[k]
    ensures Population(bits[k := true]) == Population(bits) + 1
  {
    hide Population;
    PopulationSet(bits, k);
    assert bits[k := false] == bits;
  }

  lemma ContigCount(s: State, n: nat)
    ensures Excess(TakeRun(s, n).0) == Excess(s)
  {
    hide Population, Fill;
    if n > 0 && LowestRun(s.bits, n, 0) < MAX_FRAMES { PopulationFill(s.bits, LowestRun(s.bits, n, 0), n); }
  }

  lemma FreeCount(s: State, addr: nat)
    ensures Excess(GiveBack(s, addr)) == Excess(s)
  {
    hide Population;
    var k := addr / PAGE_SIZE;
    if k < MAX_FRAMES && s.bits[k] {
      PopulationSet(s.bits, k);
      assert s.bits[k := true] == s.bits;
    }
  }

  // ---- whole runs ----------------------------------------------------------------------------

  datatype Op = AllocOp | ContigOp(n: nat) | FreeOp(addr: nat)

  /** The allocator, and the frames its callers hold. */
  datatype World = World(s: State, held: set<nat>)

  predicate Within(addr: nat, n: nat, k: nat)
  {
    addr / PAGE_SIZE <= k < addr / PAGE_SIZE + n
  }

  /** The frames of n pages from addr on. */
  function Span(addr: nat, n: nat): set<nat>
  {
    set k: nat | k < addr / PAGE_SIZE + n && Within(addr, n, k)
  }

  /** A caller frees only a frame it holds. */
  predicate Allowed(w: World, op: Op)
  {
    op.FreeOp? ==> op.addr % PAGE_SIZE == 0 && op.addr / PAGE_SIZE in w.held
  }

  function Granted(w: World, op: Op): set<nat>
  {
    match op
    case AllocOp => if TakeOne(w.s).1 == 0 then {} else Span(TakeOne(w.s).1, 1)
    case ContigOp(n) => if TakeRun(w.s, n).1 == 0 then {} else Span(TakeRun(w.s, n).1, n)
    case FreeOp(addr) => {}
  }

  function Step(w: World, op: Op): World
  {
    match op
    case AllocOp => World(TakeOne(w.s).0, w.held + Granted(w, op))
    case ContigOp(n) => World(TakeRun(w.s, n).0, w.held + Granted(w, op))
    case FreeOp(addr) => World(GiveBack(w.s, addr), w.held - {addr / PAGE_SIZE})
  }

  predicate Kernel(k: nat)
  {
    KERNEL_FIRST <= k < KERNEL_LAST
  }

  /** Held frames are marked, and neither frame 0 nor a kernel frame is ever free or held. */
  ghost predicate Safe(w: World)
  {
    && w.s.hint < MAX_FRAMES && w.s.bits[0] && 0 !in w.held
    && (forall k :: 0 <= k < MAX_FRAMES && Kernel(k) ==> w.s.bits[k] && k !in w.held)
    && (forall k :: k in w.held ==> k < MAX_FRAMES && w.s.bits[k])
  }

  lemma AllocGrants(w: World)
    requires Safe(w)
    ensures Safe(Step(w, AllocOp)) && Granted(w, AllocOp) !! w.held
    ensures forall k :: k in Granted(w, AllocOp) ==> !Kernel(k) && k != 0
  {
    hide Distance;
    var d := Distance(w.s.bits, w.s.hint, 0);
    if d < MAX_FRAMES {
      var k := (w.s.hint + d) % MAX_FRAMES;
      OneFrame(k);
      assert k != 0 && Step(w, AllocOp) == World(State(w.s.bits[k := true], w.s.used + 1, (k + 1) % MAX_FRAMES), w.held + {k});
    }
  }

  lemma OneFrame(k: nat)
    ensures Span(k * PAGE_SIZE, 1) == {k}
  {
    assert k * PAGE_SIZE / PAGE_SIZE == k;
    assert forall j: nat :: j in Span(k * PAGE_SIZE, 1) <==> Within(k * PAGE_SIZE, 1, j);
  }

  lemma ContigGrants(w: World, n: nat)
    requires Safe(w)
    ensures Safe(Step(w, ContigOp(n))) && Granted(w, ContigOp(n)) !! w.held
    ensures forall k :: k in Granted(w, ContigOp(n)) ==> !Kernel(k) && k != 0
  {
    var r := LowestRun(w.s.bits, n, 0);
    hide LowestRun;
    if n > 0 && r < MAX_FRAMES {
      assert r * PAGE_SIZE / PAGE_SIZE == r;
      assert r != 0;
    }
  }

  lemma FreeSafe(w: World, addr: nat)
    requires Safe(w) && Allowed(w, FreeOp(addr))
    ensures Safe(Step(w, FreeOp(addr)))
  {
  }

  /** No frame is given out twice, none of the kernel's ever, and the count keeps step with the bitmap. */
  lemma StepSafe(w: World, op: Op)
    requires Safe(w) && Allowed(w, op)
    ensures Safe(Step(w, op)) && Granted(w, op) !! w.held
    ensures forall k :: k in Granted(w, op) ==> !Kernel(k) && k != 0
    ensures Excess(Step(w, op).s) == Excess(w.s)
  {
    hide Safe, Excess, TakeOne, TakeRun, GiveBack;
    match op
    case AllocOp =>
      AllocGrants(w);
      AllocCount(w.s);
    case ContigOp(n) =>
      ContigGrants(w, n);
      ContigCount(w.s, n);
    case FreeOp(addr) =>
      FreeSafe(w, addr);
      FreeCount(w.s, addr);
  }

  ghost predicate Run(ws: seq<World>, ops: seq<Op>)
  {
    |ws| == |ops| + 1 && forall i :: 0 <= i < |ops| ==> Allowed(ws[i], ops[i]) && ws[i + 1] == Step(ws[i], ops[i])
  }

  lemma {:induction false} RunSafe(ws: seq<World>, ops: seq<Op>, k: nat)
    requires Run(ws, ops) && Safe(ws[0]) && k <= |ops|
    ensures Safe(ws[k]) && Excess(ws[k].s) == Excess(ws[0].s)
    ensures k < |ops| ==> Granted(ws[k], ops[k]) !! ws[k].held
  {
    hide Safe, Excess, Granted, Step;
    if k > 0 {
      RunSafe(ws, ops, k - 1);
      assert ws[k - 1 + 1] == Step(ws[k - 1], ops[k - 1]);
      StepSafe(ws[k - 1], ops[k - 1]);
    }
    if k < |ops| { StepSafe(ws[k], ops[k]); }
  }

  // ---- the bitmap ----------------------------------------------------------------------------

  predicate Single(m: Byte)
  {
    m != 0 && m & (m - 1) == 0
  }

  lemma OrMask(b: Byte, m: Byte, w: Byte)
    requires Single(m) && Single(w)
    ensures (b | m) & w != 0 <==> m == w || b & w != 0
  {
  }

  lemma AndMask(b: Byte, m: Byte, w: Byte)
    requires Single(m) && Single(w)
    ensures (b & !m) & w != 0 <==> m != w && b & w != 0
  {
  }

  lemma MasksDiffer(i: nat, j: nat)
    requires i < 8 && j < 8
    ensures (Mask(i) == Mask(j) <==> i == j) && Single(Mask(i)) && Single(Mask(j))
  {
  }

  lemma SetBits(b: Byte, i: nat, j: nat)
    requires i < 8 && j < 8
    ensures BitOf(b | Mask(i), j) <==> i == j || BitOf(b, j)
  {
    hide Mask, Single;
    MasksDiffer(i, j);
    OrMask(b, Mask(i), Mask(j));
  }

  lemma ClearBits(b: Byte, i: nat, j: nat)
    requires i < 8 && j < 8
    ensures BitOf(b & !Mask(i), j) <==> i != j && BitOf(b, j)
  {
    hide Mask, Single;
    MasksDiffer(i, j);
    AndMask(b, Mask(i), Mask(j));
  }

  ghost function Flags(bytes: seq<Byte>): Frames
    requires |bytes| == BITMAP_BYTES
  {
    seq(MAX_FRAMES, k requires 0 <= k < MAX_FRAMES => BitOf(bytes[k / 8], k % 8))
  }

  lemma SameFrame(j: nat, k: nat)
    ensures j == k <==> j / 8 == k / 8 && j % 8 == k % 8
  {
  }

  lemma FlagAt(bytes: seq<Byte>, j: nat)
    requires |bytes| == BITMAP_BYTES && j < MAX_FRAMES
    ensures Flags(bytes)[j] == BitOf(bytes[j / 8], j % 8)
  {
    hide BitOf;
  }

  /** Changing one bit of one byte changes one flag. */
  lemma FlagsUpdate(bytes: seq<Byte>, k: nat, b: Byte, v: bool)
    requires |bytes| == BITMAP_BYTES && k < MAX_FRAMES
    requires forall j :: 0 <= j < 8 ==> BitOf(b, j) == if j == k % 8 then v else BitOf(bytes[k / 8], j)
    ensures Flags(bytes[k / 8 := b]) == Flags(bytes)[k := v]
  {
    hide BitOf, Flags;
    var u := bytes[k / 8 := b];
    forall j | 0 <= j < MAX_FRAMES ensures Flags(u)[j] == Flags(bytes)[k := v][j] {
      FlagAt(bytes, j);
      FlagAt(u, j);
      SameFrame(j, k);
      assert u[j / 8] == if j / 8 == k / 8 then b else bytes[j / 8];
    }
  }

  lemma FlagsSet(bytes: seq<Byte>, k: nat)
    requires |bytes| == BITMAP_BYTES && k < MAX_FRAMES
    ensures Flags(bytes[k / 8 := bytes[k / 8] | Mask(k % 8)]) == Flags(bytes)[k := true]
  {
    hide BitOf, Mask, Flags;
    var b := bytes[k / 8] | Mask(k % 8);
    forall j | 0 <= j < 8 ensures BitOf(b, j) == if j == k % 8 then true else BitOf(bytes[k / 8], j) {
      SetBits(bytes[k / 8], k % 8, j);
    }
    FlagsUpdate(bytes, k, b, true);
  }

  lemma FlagsCleared(bytes: seq<Byte>, k: nat)
    requires |bytes| == BITMAP_BYTES && k < MAX_FRAMES
    ensures Flags(bytes[k / 8 := bytes[k / 8] & !Mask(k % 8)]) == Flags(bytes)[k := false]
  {
    hide BitOf, Mask, Flags;
    var b := bytes[k / 8] & !Mask(k % 8);
    forall j | 0 <= j < 8 ensures BitOf(b, j) == if j == k % 8 then false else BitOf(bytes[k / 8], j) {
      ClearBits(bytes[k / 8], k % 8, j);
    }
    FlagsUpdate(bytes, k, b, false);
  }

  /** A region of the firmware's memory map. */
  datatype Region = Region(start: nat, pages: nat, usable: bool)

  predicate Covers(r: Region, k: nat)
  {
    r.usable && r.start / PAGE_SIZE <= k < r.start / PAGE_SIZE + r.pages
  }

  /** Some usable region of the map holds the frame. */
  predicate Usable(rs: seq<Region>, k: nat)
  {
    rs != [] && (Usable(rs[..|rs| - 1], k) || Covers(rs[|rs| - 1], k))
  }

  lemma AllSet(bytes: seq<Byte>)
    requires |bytes| == BITMAP_BYTES && forall i :: 0 <= i < |bytes| ==> bytes[i] == 0xff
    ensures forall k :: 0 <= k < MAX_FRAMES ==> Flags(bytes)[k]
  {
    forall k | 0 <= k < MAX_FRAMES ensures Flags(bytes)[k] { FullByte(k % 8); }
  }

  lemma FullByte(j: nat)
    requires j < 8
    ensures BitOf(0xff, j)
  {
  }

  /** No run of n ends at or before i, and exactly the last run frames before i are free. */
  ghost predicate Scanned(bits: Frames, n: nat, i: nat, run: nat)
  {
    && run <= i <= MAX_FRAMES
    && (forall k :: 0 <= k && k + n <= i ==> !RunAt(bits, k, n))
    && (forall j :: i - run <= j < i ==> !bits[j])
    && (run < i ==> bits[i - run - 1])
  }

  lemma ScanOne(bits: Frames, n: nat, i: nat, run: nat)
    requires Scanned(bits, n, i, run) && i < MAX_FRAMES && run < n
    ensures bits[i] ==> Scanned(bits, n, i + 1, 0)
    ensures !bits[i] && run + 1 < n ==> Scanned(bits, n, i + 1, run + 1)
    ensures !bits[i] && run + 1 == n ==> RunAt(bits, i + 1 - n, n) && LowestRun(bits, n, 0) == i + 1 - n
  {
    hide LowestRun;
    forall k | 0 <= k && k + n == i + 1 && (bits[i] || run + 1 < n) ensures !RunAt(bits, k, n) {
      assert bits[if bits[i] then i else i - run - 1];
    }
    if !bits[i] && run + 1 == n {
      LowestRunIs(bits, n, 0, i + 1 - n);
    }
  }

  lemma NoRun(bits: Frames, n: nat, run: nat)
    requires Scanned(bits, n, MAX_FRAMES, run) && n > 0
    ensures LowestRun(bits, n, 0) == MAX_FRAMES
  {
    hide LowestRun;
  }

  class Allocator {
    const bitmap: array<Byte>
    var used: int
    var usable: nat
    var hint: nat

    ghost predicate Valid()
      reads this
    {
      bitmap.Length == BITMAP_BYTES && hint < MAX_FRAMES
    }

    ghost function Bits(): Frames
      requires Valid()
      reads this, bitmap
    {
      Flags(bitmap[..])
    }

    ghost function View(): State
      requires Valid()
      reads this, bitmap
    {
      State(Bits(), used, hint)
    }

    constructor ()
      ensures Valid() && hint == 0 && usable == 0 && fresh(bitmap)
    {
      bitmap := new Byte[BITMAP_BYTES](_ => 0);
      used, usable, hint := 0, 0, 0;
    }

    /** Marks every frame used. */
    method FillAll()
      requires Valid()
      modifies bitmap
      ensures Valid() && forall k :: 0 <= k < MAX_FRAMES ==> Bits()[k]
    {
      var i := 0;
      while i < BITMAP_BYTES
        invariant 0 <= i <= BITMAP_BYTES && forall j :: 0 <= j < i ==> bitmap[j] == 0xff
      {
        bitmap[i] := 0xff;
        i := i + 1;
      }
      AllSet(bitmap[..]);
    }

    /** Frees the frames of one region. */
    method AddRegion(r: Region)
      requires Valid()
      modifies `usable, bitmap
      ensures Valid() && forall k :: 0 <= k < MAX_FRAMES ==> Bits()[k] == (old(Bits())[k] && !Covers(r, k))
    {
      hide Flags;
      if !r.usable { return; }
      ghost var bits := Bits();
      var first := r.start / PAGE_SIZE;
      var j := 0;
      while j < r.pages
        invariant 0 <= j <= r.pages && Valid()
        invariant forall k :: 0 <= k < MAX_FRAMES ==> Bits()[k] == (bits[k] && !(first <= k < first + j))
      {
        if first + j < MAX_FRAMES {
          ClearBit(first + j);
          usable := usable + 1;
        }
        j := j + 1;
      }
    }

    /** Everything used but the usable regions, and the kernel's span used again. */
    method Init(regions: seq<Region>)
      requires Valid()
      modifies this, bitmap
      ensures Valid() && hint == old(hint) && used == MAX_FRAMES - usable
      ensures forall k :: 0 <= k < MAX_FRAMES ==> Bits()[k] == (Kernel(k) || !Usable(regions, k))
    {
      hide Flags;
      FillAll();
      var i := 0;
      while i < |regions|
        invariant 0 <= i <= |regions| && Valid() && hint == old(hint)
        invariant forall k :: 0 <= k < MAX_FRAMES ==> Bits()[k] == !Usable(regions[..i], k)
      {
        assert regions[..i + 1][..i] == regions[..i];
        AddRegion(regions[i]);
        i := i + 1;
      }
      assert regions[..|regions|] == regions;
      Mark(KERNEL_FIRST, KERNEL_LAST - KERNEL_FIRST);
      used := MAX_FRAMES - usable;
    }

    /** After Init the callers hold nothing, and the kernel's frames are out of reach. */
    lemma InitSafe(regions: seq<Region>)
      requires Valid() && !Usable(regions, 0)
      requires forall k :: 0 <= k < MAX_FRAMES ==> Bits()[k] == (Kernel(k) || !Usable(regions, k))
      ensures Safe(World(View(), {}))
    {
      hide Flags;
    }

    method TestBit(k: nat) returns (r: bool)
      requires Valid() && k < MAX_FRAMES
      ensures r == Bits()[k]
    {
      return BitOf(bitmap[k / 8], k % 8);
    }

    method SetBit(k: nat)
      requires Valid() && k < MAX_FRAMES
      modifies bitmap
      ensures Valid() && Bits() == old(Bits())[k := true]
    {
      hide Mask, Flags;
      FlagsSet(bitmap[..], k);
      ghost var was := bitmap[..];
      bitmap[k / 8] := bitmap[k / 8] | Mask(k % 8);
      assert bitmap[..] == was[k / 8 := was[k / 8] | Mask(k % 8)];
    }

    method ClearBit(k: nat)
      requires Valid() && k < MAX_FRAMES
      modifies bitmap
      ensures Valid() && Bits() == old(Bits())[k := false]
    {
      hide Mask, Flags;
      FlagsCleared(bitmap[..], k);
      ghost var was := bitmap[..];
      bitmap[k / 8] := bitmap[k / 8] & !Mask(k % 8);
      assert bitmap[..] == was[k / 8 := was[k / 8] & !Mask(k % 8)];
    }

    method Alloc() returns (addr: nat)
      requires Valid()
      modifies this, bitmap
      ensures Valid() && (View(), addr) == TakeOne(old(View()))
    {
      hide Flags, Distance;
      var start := hint;
      var i: nat := 0;
      ghost var bits := Bits();
      while i < MAX_FRAMES
        invariant 0 <= i <= MAX_FRAMES && Valid() && View() == old(View())
        invariant Distance(bits, start, 0) == Distance(bits, start, i)
      {
        DistanceStep(bits, start, i);
        var k := (start + i) % MAX_FRAMES;
        var taken := TestBit(k);
        if !taken {
          SetBit(k);
          used := used + 1;
          hint := (k + 1) % MAX_FRAMES;
          return k * PAGE_SIZE;
        }
        i := i + 1;
      }
      return 0;
    }

    /** Sets n bits from start on. */
    method Mark(start: nat, n: nat)
      requires Valid() && start + n <= MAX_FRAMES
      modifies bitmap
      ensures Valid() && Bits() == Fill(old(Bits()), start, n)
    {
      hide Flags;
      ghost var bits := Bits();
      var j := 0;
      while j < n
        invariant 0 <= j <= n && Valid() && Bits() == Fill(bits, start, j)
      {
        SetBit(start + j);
        j := j + 1;
      }
    }

    method AllocContig(n: nat) returns (addr: nat)
      requires Valid()
      modifies this, bitmap
      ensures Valid() && (View(), addr) == TakeRun(old(View()), n)
    {
      hide Flags, LowestRun, Fill;
      if n == 0 { return 0; }
      ghost var bits := Bits();
      var run, start, i: nat := 0, 0, 0;
      while i < MAX_FRAMES
        invariant 0 <= i <= MAX_FRAMES && Valid() && View() == old(View()) && 0 <= run <= i && run < n
        invariant run > 0 ==> start == i - run
        invariant Scanned(bits, n, i, run)
      {
        hide Scanned;
        var taken := TestBit(i);
        ScanOne(bits, n, i, run);
        if !taken {
          if run == 0 { start := i; }
          run := run + 1;
          if run == n {
            Mark(start, n);
            used := used + n;
            hint := (start + n) % MAX_FRAMES;
            return start * PAGE_SIZE;
          }
        } else {
          run := 0;
        }
        i := i + 1;
      }
      NoRun(bits, n, run);
      return 0;
    }

    method Free(addr: nat)
      requires Valid()
      modifies this, bitmap
      ensures Valid() && View() == GiveBack(old(View()), addr)
    {
      hide Flags;
      var k := addr / PAGE_SIZE;
      if k < MAX_FRAMES {
        var taken := TestBit(k);
        if taken {
          ClearBit(k);
          used := used - 1;
          if k < hint { hint := k; }
        }
      }
    }
  }
}
