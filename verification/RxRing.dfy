/** kernel/src/net/e1000.rs:253-309 and 371-408: the receive ring, driver and card interleaved step by step. */
module RxRing {
  import opened RawBytes

  const RX_DESC: nat := 8
  const BUF_SIZE: nat := 2048

  type Frame = seq<Byte>

  datatype Descriptor = Descriptor(done: bool, len: nat)

  /** Where recv_frame is between two of its loads and stores; capacity is the caller's buffer. */
  datatype Phase =
    | Idle
    | Loaded(capacity: nat, cur: nat)
    | Status(capacity: nat, cur: nat, done: bool)
    | Length(capacity: nat, cur: nat, done: bool, len: nat)
    | Copying(capacity: nat, cur: nat, n: nat, out: Frame)
    | Cleared(capacity: nat, cur: nat, out: Frame)
    | Moved(capacity: nat, cur: nat, out: Frame)

  datatype Delivery = Delivery(capacity: nat, bytes: Frame)

  /** Descriptor memory, buffers, registers and the driver; arrived and delivered are what has happened. */
  datatype Ring = Ring(desc: seq<Descriptor>, bufs: seq<Frame>, rdh: nat, rdt: nat, rxCur: nat, phase: Phase,
                       arrived: seq<Frame>, delivered: seq<Delivery>)

  /** The ring as rings_init leaves it, whatever the buffers hold. */
  ghost predicate Initial(r: Ring)
  {
    && r.desc == seq(RX_DESC, _ => Descriptor(false, 0))
    && |r.bufs| == RX_DESC && (forall k :: 0 <= k < RX_DESC ==> |r.bufs[k]| == BUF_SIZE)
    && r.rdh == 0 && r.rdt == RX_DESC - 1 && r.rxCur == 0 && r.phase == Idle && r.arrived == [] && r.delivered == []
  }

  // ---- steps ---------------------------------------------------------------------------------

  /** The card may use the descriptors from RDH up to, not including, RDT. */
  predicate CardOwns(r: Ring, k: nat)
  {
    k < RX_DESC && (k + RX_DESC - r.rdh) % RX_DESC < (r.rdt + RX_DESC - r.rdh) % RX_DESC
  }

  datatype Step = CardWrite(k: nat, i: nat, b: Byte) | CardDone(len: nat) | Call(capacity: nat) | Driver

  predicate Shaped(r: Ring)
  {
    && |r.desc| == RX_DESC && |r.bufs| == RX_DESC && (forall k :: 0 <= k < RX_DESC ==> |r.bufs[k]| == BUF_SIZE)
    && r.rdh < RX_DESC && r.rdt < RX_DESC && r.rxCur < RX_DESC
    && (!r.phase.Idle? ==> r.phase.cur < RX_DESC)
    && (r.phase.Copying? ==> r.phase.n <= BUF_SIZE && |r.phase.out| <= r.phase.n)
    && (r.phase.Length? && r.phase.done ==> r.phase.len <= BUF_SIZE)
  }

  predicate Enabled(r: Ring, s: Step)
  {
    match s
    case CardWrite(k, i, b) => CardOwns(r, k) && i < BUF_SIZE
    case CardDone(len) => CardOwns(r, r.rdh) && len <= BUF_SIZE
    case Call(capacity) => r.phase.Idle?
    case Driver => !r.phase.Idle?
  }

  function Min(a: nat, b: nat): nat
  {
    if a < b then a else b
  }

  /** The next load or store of recv_frame. */
  function DriverStep(r: Ring): Ring
    requires Shaped(r) && !r.phase.Idle?
  {
    match r.phase
    case Loaded(c, k) => r.(phase := Status(c, k, r.desc[k].done))
    case Status(c, k, done) => r.(phase := Length(c, k, done, r.desc[k].len))
    case Length(c, k, done, len) => r.(phase := if done then Copying(c, k, Min(len, c), []) else Idle)
    case Copying(c, k, n, out) =>
      if |out| < n then r.(phase := Copying(c, k, n, out + [r.bufs[k][|out|]]))
      else r.(desc := r.desc[k := r.desc[k].(done := false)], phase := Cleared(c, k, out))
    case Cleared(c, k, out) => r.(rxCur := (k + 1) % RX_DESC, phase := Moved(c, k, out))
    case Moved(c, k, out) => r.(rdt := k, phase := Idle, delivered := r.delivered + [Delivery(c, out)])
  }

  function Next(r: Ring, s: Step): Ring
    requires Shaped(r) && Enabled(r, s)
  {
    match s
    case CardWrite(k, i, b) => r.(bufs := r.bufs[k := r.bufs[k][i := b]])
    case CardDone(len) =>
      r.(desc := r.desc[r.rdh := Descriptor(true, len)], rdh := (r.rdh + 1) % RX_DESC,
         arrived := r.arrived + [r.bufs[r.rdh][..len]])
    case Call(capacity) => r.(phase := Loaded(capacity, r.rxCur))
    case Driver => DriverStep(r)
  }

  // ---- the invariant -------------------------------------------------------------------------

  /** Frame i waits in its slot, whole. */
  ghost predicate Waiting(r: Ring, i: nat)
    requires Shaped(r) && i < |r.arrived|
  {
    var k, f := i % RX_DESC, r.arrived[i];
    && r.desc[k].len == |f| <= BUF_SIZE && r.bufs[k][..|f|] == f
    && r.desc[k].done == !(i == |r.delivered| && (r.phase.Cleared? || r.phase.Moved?))
  }

  ghost predicate Empty(r: Ring, i: nat)
    requires Shaped(r)
  {
    !r.desc[i % RX_DESC].done
  }

  function Crop(f: Frame, capacity: nat): Frame
  {
    f[..Min(|f|, capacity)]
  }

  ghost predicate PhaseOk(r: Ring)
  {
    var t := |r.delivered|;
    && (!r.phase.Idle? ==> r.phase.cur == t % RX_DESC)
    && (((r.phase.Status? || r.phase.Length?) && r.phase.done) || r.phase.Copying? || r.phase.Cleared? || r.phase.Moved?
        ==> t < |r.arrived|)
    && (r.phase.Length? && r.phase.done ==> r.phase.len == |r.arrived[t]|)
    && (r.phase.Copying? ==>
          r.phase.n == Min(|r.arrived[t]|, r.phase.capacity) && r.phase.out <= r.arrived[t])
    && (r.phase.Cleared? || r.phase.Moved? ==> r.phase.out == Crop(r.arrived[t], r.phase.capacity))
  }

  ghost predicate Inv(r: Ring)
  {
    var a, t := |r.arrived|, |r.delivered|;
    && Shaped(r) && t <= a <= t + 7
    && r.rdh == a % RX_DESC && r.rdt == (t + 7) % RX_DESC
    && r.rxCur == (if r.phase.Moved? then t + 1 else t) % RX_DESC
    && (r.phase.Copying? ==> t < a && |r.phase.out| <= r.phase.n <= |r.arrived[t]|)
    && PhaseOk(r)
    && (forall i :: t <= i < a ==> Waiting(r, i))
    && (forall i :: a <= i < t + 8 ==> Empty(r, i))
    && (forall i :: 0 <= i < t ==> r.delivered[i].bytes == Crop(r.arrived[i], r.delivered[i].capacity))
  }

  lemma InitialInv(r: Ring)
    requires Initial(r)
    ensures Inv(r)
  {
  }

  /** A slot the card owns is that of a frame still to arrive, less than seven ahead of the driver. */
  lemma OwnedSlot(r: Ring, k: nat) returns (i: nat)
    requires |r.delivered| <= |r.arrived| <= |r.delivered| + 7
    requires r.rdh == |r.arrived| % RX_DESC && r.rdt == (|r.delivered| + 7) % RX_DESC && CardOwns(r, k)
    ensures |r.arrived| <= i < |r.delivered| + 7 && i % RX_DESC == k
  {
    var a, t := |r.arrived|, |r.delivered|;
    i := a + (k + RX_DESC - r.rdh) % RX_DESC;
    Around(a, t, k);
  }

  lemma Around(a: nat, t: nat, k: nat)
    requires t <= a <= t + 7 && k < RX_DESC
    ensures ((t + 7) % RX_DESC + RX_DESC - a % RX_DESC) % RX_DESC == t + 7 - a
    ensures (a + (k + RX_DESC - a % RX_DESC) % RX_DESC) % RX_DESC == k
  {
    var d := (k + RX_DESC - a % RX_DESC) % RX_DESC;
    assert a % RX_DESC + d == k || a % RX_DESC + d == k + RX_DESC;
  }

  lemma OtherSlot(t: nat, i: nat)
    requires t < i < t + 8
    ensures i % RX_DESC != t % RX_DESC
  {
  }

  lemma Neighbours(t: nat)
    ensures (t % RX_DESC + RX_DESC - 1) % RX_DESC == (t + 7) % RX_DESC && (t % RX_DESC + 1) % RX_DESC == (t + 1) % RX_DESC
    ensures (t + 1 + 7) % RX_DESC == t % RX_DESC
  {
  }

  /** In every reachable state the registers agree, and the driver only handles slots the card does not own. */
  lemma Safety(r: Ring)
    requires Inv(r)
    ensures r.phase.Idle? ==> r.rdt == (r.rxCur + RX_DESC - 1) % RX_DESC
    ensures r.phase.Copying? || r.phase.Cleared? || r.phase.Moved? ==> !CardOwns(r, r.phase.cur)
  {
    hide Waiting, Empty, CardOwns, Shaped;
    Neighbours(|r.delivered|);
    if (r.phase.Copying? || r.phase.Cleared? || r.phase.Moved?) && CardOwns(r, r.phase.cur) {
      var i := OwnedSlot(r, r.phase.cur);
      OtherSlot(|r.delivered|, i);
    }
  }

  // ---- every step keeps it -------------------------------------------------------------------

  lemma WriteKeeps(r: Ring, k: nat, i: nat, b: Byte)
    requires Inv(r) && CardOwns(r, k) && i < BUF_SIZE
    ensures Inv(Next(r, CardWrite(k, i, b)))
  {
    var j := OwnedSlot(r, k);
    var u := Next(r, CardWrite(k, i, b));
    var a, t := |r.arrived|, |r.delivered|;
    forall m | t <= m < a ensures Waiting(u, m) {
      assert Waiting(r, m);
      OtherSlot(m, j);
    }
    forall m | a <= m < t + 8 ensures Empty(u, m) { assert Empty(r, m); }
    hide Waiting, Empty;
  }

  lemma DoneKeeps(r: Ring, len: nat)
    requires Inv(r) && CardOwns(r, r.rdh) && len <= BUF_SIZE
    ensures Inv(Next(r, CardDone(len)))
  {
    var j := OwnedSlot(r, r.rdh);
    var u := Next(r, CardDone(len));
    var a, t := |r.arrived|, |r.delivered|;
    assert Empty(r, a);
    Neighbours(a);
    forall m | t <= m < a + 1 ensures Waiting(u, m) {
      if m < a {
        assert Waiting(r, m);
        OtherSlot(m, a);
      }
    }
    forall m | a + 1 <= m < t + 8 ensures Empty(u, m) {
      assert Empty(r, m);
      OtherSlot(a, m);
    }
    hide Waiting, Empty, CardOwns;
  }

  /** A driver step that touches neither descriptors nor registers. */
  lemma QuietKeeps(r: Ring, phase: Phase)
    requires Inv(r) && !r.phase.Cleared? && !r.phase.Moved? && !phase.Cleared? && !phase.Moved?
    requires Shaped(r.(phase := phase)) && PhaseOk(r.(phase := phase))
    requires phase.Copying? ==> |r.delivered| < |r.arrived| && |phase.out| <= phase.n <= |r.arrived[|r.delivered|]|
    ensures Inv(r.(phase := phase))
  {
    var u := r.(phase := phase);
    forall m | |r.delivered| <= m < |r.arrived| ensures Waiting(u, m) { assert Waiting(r, m); }
    forall m | |r.arrived| <= m < |r.delivered| + 8 ensures Empty(u, m) { assert Empty(r, m); }
    hide Waiting, Empty, PhaseOk, Shaped;
  }

  lemma CallKeeps(r: Ring, capacity: nat)
    requires Inv(r) && r.phase.Idle?
    ensures Inv(Next(r, Call(capacity)))
  {
    QuietKeeps(r, Loaded(capacity, r.rxCur));
  }

  /** Reading status, length or a byte. */
  lemma ReadKeeps(r: Ring)
    requires Inv(r) && (r.phase.Loaded? || r.phase.Status? || r.phase.Length? || (r.phase.Copying? && |r.phase.out| < r.phase.n))
    ensures Inv(DriverStep(r))
  {
    var t := |r.delivered|;
    if t < |r.arrived| { assert Waiting(r, t); } else { assert Empty(r, t); }
    QuietKeeps(r, DriverStep(r).phase);
  }

  /** recv_frame comes back empty-handed only when no frame was waiting as it read the status. */
  lemma NoneMeansNothing(r: Ring)
    requires Inv(r) && r.phase.Loaded?
    ensures DriverStep(r).phase.done <==> |r.delivered| < |r.arrived|
  {
    var t := |r.delivered|;
    if t < |r.arrived| { assert Waiting(r, t); } else { assert Empty(r, t); }
  }

  lemma ClearKeeps(r: Ring)
    requires Inv(r) && r.phase.Copying? && |r.phase.out| == r.phase.n
    ensures Inv(DriverStep(r))
  {
    var u := DriverStep(r);
    var a, t := |r.arrived|, |r.delivered|;
    forall m | t <= m < a ensures Waiting(u, m) {
      assert Waiting(r, m);
      if m > t { OtherSlot(t, m); }
    }
    forall m | a <= m < t + 8 ensures Empty(u, m) {
      assert Empty(r, m);
      OtherSlot(t, m);
    }
    hide Waiting, Empty;
  }

  lemma MoveKeeps(r: Ring)
    requires Inv(r) && r.phase.Cleared?
    ensures Inv(DriverStep(r))
  {
    var u := DriverStep(r);
    forall m | |r.delivered| <= m < |r.arrived| ensures Waiting(u, m) { assert Waiting(r, m); }
    forall m | |r.arrived| <= m < |r.delivered| + 8 ensures Empty(u, m) { assert Empty(r, m); }
    Neighbours(|r.delivered|);
    hide Waiting, Empty;
  }

  lemma ReturnKeeps(r: Ring)
    requires Inv(r) && r.phase.Moved?
    ensures Inv(DriverStep(r))
  {
    var u := DriverStep(r);
    var a, t := |r.arrived|, |r.delivered|;
    Neighbours(t);
    hide Waiting, Empty;
    forall m | t + 1 <= m < a ensures Waiting(u, m) { StillWaiting(r, m); }
    forall m | a <= m < t + 9 ensures Empty(u, m) { StillEmpty(r, m); }
  }

  lemma StillWaiting(r: Ring, m: nat)
    requires Inv(r) && r.phase.Moved? && |r.delivered| < m < |r.arrived|
    ensures Shaped(DriverStep(r)) && Waiting(DriverStep(r), m)
  {
    assert Waiting(r, m);
  }

  lemma StillEmpty(r: Ring, m: nat)
    requires Inv(r) && r.phase.Moved? && |r.arrived| <= m < |r.delivered| + 9
    ensures Shaped(DriverStep(r)) && Empty(DriverStep(r), m)
  {
    hide Crop;
    var t := |r.delivered|;
    assert DriverStep(r).desc == r.desc;
    if m < t + 8 {
      assert Empty(r, m);
    } else {
      assert Waiting(r, t);
      Neighbours(t);
    }
  }

  lemma StepKeeps(r: Ring, s: Step)
    requires Inv(r) && Enabled(r, s)
    ensures Inv(Next(r, s))
  {
    hide Inv, CardOwns;
    match s
    case CardWrite(k, i, b) => WriteKeeps(r, k, i, b);
    case CardDone(len) => DoneKeeps(r, len);
    case Call(capacity) => CallKeeps(r, capacity);
    case Driver =>
      CopyBound(r);
      match r.phase {
        case Cleared(_, _, _) => MoveKeeps(r);
        case Moved(_, _, _) => ReturnKeeps(r);
        case Copying(_, _, n, out) => if |out| == n { ClearKeeps(r); } else { ReadKeeps(r); }
        case _ => ReadKeeps(r);
      }
  }

  lemma CopyBound(r: Ring)
    requires Inv(r)
    ensures Shaped(r) && (r.phase.Copying? ==> |r.phase.out| <= r.phase.n)
  {
  }

  // ---- every run -----------------------------------------------------------------------------

  ghost predicate Run(rs: seq<Ring>, steps: seq<Step>)
  {
    && |rs| == |steps| + 1 && Initial(rs[0])
    && forall i :: 0 <= i < |steps| ==> Shaped(rs[i]) && Enabled(rs[i], steps[i]) && rs[i + 1] == Next(rs[i], steps[i])
  }

  lemma {:induction false} RunKeeps(rs: seq<Ring>, steps: seq<Step>, k: nat)
    requires Run(rs, steps) && k <= |steps|
    ensures Inv(rs[k])
  {
    hide Inv, Enabled, Next, Initial;
    if k == 0 {
      InitialInv(rs[0]);
    } else {
      RunKeeps(rs, steps, k - 1);
      assert rs[k - 1 + 1] == Next(rs[k - 1], steps[k - 1]);
      StepKeeps(rs[k - 1], steps[k - 1]);
    }
  }

  /** In every run the frames come out once each, in the order they arrived, whole or cut to the caller's buffer. */
  lemma InOrder(rs: seq<Ring>, steps: seq<Step>, k: nat)
    requires Run(rs, steps) && k <= |steps|
    ensures |rs[k].delivered| <= |rs[k].arrived| <= |rs[k].delivered| + 7
    ensures forall i :: 0 <= i < |rs[k].delivered| ==>
      rs[k].delivered[i].bytes == Crop(rs[k].arrived[i], rs[k].delivered[i].capacity)
    ensures rs[k].phase.Idle? ==> rs[k].rdt == (rs[k].rxCur + RX_DESC - 1) % RX_DESC
  {
    RunKeeps(rs, steps, k);
    Safety(rs[k]);
    hide Waiting, Empty, Shaped, Run, PhaseOk;
  }
}
