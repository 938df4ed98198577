/** kernel/src/dev/keyboard.rs:71-104: the key queue, interrupt and reader interleaved step by step. */
module KeyQueue {
  const QUEUE_SIZE: nat := 64

  type Key = nat

  /** Where poll is between two of its loads and stores. */
  datatype Phase = Idle | Head(head: nat) | NotEmpty(head: nat) | Taken(head: nat, key: Key)

  /** The queue and its cursors; accepted and popped are the keys pushed and read so far, lost the number dropped. */
  datatype Queue = Queue(slots: seq<Key>, head: nat, tail: nat, phase: Phase, accepted: seq<Key>, popped: seq<Key>, lost: nat)

  ghost predicate Initial(q: Queue)
  {
    |q.slots| == QUEUE_SIZE && q.head == 0 && q.tail == 0 && q.phase == Idle && q.accepted == [] && q.popped == [] && q.lost == 0
  }

  predicate Shaped(q: Queue)
  {
    |q.slots| == QUEUE_SIZE && q.head < QUEUE_SIZE && q.tail < QUEUE_SIZE && (!q.phase.Idle? ==> q.phase.head < QUEUE_SIZE)
  }

  // ---- steps ---------------------------------------------------------------------------------

  /** The interrupt's push, which runs to completion. */
  function Push(q: Queue, key: Key): Queue
    requires Shaped(q)
  {
    var next := (q.tail + 1) % QUEUE_SIZE;
    if next == q.head then q.(lost := q.lost + 1)
    else q.(slots := q.slots[q.tail := key], tail := next, accepted := q.accepted + [key])
  }

  /** The next load or store of poll. */
  function Poll(q: Queue): Queue
    requires Shaped(q)
  {
    match q.phase
    case Idle => q.(phase := Head(q.head))
    case Head(h) => q.(phase := if h == q.tail then Idle else NotEmpty(h))
    case NotEmpty(h) => q.(phase := Taken(h, q.slots[h]))
    case Taken(h, key) => q.(head := (h + 1) % QUEUE_SIZE, phase := Idle, popped := q.popped + [key])
  }

  function Queued(q: Queue): nat
    requires Shaped(q)
  {
    (q.tail + QUEUE_SIZE - q.head) % QUEUE_SIZE
  }

  // ---- the invariant -------------------------------------------------------------------------

  ghost predicate Holds(q: Queue, i: nat)
    requires Shaped(q) && i < |q.accepted|
  {
    q.slots[i % QUEUE_SIZE] == q.accepted[i]
  }

  ghost predicate Inv(q: Queue)
  {
    var a, p := |q.accepted|, |q.popped|;
    && Shaped(q) && p <= a <= p + 63
    && q.head == p % QUEUE_SIZE && q.tail == a % QUEUE_SIZE
    && q.popped <= q.accepted
    && (forall i :: p <= i < a ==> Holds(q, i))
    && (!q.phase.Idle? ==> q.phase.head == q.head)
    && (q.phase.NotEmpty? || q.phase.Taken? ==> p < a)
    && (q.phase.Taken? ==> q.phase.key == q.accepted[p])
  }

  lemma InitialInv(q: Queue)
    requires Initial(q)
    ensures Inv(q)
  {
  }

  lemma Cursors(a: nat, p: nat)
    requires p <= a <= p + 63
    ensures (a % QUEUE_SIZE + 1) % QUEUE_SIZE == (a + 1) % QUEUE_SIZE
    ensures (a + 1) % QUEUE_SIZE == p % QUEUE_SIZE <==> a == p + 63
    ensures a % QUEUE_SIZE == p % QUEUE_SIZE <==> a == p
    ensures (a % QUEUE_SIZE + QUEUE_SIZE - p % QUEUE_SIZE) % QUEUE_SIZE == a - p
  {
    Ahead(p, a - p);
    Ahead(p, a + 1 - p);
    Ahead(a, 1);
  }

  /** The cursor d places on. */
  lemma Ahead(p: nat, d: nat)
    requires d <= 64
    ensures (p + d) % QUEUE_SIZE == if p % QUEUE_SIZE + d < 64 then p % QUEUE_SIZE + d else p % QUEUE_SIZE + d - 64
  {
  }

  lemma OtherSlot(i: nat, a: nat)
    requires i < a < i + 64
    ensures i % QUEUE_SIZE != a % QUEUE_SIZE
  {
  }

  /** A key is accepted unless 63 are waiting, and then it is dropped. */
  lemma PushKeeps(q: Queue, key: Key)
    requires Inv(q)
    ensures Inv(Push(q, key))
    ensures var u := Push(q, key);
            && u.popped == q.popped && u.phase == q.phase
            && (if Queued(q) == 63 then u.accepted == q.accepted && u.lost == q.lost + 1
                else u.accepted == q.accepted + [key] && u.lost == q.lost)
  {
    var u, a, p := Push(q, key), |q.accepted|, |q.popped|;
    Cursors(a, p);
    forall i | p <= i < |u.accepted| ensures Holds(u, i) {
      if i < a {
        assert Holds(q, i);
        OtherSlot(i, a);
      }
    }
    hide Holds;
  }

  /** poll loses nothing, and comes back empty-handed only when nothing was waiting. */
  lemma PollKeeps(q: Queue)
    requires Inv(q)
    ensures Inv(Poll(q)) && Poll(q).accepted == q.accepted && Poll(q).lost == q.lost
    ensures q.phase.Head? ==> (Poll(q).phase.Idle? <==> |q.accepted| == |q.popped|)
  {
    var u, a, p := Poll(q), |q.accepted|, |q.popped|;
    Cursors(a, p);
    Cursors(p, p);
    forall i | |u.popped| <= i < a ensures Holds(u, i) { assert Holds(q, i); }
    if q.phase.NotEmpty? { assert Holds(q, p); }
    hide Holds;
  }

  lemma QueuedIs(q: Queue)
    requires Inv(q)
    ensures Queued(q) == |q.accepted| - |q.popped|
  {
    hide Holds;
    Cursors(|q.accepted|, |q.popped|);
  }
}

/** kernel/src/dev/keyboard.rs:15-60 and 208-289: from scancodes to keys. */
module Keyboard {
  import opened KeyQueue
  import opened Wrappers

  type Scancode = x: int | 0 <= x < 256

  const EXTENDED: Scancode := 0xE0

  /** Scancode to ASCII without Shift; 0 is no character. */
  function Normal(code: nat): nat
  {
    match code
    case 2 => 49 case 3 => 50 case 4 => 51 case 5 => 52 case 6 => 53 case 7 => 54
    case 8 => 55 case 9 => 56 case 10 => 57 case 11 => 48 case 12 => 45 case 13 => 61
    case 16 => 113 case 17 => 119 case 18 => 101 case 19 => 114 case 20 => 116 case 21 => 121
    case 22 => 117 case 23 => 105 case 24 => 111 case 25 => 112 case 26 => 91 case 27 => 93
    case 30 => 97 case 31 => 115 case 32 => 100 case 33 => 102 case 34 => 103 case 35 => 104
    case 36 => 106 case 37 => 107 case 38 => 108 case 39 => 59 case 40 => 39 case 41 => 96
    case 43 => 92 case 44 => 122 case 45 => 120 case 46 => 99 case 47 => 118 case 48 => 98
    case 49 => 110 case 50 => 109 case 51 => 44 case 52 => 46 case 53 => 47 case 55 => 42
    case 57 => 32
    case _ => 0
  }

  /** Scancode to ASCII with Shift held. */
  function Shifted(code: nat): nat
  {
    match code
    case 2 => 33 case 3 => 64 case 4 => 35 case 5 => 36 case 6 => 37 case 7 => 94
    case 8 => 38 case 9 => 42 case 10 => 40 case 11 => 41 case 12 => 95 case 13 => 43
    case 16 => 81 case 17 => 87 case 18 => 69 case 19 => 82 case 20 => 84 case 21 => 89
    case 22 => 85 case 23 => 73 case 24 => 79 case 25 => 80 case 26 => 123 case 27 => 125
    case 30 => 65 case 31 => 83 case 32 => 68 case 33 => 70 case 34 => 71 case 35 => 72
    case 36 => 74 case 37 => 75 case 38 => 76 case 39 => 58 case 40 => 34 case 41 => 126
    case 43 => 124 case 44 => 90 case 45 => 88 case 46 => 67 case 47 => 86 case 48 => 66
    case 49 => 78 case 50 => 77 case 51 => 60 case 52 => 62 case 53 => 63 case 55 => 42
    case 57 => 32
    case _ => 0
  }

  datatype Modifiers = Modifiers(shift: bool, caps: bool, pending: bool)

  /** The navigation block: arrows, Delete, Page Up, Page Down, Home and End. */
  function Navigation(code: nat): Option<Key>
  {
    if code == 0x48 then Some(0x11) else if code == 0x50 then Some(0x12)
    else if code == 0x4B then Some(0x13) else if code == 0x4D then Some(0x14)
    else if code == 0x53 then Some(0x7F) else if code == 0x49 then Some(0x15)
    else if code == 0x51 then Some(0x16) else if code == 0x47 then Some(0x17)
    else if code == 0x4F then Some(0x18) else None
  }

  predicate Lowercase(c: nat)
  {
    97 <= c <= 122
  }

  /** The character of an ordinary key; Caps Lock matters for letters only, and not under Shift. */
  function Character(shift: bool, caps: bool, code: nat): nat
  {
    if shift then Shifted(code) else if caps && Lowercase(Normal(code)) then Normal(code) - 32 else Normal(code)
  }

  function Ordinary(shift: bool, caps: bool, code: nat): Option<Key>
  {
    if code == 0x1C then Some(10)
    else if code == 0x0E then Some(8)
    else if code == 0x01 then Some(0x1B)
    else if code == 0x0F then Some(9)
    else if Character(shift, caps, code) != 0 then Some(Character(shift, caps, code)) else None
  }

  /** handle_scancode: the new modifier state, and the key to push if there is one. */
  function Handle(m: Modifiers, sc: Scancode): (Modifiers, Option<Key>)
  {
    var released, code := sc >= 128, sc % 128;
    if sc == EXTENDED then (m.(pending := true), None)
    else if m.pending then (m.(pending := false), if released then None else Navigation(code))
    else if code == 0x2A || code == 0x36 then (m.(shift := !released), None)
    else if code == 0x3A then (if released then m else m.(caps := !m.caps), None)
    else if released then (m, None)
    else (m, Ordinary(m.shift, m.caps, code))
  }

  // ---- scancodes as events -------------------------------------------------------------------

  /** What the bytes mean: a plain code, or a code behind one or more prefixes. */
  datatype Event = Plain(sc: Scancode) | Prefixed(sc: Scancode)

  function Events(s: seq<Scancode>, pending: bool): seq<Event>
    decreases |s|
  {
    if s == [] then []
    else if s[0] == EXTENDED then Events(s[1..], true)
    else [if pending then Prefixed(s[0]) else Plain(s[0])] + Events(s[1..], false)
  }

  function KeyOf(shift: bool, caps: bool, e: Event): seq<Key>
  {
    var code := e.sc % 128;
    var key := match e
      case Prefixed(_) => Navigation(code)
      case Plain(_) => if code in {0x2A, 0x36, 0x3A} then None else Ordinary(shift, caps, code);
    if e.sc < 128 && key.Some? then [key.value] else []
  }

  function ShiftAfter(shift: bool, e: Event): bool
  {
    if e.Plain? && e.sc % 128 in {0x2A, 0x36} then e.sc < 128 else shift
  }

  function CapsAfter(caps: bool, e: Event): bool
  {
    if e == Plain(0x3A) then !caps else caps
  }

  /** The keys of a stream of events. */
  function Keys(shift: bool, caps: bool, es: seq<Event>): seq<Key>
    decreases |es|
  {
    if es == [] then []
    else KeyOf(shift, caps, es[0]) + Keys(ShiftAfter(shift, es[0]), CapsAfter(caps, es[0]), es[1..])
  }

  /** The keys handle_scancode pushes over a stream of bytes. */
  function Decoded(m: Modifiers, s: seq<Scancode>): seq<Key>
    decreases |s|
  {
    if s == [] then []
    else
      var (n, key) := Handle(m, s[0]);
      (if key.Some? then [key.value] else []) + Decoded(n, s[1..])
  }

  /** Byte by byte or event by event, the keys are the same. */
  lemma {:induction false} DecodesEvents(m: Modifiers, s: seq<Scancode>)
    ensures Decoded(m, s) == Keys(m.shift, m.caps, Events(s, m.pending))
    decreases |s|
  {
    if s != [] {
      var (n, key) := Handle(m, s[0]);
      DecodesEvents(n, s[1..]);
      if s[0] != EXTENDED {
        var e := if m.pending then Prefixed(s[0]) else Plain(s[0]);
        OneEvent(m, s[0], e);
        var es := Events(s, m.pending);
        assert es == [e] + Events(s[1..], false) && es[1..] == Events(s[1..], false);
        hide Handle, KeyOf;
      }
    }
  }

  lemma OneEvent(m: Modifiers, sc: Scancode, e: Event)
    requires sc != EXTENDED && e == if m.pending then Prefixed(sc) else Plain(sc)
    ensures var (n, key) := Handle(m, sc);
            && KeyOf(m.shift, m.caps, e) == (if key.Some? then [key.value] else [])
            && n == Modifiers(ShiftAfter(m.shift, e), CapsAfter(m.caps, e), false)
  {
    hide Ordinary, Navigation;
  }

  // ---- the navigation block ------------------------------------------------------------------

  predicate IsNavigation(key: Key)
  {
    0x11 <= key <= 0x18 || key == 0x7F
  }

  predicate Printable(c: nat)
  {
    c == 0 || 32 <= c < 127
  }

  lemma MapsPrintable(code: nat)
    ensures Printable(Normal(code)) && Printable(Shifted(code))
  {
  }

  /** No two codes behind a prefix give the same key. */
  lemma NavigationDistinct(a: nat, b: nat)
    ensures Navigation(a).Some? && Navigation(a) == Navigation(b) ==> a == b
  {
  }

  // ---- the layout ----------------------------------------------------------------------------

  /** The keys from a scancode on carry these characters, without and with Shift. */
  ghost predicate Row(first: nat, plain: string, shifted: string)
  {
    |plain| == |shifted| &&
    forall i :: 0 <= i < |plain| ==> Normal(first + i) == plain[i] as nat && Shifted(first + i) == shifted[i] as nat
  }

  /** The US layout, row by row; no other key carries a character. */
  lemma Layout(code: nat)
    ensures Row(2, "1234567890-=", "!@#$%^&*()_+")
    ensures Row(16, "qwertyuiop[]", "QWERTYUIOP{}")
    ensures Row(30, "asdfghjkl;'`", "ASDFGHJKL:\"~")
    ensures Row(43, "\\zxcvbnm,./", "|ZXCVBNM<>?")
    ensures Row(55, "*", "*") && Row(57, " ", " ")
    ensures Normal(code) == 0 <==> Shifted(code) == 0
    ensures Normal(code) == 0 <==> !(2 <= code <= 13 || 16 <= code <= 27 || 30 <= code <= 41 || 43 <= code <= 53 || code in {55, 57})
  {
    hide Normal, Shifted, Row;
    NoCharacter(code);
    NumberRow();
    TopRow();
    HomeRow();
    BottomRow();
    Singles();
  }

  lemma NumberRow()
    ensures Row(2, "1234567890-=", "!@#$%^&*()_+")
  {
  }

  lemma TopRow()
    ensures Row(16, "qwertyuiop[]", "QWERTYUIOP{}")
  {
  }

  lemma HomeRow()
    ensures Row(30, "asdfghjkl;'`", "ASDFGHJKL:\"~")
  {
  }

  lemma BottomRow()
    ensures Row(43, "\\zxcvbnm,./", "|ZXCVBNM<>?")
  {
  }

  lemma Singles()
    ensures Row(55, "*", "*") && Row(57, " ", " ")
  {
  }

  lemma NoCharacter(code: nat)
    ensures Normal(code) == 0 <==> Shifted(code) == 0
    ensures Normal(code) == 0 <==> !(2 <= code <= 13 || 16 <= code <= 27 || 30 <= code <= 41 || 43 <= code <= 53 || code in {55, 57})
  {
  }

  /** Shift or Caps Lock makes a letter a capital; other keys follow Shift alone. */
  lemma CharacterIs(shift: bool, caps: bool, code: nat)
    ensures var c := Character(shift, caps, code);
            if Lowercase(Normal(code)) then c == Normal(code) - (if shift || caps then 32 else 0)
            else c == if shift then Shifted(code) else Normal(code)
  {
  }

  /** A key is a navigation key exactly when its code came behind a prefix. */
  lemma EventKey(shift: bool, caps: bool, e: Event)
    ensures |KeyOf(shift, caps, e)| <= 1
    ensures forall key :: key in KeyOf(shift, caps, e) ==> 0 < key < 128 && (IsNavigation(key) <==> e.Prefixed?)
  {
    hide Normal, Shifted;
    MapsPrintable(e.sc % 128);
  }

  /** The navigation keys of a stream of keys. */
  function Moves(keys: seq<Key>): seq<Key>
  {
    if keys == [] then [] else (if IsNavigation(keys[0]) then [keys[0]] else []) + Moves(keys[1..])
  }

  /** The navigation keys pressed in a stream of events. */
  function Pressed(es: seq<Event>): seq<Key>
  {
    if es == [] then [] else (if es[0].Prefixed? then KeyOf(false, false, es[0]) else []) + Pressed(es[1..])
  }

  lemma MovesFirst(a: seq<Key>, b: seq<Key>)
    requires |a| <= 1
    ensures Moves(a + b) == Moves(a) + Moves(b)
  {
    if a == [] {
      assert a + b == b;
    } else {
      assert (a + b)[1..] == b && a[1..] == [];
    }
  }

  lemma {:induction false} KeysMoves(shift: bool, caps: bool, es: seq<Event>)
    ensures Moves(Keys(shift, caps, es)) == Pressed(es)
    decreases |es|
  {
    if es != [] {
      hide KeyOf, IsNavigation;
      var k := KeyOf(shift, caps, es[0]);
      EventKey(shift, caps, es[0]);
      PrefixedKey(shift, caps, es[0]);
      KeysMoves(ShiftAfter(shift, es[0]), CapsAfter(caps, es[0]), es[1..]);
      MovesFirst(k, Keys(ShiftAfter(shift, es[0]), CapsAfter(caps, es[0]), es[1..]));
      assert k != [] ==> k[0] in k && k[1..] == [];
    }
  }

  lemma PrefixedKey(shift: bool, caps: bool, e: Event)
    ensures e.Prefixed? ==> KeyOf(shift, caps, e) == KeyOf(false, false, e)
  {
  }

  /** Of the keys decoded, those of the navigation block are the presses behind a prefix, in
      order, whatever the modifiers. */
  lemma NavigationKeys(m: Modifiers, s: seq<Scancode>)
    ensures Moves(Decoded(m, s)) == Pressed(Events(s, m.pending))
  {
    DecodesEvents(m, s);
    KeysMoves(m.shift, m.caps, Events(s, m.pending));
  }

  // ---- interrupt and reader together ---------------------------------------------------------

  datatype Step = Interrupt(sc: Scancode) | Reader

  /** The driver, and the keys decoded so far. */
  datatype World = World(m: Modifiers, q: Queue, decoded: seq<Key>)

  function Next(w: World, s: Step): World
    requires Shaped(w.q)
  {
    match s
    case Interrupt(sc) =>
      var (n, key) := Handle(w.m, sc);
      if key.Some? then World(n, Push(w.q, key.value), w.decoded + [key.value]) else World(n, w.q, w.decoded)
    case Reader => w.(q := Poll(w.q))
  }

  /** a is b with some of its elements left out. */
  ghost predicate Subsequence(a: seq<Key>, b: seq<Key>)
    decreases |b|
  {
    || a == []
    || (b != [] && a[|a| - 1] == b[|b| - 1] && Subsequence(a[..|a| - 1], b[..|b| - 1]))
    || (b != [] && Subsequence(a, b[..|b| - 1]))
  }

  /** The keys accepted are the keys decoded, in order, less those counted as lost. */
  ghost predicate WorldInv(w: World)
  {
    Inv(w.q) && Subsequence(w.q.accepted, w.decoded) && |w.decoded| == |w.q.accepted| + w.q.lost
  }

  lemma OneMore(a: seq<Key>, b: seq<Key>, k: Key)
    requires Subsequence(a, b)
    ensures Subsequence(a, b + [k]) && Subsequence(a + [k], b + [k])
  {
    assert (b + [k])[..|b + [k]| - 1] == b && (a + [k])[..|a + [k]| - 1] == a;
  }

  lemma NextKeeps(w: World, s: Step)
    requires WorldInv(w)
    ensures WorldInv(Next(w, s))
    ensures Next(w, s).q.lost > w.q.lost ==> Queued(w.q) == 63
  {
    hide Inv, Handle;
    match s
    case Interrupt(sc) =>
      var (n, key) := Handle(w.m, sc);
      if key.Some? {
        PushKeeps(w.q, key.value);
        OneMore(w.q.accepted, w.decoded, key.value);
      }
    case Reader => PollKeeps(w.q);
  }

  ghost predicate Run(ws: seq<World>, steps: seq<Step>)
  {
    && |ws| == |steps| + 1 && Initial(ws[0].q) && ws[0].decoded == []
    && forall i :: 0 <= i < |steps| ==> Shaped(ws[i].q) && ws[i + 1] == Next(ws[i], steps[i])
  }

  /** The modifiers after a stream of bytes. */
  function ModifiersAfter(m: Modifiers, s: seq<Scancode>): Modifiers
    decreases |s|
  {
    if s == [] then m else ModifiersAfter(Handle(m, s[0]).0, s[1..])
  }

  /** One byte more. */
  lemma {:induction false} DecodedPush(m: Modifiers, s: seq<Scancode>, sc: Scancode)
    ensures var (n, key) := Handle(ModifiersAfter(m, s), sc);
            && ModifiersAfter(m, s + [sc]) == n
            && Decoded(m, s + [sc]) == Decoded(m, s) + if key.Some? then [key.value] else []
    decreases |s|
  {
    hide Handle;
    if s == [] {
      assert s + [sc] == [sc] && [sc][1..] == [];
    } else {
      DecodedPush(Handle(m, s[0]).0, s[1..], sc);
      assert (s + [sc])[1..] == s[1..] + [sc];
    }
  }

  /** The bytes the interrupts of a run brought. */
  function Bytes(steps: seq<Step>): seq<Scancode>
  {
    if steps == [] then []
    else
      var last := steps[|steps| - 1];
      Bytes(steps[..|steps| - 1]) + if last.Interrupt? then [last.sc] else []
  }

  lemma NextDecodes(w: World, s: Step, m: Modifiers, bytes: seq<Scancode>)
    requires Shaped(w.q) && w.m == ModifiersAfter(m, bytes) && w.decoded == Decoded(m, bytes)
    ensures var more := bytes + if s.Interrupt? then [s.sc] else [];
            Next(w, s).m == ModifiersAfter(m, more) && Next(w, s).decoded == Decoded(m, more)
  {
    hide Handle, ModifiersAfter, Decoded;
    match s
    case Interrupt(sc) => DecodedPush(m, bytes, sc);
    case Reader => assert bytes + [] == bytes;
  }

  /** In every run the keys read are the first keys accepted, in order, and the rest are in the
      queue; the keys decoded are those of all the bytes so far. */
  lemma {:induction false} RunKeeps(ws: seq<World>, steps: seq<Step>, k: nat)
    requires Run(ws, steps) && k <= |steps|
    ensures WorldInv(ws[k])
    ensures ws[k].m == ModifiersAfter(ws[0].m, Bytes(steps[..k]))
    ensures ws[k].decoded == Decoded(ws[0].m, Bytes(steps[..k]))
  {
    hide WorldInv, Next, Initial;
    if k == 0 {
      InitialInv(ws[0].q);
      StartInv(ws[0]);
    } else {
      RunKeeps(ws, steps, k - 1);
      assert ws[k - 1 + 1] == Next(ws[k - 1], steps[k - 1]);
      NextKeeps(ws[k - 1], steps[k - 1]);
      assert steps[..k][..k - 1] == steps[..k - 1];
      NextDecodes(ws[k - 1], steps[k - 1], ws[0].m, Bytes(steps[..k - 1]));
    }
  }

  lemma {:induction false} WholeSubsequence(a: seq<Key>, b: seq<Key>)
    requires Subsequence(a, b)
    ensures |a| <= |b| && (|a| == |b| ==> a == b)
    decreases |b|
  {
    if a != [] {
      var c := b[..|b| - 1];
      if a[|a| - 1] == b[|b| - 1] && Subsequence(a[..|a| - 1], c) {
        WholeSubsequence(a[..|a| - 1], c);
        assert a == a[..|a| - 1] + [a[|a| - 1]] && b == c + [b[|b| - 1]];
      } else {
        WholeSubsequence(a, c);
      }
    }
  }

  /** From the bytes to the reader: the keys read are the first of those accepted, which are the
      keys of the events in order, less the ones counted as lost, and all of them when none is. */
  lemma EndToEnd(ws: seq<World>, steps: seq<Step>, k: nat)
    requires Run(ws, steps) && k <= |steps|
    ensures var m, q := ws[0].m, ws[k].q;
            var keys := Keys(m.shift, m.caps, Events(Bytes(steps[..k]), m.pending));
            && q.popped <= q.accepted && Subsequence(q.accepted, keys) && |keys| == |q.accepted| + q.lost
            && (q.lost == 0 ==> q.accepted == keys)
  {
    hide Keys, Events, Decoded, Bytes, Subsequence, Next;
    RunKeeps(ws, steps, k);
    DecodesEvents(ws[0].m, Bytes(steps[..k]));
    WholeSubsequence(ws[k].q.accepted, ws[k].decoded);
  }

  lemma StartInv(w: World)
    requires Initial(w.q) && w.decoded == [] && Inv(w.q)
    ensures WorldInv(w)
  {
  }
}
