/** One direction of a virtqueue: a ring of 16-bit indices, a producer that publishes entries and
    notifies only when the consumer's event index is crossed, and a consumer that goes to sleep after
    setting the event index and looking once more (sys/virtio.hpp:131-184, sys/virtio.hpp:227-268;
    sections 2.4.6 to 2.4.9 of VIRTIO 1.0). Producer and consumer take turns step by step. */
module EventChannel {
  import opened Bits
  import opened VringModel
  import opened Wrappers

  /** Filling: writing entries; Deciding: the new index is stored, the event index not yet read. */
  datatype Producer = Filling | Deciding(oldIdx: nat)

  /** Looked: the ring was found empty, the event index not yet stored; Armed: it is stored, and the ring not yet
      looked at again. */
  datatype Consumer = Busy | Looked | Armed | Asleep

  /** `idx` and `event` are the shared 16-bit cells, `fill` and `cursor` the 16-bit indices the producer
      and the consumer keep; `written`, `published` and `consumed` record the whole history. */
  datatype Channel = Channel(slots: seq<nat>, idx: nat, event: nat, fill: nat, cursor: nat,
                             prod: Producer, cons: Consumer, pending: bool,
                             written: seq<nat>, published: nat, consumed: nat)

  function Wrap(n: nat): nat { n % U16 }

  /** How far a 16-bit index is behind another. */
  function Behind(idx: nat, oldIdx: nat): nat
    requires idx < U16 && oldIdx < U16
  {
    (idx + U16 - oldIdx) % U16
  }

  function SlotOf(c: Channel, idx: nat): nat
    requires c.slots != []
  {
    idx % |c.slots|
  }

  datatype Step = Write(x: nat) | Publish | Decide | Consume | Look | Arm | Recheck | Wake | Poll

  predicate Enabled(c: Channel, s: Step) {
    match s
    case Write(x) => c.prod.Filling?
    case Publish => c.prod.Filling?
    case Decide => c.prod.Deciding? && c.idx < U16 && c.event < U16 && c.prod.oldIdx < U16
    case Consume => c.cons.Busy? && c.cursor != c.idx && c.slots != []
    case Look => c.cons.Busy? && c.cursor == c.idx
    case Arm => c.cons.Looked?
    case Recheck => c.cons.Armed?
    case Wake => c.cons.Asleep? && c.pending
    case Poll => c.cons.Asleep?
  }

  function Next(c: Channel, s: Step): Channel
    requires Enabled(c, s) && c.slots != []
  {
    match s
    case Write(x) =>
      c.(slots := c.slots[SlotOf(c, c.fill) := x], fill := Wrap(c.fill + 1), written := c.written + [x])
    case Publish =>
      c.(idx := c.fill, published := |c.written|, prod := Deciding(c.idx))
    case Decide =>
      c.(pending := c.pending || CrossesEvent(c.idx, c.event, c.prod.oldIdx), prod := Filling)
    case Consume => c.(cursor := Wrap(c.cursor + 1), consumed := c.consumed + 1)
    case Look => c.(cons := Looked)
    case Arm => c.(event := c.cursor, cons := Armed)
    case Recheck => c.(cons := if c.cursor == c.idx then Asleep else Busy)
    case Wake => c.(pending := false, cons := Busy)
    case Poll => c.(cons := Busy)
  }

  /** The entry a consumer reads. */
  function Entry(c: Channel): nat
    requires c.slots != []
  {
    c.slots[SlotOf(c, c.cursor)]
  }

  // ---- what every step keeps ----

  /** The 16-bit indices are the history's counters, and the ring holds what is not consumed yet. */
  ghost predicate IndicesOk(c: Channel) {
    && 0 < |c.slots| <= 0x8000 && U16 % |c.slots| == 0
    && c.consumed <= c.published <= |c.written| <= c.consumed + |c.slots|
    && c.idx == Wrap(c.published) && c.cursor == Wrap(c.consumed) && c.fill == Wrap(|c.written|) && c.event < U16
  }

  ghost predicate RingOk(c: Channel)
    requires c.slots != []
  {
    forall k :: c.consumed <= k < |c.written| ==> c.slots[k % |c.slots|] == c.written[k]
  }

  /** The window the producer is deciding about. */
  ghost predicate DecidingOk(c: Channel) {
    c.prod.Deciding? && c.idx < U16 ==>
      && c.prod.oldIdx < U16 && Behind(c.idx, c.prod.oldIdx) <= |c.slots|
      && Behind(c.idx, c.prod.oldIdx) <= c.published
  }

  /** The first entry of the window. */
  ghost function WindowStart(c: Channel): int
    requires c.prod.Deciding? && c.idx < U16 && c.prod.oldIdx < U16
  {
    c.published - Behind(c.idx, c.prod.oldIdx)
  }

  /** The consumer set the event index to where it stopped; a sleeping consumer that has not consumed
      everything has a notification coming. */
  ghost predicate EventOk(c: Channel) {
    && (c.cons.Armed? || c.cons.Asleep? ==> c.event == c.cursor)
    && (c.cons.Asleep? && c.consumed < c.published && !c.pending && c.idx < U16 ==>
          && c.prod.Deciding? && c.prod.oldIdx < U16
          && WindowStart(c) <= c.consumed)
  }

  ghost predicate Inv(c: Channel) {
    IndicesOk(c) && RingOk(c) && DecidingOk(c) && EventOk(c)
  }

  function Fresh(qsize: nat): Channel {
    Channel(seq(qsize, i => 0), 0, 0, 0, 0, Filling, Busy, false, [], 0, 0)
  }

  lemma FreshInv(qsize: nat)
    requires 0 < qsize <= 0x8000 && U16 % qsize == 0
    ensures Inv(Fresh(qsize))
  {
  }

  // ---- 16-bit arithmetic ----

  lemma WrapNext(k: nat)
    ensures Wrap(Wrap(k) + 1) == Wrap(k + 1) && Wrap(k) < U16
  {
  }

  /** Counters less than 2^16 apart are equal when their 16-bit values are. */
  lemma WrapInjective(a: nat, b: nat)
    requires a <= b < a + U16 && Wrap(a) == Wrap(b)
    ensures a == b
  {
  }

  lemma BehindIs(p: nat, b: nat)
    requires b <= p && b < U16
    ensures Wrap(p) < U16 && Wrap(p - b) < U16 && Behind(Wrap(p), Wrap(p - b)) == b
  {
  }

  lemma MulMod(q: nat, n: nat, r: nat)
    requires n > 0
    ensures (q * n + r) % n == r % n
  {
    MulDiv(r, n);
    Distribute(q, -(r / n), n);
    Distribute(q + r / n, -1, n);
    DivModUnique(q * n + r, q + r / n, n);
  }

  /** The ring position of a 16-bit index is that of the counter behind it, across the wrap-around. */
  lemma SlotWraps(k: nat, n: nat)
    requires 0 < n && U16 % n == 0
    ensures Wrap(k) % n == k % n
  {
    var a := k / U16;
    var q := U16 / n;
    assert q * n == U16;
    Assoc(a, q, n);
    assert k == (a * q) * n + Wrap(k);
    MulMod(a * q, n, Wrap(k));
  }

  lemma Assoc(a: nat, q: nat, n: nat)
    ensures (a * q) * n == a * (q * n)
  {
  }

  /** Two counters less than a ring's length apart have different slots. */
  lemma SlotsDiffer(a: nat, b: nat, n: nat)
    requires a < b < a + n
    ensures a % n != b % n
  {
    if a % n == b % n {
      var q := b / n - a / n;
      assert b - a == q * n by { Sub(a, b, n); }
      if q >= 1 { MulLe(1, q, n); } else { MulLe(q, 0, n); }
    }
  }

  lemma Sub(a: nat, b: nat, n: nat)
    requires n > 0 && a % n == b % n
    ensures b - a == (b / n - a / n) * n
  {
    MulDiv(a, n);
    MulDiv(b, n);
    Distribute(b / n, a / n, n);
  }

  /** The test the producer makes is exact: it notifies if and only if the event index is the index of
      an entry it has just published. */
  lemma CrossesExact(p: nat, b: nat, event: nat)
    requires b <= p && b < U16 && event < U16
    ensures Wrap(p) < U16 && Wrap(p - b) < U16
    ensures CrossesEvent(Wrap(p), event, Wrap(p - b)) <==> exists k: nat :: p - b <= k < p && Wrap(k) == event
  {
    BehindIs(p, b);
    var d := (Wrap(p) + U16 + U16 - event - 1) % U16;
    if d < b {
      LastWithEvent(p, event);
      assert Wrap(p - 1 - d) == event;
    }
    if k: nat :| p - b <= k < p && Wrap(k) == event {
      DistanceIs(p, k);
    }
  }

  lemma LastWithEvent(p: nat, event: nat)
    requires event < U16
    ensures var d := (Wrap(p) + U16 + U16 - event - 1) % U16;
            d < p ==> Wrap(p - 1 - d) == event
  {
  }

  lemma DistanceIs(p: nat, k: nat)
    requires k < p <= k + U16
    ensures (Wrap(p) + U16 + U16 - Wrap(k) - 1) % U16 == p - 1 - k
  {
  }

  // ---- every step keeps the invariant ----

  lemma WriteKeeps(c: Channel, x: nat)
    requires Inv(c) && Enabled(c, Write(x)) && |c.written| < c.consumed + |c.slots|
    ensures Inv(Next(c, Write(x)))
  {
    var g := Next(c, Write(x));
    var n := |c.written|;
    SlotWraps(n, |c.slots|);
    WrapNext(n);
    assert SlotOf(c, c.fill) == n % |c.slots|;
    forall k | g.consumed <= k < |g.written| ensures g.slots[k % |g.slots|] == g.written[k] {
      if k < n { SlotsDiffer(k, n, |c.slots|); }
    }
  }

  lemma PublishKeeps(c: Channel)
    requires Inv(c) && Enabled(c, Publish)
    ensures Inv(Next(c, Publish))
    ensures WindowStart(Next(c, Publish)) == c.published
  {
    BehindIs(|c.written|, |c.written| - c.published);
    hide Wrap, Behind;
    var g := Next(c, Publish);
    assert WindowStart(g) == c.published;
    assert RingOk(g);
  }

  lemma DecideKeeps(c: Channel)
    requires Inv(c) && Enabled(c, Decide)
    ensures Inv(Next(c, Decide))
  {
    DecideNotifies(c);
    var g := Next(c, Decide);
    hide CrossesEvent, Wrap;
    assert RingOk(g);
  }

  /** The event index is that of an entry in the window. */
  ghost predicate WindowHasEvent(c: Channel) {
    && c.prod.Deciding? && c.idx < U16 && c.prod.oldIdx < U16
    && exists k: nat :: WindowStart(c) <= k < c.published && Wrap(k) == c.event
  }

  /** The producer notifies exactly when the event index is that of an entry in the window, and so always when the
      consumer sleeps on an entry of the window; whatever it decides, it takes no notification back. */
  lemma DecideNotifies(c: Channel)
    requires Inv(c) && Enabled(c, Decide)
    ensures Next(c, Decide).pending <==> c.pending || WindowHasEvent(c)
    ensures c.cons.Asleep? && WindowStart(c) <= c.consumed < c.published ==> WindowHasEvent(c)
  {
    var b := Behind(c.idx, c.prod.oldIdx);
    OldIdxIs(c.published, c.prod.oldIdx);
    CrossesExact(c.published, b, c.event);
    hide CrossesEvent, Behind;
    if c.cons.Asleep? && WindowStart(c) <= c.consumed < c.published {
      assert Wrap(c.consumed) == c.event;
    }
  }

  lemma OldIdxIs(p: nat, oldIdx: nat)
    requires oldIdx < U16
    ensures Wrap(p) < U16
    ensures var b := Behind(Wrap(p), oldIdx); b <= p ==> Wrap(p - b) == oldIdx
  {
  }

  lemma ConsumeKeeps(c: Channel)
    requires Inv(c) && Enabled(c, Consume)
    ensures Inv(Next(c, Consume)) && c.consumed < c.published && Entry(c) == c.written[c.consumed]
  {
    WrapNext(c.consumed);
    SlotWraps(c.consumed, |c.slots|);
    hide Wrap;
    assert c.consumed < c.published;
    assert Entry(c) == c.slots[c.consumed % |c.slots|];
    assert RingOk(Next(c, Consume));
  }

  lemma RecheckKeeps(c: Channel)
    requires Inv(c) && Enabled(c, Recheck)
    ensures Inv(Next(c, Recheck))
    ensures Next(c, Recheck).cons.Asleep? <==> c.consumed == c.published
  {
    if c.cursor == c.idx { WrapInjective(c.consumed, c.published); }
    hide Wrap;
    assert RingOk(Next(c, Recheck));
  }

  /** Comparing the 16-bit indices tells whether the ring is empty: a busy consumer takes the next entry if one is
      published, and otherwise goes on to sleep; woken or polling, it takes what is there. */
  lemma LooksExact(c: Channel)
    requires Inv(c)
    ensures Enabled(c, Consume) <==> c.cons.Busy? && c.consumed < c.published
    ensures Enabled(c, Look) <==> c.cons.Busy? && c.consumed == c.published
    ensures Enabled(c, Wake) <==> c.cons.Asleep? && c.pending
    ensures Enabled(c, Wake) && c.consumed < c.published ==> Enabled(Next(c, Wake), Consume)
    ensures Enabled(c, Poll) && c.consumed < c.published ==> Enabled(Next(c, Poll), Consume)
  {
    if c.cursor == c.idx { WrapInjective(c.consumed, c.published); }
    hide Wrap;
  }

  /** Every step of either side, in any order, keeps the invariant; a write needs room in the ring. */
  lemma StepKeeps(c: Channel, s: Step)
    requires Inv(c) && Enabled(c, s) && (s.Write? ==> |c.written| < c.consumed + |c.slots|)
    ensures Inv(Next(c, s))
  {
    match s
    case Write(x) => WriteKeeps(c, x);
    case Publish => PublishKeeps(c);
    case Decide => DecideKeeps(c);
    case Consume => ConsumeKeeps(c);
    case Look => assert RingOk(Next(c, s));
    case Arm => assert RingOk(Next(c, s));
    case Recheck => RecheckKeeps(c);
    case Wake => assert RingOk(Next(c, s));
    case Poll => assert RingOk(Next(c, s));
  }

  /** No lost wake-up: a sleeping consumer with entries to consume has a notification pending, or the
      producer is about to read the event index and will then notify. */
  lemma NoLostWakeup(c: Channel)
    requires Inv(c) && c.cons.Asleep? && c.consumed < c.published
    ensures c.pending || (Enabled(c, Decide) && Next(c, Decide).pending)
    ensures c.prod.Filling? ==> Enabled(c, Wake)
  {
    if !c.pending {
      DecideNotifies(c);
    }
  }

  /** When neither side has a step left but filling the ring, the consumer has consumed everything that
      was published. */
  lemma QuietMeansDone(c: Channel)
    requires Inv(c) && !Enabled(c, Decide) && !Enabled(c, Consume) && !Enabled(c, Look) && !Enabled(c, Arm)
    requires !Enabled(c, Recheck) && !Enabled(c, Wake)
    ensures c.cons.Asleep? && c.consumed == c.published
  {
    assert c.prod.Deciding? ==> Enabled(c, Decide);
    if c.consumed < c.published { NoLostWakeup(c); }
  }

  // ---- runs: where notifications come from ----

  /** Steps that follow one another; a write needs room in the ring. */
  ghost predicate CanDo(c: Channel, steps: seq<Step>)
    decreases |steps|
  {
    steps == []
    || (Enabled(c, steps[0]) && c.slots != [] && (steps[0].Write? ==> |c.written| < c.consumed + |c.slots|)
        && CanDo(Next(c, steps[0]), steps[1..]))
  }

  ghost function After(c: Channel, steps: seq<Step>): Channel
    requires CanDo(c, steps)
    decreases |steps|
  {
    if steps == [] then c else After(Next(c, steps[0]), steps[1..])
  }

  ghost predicate NoWake(steps: seq<Step>) {
    forall i :: 0 <= i < |steps| ==> !steps[i].Wake?
  }

  lemma {:induction false} CanDoFirst(c: Channel, steps: seq<Step>, n: nat)
    requires CanDo(c, steps) && n <= |steps|
    ensures CanDo(c, steps[..n])
    ensures 0 < n ==> CanDo(Next(c, steps[0]), steps[1..][..n - 1])
                      && After(c, steps[..n]) == After(Next(c, steps[0]), steps[1..][..n - 1])
    decreases n
  {
    hide Enabled, Next;
    if n > 0 {
      CanDoFirst(Next(c, steps[0]), steps[1..], n - 1);
      assert steps[..n][1..] == steps[1..][..n - 1];
    }
  }

  /** Step i is a Decide that notifies, and no Wake has answered it since. */
  ghost predicate RaisedAt(c: Channel, steps: seq<Step>, i: nat)
    requires CanDo(c, steps)
  {
    && i < |steps| && steps[i].Decide? && NoWake(steps[i + 1..])
    && CanDo(c, steps[..i]) && WindowHasEvent(After(c, steps[..i]))
  }

  /** Notifications come only from the event index: over every run one is pending at the end if and only if some
      Decide found the event index in its window, or one was pending at the start, and no Wake came after it. */
  lemma {:induction false} PendingExact(c: Channel, steps: seq<Step>)
    requires Inv(c) && CanDo(c, steps)
    ensures Inv(After(c, steps))
    ensures After(c, steps).pending
       <==> (c.pending && NoWake(steps)) || exists i: nat :: RaisedAt(c, steps, i)
    decreases |steps|
  {
    hide Inv, Next, WindowHasEvent, NoWake, RaisedAt, Enabled;
    NothingRaised(c);
    if steps != [] {
      var s, g, rest := steps[0], Next(c, steps[0]), steps[1..];
      StepKeeps(c, s);
      PendingExact(g, rest);
      PendingStep(c, s);
      NoWakeFirst(steps);
      RaisedFirst(c, steps);
      if i: nat :| RaisedAt(g, rest, i) {
        RaisedLater(c, steps, i);
        assert RaisedAt(c, steps, i + 1);
      }
      if i: nat :| RaisedAt(c, steps, i) {
        if i > 0 { RaisedLater(c, steps, i - 1); }
      }
    }
  }

  lemma NothingRaised(c: Channel)
    ensures NoWake([]) && CanDo(c, []) && After(c, []) == c && forall i: nat :: !RaisedAt(c, [], i)
  {
  }

  lemma NoWakeFirst(steps: seq<Step>)
    requires steps != []
    ensures NoWake(steps) <==> !steps[0].Wake? && NoWake(steps[1..])
  {
    assert forall i :: 0 < i < |steps| ==> steps[i] == steps[1..][i - 1];
  }

  lemma PendingStep(c: Channel, s: Step)
    requires Inv(c) && Enabled(c, s)
    ensures Next(c, s).pending <==> !s.Wake? && (c.pending || (s.Decide? && WindowHasEvent(c)))
  {
    hide Inv, WindowHasEvent, CrossesEvent;
    if s.Decide? { DecideNotifies(c); }
  }

  lemma RaisedFirst(c: Channel, steps: seq<Step>)
    requires CanDo(c, steps) && steps != []
    ensures RaisedAt(c, steps, 0) <==> steps[0].Decide? && NoWake(steps[1..]) && WindowHasEvent(c)
  {
    hide WindowHasEvent;
    assert steps[..0] == [];
  }

  lemma RaisedLater(c: Channel, steps: seq<Step>, i: nat)
    requires CanDo(c, steps) && steps != []
    ensures RaisedAt(c, steps, i + 1) <==> RaisedAt(Next(c, steps[0]), steps[1..], i)
  {
    hide WindowHasEvent, Next, Enabled;
    if i + 1 < |steps| {
      CanDoFirst(c, steps, i + 1);
      assert steps[1..][i + 1..] == steps[i + 2..];
    }
  }

  // ---- why the consumer looks twice ----

  /** A ring of one entry whose counters have not wrapped. */
  function At(idx: nat, event: nat, fill: nat, cursor: nat, prod: Producer, cons: Consumer, pending: bool): Channel {
    Channel([0], idx, event, fill, cursor, prod, cons, pending,
            if fill == 0 then [] else if fill == 1 then [0] else [0, 0], idx, cursor)
  }

  /** The consumer sleeps, is woken for a first entry, and finds the ring empty; a second entry is published before
      the event index is stored. */
  const STEPS: seq<Step> :=
    [Look, Arm, Recheck, Write(0), Publish, Decide, Wake, Consume, Look, Write(0), Publish, Decide, Arm]

  const STATES: seq<Channel> :=
    [At(0, 0, 0, 0, Filling, Busy, false), At(0, 0, 0, 0, Filling, Looked, false),
     At(0, 0, 0, 0, Filling, Armed, false), At(0, 0, 0, 0, Filling, Asleep, false),
     At(0, 0, 1, 0, Filling, Asleep, false), At(1, 0, 1, 0, Deciding(0), Asleep, false),
     At(1, 0, 1, 0, Filling, Asleep, true), At(1, 0, 1, 0, Filling, Busy, false),
     At(1, 0, 1, 1, Filling, Busy, false), At(1, 0, 1, 1, Filling, Looked, false),
     At(1, 0, 2, 1, Filling, Looked, false), At(2, 0, 2, 1, Deciding(1), Looked, false),
     At(2, 0, 2, 1, Filling, Looked, false), At(2, 1, 2, 1, Filling, Armed, false)]

  /** One step from one state to the next, with room for what is written. */
  predicate Leads(c: Channel, s: Step, g: Channel) {
    Enabled(c, s) && c.slots != [] && (s.Write? ==> |c.written| < c.consumed + |c.slots|) && Next(c, s) == g
  }

  ghost predicate Reaches(c: Channel, steps: seq<Step>, g: Channel) { CanDo(c, steps) && After(c, steps) == g }

  lemma {:induction false} Linked(states: seq<Channel>, steps: seq<Step>)
    requires |states| == |steps| + 1 && forall i :: 0 <= i < |steps| ==> Leads(states[i], steps[i], states[i + 1])
    ensures Reaches(states[0], steps, states[|steps|])
    decreases |steps|
  {
    hide Enabled, Next;
    if steps != [] {
      assert Leads(states[0], steps[0], states[1]);
      Linked(states[1..], steps[1..]);
    }
  }

  /** An entry is published, no notification is pending and none to come: asleep, the consumer would miss it. */
  predicate Oversleeps(c: Channel) {
    && c.slots != [] && c.cons.Armed? && c.consumed < c.published && !c.pending && c.prod.Filling?
    && Next(c, Recheck).cons.Busy?
  }

  lemma BothEnds()
    ensures Fresh(1) == At(0, 0, 0, 0, Filling, Busy, false)
    ensures Oversleeps(At(2, 1, 2, 1, Filling, Armed, false))
  {
    hide CrossesEvent;
  }

  lemma UpToTheWake()
    ensures Leads(At(0, 0, 0, 0, Filling, Busy, false), Look,
                  At(0, 0, 0, 0, Filling, Looked, false))
    ensures Leads(At(0, 0, 0, 0, Filling, Looked, false), Arm,
                  At(0, 0, 0, 0, Filling, Armed, false))
    ensures Leads(At(0, 0, 0, 0, Filling, Armed, false), Recheck,
                  At(0, 0, 0, 0, Filling, Asleep, false))
    ensures Leads(At(0, 0, 0, 0, Filling, Asleep, false), Write(0),
                  At(0, 0, 1, 0, Filling, Asleep, false))
    ensures Leads(At(0, 0, 1, 0, Filling, Asleep, false), Publish,
                  At(1, 0, 1, 0, Deciding(0), Asleep, false))
    ensures Leads(At(1, 0, 1, 0, Deciding(0), Asleep, false), Decide,
                  At(1, 0, 1, 0, Filling, Asleep, true))
    ensures Leads(At(1, 0, 1, 0, Filling, Asleep, true), Wake,
                  At(1, 0, 1, 0, Filling, Busy, false))
  {
  }

  lemma AfterTheWake()
    ensures Leads(At(1, 0, 1, 0, Filling, Busy, false), Consume,
                  At(1, 0, 1, 1, Filling, Busy, false))
    ensures Leads(At(1, 0, 1, 1, Filling, Busy, false), Look,
                  At(1, 0, 1, 1, Filling, Looked, false))
    ensures Leads(At(1, 0, 1, 1, Filling, Looked, false), Write(0),
                  At(1, 0, 2, 1, Filling, Looked, false))
    ensures Leads(At(1, 0, 2, 1, Filling, Looked, false), Publish,
                  At(2, 0, 2, 1, Deciding(1), Looked, false))
    ensures Leads(At(2, 0, 2, 1, Deciding(1), Looked, false), Decide,
                  At(2, 0, 2, 1, Filling, Looked, false))
    ensures Leads(At(2, 0, 2, 1, Filling, Looked, false), Arm,
                  At(2, 1, 2, 1, Filling, Armed, false))
  {
  }

  /** Sleeping right after the event index is stored would lose a wake-up at the end of this run; looking again keeps
      the consumer awake. */
  lemma RecheckNeeded() returns (c: Channel)
    ensures Oversleeps(c) && Reaches(Fresh(1), STEPS, c)
  {
    hide At, Leads, Reaches, CanDo, After, Oversleeps;
    UpToTheWake();
    AfterTheWake();
    assert forall i :: 0 <= i < |STEPS| ==> Leads(STATES[i], STEPS[i], STATES[i + 1]);
    Linked(STATES, STEPS);
    BothEnds();
    c := STATES[13];
  }

  /** The used ring is read at `used_index` itself, without the modulo: that is the entry to read exactly
      while the index is below the ring's length. */
  function ReadAsWritten(c: Channel): Option<nat> {
    if c.cursor < |c.slots| then Some(c.slots[c.cursor]) else None
  }

  lemma ReadAsWrittenExact(c: Channel)
    requires Inv(c) && Enabled(c, Consume)
    ensures c.consumed < |c.written|
    ensures ReadAsWritten(c) == Some(c.written[c.consumed]) <==> c.consumed % U16 < |c.slots|
  {
    ConsumeKeeps(c);
    if c.cursor < |c.slots| { SmallMod(c.cursor, |c.slots|); }
  }

  lemma SmallMod(a: nat, n: nat)
    requires a < n
    ensures a % n == a
  {
  }
}
