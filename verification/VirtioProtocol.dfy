/** Driver and device over both rings of a virtqueue, interleaved step by step. Chains are named by
    their head descriptors. */
module VirtioProtocol {
  import opened Bits
  import opened Sequences
  import opened VringModel
  import opened EventChannel

  /** `posted` are the heads of the chains the driver has posted and not reclaimed; `held` are the ones
      the device has taken from the available ring and not yet put on the used ring. */
  datatype Queue = Queue(qsize: nat, avail: Channel, used: Channel, posted: set<nat>, held: set<nat>)

  datatype Move =
    | Post(head: nat)
    | AvailMove(s: Step)
    | Fetch
    | Use(head: nat)
    | UsedMove(s: Step)
    | Reclaim

  /** The steps of a channel that do not transfer an entry. */
  predicate Bookkeeping(s: Step) {
    !s.Write? && !s.Consume?
  }

  /** The driver posts chains that start at a free descriptor, the device uses chains it holds; nobody
      checks for room in a ring. */
  predicate CanMove(q: Queue, m: Move) {
    match m
    case Post(head) => head < q.qsize && head !in q.posted && Enabled(q.avail, Write(head))
    case AvailMove(s) => Bookkeeping(s) && Enabled(q.avail, s)
    case Fetch => Enabled(q.avail, Consume)
    case Use(head) => head in q.held && Enabled(q.used, Write(head))
    case UsedMove(s) => Bookkeeping(s) && Enabled(q.used, s)
    case Reclaim => Enabled(q.used, Consume)
  }

  function DoMove(q: Queue, m: Move): Queue
    requires CanMove(q, m) && q.avail.slots != [] && q.used.slots != []
  {
    match m
    case Post(head) => q.(avail := Next(q.avail, Write(head)), posted := q.posted + {head})
    case AvailMove(s) => q.(avail := Next(q.avail, s))
    case Fetch => q.(avail := Next(q.avail, Consume), held := q.held + {Entry(q.avail)})
    case Use(head) => q.(used := Next(q.used, Write(head)), held := q.held - {head})
    case UsedMove(s) => q.(used := Next(q.used, s))
    case Reclaim => q.(used := Next(q.used, Consume), posted := q.posted - {Entry(q.used)})
  }

  /** What is in a channel: written and not consumed. */
  ghost function InChannel(c: Channel): seq<nat>
    requires c.consumed <= |c.written|
  {
    c.written[c.consumed..]
  }

  /** Every posted chain is in exactly one of the available ring, the device's hands and the used ring. */
  ghost predicate Whereabouts(q: Queue)
    requires q.avail.consumed <= |q.avail.written| && q.used.consumed <= |q.used.written|
  {
    var a, u := InChannel(q.avail), InChannel(q.used);
    && NoDup(a) && NoDup(u)
    && SetOf(a) !! q.held && SetOf(a) !! SetOf(u) && q.held !! SetOf(u)
    && q.posted == SetOf(a) + q.held + SetOf(u)
    && (forall h :: h in q.posted ==> h < q.qsize)
  }

  ghost predicate QueueInv(q: Queue) {
    && EventChannel.Inv(q.avail) && EventChannel.Inv(q.used)
    && |q.avail.slots| == |q.used.slots| == q.qsize
    && Whereabouts(q)
  }

  function Idle(qsize: nat): Queue { Queue(qsize, Fresh(qsize), Fresh(qsize), {}, {}) }

  lemma IdleInv(qsize: nat)
    requires 0 < qsize <= 0x8000 && U16 % qsize == 0
    ensures QueueInv(Idle(qsize))
  {
    FreshInv(qsize);
    assert InChannel(Fresh(qsize)) == [];
  }

  // ---- counting ----

  /** A head that is in no ring leaves room in each: neither ring is ever written beyond its length. */
  lemma RoomFor(l: seq<nat>, h: nat, n: nat)
    requires NoDup(l) && h !in l && h < n && forall x :: x in l ==> x < n
    ensures |l| < n
  {
    NoDupCard(l);
    BelowCard(SetOf(l) + {h}, n);
    assert |SetOf(l) + {h}| == |SetOf(l)| + 1;
  }

  lemma SnocNoDup(l: seq<nat>, x: nat)
    requires NoDup(l) && x !in l
    ensures NoDup(l + [x]) && SetOf(l + [x]) == SetOf(l) + {x}
  {
  }

  lemma TailNoDup(l: seq<nat>)
    requires NoDup(l) && l != []
    ensures NoDup(l[1..]) && l[0] !in l[1..] && SetOf(l) == SetOf(l[1..]) + {l[0]}
  {
    var r := l[1..];
    assert forall i :: 0 <= i < |r| ==> r[i] == l[i + 1];
    assert l == [l[0]] + r;
  }

  /** A head that is not in a ring can be written to it. */
  lemma WriteInChannel(c: Channel, x: nat)
    requires EventChannel.Inv(c) && Enabled(c, Write(x)) && NoDup(InChannel(c)) && x !in InChannel(c)
    requires x < |c.slots| && forall h :: h in InChannel(c) ==> h < |c.slots|
    ensures EventChannel.Inv(Next(c, Write(x))) && |Next(c, Write(x)).slots| == |c.slots|
    ensures InChannel(Next(c, Write(x))) == InChannel(c) + [x]
    ensures NoDup(InChannel(c) + [x]) && SetOf(InChannel(c) + [x]) == SetOf(InChannel(c)) + {x}
  {
    RoomFor(InChannel(c), x, |c.slots|);
    SnocNoDup(InChannel(c), x);
    WriteKeeps(c, x);
    hide NoDup, SetOf;
    assert Next(c, Write(x)).written == c.written + [x];
  }

  lemma ConsumeInChannel(c: Channel)
    requires EventChannel.Inv(c) && Enabled(c, Consume)
    ensures InChannel(c) != [] && Entry(c) == InChannel(c)[0] && InChannel(Next(c, Consume)) == InChannel(c)[1..]
  {
    ConsumeKeeps(c);
  }

  lemma BookkeepingInChannel(c: Channel, s: Step)
    requires EventChannel.Inv(c) && Enabled(c, s) && Bookkeeping(s)
    ensures EventChannel.Inv(Next(c, s)) && InChannel(Next(c, s)) == InChannel(c) && |Next(c, s).slots| == |c.slots|
  {
    EventChannel.StepKeeps(c, s);
  }

  // ---- every move ----

  lemma InvCounters(q: Queue)
    requires EventChannel.Inv(q.avail) && EventChannel.Inv(q.used)
    ensures q.avail.consumed <= |q.avail.written| && q.used.consumed <= |q.used.written|
    ensures q.avail.slots != [] && q.used.slots != []
  {
  }

  lemma PostKeeps(q: Queue, h: nat)
    requires QueueInv(q) && CanMove(q, Post(h))
    ensures QueueInv(DoMove(q, Post(h)))
  {
    hide EventChannel.Inv, NoDup, Next, Enabled;
    InvCounters(q);
    var a := InChannel(q.avail);
    assert forall x :: x in a ==> x in SetOf(a);
    WriteInChannel(q.avail, h);
    hide InChannel;
  }

  lemma FetchKeeps(q: Queue)
    requires QueueInv(q) && CanMove(q, Fetch)
    ensures QueueInv(DoMove(q, Fetch))
  {
    EventChannel.StepKeeps(q.avail, Consume);
    ConsumeInChannel(q.avail);
    TailNoDup(InChannel(q.avail));
    hide EventChannel.Inv;
  }

  lemma UseKeeps(q: Queue, h: nat)
    requires QueueInv(q) && CanMove(q, Use(h))
    ensures QueueInv(DoMove(q, Use(h)))
  {
    hide EventChannel.Inv, NoDup, Next, Enabled;
    InvCounters(q);
    var u := InChannel(q.used);
    assert forall x :: x in u ==> x in SetOf(u);
    WriteInChannel(q.used, h);
    hide InChannel;
  }

  /** What the driver takes from the used ring is a chain it has posted. */
  lemma ReclaimKeeps(q: Queue)
    requires QueueInv(q) && CanMove(q, Reclaim)
    ensures QueueInv(DoMove(q, Reclaim)) && Entry(q.used) in q.posted
  {
    EventChannel.StepKeeps(q.used, Consume);
    ConsumeInChannel(q.used);
    TailNoDup(InChannel(q.used));
    hide EventChannel.Inv;
  }

  lemma MoveKeeps(q: Queue, m: Move)
    requires QueueInv(q) && CanMove(q, m)
    ensures QueueInv(DoMove(q, m))
  {
    match m
    case Post(h) => PostKeeps(q, h);
    case AvailMove(s) => BookkeepingInChannel(q.avail, s);
    case Fetch => FetchKeeps(q);
    case Use(h) => UseKeeps(q, h);
    case UsedMove(s) => BookkeepingInChannel(q.used, s);
    case Reclaim => ReclaimKeeps(q);
  }

  ghost predicate CanRun(q: Queue, moves: seq<Move>)
    decreases |moves|
  {
    moves == [] || (CanMove(q, moves[0]) && q.avail.slots != [] && q.used.slots != [] && CanRun(DoMove(q, moves[0]), moves[1..]))
  }

  ghost function Run(q: Queue, moves: seq<Move>): Queue
    requires CanRun(q, moves)
    decreases |moves|
  {
    if moves == [] then q else Run(DoMove(q, moves[0]), moves[1..])
  }

  lemma {:induction false} RunKeeps(q: Queue, moves: seq<Move>)
    requires QueueInv(q) && CanRun(q, moves)
    ensures QueueInv(Run(q, moves))
    decreases |moves|
  {
    hide QueueInv, CanMove, DoMove;
    if moves != [] {
      MoveKeeps(q, moves[0]);
      RunKeeps(DoMove(q, moves[0]), moves[1..]);
    }
  }

  /** A side that is asleep has nothing to do or will be woken. */
  ghost predicate WillWake(c: Channel) {
    c.cons.Asleep? && c.consumed < c.published ==> c.pending || (Enabled(c, Decide) && c.slots != [] && Next(c, Decide).pending)
  }

  lemma Wakes(q: Queue)
    requires QueueInv(q)
    ensures WillWake(q.avail) && WillWake(q.used)
  {
    if q.avail.cons.Asleep? && q.avail.consumed < q.avail.published { NoLostWakeup(q.avail); }
    if q.used.cons.Asleep? && q.used.consumed < q.used.published { NoLostWakeup(q.used); }
  }

  /** Over every interleaving of driver and device from an idle queue: each posted chain is in exactly
      one place, neither ring overflows, and neither side sleeps through the other's entries. */
  lemma EveryRun(qsize: nat, moves: seq<Move>)
    requires 0 < qsize <= 0x8000 && U16 % qsize == 0 && CanRun(Idle(qsize), moves)
    ensures var q := Run(Idle(qsize), moves);
            && QueueInv(q)
            && WillWake(q.avail) && WillWake(q.used)
            && |q.posted| <= qsize
  {
    IdleInv(qsize);
    RunKeeps(Idle(qsize), moves);
    var q := Run(Idle(qsize), moves);
    RunSize(Idle(qsize), moves);
    Wakes(q);
    BelowCard(q.posted, q.qsize);
  }

  lemma {:induction false} RunSize(q: Queue, moves: seq<Move>)
    requires CanRun(q, moves)
    ensures Run(q, moves).qsize == q.qsize
    decreases |moves|
  {
    hide CanMove, Next;
    if moves != [] { RunSize(DoMove(q, moves[0]), moves[1..]); }
  }

  // ---- what each ring sees of a run ----

  function AvailStep(m: Move): seq<Step> {
    match m
    case Post(h) => [Write(h)]
    case AvailMove(s) => [s]
    case Fetch => [Consume]
    case Use(h) => []
    case UsedMove(s) => []
    case Reclaim => []
  }

  function UsedStep(m: Move): seq<Step> {
    match m
    case Post(h) => []
    case AvailMove(s) => []
    case Fetch => []
    case Use(h) => [Write(h)]
    case UsedMove(s) => [s]
    case Reclaim => [Consume]
  }

  function AvailSteps(moves: seq<Move>): seq<Step> {
    if moves == [] then [] else AvailStep(moves[0]) + AvailSteps(moves[1..])
  }

  function UsedSteps(moves: seq<Move>): seq<Step> {
    if moves == [] then [] else UsedStep(moves[0]) + UsedSteps(moves[1..])
  }

  /** The steps are possible, with room for what is written, and lead from one state to the other. */
  ghost predicate Leads(c: Channel, steps: seq<Step>, g: Channel) { CanDo(c, steps) && After(c, steps) == g }

  lemma LeadsNext(c: Channel, first: seq<Step>, d: Channel, rest: seq<Step>, g: Channel)
    requires |first| <= 1 && Leads(c, first, d) && Leads(d, rest, g)
    ensures Leads(c, first + rest, g)
  {
    hide Enabled, Next;
    if first == [] {
      assert first + rest == rest;
    } else {
      assert (first + rest)[1..] == rest && first == [first[0]];
      assert After(c, first) == Next(c, first[0]);
    }
  }

  lemma WriteHasRoom(q: Queue, m: Move)
    requires QueueInv(q) && CanMove(q, m)
    ensures m.Post? ==> |q.avail.written| < q.avail.consumed + |q.avail.slots|
    ensures m.Use? ==> |q.used.written| < q.used.consumed + |q.used.slots|
  {
    hide RingOk, DecidingOk, EventOk, Enabled;
    if m.Post? {
      var a := InChannel(q.avail);
      assert forall x :: x in a ==> x in SetOf(a);
      RoomFor(a, m.head, q.qsize);
    } else if m.Use? {
      var u := InChannel(q.used);
      assert forall x :: x in u ==> x in SetOf(u);
      RoomFor(u, m.head, q.qsize);
    }
  }

  lemma MoveLeads(q: Queue, m: Move)
    requires QueueInv(q) && CanMove(q, m) && q.avail.slots != [] && q.used.slots != []
    ensures Leads(q.avail, AvailStep(m), DoMove(q, m).avail) && Leads(q.used, UsedStep(m), DoMove(q, m).used)
  {
    hide QueueInv, Enabled, Next, Leads;
    WriteHasRoom(q, m);
    NoSteps(q.avail);
    NoSteps(q.used);
    match m
    case Post(h) => OneStep(q.avail, Write(h));
    case AvailMove(s) => OneStep(q.avail, s);
    case Fetch => OneStep(q.avail, Consume);
    case Use(h) => OneStep(q.used, Write(h));
    case UsedMove(s) => OneStep(q.used, s);
    case Reclaim => OneStep(q.used, Consume);
  }

  lemma OneStep(c: Channel, s: Step)
    requires Enabled(c, s) && c.slots != [] && (s.Write? ==> |c.written| < c.consumed + |c.slots|)
    ensures Leads(c, [s], Next(c, s))
  {
    hide Enabled, Next;
    var steps := [s];
    assert steps[0] == s && steps[1..] == [];
    NoSteps(Next(c, s));
    assert CanDo(c, steps);
  }

  lemma {:induction false} RunLeads(q: Queue, moves: seq<Move>)
    requires QueueInv(q) && CanRun(q, moves)
    ensures Leads(q.avail, AvailSteps(moves), Run(q, moves).avail)
    ensures Leads(q.used, UsedSteps(moves), Run(q, moves).used)
    decreases |moves|
  {
    hide QueueInv, CanMove, DoMove, Leads, AvailStep, UsedStep;
    NoSteps(q.avail);
    NoSteps(q.used);
    if moves != [] {
      var m, g, rest := moves[0], DoMove(q, moves[0]), moves[1..];
      AtMostOne(m);
      MoveKeeps(q, m);
      MoveLeads(q, m);
      RunLeads(g, rest);
      LeadsNext(q.avail, AvailStep(m), g.avail, AvailSteps(rest), Run(g, rest).avail);
      LeadsNext(q.used, UsedStep(m), g.used, UsedSteps(rest), Run(g, rest).used);
    }
  }

  lemma NoSteps(c: Channel)
    ensures Leads(c, [], c)
  {
  }

  lemma AtMostOne(m: Move)
    ensures |AvailStep(m)| <= 1 && |UsedStep(m)| <= 1
  {
  }

  /** Over every interleaving from an idle queue, on either ring: a notification is pending if and only if a Decide
      found the event index among the entries it had published, and no wake-up has answered it. */
  lemma NotifiedExact(qsize: nat, moves: seq<Move>)
    requires 0 < qsize <= 0x8000 && U16 % qsize == 0 && CanRun(Idle(qsize), moves)
    ensures CanDo(Fresh(qsize), AvailSteps(moves)) && CanDo(Fresh(qsize), UsedSteps(moves))
    ensures Run(Idle(qsize), moves).avail.pending <==> exists i: nat :: RaisedAt(Fresh(qsize), AvailSteps(moves), i)
    ensures Run(Idle(qsize), moves).used.pending <==> exists i: nat :: RaisedAt(Fresh(qsize), UsedSteps(moves), i)
  {
    hide QueueInv, EventChannel.Inv, CanRun, RaisedAt, AvailSteps, UsedSteps;
    IdleInv(qsize);
    FreshInv(qsize);
    RunLeads(Idle(qsize), moves);
    PendingExact(Fresh(qsize), AvailSteps(moves));
    PendingExact(Fresh(qsize), UsedSteps(moves));
  }

  /** When driver and device have both run out of steps, the device has fetched every published chain
      and the driver has reclaimed every used one: what is still posted is with the device or has not
      been published. */
  lemma QuietQueue(q: Queue)
    requires QueueInv(q)
    requires forall m: Move :: CanMove(q, m) ==> m.Post? || m.Use? || m == AvailMove(Publish) || m == UsedMove(Publish)
                                                 || m == AvailMove(Poll) || m == UsedMove(Poll)
    ensures q.avail.consumed == q.avail.published && q.used.consumed == q.used.published
  {
    assert !CanMove(q, Fetch) && !CanMove(q, Reclaim);
    assert !CanMove(q, AvailMove(Decide)) && !CanMove(q, UsedMove(Decide));
    assert !CanMove(q, AvailMove(Look)) && !CanMove(q, UsedMove(Look));
    assert !CanMove(q, AvailMove(Arm)) && !CanMove(q, UsedMove(Arm));
    assert !CanMove(q, AvailMove(Recheck)) && !CanMove(q, UsedMove(Recheck));
    assert !CanMove(q, AvailMove(Wake)) && !CanMove(q, UsedMove(Wake));
    QuietMeansDone(q.avail);
    QuietMeansDone(q.used);
  }
}
