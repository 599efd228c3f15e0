/** Driver and device over one virtqueue in one state: the descriptor table, both rings, and the lists of
    buffers that go out and come back (class vring in sys/virtio.hpp). */
module VirtioSystem {
  import opened Bits
  import opened Sequences
  import opened VringModel
  import opened VringProofs
  import opened Vring
  import EventChannel
  import Protocol = VirtioProtocol

  /** `sent` are all lists that were ever posted, in order; `serial` tells which of them a posted chain holds;
      `lists` are the lists handed back, and `back` says which of `sent` each of them should be. */
  datatype State = State(rings: Protocol.Queue, t: Table, free: seq<nat>, posted: map<nat, Posted>, whereIs: seq<Where>,
                         sent: seq<seq<Buffer>>, serial: map<nat, nat>, lists: seq<seq<Buffer>>, back: seq<nat>)

  datatype Act =
    | PostList(bufs: seq<Buffer>, write: bool)
    | RingMove(m: Protocol.Move)
    | TakeBack

  /** The driver looks at the number of free descriptors, and at the used ring; it does not check that the head
      it takes is free, nor that the device names a chain it was given. */
  predicate Can(s: State, a: Act) {
    match a
    case PostList(bufs, write) =>
      0 < |bufs| <= s.t.freeCount && EventChannel.Enabled(s.rings.avail, EventChannel.Write(s.t.freeHead))
    case RingMove(m) => !m.Post? && !m.Reclaim? && Protocol.CanMove(s.rings, m)
    case TakeBack => EventChannel.Enabled(s.rings.used, EventChannel.Consume)
  }

  function Shown(desc: seq<Desc>, chain: seq<nat>): (r: seq<Buffer>)
    ensures |r| == |chain|
  {
    seq(|chain|, i requires 0 <= i < |chain| => if chain[i] < |desc| then BufferAt(desc[chain[i]]) else Buffer(0, 0))
  }

  /** A list that is not empty: a chain from the old free head, put on the available ring. */
  ghost function Posting(s: State, bufs: seq<Buffer>, write: bool): State
    requires Can(s, PostList(bufs, write)) && s.rings.avail.slots != [] && |bufs| <= |s.free|
  {
    var head, chain := s.t.freeHead, s.free[..|bufs|];
    State(s.rings.(avail := EventChannel.Next(s.rings.avail, EventChannel.Write(head)),
                   posted := s.rings.posted + {head}),
          Add(s.t, bufs, write), s.free[|bufs|..], s.posted[head := Posted(chain, bufs)],
          Assign(s.whereIs, chain, InChain(head)),
          s.sent + [bufs], s.serial[head := |s.sent|], s.lists, s.back)
  }

  /** The next entry of the used ring: the chain it names is walked, handed over and linked back. */
  ghost function Taking(s: State): State
    requires Can(s, TakeBack) && s.rings.used.slots != []
  {
    var id := EventChannel.Entry(s.rings.used);
    var chain := Walk(s.t.desc, id, |s.t.desc|);
    if chain == [] || id !in s.serial then s
    else
      State(s.rings.(used := EventChannel.Next(s.rings.used, EventChannel.Consume), posted := s.rings.posted - {id}),
            Reclaim(s.t, id, chain[|chain| - 1], |chain|), chain + s.free, s.posted - {id},
            Assign(s.whereIs, chain, Free), s.sent, s.serial - {id}, s.lists + [Shown(s.t.desc, chain)], s.back + [s.serial[id]])
  }

  ghost predicate Ready(s: State) {
    s.rings.avail.slots != [] && s.rings.used.slots != [] && |s.free| == s.t.freeCount
  }

  ghost function Do(s: State, a: Act): State
    requires Can(s, a) && Ready(s)
  {
    match a
    case PostList(bufs, write) => Posting(s, bufs, write)
    case RingMove(m) => s.(rings := Protocol.DoMove(s.rings, m))
    case TakeBack => Taking(s)
  }

  // ---- what every act keeps ----

  /** The descriptor table and the rings agree on what is posted. */
  ghost predicate Agree(s: State) {
    && Protocol.QueueInv(s.rings) && VringModel.Inv(s.t, s.free, s.posted, s.whereIs)
    && |s.t.desc| == s.rings.qsize && s.posted.Keys == s.rings.posted
  }

  /** Each posted chain holds one of the lists, and no two hold the same. */
  ghost predicate Serials(posted: map<nat, Posted>, sent: seq<seq<Buffer>>, serial: map<nat, nat>) {
    && serial.Keys == posted.Keys
    && (forall h :: h in serial ==> serial[h] < |sent| && sent[serial[h]] == posted[h].bufs)
    && (forall g, h :: g in serial && h in serial && serial[g] == serial[h] ==> g == h)
  }

  /** Each list handed back is one that was posted, its own buffers, and no list comes back twice. */
  ghost predicate Returns(sent: seq<seq<Buffer>>, lists: seq<seq<Buffer>>, back: seq<nat>) {
    && |lists| == |back| && NoDup(back)
    && (forall j :: 0 <= j < |back| ==> back[j] < |sent| && lists[j] == Received(sent[back[j]]))
  }

  /** Each list is either with a chain or back. */
  ghost predicate Accounted(sent: seq<seq<Buffer>>, serial: map<nat, nat>, back: seq<nat>) {
    && (forall h :: h in serial ==> serial[h] !in back)
    && (forall i: nat :: i < |sent| ==> i in back || exists h :: h in serial && serial[h] == i)
  }

  ghost predicate Ledger(s: State) {
    && Serials(s.posted, s.sent, s.serial) && Returns(s.sent, s.lists, s.back)
    && Accounted(s.sent, s.serial, s.back)
  }

  ghost predicate Good(s: State) {
    Agree(s) && Ledger(s)
  }

  lemma AgreeIsReady(s: State)
    requires Agree(s)
    ensures Ready(s)
  {
  }

  /** What the driver checks is that the free chain has as many descriptors as the list has buffers. */
  lemma PostingPossible(s: State, bufs: seq<Buffer>, write: bool)
    requires Agree(s)
    ensures Can(s, PostList(bufs, write)) <==> bufs != [] && |bufs| <= |s.free| && s.rings.avail.prod.Filling?
  {
  }

  /** The free head is no posted chain's, so posting is a move of the rings. */
  lemma PostingAgrees(s: State, bufs: seq<Buffer>, write: bool)
    requires Agree(s) && Can(s, PostList(bufs, write))
    ensures |bufs| <= |s.free| && s.rings.avail.slots != [] && s.t.freeHead !in s.posted
    ensures Agree(Posting(s, bufs, write))
  {
    AgreeIsReady(s);
    AddKeeps(s.t, s.free, s.posted, s.whereIs, bufs, write);
    HeadInTable(s.t, s.free, s.posted, s.whereIs, bufs, write);
    hide VringModel.Inv, Protocol.QueueInv, Add;
    Protocol.MoveKeeps(s.rings, Protocol.Post(s.t.freeHead));
  }

  lemma HeadInTable(t: Table, free: seq<nat>, posted: map<nat, Posted>, whereIs: seq<Where>, bufs: seq<Buffer>,
                    write: bool)
    requires VringModel.Inv(t, free, posted, whereIs) && 0 < |bufs| <= t.freeCount
    ensures t.freeHead < |t.desc| && |Add(t, bufs, write).desc| == |t.desc|
  {
    AddFields(t, free, bufs, write);
    hide Add;
  }

  /** What the device names on the used ring is a posted chain, and the walk along it sees that chain. */
  lemma EntryIsPosted(s: State)
    requires Agree(s) && Can(s, TakeBack)
    ensures s.rings.used.slots != []
    ensures var id := EventChannel.Entry(s.rings.used);
            && id in s.posted && Walk(s.t.desc, id, |s.t.desc|) == s.posted[id].chain != []
            && Shown(s.t.desc, s.posted[id].chain) == Received(s.posted[id].bufs)
  {
    AgreeIsReady(s);
    hide VringModel.Inv, Protocol.QueueInv;
    Protocol.ReclaimKeeps(s.rings);
    var id := EventChannel.Entry(s.rings.used);
    ReceivedArePosted(s.t, s.free, s.posted, s.whereIs, id);
    PostedChain(s.t, s.free, s.posted, s.whereIs, id);
    hide Walk;
  }

  lemma TakingAgrees(s: State)
    requires Agree(s) && Can(s, TakeBack) && s.serial.Keys == s.posted.Keys
    ensures s.rings.used.slots != [] && Agree(Taking(s))
  {
    hide VringModel.Inv, Protocol.QueueInv, Walk, Shown, Reclaim;
    EntryIsPosted(s);
    var id := EventChannel.Entry(s.rings.used);
    Protocol.ReclaimKeeps(s.rings);
    VringProofs.ReclaimKeeps(s.t, s.free, s.posted, s.whereIs, id);
    ReclaimLength(s.t, id, s.posted[id].chain[|s.posted[id].chain| - 1], |s.posted[id].chain|);
  }

  lemma OneMore(sent: seq<seq<Buffer>>, bufs: seq<Buffer>, lists: seq<seq<Buffer>>, back: seq<nat>)
    requires Returns(sent, lists, back)
    ensures Returns(sent + [bufs], lists, back) && |sent| !in back
  {
    hide Received;
  }

  lemma PostedSerial(posted: map<nat, Posted>, sent: seq<seq<Buffer>>, serial: map<nat, nat>, head: nat, p: Posted)
    requires Serials(posted, sent, serial) && head !in posted
    ensures Serials(posted[head := p], sent + [p.bufs], serial[head := |sent|])
  {
  }

  lemma PostedAccounted(sent: seq<seq<Buffer>>, bufs: seq<Buffer>, serial: map<nat, nat>, back: seq<nat>, head: nat)
    requires Accounted(sent, serial, back) && head !in serial && |sent| !in back
    ensures Accounted(sent + [bufs], serial[head := |sent|], back)
  {
    var after := serial[head := |sent|];
    forall i: nat | i <= |sent| && i !in back ensures exists h :: h in after && after[h] == i {
      if i == |sent| {
        assert after[head] == i;
      } else {
        var h :| h in serial && serial[h] == i;
        assert after[h] == i;
      }
    }
  }

  lemma PostingLedger(s: State, bufs: seq<Buffer>, write: bool)
    requires Good(s) && Can(s, PostList(bufs, write))
    ensures |bufs| <= |s.free| && s.rings.avail.slots != [] && Ledger(Posting(s, bufs, write))
  {
    PostingAgrees(s, bufs, write);
    OneMore(s.sent, bufs, s.lists, s.back);
    PostedSerial(s.posted, s.sent, s.serial, s.t.freeHead, Posted(s.free[..|bufs|], bufs));
    assert s.t.freeHead !in s.serial;
    hide Agree, Add, Assign, Serials, Returns, Accounted;
    PostedAccounted(s.sent, bufs, s.serial, s.back, s.t.freeHead);
  }

  lemma OneBack(sent: seq<seq<Buffer>>, lists: seq<seq<Buffer>>, back: seq<nat>, i: nat)
    requires Returns(sent, lists, back) && i < |sent| && i !in back
    ensures Returns(sent, lists + [Received(sent[i])], back + [i])
  {
    hide Received;
  }

  lemma TakenSerial(posted: map<nat, Posted>, sent: seq<seq<Buffer>>, serial: map<nat, nat>, id: nat)
    requires Serials(posted, sent, serial) && id in serial
    ensures Serials(posted - {id}, sent, serial - {id})
  {
  }

  lemma TakenAccounted(posted: map<nat, Posted>, sent: seq<seq<Buffer>>, serial: map<nat, nat>, back: seq<nat>, id: nat)
    requires Serials(posted, sent, serial) && Accounted(sent, serial, back) && id in serial
    ensures Accounted(sent, serial - {id}, back + [serial[id]])
  {
    var rest, more := serial - {id}, back + [serial[id]];
    forall i: nat | i < |sent| && i !in more ensures exists h :: h in rest && rest[h] == i {
      assert forall x :: x in back ==> x in more;
      var h :| h in serial && serial[h] == i;
      assert more[|back|] == serial[id];
      assert rest[h] == i;
    }
  }

  lemma TakingLedger(s: State)
    requires Good(s) && Can(s, TakeBack)
    ensures s.rings.used.slots != [] && Ledger(Taking(s))
  {
    EntryIsPosted(s);
    var id := EventChannel.Entry(s.rings.used);
    assert id in s.serial && s.serial[id] < |s.sent| && s.serial[id] !in s.back;
    assert s.sent[s.serial[id]] == s.posted[id].bufs;
    hide Agree, Walk, Shown, Reclaim, Assign, Received, Serials, Returns, Accounted;
    OneBack(s.sent, s.lists, s.back, s.serial[id]);
    TakenSerial(s.posted, s.sent, s.serial, id);
    TakenAccounted(s.posted, s.sent, s.serial, s.back, id);
  }

  lemma ActKeeps(s: State, a: Act)
    requires Good(s) && Can(s, a)
    ensures Ready(s) && Good(Do(s, a))
  {
    AgreeIsReady(s);
    match a
    case PostList(bufs, write) =>
      PostingAgrees(s, bufs, write);
      PostingLedger(s, bufs, write);
    case RingMove(m) => RingMoveKeeps(s, m);
    case TakeBack =>
      TakingAgrees(s);
      TakingLedger(s);
  }

  lemma SamePosted(q: Protocol.Queue, m: Protocol.Move)
    requires Protocol.CanMove(q, m) && q.avail.slots != [] && q.used.slots != [] && !m.Post? && !m.Reclaim?
    ensures Protocol.DoMove(q, m).posted == q.posted && Protocol.DoMove(q, m).qsize == q.qsize
  {
    hide EventChannel.Next, EventChannel.Enabled;
  }

  lemma RingMoveKeeps(s: State, m: Protocol.Move)
    requires Good(s) && Can(s, RingMove(m))
    ensures Ready(s) && Good(Do(s, RingMove(m)))
  {
    AgreeIsReady(s);
    SamePosted(s.rings, m);
    hide Protocol.QueueInv, Protocol.CanMove, Protocol.DoMove, VringModel.Inv, Ledger;
    Protocol.MoveKeeps(s.rings, m);
    LedgerOnly(s, s.(rings := Protocol.DoMove(s.rings, m)));
  }

  lemma LedgerOnly(s: State, t: State)
    requires Ledger(s) && t == s.(rings := t.rings)
    ensures Ledger(t)
  {
    hide Serials, Returns, Accounted;
  }

  // ---- every run ----

  ghost predicate CanRun(s: State, acts: seq<Act>)
    decreases |acts|
  {
    acts == [] || (Can(s, acts[0]) && Ready(s) && CanRun(Do(s, acts[0]), acts[1..]))
  }

  ghost function Run(s: State, acts: seq<Act>): State
    requires CanRun(s, acts)
    decreases |acts|
  {
    if acts == [] then s else Run(Do(s, acts[0]), acts[1..])
  }

  lemma {:induction false} RunKeeps(s: State, acts: seq<Act>)
    requires Good(s) && CanRun(s, acts)
    ensures Good(Run(s, acts))
    decreases |acts|
  {
    hide Good, Can, Do;
    if acts != [] {
      ActKeeps(s, acts[0]);
      RunKeeps(Do(s, acts[0]), acts[1..]);
    }
  }

  function Start(qsize: nat): State
    requires qsize > 0
  {
    State(Protocol.Idle(qsize), Initial(qsize), seq(qsize, i => i), map[], seq(qsize, i => Free), [], map[], [], [])
  }

  lemma StartIsGood(qsize: nat)
    requires 0 < qsize <= 0x8000 && U16 % qsize == 0
    ensures Good(Start(qsize))
  {
    Protocol.IdleInv(qsize);
    InitialInv(qsize);
    hide Protocol.QueueInv, VringModel.Inv;
  }

  /** Over every run of driver and device on one queue: the free chain and the posted chains partition the
      descriptors, each posted chain is in exactly one of the available ring, the device's hands and the used
      ring, every list posted is held by one chain or was handed back exactly once with its own buffers, and
      neither side sleeps through the other's entries. When no chain is posted, all descriptors are free and
      every list has come back. */
  lemma EveryRun(qsize: nat, acts: seq<Act>)
    requires 0 < qsize <= 0x8000 && U16 % qsize == 0 && CanRun(Start(qsize), acts)
    ensures var s := Run(Start(qsize), acts);
            && VringModel.Inv(s.t, s.free, s.posted, s.whereIs)
            && Protocol.QueueInv(s.rings) && s.rings.posted == s.posted.Keys
            && Protocol.WillWake(s.rings.avail) && Protocol.WillWake(s.rings.used)
            && Ledger(s)
            && (s.posted == map[] ==>
                  && (forall d: nat :: d < |s.t.desc| ==> d in s.free)
                  && (forall i: nat :: i < |s.sent| ==> i in s.back))
  {
    StartIsGood(qsize);
    RunKeeps(Start(qsize), acts);
    var s := Run(Start(qsize), acts);
    Protocol.Wakes(s.rings);
    if s.posted == map[] { NothingPosted(s); }
  }

  lemma NothingPosted(s: State)
    requires Good(s) && s.posted == map[]
    ensures forall d: nat :: d < |s.t.desc| ==> d in s.free
    ensures forall i: nat :: i < |s.sent| ==> i in s.back
  {
    forall d: nat | d < |s.t.desc| ensures d in s.free {
      assert s.whereIs[d].Free?;
    }
  }
}
