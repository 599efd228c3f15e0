/** The F_WRITE flag over whole runs: add_writable_buffers sets it, and nothing ever clears it (class vring in
    sys/virtio.hpp). */
module VirtioFlags {
  import opened Bits
  import opened Sequences
  import opened VringModel
  import opened VringProofs
  import opened Vring
  import opened VirtioSystem
  import EventChannel
  import Protocol = VirtioProtocol

  /** The descriptors that an act takes for buffers the device writes. */
  ghost function TakenForWriting(s: State, a: Act): set<nat> {
    if a.PostList? && a.write && |a.bufs| <= |s.free| then SetOf(s.free[..|a.bufs|]) else {}
  }

  /** Those that a run takes so, at any time. */
  ghost function WrittenIn(s: State, acts: seq<Act>): set<nat>
    requires CanRun(s, acts)
    decreases |acts|
  {
    if acts == [] then {} else TakenForWriting(s, acts[0]) + WrittenIn(Do(s, acts[0]), acts[1..])
  }

  /** A descriptor of t carries the flag exactly if it carried it in s or is one of `more`. */
  ghost predicate FlagsGrow(s: Table, t: Table, more: set<nat>) {
    && |t.desc| == |s.desc|
    && forall d: nat :: d < |s.desc| ==> (t.desc[d].isWrite <==> s.desc[d].isWrite || d in more)
  }

  lemma AddFlags(t: Table, free: seq<nat>, bufs: seq<Buffer>, write: bool)
    requires LinksInBounds(t) && FreeOk(t, free) && NoDup(free) && 0 < |bufs| <= t.freeCount
    ensures FlagsGrow(t, Add(t, bufs, write), if write then SetOf(free[..|bufs|]) else {})
  {
    hide Add, NoDup, LinksInBounds;
    AddFields(t, free, bufs, write);
    var n, g := |bufs|, Add(t, bufs, write);
    forall d: nat | d < |t.desc|
      ensures g.desc[d].isWrite <==> t.desc[d].isWrite || (write && d in free[..n])
    {
      if d in free[..n] {
        var k :| 0 <= k < n && free[..n][k] == d;
        assert free[k] == d;
      }
    }
  }

  lemma PostingFlags(s: State, bufs: seq<Buffer>, write: bool)
    requires Agree(s) && Can(s, PostList(bufs, write))
    ensures Ready(s) && FlagsGrow(s.t, Do(s, PostList(bufs, write)).t, TakenForWriting(s, PostList(bufs, write)))
  {
    hide FlagsGrow, Add, Protocol.QueueInv;
    AgreeIsReady(s);
    FreeChain(s.t, s.free, s.posted, s.whereIs);
    AddFlags(s.t, s.free, bufs, write);
  }

  lemma FreeChain(t: Table, free: seq<nat>, posted: map<nat, Posted>, whereIs: seq<Where>)
    requires VringModel.Inv(t, free, posted, whereIs)
    ensures LinksInBounds(t) && FreeOk(t, free) && NoDup(free)
  {
  }

  lemma ReclaimFlags(t: Table, id: nat, last: nat, len: nat)
    ensures FlagsGrow(t, Reclaim(t, id, last, len), {})
  {
  }

  lemma TakingFlags(s: State)
    requires Can(s, TakeBack) && Ready(s)
    ensures FlagsGrow(s.t, Do(s, TakeBack).t, {})
  {
    hide Walk, Shown, Reclaim, EventChannel.Next;
    var chain := Walk(s.t.desc, EventChannel.Entry(s.rings.used), |s.t.desc|);
    if chain != [] { ReclaimFlags(s.t, EventChannel.Entry(s.rings.used), chain[|chain| - 1], |chain|); }
  }

  lemma ActFlags(s: State, a: Act)
    requires Good(s) && Can(s, a)
    ensures Ready(s) && FlagsGrow(s.t, Do(s, a).t, TakenForWriting(s, a))
  {
    hide Agree, Ledger;
    AgreeIsReady(s);
    match a
    case PostList(bufs, write) => PostingFlags(s, bufs, write);
    case RingMove(m) =>
    case TakeBack => TakingFlags(s);
  }

  lemma GrowTwice(a: Table, b: Table, c: Table, x: set<nat>, y: set<nat>)
    requires FlagsGrow(a, b, x) && FlagsGrow(b, c, y)
    ensures FlagsGrow(a, c, x + y)
  {
  }

  lemma {:induction false} RunFlags(s: State, acts: seq<Act>)
    requires Good(s) && CanRun(s, acts)
    ensures FlagsGrow(s.t, Run(s, acts).t, WrittenIn(s, acts))
    decreases |acts|
  {
    hide Good, Can, Do, TakenForWriting, FlagsGrow;
    if acts == [] {
      NoneGrow(s.t);
    } else {
      ActKeeps(s, acts[0]);
      ActFlags(s, acts[0]);
      var next := Do(s, acts[0]);
      RunFlags(next, acts[1..]);
      GrowTwice(s.t, next.t, Run(next, acts[1..]).t, TakenForWriting(s, acts[0]), WrittenIn(next, acts[1..]));
    }
  }

  lemma NoneGrow(t: Table)
    ensures FlagsGrow(t, t, {})
  {
  }

  /** Over every run from an idle queue: a descriptor carries F_WRITE if and only if it was ever taken for a list
      that the device writes. So does each descriptor of a readable list that is posted then. */
  lemma ReadableCarriesWrite(qsize: nat, acts: seq<Act>, bufs: seq<Buffer>)
    requires 0 < qsize <= 0x8000 && U16 % qsize == 0 && CanRun(Start(qsize), acts)
    requires Can(Run(Start(qsize), acts), PostList(bufs, false))
    ensures var s := Run(Start(qsize), acts);
            var written := WrittenIn(Start(qsize), acts);
            && |s.t.desc| == qsize && (forall d: nat :: d < qsize ==> (s.t.desc[d].isWrite <==> d in written))
            && Ready(s) && |bufs| <= |s.free|
            && var t := Do(s, PostList(bufs, false));
               && |t.t.desc| == qsize && s.t.freeHead in t.posted && t.posted[s.t.freeHead].chain == s.free[..|bufs|]
               && forall k :: 0 <= k < |bufs| ==>
                    s.free[k] < qsize && (t.t.desc[s.free[k]].isWrite <==> s.free[k] in written)
  {
    StartIsGood(qsize);
    hide Good, Can, CanRun, Run, Do, WrittenIn, TakenForWriting;
    RunKeeps(Start(qsize), acts);
    RunFlags(Start(qsize), acts);
    var s := Run(Start(qsize), acts);
    ActFlags(s, PostList(bufs, false));
    PostedChainIs(s, bufs);
  }

  lemma PostedChainIs(s: State, bufs: seq<Buffer>)
    requires Good(s) && Can(s, PostList(bufs, false))
    ensures Ready(s) && |bufs| <= |s.free| && TakenForWriting(s, PostList(bufs, false)) == {}
    ensures var t := Do(s, PostList(bufs, false));
            s.t.freeHead in t.posted && t.posted[s.t.freeHead].chain == s.free[..|bufs|]
    ensures forall k :: 0 <= k < |bufs| ==> s.free[k] < |s.t.desc|
  {
    AgreeIsReady(s);
    FreeChain(s.t, s.free, s.posted, s.whereIs);
    hide Good, Add;
  }
}
