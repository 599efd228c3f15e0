/** Every run of the early page allocator, and what it hands over to the page allocators of the nodes
    (sys/early_page_allocator.cpp, release_free_pages in sys/early_page_allocator.hpp). */
module EarlyRuns {
  import opened Bits
  import opened Wrappers
  import opened EarlyPages
  import opened EarlySteps
  import Buddy = BuddyModel
  import Invariant = BuddyInvariant
  import Split = BuddyInit
  import Runs = BuddyRuns
  import Touching = BuddyTouching

  datatype Op = DoFree(r: PageRange) | DoAlloc(n: nat, nid: int) | DoRelabel(start: nat, end: nat, nid: int)

  /** The free ranges, the pages ever given to the allocator, and those of them it has handed out. */
  datatype System = System(rs: seq<PageRange>, given: iset<nat>, out: iset<nat>)

  ghost function PagesOf(r: PageRange): iset<nat> { iset p: nat | r.Has(p) }

  /** Clients free pages that are not free, ask for no more pages than lie below the end of the first
      range of the node, and label no stretch that lies strictly inside one range. */
  ghost predicate Legal(sys: System, op: Op) {
    match op
    case DoFree(r) => r.npages > 0 && NoneFree(sys.rs, r.start, r.End()) && r.End() <= 0x100_0000_0000
    case DoAlloc(n, nid) =>
      0 < n < U32 && (FirstMatch(sys.rs, nid) < |sys.rs| ==> n <= sys.rs[FirstMatch(sys.rs, nid)].End())
    case DoRelabel(start, end, nid) => start <= end && NoneAround(sys.rs, start, end)
  }

  /** One call, as written; an allocation that aborts the system changes nothing. */
  ghost function Step(sys: System, op: Op): System
    requires Legal(sys, op)
  {
    match op
    case DoFree(r) => System(FreeRange(sys.rs, r), sys.given + PagesOf(r), sys.out - PagesOf(r))
    case DoAlloc(n, nid) =>
      var a := AllocAsWritten(sys.rs, n, nid);
      if a.None? then sys
      else System(a.value.1, sys.given, sys.out + PagesOf(PageRange(a.value.0, n, nid)))
    case DoRelabel(start, end, nid) => sys.(rs := Relabel(sys.rs, start, end, nid))
  }

  /** Each page given is either free, in exactly one range, or handed out. */
  ghost predicate Conserved(sys: System) {
    forall p: nat :: (p in sys.given <==> Label(sys.rs, p).Some? || p in sys.out)
                  && !(Label(sys.rs, p).Some? && p in sys.out)
  }

  ghost predicate Good(sys: System) { Sorted(sys.rs) && InMemory(sys.rs) && Conserved(sys) }

  /** Free pages within memory stay within it when no new one appears above. */
  lemma MemoryKept(rs: seq<PageRange>, t: seq<PageRange>)
    requires Sorted(rs) && Sorted(t) && InMemory(rs)
    requires forall p: nat :: p >= 0x100_0000_0000 && Label(t, p).Some? ==> Label(rs, p).Some?
    ensures InMemory(t)
  {
    forall i | 0 <= i < |t| ensures t[i].End() <= 0x100_0000_0000 {
      if t[i].End() > 0x100_0000_0000 {
        var p := t[i].End() - 1;
        assert t[i].Has(p);
        LabelAt(t, i, p);
        LabelFound(rs, p);
      }
    }
  }

  lemma FreeStep(sys: System, r: PageRange)
    requires Good(sys) && Legal(sys, DoFree(r))
    ensures Good(Step(sys, DoFree(r))) && (Coalesced(sys.rs) ==> Coalesced(Step(sys, DoFree(r)).rs))
  {
    FreeKeeps(sys.rs, r);
    hide Label, FreeRange, Coalesced, Sorted, InMemory, NoneFree;
    assert forall p: nat :: p in PagesOf(r) <==> r.Has(p);
    assert forall p: nat :: r.Has(p) ==> Label(sys.rs, p).None? by { NotFree(sys.rs, r); }
    MemoryKept(sys.rs, FreeRange(sys.rs, r));
  }

  lemma NotFree(rs: seq<PageRange>, r: PageRange)
    requires NoneFree(rs, r.start, r.End())
    ensures forall p: nat :: r.Has(p) ==> Label(rs, p).None?
  {
  }

  lemma AllocStep(sys: System, n: nat, nid: int)
    requires Good(sys) && Legal(sys, DoAlloc(n, nid))
    ensures Good(Step(sys, DoAlloc(n, nid))) && (Coalesced(sys.rs) ==> Coalesced(Step(sys, DoAlloc(n, nid)).rs))
  {
    AllocExact(sys.rs, n, nid);
    AllocKeeps(sys.rs, n, nid);
    hide Label, AllocAsWritten, AllocFit, Coalesced, Sorted, InMemory, FirstMatch;
    var a := AllocAsWritten(sys.rs, n, nid);
    if a.Some? {
      var (ret, t) := a.value;
      assert forall p: nat :: p in PagesOf(PageRange(ret, n, nid)) <==> ret <= p < ret + n;
      MemoryKept(sys.rs, t);
    }
  }

  lemma RelabelStep(sys: System, start: nat, end: nat, nid: int)
    requires Good(sys) && Legal(sys, DoRelabel(start, end, nid))
    ensures Good(Step(sys, DoRelabel(start, end, nid)))
  {
    assert StartAt(sys.rs, 0);
    RelabelSorted(sys.rs, start, end, nid, 0);
    var t := Relabel(sys.rs, start, end, nid);
    hide Label, Relabel, Sorted, InMemory, NoneAround;
    forall p: nat ensures Label(t, p).Some? <==> Label(sys.rs, p).Some? {
      FreeAfter(sys.rs, start, end, nid, p);
    }
    MemoryKept(sys.rs, t);
    assert Conserved(Step(sys, DoRelabel(start, end, nid)));
  }

  lemma StepKeeps(sys: System, op: Op)
    requires Good(sys) && Legal(sys, op)
    ensures Good(Step(sys, op)) && (!op.DoRelabel? && Coalesced(sys.rs) ==> Coalesced(Step(sys, op).rs))
  {
    match op
    case DoFree(r) => FreeStep(sys, r);
    case DoAlloc(n, nid) => AllocStep(sys, n, nid);
    case DoRelabel(start, end, nid) => RelabelStep(sys, start, end, nid);
  }

  ghost predicate LegalRun(sys: System, ops: seq<Op>)
    decreases |ops|
  {
    ops == [] || (Legal(sys, ops[0]) && LegalRun(Step(sys, ops[0]), ops[1..]))
  }

  ghost function Run(sys: System, ops: seq<Op>): System
    requires LegalRun(sys, ops)
    decreases |ops|
  {
    if ops == [] then sys else Run(Step(sys, ops[0]), ops[1..])
  }

  ghost predicate NoRelabel(ops: seq<Op>) {
    forall i :: 0 <= i < |ops| ==> !ops[i].DoRelabel?
  }

  lemma {:induction false} RunKeeps(sys: System, ops: seq<Op>)
    requires Good(sys) && LegalRun(sys, ops)
    ensures Good(Run(sys, ops)) && (NoRelabel(ops) && Coalesced(sys.rs) ==> Coalesced(Run(sys, ops).rs))
    decreases |ops|
  {
    hide Good, Legal, Step, Coalesced;
    if ops != [] {
      StepKeeps(sys, ops[0]);
      RunKeeps(Step(sys, ops[0]), ops[1..]);
    }
  }

  ghost const START := System([], iset{}, iset{})

  /** Over every run from an empty set: the free ranges are sorted and disjoint, every page given is free or
      handed out but not both, and as long as nothing was labelled no two ranges touch. */
  lemma EveryRun(ops: seq<Op>)
    requires LegalRun(START, ops)
    ensures var sys := Run(START, ops);
            Sorted(sys.rs) && Conserved(sys) && (NoRelabel(ops) ==> Coalesced(sys.rs))
  {
    assert Good(START) && Coalesced(START.rs);
    RunKeeps(START, ops);
  }

  // ---- the hand-over to the page allocators ----

  /** The calls of release_free_pages that go to one node. */
  function OfNode(rs: seq<PageRange>, nid: int): seq<Runs.Range> {
    if rs == [] then []
    else (if rs[0].nid == nid then [Runs.Range(rs[0].start, rs[0].End())] else []) + OfNode(rs[1..], nid)
  }

  ghost predicate InOrder(t: seq<Runs.Range>, lo: nat, gap: nat) {
    && (forall i :: 0 <= i < |t| ==> lo <= t[i].start < t[i].end)
    && (forall i, j :: 0 <= i < j < |t| ==> t[i].end + gap <= t[j].start)
  }

  lemma InOrderCons(r: Runs.Range, t: seq<Runs.Range>, lo: nat, gap: nat)
    requires lo <= r.start < r.end && InOrder(t, r.end + gap, gap)
    ensures InOrder([r] + t, lo, gap)
  {
    var u := [r] + t;
    assert u[0] == r && forall i :: 0 < i < |u| ==> u[i] == t[i - 1];
  }

  /** The ranges of a node are some of the ranges, in their order. */
  lemma {:induction false} OfNodeOrder(rs: seq<PageRange>, nid: int, lo: nat, gap: nat)
    requires Ordered(rs, gap) && NotEmpty(rs) && StartAt(rs, lo)
    ensures InOrder(OfNode(rs, nid), lo, gap)
    decreases |rs|
  {
    if rs != [] {
      hide Ordered, NotEmpty, StartAt, InOrder;
      var next := rs[0].End() + gap;
      RestInOrder(rs, lo, gap);
      OfNodeOrder(rs[1..], nid, next, gap);
      if rs[0].nid == nid {
        InOrderCons(Runs.Range(rs[0].start, rs[0].End()), OfNode(rs[1..], nid), lo, gap);
      } else {
        assert OfNode(rs, nid) == OfNode(rs[1..], nid);
        InOrderBelow(OfNode(rs, nid), next, lo, gap);
      }
    } else {
      NothingInOrder(lo, gap);
    }
  }

  lemma RestInOrder(rs: seq<PageRange>, lo: nat, gap: nat)
    requires Ordered(rs, gap) && NotEmpty(rs) && StartAt(rs, lo) && rs != []
    ensures Ordered(rs[1..], gap) && NotEmpty(rs[1..]) && StartAt(rs[1..], rs[0].End() + gap)
    ensures lo <= rs[0].start < rs[0].End()
  {
  }

  lemma InOrderBelow(t: seq<Runs.Range>, next: nat, lo: nat, gap: nat)
    requires InOrder(t, next, gap) && lo <= next
    ensures InOrder(t, lo, gap)
  {
  }

  lemma NothingInOrder(lo: nat, gap: nat)
    ensures InOrder([], lo, gap)
  {
  }

  lemma HeadOnly(rs: seq<PageRange>, p: nat)
    requires Sorted(rs) && rs != [] && rs[0].Has(p)
    ensures Label(rs[1..], p).None?
  {
    LabelFound(rs[1..], p);
  }

  ghost predicate Holds(t: seq<Runs.Range>, p: nat) {
    exists i :: 0 <= i < |t| && Split.Within(p, t[i].start, t[i].end)
  }

  lemma HoldsCons(r: Runs.Range, rest: seq<Runs.Range>, p: nat)
    ensures Holds([r] + rest, p) <==> Split.Within(p, r.start, r.end) || Holds(rest, p)
  {
    var t := [r] + rest;
    assert t[0] == r;
    if Holds(rest, p) {
      var i :| 0 <= i < |rest| && Split.Within(p, rest[i].start, rest[i].end);
      assert t[i + 1] == rest[i];
    }
  }

  lemma {:induction false} OfNodePages(rs: seq<PageRange>, nid: int, p: nat)
    requires Sorted(rs)
    ensures Holds(OfNode(rs, nid), p) <==> Label(rs, p) == Some(nid)
    decreases |rs|
  {
    if rs != [] {
      OfNodePages(rs[1..], nid, p);
      if rs[0].Has(p) { HeadOnly(rs, p); }
      if rs[0].nid == nid {
        HoldsCons(Runs.Range(rs[0].start, rs[0].End()), OfNode(rs[1..], nid), p);
      } else {
        assert OfNode(rs, nid) == OfNode(rs[1..], nid);
      }
    }
  }

  /** The ranges that a node gets hold exactly its free pages, and meet nowhere without relabelling. */
  lemma NodeRanges(ops: seq<Op>, nid: int)
    requires LegalRun(START, ops)
    ensures var rs := Run(START, ops).rs;
            var ranges := OfNode(rs, nid);
            && Runs.RangesOk(ranges)
            && (forall p: nat :: p in Runs.Frames(ranges) <==> Label(rs, p) == Some(nid))
            && (NoRelabel(ops) ==> Touching.NoneMeet(ranges))
  {
    EveryRun(ops);
    var rs := Run(START, ops).rs;
    var ranges := OfNode(rs, nid);
    SortedIs(rs);
    assert StartAt(rs, 0);
    hide Sorted, Coalesced, Ordered, NotEmpty, StartAt, Label, LegalRun, Run, OfNode, Runs.Frames, Touching.NoneMeet;
    OfNodeOrder(rs, nid, 0, 0);
    if NoRelabel(ops) {
      OfNodeOrder(rs, nid, 0, 1);
      Touching.GapsMeetNowhere(ranges);
    }
    forall p: nat ensures p in Runs.Frames(ranges) <==> Label(rs, p) == Some(nid) {
      Runs.FramesHas(ranges, p);
      OfNodePages(rs, nid, p);
    }
  }

  /** From boot to run time: after any run of the early allocator, the page allocator of each node starts
      with exactly the free pages of that node, each in one aligned free block. Free buddies coexist exactly if
      two of the node's ranges meet, which they never do without relabelling. */
  lemma HandOver(ops: seq<Op>, nid: int, frames: map<nat, Buddy.Page>)
    requires LegalRun(START, ops)
    requires forall f :: f in frames ==> frames[f].usage == Buddy.Reserved
    requires forall p: nat :: Label(Run(START, ops).rs, p) == Some(nid) ==> p in frames
    ensures var rs := Run(START, ops).rs;
            var ranges := OfNode(rs, nid);
            && Runs.RangesOk(ranges)
            && (forall p: nat :: p in Runs.Frames(ranges) <==> Label(rs, p) == Some(nid))
            && Invariant.Inv(Runs.Init(Runs.Empty(frames), ranges), {}, {}, Runs.Frames(ranges))
            && (Buddy.NoBuddies(Buddy.FreeSet(Runs.Init(Runs.Empty(frames), ranges))) <==> Touching.NoneMeet(ranges))
            && (NoRelabel(ops) ==> Touching.NoneMeet(ranges))
  {
    NodeRanges(ops, nid);
    var ranges := OfNode(Run(START, ops).rs, nid);
    assert Runs.Frames(ranges) <= frames.Keys;
    assert forall f :: f in frames ==> frames[f].usage == Buddy.Reserved;
    hide *;
    Runs.InitKeeps(frames, ranges);
    Touching.InitBuddiesExact(frames, ranges);
  }
}
