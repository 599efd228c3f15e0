/** Every run of the page allocator, from `Init` on (sys/page_allocator.cpp). */
module BuddyRuns {
  import opened Bits
  import opened Wrappers
  import opened BuddyModel
  import opened BuddyInvariant
  import opened BuddySteps
  import opened BuddyFree
  import opened BuddyCoalesced
  import opened BuddyInit

  // ---- Init over all the ranges that the early allocator hands over ----

  datatype Range = Range(start: nat, end: nat)

  /** Ranges in ascending order, not empty, not overlapping. */
  ghost predicate RangesOk(ranges: seq<Range>) {
    && (forall i :: 0 <= i < |ranges| ==> ranges[i].start < ranges[i].end)
    && (forall i, j :: 0 <= i < j < |ranges| ==> ranges[i].end <= ranges[j].start)
  }

  ghost function Frames(ranges: seq<Range>): set<nat> {
    if ranges == [] then {}
    else Frames(ranges[..|ranges| - 1]) + Span(ranges[|ranges| - 1].start, ranges[|ranges| - 1].end)
  }

  function ReleaseRange(s: State, r: Range): (t: State)
    requires |s.lists| == MAX_ORDER + 1 && r.start < r.end
    ensures |t.lists| == MAX_ORDER + 1
  {
    DecomposeTiles(r.start, r.end);
    TilesFacts(Decompose(r.start, r.end), r.start, r.end);
    Release(s, Decompose(r.start, r.end))
  }

  function Init(s: State, ranges: seq<Range>): (t: State)
    requires |s.lists| == MAX_ORDER + 1 && forall i :: 0 <= i < |ranges| ==> ranges[i].start < ranges[i].end
    ensures |t.lists| == MAX_ORDER + 1
    decreases |ranges|
  {
    if ranges == [] then s
    else ReleaseRange(Init(s, ranges[..|ranges| - 1]), ranges[|ranges| - 1])
  }

  /** Empty lists over a frame table. */
  function Empty(pages: map<nat, Page>): State {
    State([[], [], [], [], [], [], [], [], [], [], [], []], pages)
  }

  lemma EmptyInv(pages: map<nat, Page>)
    requires forall f :: f in pages ==> pages[f].usage == Reserved
    ensures Inv(Empty(pages), {}, {}, {}) && Quiet(Empty(pages), {}) && FreeSet(Empty(pages)) == {}
  {
    var s := Empty(pages);
    forall k | 0 <= k < |s.lists| ensures s.lists[k] == [] {}
    EmptyLists(s);
  }

  lemma {:induction false} FramesHas(ranges: seq<Range>, f: nat)
    ensures f in Frames(ranges) <==> exists i :: 0 <= i < |ranges| && Within(f, ranges[i].start, ranges[i].end)
    decreases |ranges|
  {
    if ranges != [] {
      var last := |ranges| - 1;
      FramesHas(ranges[..last], f);
      if f in Frames(ranges[..last]) {
        var i :| 0 <= i < last && Within(f, ranges[..last][i].start, ranges[..last][i].end);
        assert Within(f, ranges[i].start, ranges[i].end);
      }
      if i :| 0 <= i < |ranges| && Within(f, ranges[i].start, ranges[i].end) {
        if i < last { assert ranges[i] == ranges[..last][i]; }
      }
    }
  }

  /** The blocks of all ranges. */
  ghost function AllBlocks(ranges: seq<Range>): set<Block>
    requires forall i :: 0 <= i < |ranges| ==> ranges[i].start < ranges[i].end
  {
    if ranges == [] then {}
    else
      var r := ranges[|ranges| - 1];
      AllBlocks(ranges[..|ranges| - 1]) + BlockSet(Decompose(r.start, r.end))
  }

  /** The frames of the last range are new. */
  lemma LastRangeIsNew(ranges: seq<Range>)
    requires RangesOk(ranges) && ranges != []
    ensures var r, rest := ranges[|ranges| - 1], ranges[..|ranges| - 1];
            Span(r.start, r.end) !! Frames(rest)
  {
    var r, rest := ranges[|ranges| - 1], ranges[..|ranges| - 1];
    forall f: nat | f in Frames(rest) ensures f < r.start {
      FramesHas(rest, f);
      var i :| 0 <= i < |rest| && Within(f, rest[i].start, rest[i].end);
      assert rest[i] == ranges[i];
    }
  }

  lemma ReleaseRangeKeeps(s: State, node: set<nat>, r: Range)
    requires Inv(s, {}, {}, node) && Quiet(s, node) && r.start < r.end && |s.lists| == MAX_ORDER + 1
    requires Span(r.start, r.end) !! node && Span(r.start, r.end) <= s.pages.Keys
    ensures Released(s, ReleaseRange(s, r), {}, node, Decompose(r.start, r.end), r.start, r.end)
  {
    DecomposeTiles(r.start, r.end);
    ReleaseKeeps(s, {}, node, Decompose(r.start, r.end), r.start, r.end);
  }

  /** `Init` puts every frame of every range into exactly one aligned free block: those that the ranges
      are cut into. */
  lemma {:induction false} InitKeeps(pages: map<nat, Page>, ranges: seq<Range>)
    requires forall f :: f in pages ==> pages[f].usage == Reserved
    requires RangesOk(ranges) && Frames(ranges) <= pages.Keys
    ensures Inv(Init(Empty(pages), ranges), {}, {}, Frames(ranges))
    ensures Quiet(Init(Empty(pages), ranges), Frames(ranges))
    ensures Init(Empty(pages), ranges).pages.Keys == pages.Keys
    ensures FreeSet(Init(Empty(pages), ranges)) == AllBlocks(ranges)
    decreases |ranges|
  {
    if ranges == [] {
      EmptyInv(pages);
    } else {
      var r, rest := ranges[|ranges| - 1], ranges[..|ranges| - 1];
      LastRangeIsNew(ranges);
      InitKeeps(pages, rest);
      ReleaseRangeKeeps(Init(Empty(pages), rest), Frames(rest), r);
    }
  }

  // ---- runs ----

  /** What clients ask for, in any order; a client may also overwrite the tags of frames it holds, as
      the slab allocator does with its slabs. */
  datatype Op =
    | DoAlloc(order: nat)
    | DoFree(b: Block)
    | DoFreeAsWritten(b: Block)
    | Overwrite(pfn: nat, page: Page)

  datatype System = System(s: State, live: set<Block>)

  /** Clients free what they hold, as it was handed out, and write no page-allocator tag on the first
      frame of a block; `Free` as written is called only where it is right. */
  ghost predicate Legal(sys: System, op: Op) {
    match op
    case DoAlloc(order) => true
    case DoFree(b) => b in sys.live
    case DoFreeAsWritten(b) => b in sys.live && !MeetsLowerBuddy(sys.s, b.pfn, b.order)
    case Overwrite(pfn, page) =>
      && Covered(sys.live, pfn)
      && (page.usage == InPageAllocator ==> forall b :: b in sys.live ==> b.pfn != pfn)
  }

  ghost function Step(sys: System, op: Op): System {
    if |sys.s.lists| != MAX_ORDER + 1 then sys
    else match op
    case DoAlloc(order) =>
      var (t, r) := Alloc(sys.s, order);
      System(t, if r.Some? then sys.live + {Block(r.value, order)} else sys.live)
    case DoFree(b) =>
      if b.order <= MAX_ORDER then System(FreeLower(sys.s, b), sys.live - {b}) else sys
    case DoFreeAsWritten(b) =>
      if b.order <= MAX_ORDER then System(FreeAsWritten(sys.s, b), sys.live - {b}) else sys
    case Overwrite(pfn, page) =>
      System(sys.s.(pages := sys.s.pages[pfn := page]), sys.live)
  }

  ghost predicate LegalRun(sys: System, ops: seq<Op>)
    decreases |ops|
  {
    ops == [] || (Legal(sys, ops[0]) && LegalRun(Step(sys, ops[0]), ops[1..]))
  }

  ghost function Run(sys: System, ops: seq<Op>): System
    decreases |ops|
  {
    if ops == [] then sys else Run(Step(sys, ops[0]), ops[1..])
  }

  ghost predicate Good(sys: System, node: set<nat>) {
    Inv(sys.s, sys.live, {}, node)
  }

  lemma FreeHeadsElsewhere(s: State, live: set<Block>, node: set<nat>, pfn: nat)
    requires Inv(s, live, {}, node) && Covered(live, pfn)
    ensures pfn in node && forall b :: b in FreeSet(s) ==> b.pfn != pfn
  {
    var blocks := FreeSet(s) + live + {};
    var c :| c in live && c.Covers(pfn);
    assert c in blocks && Covered(blocks, pfn);
    forall b | b in FreeSet(s) ensures b.pfn != pfn {
      if b.pfn == pfn {
        assert b in blocks && b.Covers(pfn);
        OneOwner(blocks, node, b, c, pfn);
      }
    }
  }

  lemma OverwriteKeeps(s: State, live: set<Block>, node: set<nat>, pfn: nat, page: Page)
    requires Inv(s, live, {}, node) && Covered(live, pfn)
    requires page.usage == InPageAllocator ==> forall b :: b in live ==> b.pfn != pfn
    ensures Inv(s.(pages := s.pages[pfn := page]), live, {}, node)
    ensures FreeSet(s.(pages := s.pages[pfn := page])) == FreeSet(s)
  {
    hide Partition, FreeSet, Covered, Pow2, FlipBit, Aligned, ListsOk;
    var t := s.(pages := s.pages[pfn := page]);
    FreeHeadsElsewhere(s, live, node, pfn);
    SameLists(s, t);
    SameListsOk(s, t);
    assert TagsOk(t, live);
    assert ForeignQuiet(t.pages, node);
  }

  lemma SameListsOk(s: State, t: State)
    requires s.lists == t.lists && ListsOk(s)
    ensures ListsOk(t)
  {
  }

  lemma SameLists(s: State, t: State)
    requires s.lists == t.lists
    ensures FreeSet(s) == FreeSet(t)
  {
  }

  /** Every call keeps the partition, and makes no pair of free buddies where there is none. */
  lemma StepKeeps(sys: System, op: Op, node: set<nat>)
    requires Good(sys, node) && Legal(sys, op)
    ensures Good(Step(sys, op), node)
    ensures NoBuddies(FreeSet(sys.s)) ==> NoBuddies(FreeSet(Step(sys, op).s))
  {
    var s, live := sys.s, sys.live;
    assert |s.lists| == MAX_ORDER + 1;
    hide Inv, NoBuddies, MeetsLowerBuddy, FreeSet;
    match op
    case DoAlloc(order) =>
      AllocKeeps(s, live, node, order);
      if NoBuddies(FreeSet(s)) { AllocKeepsNoBuddies(s, live, node, order); }
    case DoFree(b) =>
      FreeLowerKeeps(s, live, b, node);
      if NoBuddies(FreeSet(s)) { FreeLowerKeepsNoBuddies(s, live, b, node); }
    case DoFreeAsWritten(b) =>
      FreeAsWrittenExact(s, live, b, node);
      FreeLowerKeeps(s, live, b, node);
      if NoBuddies(FreeSet(s)) { FreeLowerKeepsNoBuddies(s, live, b, node); }
    case Overwrite(pfn, page) =>
      OverwriteKeeps(s, live, node, pfn, page);
  }

  lemma {:induction false} RunKeeps(sys: System, ops: seq<Op>, node: set<nat>)
    requires Good(sys, node) && LegalRun(sys, ops)
    ensures Good(Run(sys, ops), node)
    ensures NoBuddies(FreeSet(sys.s)) ==> NoBuddies(FreeSet(Run(sys, ops).s))
    decreases |ops|
  {
    hide Good, Legal, Step, NoBuddies, FreeSet;
    if ops != [] {
      StepKeeps(sys, ops[0], node);
      RunKeeps(Step(sys, ops[0]), ops[1..], node);
    }
  }

  /** Over every run from `Init`, free and outstanding blocks partition the frames that were handed over.
      If `Init` left no two free buddies none ever coexist, and a run that ends with nothing outstanding
      ends with exactly the free blocks that `Init` made. */
  lemma EveryRun(pages: map<nat, Page>, ranges: seq<Range>, ops: seq<Op>)
    requires forall f :: f in pages ==> pages[f].usage == Reserved
    requires RangesOk(ranges) && Frames(ranges) <= pages.Keys
    requires LegalRun(System(Init(Empty(pages), ranges), {}), ops)
    ensures var start := System(Init(Empty(pages), ranges), {});
            var end := Run(start, ops);
            && Partition(FreeSet(end.s) + end.live, Frames(ranges)) && FreeSet(end.s) !! end.live
            && (NoBuddies(FreeSet(start.s)) ==>
                  && NoBuddies(FreeSet(end.s))
                  && (end.live == {} ==> FreeSet(end.s) == FreeSet(start.s)))
  {
    var start := System(Init(Empty(pages), ranges), {});
    var end := Run(start, ops);
    InitKeeps(pages, ranges);
    RunKeeps(start, ops, Frames(ranges));
    InvPartition(end, Frames(ranges));
    InvPartition(start, Frames(ranges));
    hide *;
    if NoBuddies(FreeSet(start.s)) && end.live == {} {
      assert FreeSet(end.s) + {} == FreeSet(end.s) && FreeSet(start.s) + {} == FreeSet(start.s);
      CoalescedIsUnique(FreeSet(end.s), FreeSet(start.s), Frames(ranges));
    }
  }

  lemma InvPartition(sys: System, node: set<nat>)
    requires Good(sys, node)
    ensures Partition(FreeSet(sys.s) + sys.live, node) && FreeSet(sys.s) !! sys.live
  {
    assert FreeSet(sys.s) + sys.live + {} == FreeSet(sys.s) + sys.live;
  }
}
