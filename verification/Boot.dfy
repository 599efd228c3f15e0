/** From boot to run time: runs of the early page allocator, its hand-over to the page allocator of a node,
    and runs of that allocator and of the slab allocator on top of it (sys/early_page_allocator.cpp,
    sys/early_page_allocator.hpp, sys/page_allocator.cpp, sys/slab_allocator.cpp). */
module Boot {
  import opened Bits
  import opened Wrappers
  import opened EarlyPages
  import Early = EarlyRuns
  import EarlySteps
  import Buddy = BuddyModel
  import BuddyInvariant
  import BuddySteps
  import BuddyInit
  import Runs = BuddyRuns
  import Touching = BuddyTouching
  import Slab = SlabModel
  import SlabRuns
  import Stack = SlabOnBuddy

  /** The frame table has a record for every free page of the node, and no frame is in use. */
  ghost predicate Ready(ops: seq<Early.Op>, nid: int, frames: map<nat, Buddy.Page>)
    requires Early.LegalRun(Early.START, ops)
  {
    && (forall f :: f in frames ==> frames[f].usage == Buddy.Reserved)
    && (forall p: nat :: Label(Early.Run(Early.START, ops).rs, p) == Some(nid) ==> p in frames)
  }

  /** What the early allocator hands to the node. */
  ghost function Ranges(ops: seq<Early.Op>, nid: int): (ranges: seq<Runs.Range>)
    requires Early.LegalRun(Early.START, ops)
    ensures Runs.RangesOk(ranges)
  {
    Early.NodeRanges(ops, nid);
    Early.OfNode(Early.Run(Early.START, ops).rs, nid)
  }

  lemma RangesHold(ops: seq<Early.Op>, nid: int, frames: map<nat, Buddy.Page>)
    requires Early.LegalRun(Early.START, ops) && Ready(ops, nid, frames)
    ensures Runs.Frames(Ranges(ops, nid)) <= frames.Keys
    ensures forall p: nat :: p in Runs.Frames(Ranges(ops, nid))
                        <==> Label(Early.Run(Early.START, ops).rs, p) == Some(nid)
    ensures Early.NoRelabel(ops) ==> Touching.NoneMeet(Ranges(ops, nid))
  {
    Early.NodeRanges(ops, nid);
  }

  /** A page that the page allocators got was given to the early allocator and is not handed out by it. */
  lemma NotHandedOut(ops: seq<Early.Op>)
    requires Early.LegalRun(Early.START, ops)
    ensures var early := Early.Run(Early.START, ops);
            forall p: nat :: Label(early.rs, p).Some? ==> p in early.given && p !in early.out
  {
    Early.EveryRun(ops);
    hide Label;
  }

  /** After any run of the early allocator and any run of the page allocator of a node: every page of the node
      is in exactly one free or outstanding block, none of them was handed out before, and the free buddies
      stay coalesced exactly as far as the ranges handed over were. */
  lemma PagesFromBoot(ops: seq<Early.Op>, nid: int, frames: map<nat, Buddy.Page>, calls: seq<Runs.Op>)
    requires Early.LegalRun(Early.START, ops) && Ready(ops, nid, frames)
    requires Runs.LegalRun(Runs.System(Runs.Init(Runs.Empty(frames), Ranges(ops, nid)), {}), calls)
    ensures var early := Early.Run(Early.START, ops);
            var start := Runs.System(Runs.Init(Runs.Empty(frames), Ranges(ops, nid)), {});
            var end := Runs.Run(start, calls);
            var node := Runs.Frames(Ranges(ops, nid));
            && (forall p: nat :: p in node <==> Label(early.rs, p) == Some(nid))
            && Buddy.Partition(Buddy.FreeSet(end.s) + end.live, node) && Buddy.FreeSet(end.s) !! end.live
            && (forall p: nat :: p in node ==> p in early.given && p !in early.out)
            && (Buddy.NoBuddies(Buddy.FreeSet(start.s)) <==> Touching.NoneMeet(Ranges(ops, nid)))
            && (Early.NoRelabel(ops) ==> Touching.NoneMeet(Ranges(ops, nid)))
            && (Touching.NoneMeet(Ranges(ops, nid)) ==>
                  && Buddy.NoBuddies(Buddy.FreeSet(end.s))
                  && (end.live == {} ==> Buddy.FreeSet(end.s) == Buddy.FreeSet(start.s)))
  {
    RangesHold(ops, nid, frames);
    NotHandedOut(ops);
    assert forall f :: f in frames ==> frames[f].usage == Buddy.Reserved;
    hide *;
    Touching.InitBuddiesExact(frames, Ranges(ops, nid));
    Runs.EveryRun(frames, Ranges(ops, nid), calls);
  }

  /** The same with the slab allocator on top: every slab is one outstanding block of pages of the node, and no
      frame of an object in use is free in the page allocator or was handed out by the early one. */
  lemma SlabsFromBoot(root: Slab.Root, ops: seq<Early.Op>, nid: int, frames: map<nat, Buddy.Page>, heap: Slab.Heap,
                      calls: seq<Stack.Op>)
    requires Early.LegalRun(Early.START, ops) && Ready(ops, nid, frames)
    requires root.Ok() && SlabRuns.Empty(heap)
    requires Stack.EnabledRun(root, Stack.Start(frames, Ranges(ops, nid), heap), calls)
    ensures var early := Early.Run(Early.START, ops);
            var end := Stack.Run(root, Stack.Start(frames, Ranges(ops, nid), heap), calls);
            && Buddy.Partition(Buddy.FreeSet(end.pages.s) + end.pages.live, Runs.Frames(Ranges(ops, nid)))
            && (forall p :: p in end.slab.h.slabs ==> Buddy.Block(p, root.order) in end.pages.live)
            && (forall o :: o in end.slab.clients ==>
                  && Label(early.rs, o / PAGE) == Some(nid) && o / PAGE !in early.out
                  && !Buddy.Covered(Buddy.FreeSet(end.pages.s), o / PAGE))
  {
    RangesHold(ops, nid, frames);
    NotHandedOut(ops);
    assert forall f :: f in frames ==> frames[f].usage == Buddy.Reserved;
    Stack.EveryRun(root, frames, Ranges(ops, nid), heap, calls);
    var end := Stack.Run(root, Stack.Start(frames, Ranges(ops, nid), heap), calls);
    hide *;
    forall o | o in end.slab.clients ensures o / PAGE in Runs.Frames(Ranges(ops, nid)) {
      LiveInNode(end.pages, Runs.Frames(Ranges(ops, nid)), Buddy.Block(root.HeadOf(o), root.order), o / PAGE);
    }
  }

  lemma LiveInNode(pages: Runs.System, node: set<nat>, b: Buddy.Block, f: nat)
    requires Buddy.Partition(Buddy.FreeSet(pages.s) + pages.live, node) && b in pages.live && b.Covers(f)
    ensures f in node
  {
    assert b in Buddy.FreeSet(pages.s) + pages.live;
    hide Buddy.FreeSet;
  }

  // ---- two memory blocks of one node that touch ----

  /** Eight free pages, then two adjacent memory blocks of four pages labelled with node 0. */
  const TWO_BLOCKS: seq<Early.Op> :=
    [Early.DoFree(PageRange(0, 8, ANY_NID)), Early.DoRelabel(0, 4, 0), Early.DoRelabel(4, 8, 0)]

  lemma FreedEight()
    ensures Early.Legal(Early.START, TWO_BLOCKS[0])
    ensures Early.Step(Early.START, TWO_BLOCKS[0]).rs == [PageRange(0, 8, ANY_NID)]
  {
    var r := PageRange(0, 8, ANY_NID);
    assert Slot([], 0) == 0;
    assert Early.START.rs[..0] + [r] + Early.START.rs[0..] == [r];
  }

  lemma LabelTwo(a: PageRange, b: PageRange, start: nat, end: nat, nid: int)
    requires start < end && !EarlySteps.Stops(a, start, end)
    ensures EarlySteps.Relabel([a, b], start, end, nid)
         == EarlySteps.Parts(a, start, end, nid) + EarlySteps.Parts(b, start, end, nid)
  {
    assert [a, b][1..] == [b];
    hide EarlySteps.Parts, EarlySteps.Stops;
    EarlySteps.RelabelOne(b, start, end, nid);
  }

  lemma OneStep(sys: Early.System, ops: seq<Early.Op>)
    ensures ops == [] ==> Early.LegalRun(sys, ops) && Early.Run(sys, ops) == sys
    ensures ops != [] && Early.Legal(sys, ops[0]) && Early.LegalRun(Early.Step(sys, ops[0]), ops[1..]) ==>
              Early.LegalRun(sys, ops) && Early.Run(sys, ops) == Early.Run(Early.Step(sys, ops[0]), ops[1..])
  {
    hide Early.Legal, Early.Step;
  }

  lemma LowerLabelled(sys: Early.System)
    requires sys.rs == [PageRange(0, 8, ANY_NID)]
    ensures Early.Legal(sys, TWO_BLOCKS[1])
    ensures Early.Step(sys, TWO_BLOCKS[1]).rs == [PageRange(0, 4, 0), PageRange(4, 4, ANY_NID)]
  {
    EarlySteps.RelabelOne(PageRange(0, 8, ANY_NID), 0, 4, 0);
    hide EarlySteps.Relabel;
  }

  lemma UpperLabelled(sys: Early.System)
    requires sys.rs == [PageRange(0, 4, 0), PageRange(4, 4, ANY_NID)]
    ensures Early.Legal(sys, TWO_BLOCKS[2])
    ensures Early.Step(sys, TWO_BLOCKS[2]).rs == [PageRange(0, 4, 0), PageRange(4, 4, 0)]
  {
    LabelTwo(PageRange(0, 4, 0), PageRange(4, 4, ANY_NID), 4, 8, 0);
    hide EarlySteps.Relabel;
  }

  lemma TwoBlocksRun()
    ensures Early.LegalRun(Early.START, TWO_BLOCKS)
    ensures Early.Run(Early.START, TWO_BLOCKS).rs == [PageRange(0, 4, 0), PageRange(4, 4, 0)]
  {
    FreedEight();
    hide Early.Legal, Early.Step, Early.LegalRun, Early.Run;
    var s1 := Early.Step(Early.START, TWO_BLOCKS[0]);
    LowerLabelled(s1);
    var s2 := Early.Step(s1, TWO_BLOCKS[1]);
    UpperLabelled(s2);
    var s3 := Early.Step(s2, TWO_BLOCKS[2]);
    OneStep(s3, TWO_BLOCKS[1..][1..][1..]);
    OneStep(s2, TWO_BLOCKS[1..][1..]);
    OneStep(s1, TWO_BLOCKS[1..]);
    OneStep(Early.START, TWO_BLOCKS);
  }

  lemma TwoRanges()
    requires Early.LegalRun(Early.START, TWO_BLOCKS)
    ensures Ranges(TWO_BLOCKS, 0) == [Runs.Range(0, 4), Runs.Range(4, 8)]
  {
    TwoBlocksRun();
    var rs := [PageRange(0, 4, 0), PageRange(4, 4, 0)];
    assert rs[1..] == [PageRange(4, 4, 0)] && rs[1..][1..] == [];
    hide Early.LegalRun, Early.Run;
    assert Early.OfNode([], 0) == [];
    assert Early.OfNode(rs[1..], 0) == [Runs.Range(4, 8)];
  }

  lemma TheTwoBlocks()
    ensures Buddy.Block(0, 2).WellPlaced() && Buddy.Block(0, 2).End() == 4
    ensures Buddy.Block(4, 2).WellPlaced() && Buddy.Block(4, 2).End() == 8
    ensures Buddy.Block(0, 2).Buddy() == Buddy.Block(4, 2)
  {
    assert Pow2(1) == 2;
    assert Pow2(2) == 4;
    hide Pow2;
  }

  /** The two ranges become the blocks (0, 2) and (4, 2). */
  lemma TwoFreeBlocks()
    ensures var ranges := [Runs.Range(0, 4), Runs.Range(4, 8)];
            Runs.RangesOk(ranges) && Runs.AllBlocks(ranges) == {Buddy.Block(0, 2), Buddy.Block(4, 2)}
  {
    var ranges := [Runs.Range(0, 4), Runs.Range(4, 8)];
    assert Runs.RangesOk(ranges);
    TheTwoBlocks();
    hide *;
    Touching.WholeBlock(Buddy.Block(0, 2));
    Touching.WholeBlock(Buddy.Block(4, 2));
    Touching.AllBlocksOfTwo(Runs.Range(0, 4), Runs.Range(4, 8));
  }

  lemma NothingForOrder3(s: Buddy.State, node: set<nat>)
    requires BuddyInvariant.Inv(s, {}, {}, node) && Buddy.FreeSet(s) == {Buddy.Block(0, 2), Buddy.Block(4, 2)}
    ensures Buddy.Alloc(s, 3) == (s, None)
  {
    hide Buddy.FreeSet, BuddyInvariant.Inv, Buddy.Alloc;
    BuddySteps.AllocKeeps(s, {}, node, 3);
  }

  lemma InitOfTwo(frames: map<nat, Buddy.Page>, ranges: seq<Runs.Range>)
    requires forall f :: f in frames ==> frames[f].usage == Buddy.Reserved
    requires ranges == [Runs.Range(0, 4), Runs.Range(4, 8)] && Runs.Frames(ranges) <= frames.Keys
    ensures Runs.RangesOk(ranges)
    ensures var s := Runs.Init(Runs.Empty(frames), ranges);
            Buddy.FreeSet(s) == {Buddy.Block(0, 2), Buddy.Block(4, 2)} && Buddy.Alloc(s, 3) == (s, None)
  {
    hide Runs.Init, Runs.Frames, Runs.AllBlocks, Buddy.FreeSet, Buddy.Alloc, BuddyInvariant.Inv;
    TwoFreeBlocks();
    Runs.InitKeeps(frames, ranges);
    NothingForOrder3(Runs.Init(Runs.Empty(frames), ranges), Runs.Frames(ranges));
  }

  /** The node's eight pages come as two free blocks of order 2 that are buddies, and as nothing joins them, a
      request for all eight fails. */
  lemma TwoBlocksStayApart(frames: map<nat, Buddy.Page>)
    requires Early.LegalRun(Early.START, TWO_BLOCKS) && Ready(TWO_BLOCKS, 0, frames)
    ensures var s := Runs.Init(Runs.Empty(frames), Ranges(TWO_BLOCKS, 0));
            && Buddy.FreeSet(s) == {Buddy.Block(0, 2), Buddy.Block(4, 2)}
            && Buddy.Block(0, 2).Buddy() == Buddy.Block(4, 2)
            && Buddy.Alloc(s, 3) == (s, None)
  {
    hide Early.LegalRun, Early.Run, Ranges, Runs.Init, Runs.Frames, Buddy.FreeSet, Buddy.Alloc, FlipBit;
    TwoRanges();
    RangesHold(TWO_BLOCKS, 0, frames);
    InitOfTwo(frames, Ranges(TWO_BLOCKS, 0));
    TheTwoBlocks();
  }
}
