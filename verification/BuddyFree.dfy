/** `Free` as written: when it is right, what goes wrong when it is not, and that coalescing is
    maximal, so that freeing everything restores the free set of the start. */
module BuddyFree {
  import opened Bits
  import opened Wrappers
  import opened BuddyModel
  import opened BuddyInvariant
  import opened BuddySteps

  /** Freeing (pfn, order) merges as far as order j, where the buddy to merge with lies below pfn:
      every buddy from `order` up to j heads a free block, and bit j of pfn is set. */
  ghost predicate MeetsLowerBuddy(s: State, pfn: nat, order: nat) {
    exists j :: MeetsLowerAt(s, pfn, order, j)
  }

  ghost predicate MeetsLowerAt(s: State, pfn: nat, order: nat, j: nat) {
    && order <= j < MAX_ORDER && !Aligned(pfn, j + 1)
    && forall i: nat :: order <= i <= j ==> Block(pfn, i).Buddy() in FreeSet(s)
  }

  lemma MeetsLowerStep(s: State, b: Block)
    requires ListsOk(s) && b.order < MAX_ORDER && b.Buddy() in FreeSet(s) && Aligned(b.pfn, b.order + 1)
    ensures MeetsLowerBuddy(Unlink(s, b.Buddy()), b.pfn, b.order + 1) <==> MeetsLowerBuddy(s, b.pfn, b.order)
  {
    var t := Unlink(s, b.Buddy());
    UnlinkSet(s, b.Buddy());
    if MeetsLowerBuddy(t, b.pfn, b.order + 1) {
      var j: nat :| MeetsLowerAt(t, b.pfn, b.order + 1, j);
      assert MeetsLowerAt(s, b.pfn, b.order, j) by {
        forall i: nat | b.order <= i <= j ensures Block(b.pfn, i).Buddy() in FreeSet(s) {
          if i == b.order { assert b == Block(b.pfn, i); }
        }
      }
    }
    if MeetsLowerBuddy(s, b.pfn, b.order) {
      var j: nat :| MeetsLowerAt(s, b.pfn, b.order, j);
      assert MeetsLowerAt(t, b.pfn, b.order + 1, j);
    }
  }

  lemma MeetsLowerNow(s: State, b: Block)
    requires b.order < MAX_ORDER && b.Buddy() in FreeSet(s) && !Aligned(b.pfn, b.order + 1)
    ensures MeetsLowerBuddy(s, b.pfn, b.order)
  {
    assert Block(b.pfn, b.order) == b;
    assert MeetsLowerAt(s, b.pfn, b.order, b.order);
  }

  lemma MeetsLowerNeedsFreeBuddy(s: State, b: Block)
    requires MeetsLowerBuddy(s, b.pfn, b.order)
    ensures b.order < MAX_ORDER && b.Buddy() in FreeSet(s)
  {
    var j: nat :| MeetsLowerAt(s, b.pfn, b.order, j);
    assert Block(b.pfn, b.order) == b;
  }

  /** One upward merge, with everything the next round of the loop needs. */
  lemma UpwardStep(s: State, live: set<Block>, b: Block, node: set<nat>)
    requires Inv(s, live, {b}, node) && b.order < MAX_ORDER && b.Buddy() in FreeSet(s)
    requires Aligned(b.pfn, b.order + 1)
    ensures b.Parent() == Block(b.pfn, b.order + 1) && |s.lists| == MAX_ORDER + 1
    ensures Inv(Unlink(s, b.Buddy()), live, {b.Parent()}, node)
    ensures MeetsLowerBuddy(Unlink(s, b.Buddy()), b.pfn, b.order + 1) <==> MeetsLowerBuddy(s, b.pfn, b.order)
  {
    HandIsNew(s, live, b, node);
    assert ListsOk(s);
    hide Inv;
    AlignedLower(b.pfn, b.order, b.order + 1);
    BuddySides(b.pfn, b.order);
    MergeStep(s, live, b, node);
    MeetsLowerStep(s, b);
  }

  /** While every merged buddy lies above, the loop as written is the intended one. */
  lemma {:induction false} UpwardMergesAgree(s: State, live: set<Block>, b: Block, node: set<nat>)
    requires Inv(s, live, {b}, node) && |s.lists| == MAX_ORDER + 1 && b.order <= MAX_ORDER
    requires !MeetsLowerBuddy(s, b.pfn, b.order)
    ensures var (t, m) := MergeLower(s, b);
            m.pfn == b.pfn && MergeAsWritten(s, b.pfn, b.order) == (t, m.order)
    decreases MAX_ORDER - b.order
  {
    hide Inv, MeetsLowerBuddy, FreeSet;
    if b.order < MAX_ORDER {
      TagTestExact(s, live, b, node);
      if TagTest(s, b.Buddy()) {
        if !Aligned(b.pfn, b.order + 1) { MeetsLowerNow(s, b); }
        UpwardStep(s, live, b, node);
        UpwardMergesAgree(Unlink(s, b.Buddy()), live, b.Parent(), node);
      }
    }
  }

  lemma {:induction false} NeverRealigned(s: State, pfn: nat, order: nat)
    requires order <= MAX_ORDER && |s.lists| == MAX_ORDER + 1 && !Aligned(pfn, order)
    ensures !Aligned(pfn, MergeAsWritten(s, pfn, order).1)
    decreases MAX_ORDER - order
  {
    var buddy := Block(FlipBit(pfn, order), order);
    if order < MAX_ORDER && TagTest(s, buddy) {
      if Aligned(pfn, order + 1) { AlignedLower(pfn, order, order + 1); }
      NeverRealigned(Unlink(s, buddy), pfn, order + 1);
    }
  }

  lemma {:induction false} DownwardMergeMisaligns(s: State, live: set<Block>, b: Block, node: set<nat>)
    requires Inv(s, live, {b}, node) && |s.lists| == MAX_ORDER + 1 && b.order <= MAX_ORDER
    requires MeetsLowerBuddy(s, b.pfn, b.order)
    ensures !Aligned(b.pfn, MergeAsWritten(s, b.pfn, b.order).1)
    decreases MAX_ORDER - b.order
  {
    hide Inv, MeetsLowerBuddy, FreeSet;
    MeetsLowerNeedsFreeBuddy(s, b);
    TagTestExact(s, live, b, node);
    if Aligned(b.pfn, b.order + 1) {
      UpwardStep(s, live, b, node);
      DownwardMergeMisaligns(Unlink(s, b.Buddy()), live, b.Parent(), node);
    } else {
      NeverRealigned(Unlink(s, b.Buddy()), b.pfn, b.order + 1);
    }
  }

  lemma MisalignedPushBreaks(s: State, live: set<Block>, b: Block, node: set<nat>)
    requires |s.lists| == MAX_ORDER + 1 && b.order <= MAX_ORDER && !Aligned(b.pfn, b.order)
    ensures !Inv(Push(s, b), live, {}, node)
  {
    var t := Push(s, b);
    FreeSetHas(t, b);
    assert t.lists[b.order][0] == b.pfn;
    assert b in FreeSet(t) + live + {};
    assert Inv(t, live, {}, node) ==> b.WellPlaced();
  }

  /** `Free` as written keeps the invariant exactly when no merge meets a buddy below the block; it
      then does what the intended `Free` does. The condition reads the state before the call. */
  lemma FreeAsWrittenExact(s: State, live: set<Block>, b: Block, node: set<nat>)
    requires Inv(s, live, {}, node) && b in live
    ensures b.order <= MAX_ORDER && |s.lists| == MAX_ORDER + 1
    ensures Inv(FreeAsWritten(s, b), live - {b}, {}, node) <==> !MeetsLowerBuddy(s, b.pfn, b.order)
    ensures !MeetsLowerBuddy(s, b.pfn, b.order) ==> FreeAsWritten(s, b) == FreeLower(s, b)
  {
    LiveToHand(s, live, b, node);
    HandIsNew(s, live - {b}, b, node);
    assert ListsOk(s);
    hide Inv;
    if MeetsLowerBuddy(s, b.pfn, b.order) {
      DownwardMergeMisaligns(s, live - {b}, b, node);
      var (t, o) := MergeAsWritten(s, b.pfn, b.order);
      MisalignedPushBreaks(t, live - {b}, Block(b.pfn, o), node);
    } else {
      UpwardMergesAgree(s, live - {b}, b, node);
      FreeLowerKeeps(s, live, b, node);
    }
  }

  // ---- a concrete run on four frames ----

  function FourFrames(): State {
    State([[0], [2], [], [], [], [], [], [], [], [], [], []],
          map[0 := Page(InPageAllocator, 0), 1 := Page(InUse, 0),
              2 := Page(InPageAllocator, 1), 3 := Page(Reserved, 0)])
  }

  /** Frame 1 is out, frames 0, 2 and 3 are free. Freeing frame 1 as written merges with frame 0 but
      files the result at frame 1; the next two allocations of two frames both hold frame 2, and
      nobody holds frame 0 any more. */
  lemma FreeAsWrittenHandsOutTwice()
    ensures Inv(FourFrames(), {Block(1, 0)}, {}, {0, 1, 2, 3})
    ensures var s1 := FreeAsWritten(FourFrames(), Block(1, 0));
            var (s2, first) := Alloc(s1, 1);
            var (s3, second) := Alloc(s2, 1);
            && first == Some(1) && second == Some(2)
            && Block(1, 1).Covers(2) && Block(2, 1).Covers(2)
            && FreeSet(s3) == {}
  {
    FourFramesInv();
    FourFramesRun();
  }

  lemma FourFramesFree()
    ensures FreeSet(FourFrames()) == {Block(0, 0), Block(2, 1)}
  {
    var s := FourFrames();
    forall b ensures b in FreeSet(s) <==> b in {Block(0, 0), Block(2, 1)} {
      FreeSetHas(s, b);
      assert s.lists[0] == [0] && s.lists[1] == [2];
    }
  }

  lemma FourFramesPartition()
    ensures Partition({Block(0, 0), Block(2, 1), Block(1, 0)}, {0, 1, 2, 3})
  {
    var a, b, c := Block(0, 0), Block(1, 0), Block(2, 1);
    var blocks := {a, c, b};
    assert Pow2(1) == 2;
    forall f: nat ensures f in {0, 1, 2, 3} <==> Covered(blocks, f) {
      if f in {0, 1, 2, 3} {
        assert a.Covers(f) || b.Covers(f) || c.Covers(f);
      }
    }
  }

  lemma FourFramesInv()
    ensures Inv(FourFrames(), {Block(1, 0)}, {}, {0, 1, 2, 3})
  {
    var s := FourFrames();
    FourFramesFree();
    FourFramesPartition();
    hide FreeSet, Partition;
    assert FreeSet(s) + {Block(1, 0)} + {} == {Block(0, 0), Block(2, 1), Block(1, 0)};
  }

  lemma FourFramesRun()
    ensures var s1 := FreeAsWritten(FourFrames(), Block(1, 0));
            var (s2, first) := Alloc(s1, 1);
            var (s3, second) := Alloc(s2, 1);
            first == Some(1) && second == Some(2) && FreeSet(s3) == {}
  {
    var s := FourFrames();
    hide FreeSet;
    assert Pow2(1) == 2;
    assert FlipBit(1, 0) == 0 && FlipBit(1, 1) == 3;
    var u := Unlink(s, Block(0, 0));
    assert Remove([0], 0) == [];
    assert MergeAsWritten(u, 1, 1) == (u, 1);
    assert MergeAsWritten(s, 1, 0) == (u, 1);
    var s1 := Push(u, Block(1, 1));
    assert s1.lists[1] == [1, 2];
    var s2 := Alloc(s1, 1).0;
    assert s2.lists[1] == [2];
    var s3 := Alloc(s2, 1).0;
    forall k | 0 <= k < 12 ensures s3.lists[k] == [] {
      if k == 1 { assert [2][1..] == []; } else { assert s3.lists[k] == u.lists[k] == []; }
    }
    EmptyLists(s3);
  }

  lemma EmptyLists(s: State)
    requires forall k :: 0 <= k < |s.lists| ==> s.lists[k] == []
    ensures FreeSet(s) == {}
  {
  }
}
