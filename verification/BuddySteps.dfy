/** Allocating and freeing keep the invariant, and what exactly they do to the free set. */
module BuddySteps {
  import opened Bits
  import opened Wrappers
  import opened BuddyModel
  import opened BuddyInvariant

  // ---- moving one block between the free lists, the hand and the clients ----

  lemma PushHand(s: State, live: set<Block>, hand: set<Block>, b: Block, node: set<nat>)
    requires Inv(s, live, hand + {b}, node) && b !in hand
    ensures Inv(Push(s, b), live, hand, node)
    ensures FreeSet(Push(s, b)) == FreeSet(s) + {b}
  {
    var blocks := FreeSet(s) + live + (hand + {b});
    assert b in blocks && b.WellPlaced();
    PushSet(s, b);
    assert FreeSet(Push(s, b)) + live + hand == blocks;
    HeadCovered(blocks, node, b);
    PushTags(s, live, hand, b, node);
  }

  lemma PushTags(s: State, live: set<Block>, hand: set<Block>, b: Block, node: set<nat>)
    requires Inv(s, live, hand + {b}, node) && b.pfn in node && b.order <= MAX_ORDER
    requires FreeSet(Push(s, b)) == FreeSet(s) + {b}
    ensures TagsOk(Push(s, b), live) && ForeignQuiet(Push(s, b).pages, node)
  {
    var t := Push(s, b);
    var blocks := FreeSet(s) + live + (hand + {b});
    forall c | c in FreeSet(s) + live ensures c.pfn != b.pfn {
      if c.pfn == b.pfn { OneOwner(blocks, node, b, c, b.pfn); }
    }
    assert forall c :: c in FreeSet(t) ==> TagTest(t, c);
  }

  lemma UnlinkToHand(s: State, live: set<Block>, hand: set<Block>, b: Block, node: set<nat>)
    requires Inv(s, live, hand, node) && b in FreeSet(s)
    ensures Inv(Unlink(s, b), live, hand + {b}, node)
    ensures FreeSet(Unlink(s, b)) == FreeSet(s) - {b}
  {
    FreeSetHas(s, b);
    UnlinkSet(s, b);
    assert FreeSet(Unlink(s, b)) + live + (hand + {b}) == FreeSet(s) + live + hand;
  }

  lemma SplitHand(s: State, live: set<Block>, b: Block, node: set<nat>)
    requires Inv(s, live, {b}, node) && b.order > 0
    ensures b.UpperHalf() == Block(FlipBit(b.pfn, b.order - 1), b.order - 1)
    ensures Inv(s, live, {Block(b.pfn, b.order - 1)} + {b.UpperHalf()}, node)
    ensures b.UpperHalf() != Block(b.pfn, b.order - 1)
    ensures b.UpperHalf() !in FreeSet(s) && Block(b.pfn, b.order - 1) !in FreeSet(s)
  {
    var rest := FreeSet(s) + live;
    var halves := {Block(b.pfn, b.order - 1)} + {b.UpperHalf()};
    SplitPartition(rest, b, node);
    assert rest + {b.UpperHalf(), Block(b.pfn, b.order - 1)} == FreeSet(s) + live + halves;
  }

  lemma MergeHand(s: State, live: set<Block>, b: Block, node: set<nat>)
    requires Inv(s, live, {b} + {b.Buddy()}, node) && b.order < MAX_ORDER
    ensures Inv(s, live, {b.Parent()}, node)
  {
    var rest := FreeSet(s) + live;
    assert rest + {b.Buddy(), b} == FreeSet(s) + live + ({b} + {b.Buddy()});
    MergePartition(rest, b, node);
  }

  lemma HandToLive(s: State, live: set<Block>, b: Block, node: set<nat>)
    requires Inv(s, live, {b}, node)
    ensures Inv(MarkInUse(s, b.pfn), live + {b}, {}, node)
    ensures FreeSet(MarkInUse(s, b.pfn)) == FreeSet(s)
  {
    var t := MarkInUse(s, b.pfn);
    var blocks := FreeSet(s) + live + {b};
    assert b in blocks;
    HeadCovered(blocks, node, b);
    assert FreeSet(t) + (live + {b}) + {} == blocks;
    forall c | c in FreeSet(s) + live ensures c.pfn != b.pfn {
      if c.pfn == b.pfn { OneOwner(blocks, node, b, c, b.pfn); }
    }
  }

  lemma LiveToHand(s: State, live: set<Block>, b: Block, node: set<nat>)
    requires Inv(s, live, {}, node) && b in live
    ensures Inv(s, live - {b}, {b}, node)
  {
    assert FreeSet(s) + (live - {b}) + {b} == FreeSet(s) + live + {};
  }

  // ---- allocation ----

  /** The upper halves left over when a block at pfn is split from order `cur` down to `target`. */
  ghost function Halves(pfn: nat, target: nat, cur: nat): set<Block> {
    set j: nat | target <= j < cur :: Block(pfn + Pow2(j), j)
  }

  lemma HalvesStep(pfn: nat, target: nat, cur: nat)
    requires target < cur
    ensures Halves(pfn, target, cur) == {Block(pfn + Pow2(cur - 1), cur - 1)} + Halves(pfn, target, cur - 1)
  {
  }

  lemma SplitStep(s: State, live: set<Block>, node: set<nat>, pfn: nat, cur: nat)
    requires Inv(s, live, {Block(pfn, cur)}, node) && 0 < cur <= MAX_ORDER
    ensures var t := Push(s, Block(FlipBit(pfn, cur - 1), cur - 1));
            && Inv(t, live, {Block(pfn, cur - 1)}, node)
            && FreeSet(t) == FreeSet(s) + {Block(pfn + Pow2(cur - 1), cur - 1)}
  {
    hide Inv;
    var b := Block(pfn, cur);
    var up := b.UpperHalf();
    SplitHand(s, live, b, node);
    PushHand(s, live, {Block(pfn, cur - 1)}, up, node);
  }

  ghost predicate SplitOk(s: State, t: State, live: set<Block>, node: set<nat>, pfn: nat, cur: nat, target: nat) {
    && Inv(t, live, {Block(pfn, target)}, node)
    && FreeSet(t) == FreeSet(s) + Halves(pfn, target, cur)
  }

  lemma {:induction false} SplitDownKeeps(s: State, live: set<Block>, node: set<nat>, pfn: nat, cur: nat, target: nat)
    requires Inv(s, live, {Block(pfn, cur)}, node) && target <= cur <= MAX_ORDER
    ensures SplitOk(s, SplitDown(s, pfn, cur, target), live, node, pfn, cur, target)
    decreases cur
  {
    hide *;
    InvLists(s, live, {Block(pfn, cur)}, node);
    if cur == target {
      SplitOkNone(s, live, node, pfn, cur);
    } else {
      var t := Push(s, Block(FlipBit(pfn, cur - 1), cur - 1));
      SplitDownNext(s, pfn, cur, target);
      SplitStep(s, live, node, pfn, cur);
      InvLists(t, live, {Block(pfn, cur - 1)}, node);
      SplitDownKeeps(t, live, node, pfn, cur - 1, target);
      SplitOkStep(s, t, SplitDown(t, pfn, cur - 1, target), live, node, pfn, cur, target);
    }
  }

  lemma InvLists(s: State, live: set<Block>, hand: set<Block>, node: set<nat>)
    requires Inv(s, live, hand, node)
    ensures |s.lists| == MAX_ORDER + 1
  {
  }

  lemma SplitOkNone(s: State, live: set<Block>, node: set<nat>, pfn: nat, cur: nat)
    requires Inv(s, live, {Block(pfn, cur)}, node) && cur <= |s.lists|
    ensures SplitOk(s, SplitDown(s, pfn, cur, cur), live, node, pfn, cur, cur)
  {
    hide Inv, FreeSet;
    assert Halves(pfn, cur, cur) == {};
  }

  lemma SplitOkStep(s: State, t: State, u: State, live: set<Block>, node: set<nat>, pfn: nat, cur: nat, target: nat)
    requires target < cur && FreeSet(t) == FreeSet(s) + {Block(pfn + Pow2(cur - 1), cur - 1)}
    requires SplitOk(t, u, live, node, pfn, cur - 1, target)
    ensures SplitOk(s, u, live, node, pfn, cur, target)
  {
    HalvesStep(pfn, target, cur);
    hide Inv, Halves, FreeSet, Pow2;
  }

  lemma LeastServing(s: State, order: nat)
    ensures var k := FindOrder(s.lists, order);
            && (forall c :: c in FreeSet(s) && order <= c.order ==> k <= c.order)
            && (k < |s.lists| ==> Block(s.lists[k][0], k) in FreeSet(s))
  {
    var k := FindOrder(s.lists, order);
    forall c | c in FreeSet(s) && order <= c.order ensures k <= c.order {
      FreeSetHas(s, c);
    }
    if k < |s.lists| { FreeSetHas(s, Block(s.lists[k][0], k)); }
  }

  lemma PopToHand(s: State, live: set<Block>, k: nat, node: set<nat>)
    requires Inv(s, live, {}, node) && k <= MAX_ORDER && s.lists[k] != []
    ensures var b := Block(s.lists[k][0], k);
            Inv(PopFront(s, k), live, {b}, node) && FreeSet(PopFront(s, k)) == FreeSet(s) - {b}
  {
    var b := Block(s.lists[k][0], k);
    FreeSetHas(s, b);
    UnlinkToHand(s, live, {}, b, node);
    assert {} + {b} == {b};
  }

  ghost predicate NothingLarge(s: State, order: nat) {
    forall b :: b in FreeSet(s) ==> b.order < order
  }

  /** Allocation serves the least order that has a free block, takes the front of that list, frees
      the upper half at each split, and fails exactly when no free block is large enough. */
  lemma AllocKeeps(s: State, live: set<Block>, node: set<nat>, order: nat)
    requires Inv(s, live, {}, node)
    ensures Alloc(s, order).1.None? <==> NothingLarge(s, order)
    ensures Alloc(s, order).1.None? ==> Alloc(s, order).0 == s
    ensures Alloc(s, order).1.Some? ==> AllocOk(s, Alloc(s, order).0, live, node, Alloc(s, order).1.value, order)
  {
    assert |s.lists| == MAX_ORDER + 1;
    LeastServing(s, order);
    var k := FindOrder(s.lists, order);
    if k < |s.lists| {
      AllocSomeKeeps(s, live, node, order);
    } else {
      forall c | c in FreeSet(s) ensures c.order < order { FreeSetHas(s, c); }
    }
  }

  /** What a successful allocation of the block (pfn, order) did: it came from the free block of least
      sufficient order, whose upper halves stay free, and it is handed out for the first time. */
  ghost predicate AllocOk(s: State, t: State, live: set<Block>, node: set<nat>, pfn: nat, order: nat) {
    var from := Block(pfn, FindOrder(s.lists, order));
    && Block(pfn, order) !in live
    && Inv(t, live + {Block(pfn, order)}, {}, node)
    && from in FreeSet(s) && order <= from.order
    && (forall c :: c in FreeSet(s) && order <= c.order ==> from.order <= c.order)
    && FreeSet(t) == FreeSet(s) - {from} + Halves(pfn, order, from.order)
  }

  lemma AllocSomeKeeps(s: State, live: set<Block>, node: set<nat>, order: nat)
    requires Inv(s, live, {}, node) && FindOrder(s.lists, order) < |s.lists|
    ensures AllocOk(s, Alloc(s, order).0, live, node, Alloc(s, order).1.value, order)
  {
    var k := FindOrder(s.lists, order);
    var pfn := s.lists[k][0];
    var t := SplitDown(PopFront(s, k), pfn, k, order);
    LeastServing(s, order);
    assert |s.lists| == MAX_ORDER + 1;
    hide Inv;
    PopToHand(s, live, k, node);
    SplitDownKeeps(PopFront(s, k), live, node, pfn, k, order);
    HandIsNew(t, live, Block(pfn, order), node);
    HandToLive(t, live, Block(pfn, order), node);
  }

  lemma HandIsNew(s: State, live: set<Block>, b: Block, node: set<nat>)
    requires Inv(s, live, {b}, node)
    ensures b !in live && b !in FreeSet(s) && b.WellPlaced()
  {
    assert b in FreeSet(s) + live + {b};
  }

  // ---- freeing with the merged block starting at the lower buddy ----

  lemma MergeStep(s: State, live: set<Block>, b: Block, node: set<nat>)
    requires Inv(s, live, {b}, node) && b.order < MAX_ORDER && b.Buddy() in FreeSet(s)
    ensures Inv(Unlink(s, b.Buddy()), live, {b.Parent()}, node)
    ensures FreeSet(Unlink(s, b.Buddy())) == FreeSet(s) - {b.Buddy()}
    ensures b.Parent().pfn <= b.pfn && b.End() <= b.Parent().End()
  {
    HandIsNew(s, live, b, node);
    ParentHolds(b);
    hide *;
    UnlinkToHand(s, live, {b}, b.Buddy(), node);
    MergeHand(Unlink(s, b.Buddy()), live, b, node);
  }

  lemma ParentHolds(b: Block)
    requires b.WellPlaced()
    ensures b.Parent().pfn <= b.pfn && b.End() <= b.Parent().End()
  {
    BuddySides(b.pfn, b.order);
  }

  ghost predicate MergeOk(s: State, t: State, live: set<Block>, b: Block, m: Block, node: set<nat>) {
    && Inv(t, live, {m}, node)
    && FreeSet(t) <= FreeSet(s)
    && (m.order < MAX_ORDER ==> m.Buddy() !in FreeSet(t))
    && m.pfn <= b.pfn && b.End() <= m.End()
  }

  lemma {:induction false} MergeLowerKeeps(s: State, live: set<Block>, b: Block, node: set<nat>)
    requires Inv(s, live, {b}, node) && b.order <= MAX_ORDER && |s.lists| == MAX_ORDER + 1
    ensures MergeOk(s, MergeLower(s, b).0, live, b, MergeLower(s, b).1, node)
    decreases MAX_ORDER - b.order
  {
    hide Inv;
    if b.order < MAX_ORDER {
      TagTestExact(s, live, b, node);
      if TagTest(s, b.Buddy()) {
        MergeStep(s, live, b, node);
        MergeLowerKeeps(Unlink(s, b.Buddy()), live, b.Parent(), node);
      }
    }
  }

  /** Freeing a block that is out keeps the invariant; the frames of the block end up in one free
      block that holds them, and that block has no free buddy. */
  lemma FreeLowerKeeps(s: State, live: set<Block>, b: Block, node: set<nat>)
    requires Inv(s, live, {}, node) && b in live
    ensures b.order <= MAX_ORDER && |s.lists| == MAX_ORDER + 1
    ensures Inv(FreeLower(s, b), live - {b}, {}, node)
    ensures var m := MergeLower(s, b).1;
            && FreeSet(FreeLower(s, b)) <= FreeSet(s) + {m} && m in FreeSet(FreeLower(s, b))
            && m.pfn <= b.pfn && b.End() <= m.End()
            && (m.order < MAX_ORDER ==> m.Buddy() !in FreeSet(FreeLower(s, b)))
  {
    LiveToHand(s, live, b, node);
    HandIsNew(s, live - {b}, b, node);
    assert |s.lists| == MAX_ORDER + 1;
    hide Inv;
    MergeLowerKeeps(s, live - {b}, b, node);
    var (t, m) := MergeLower(s, b);
    assert {} + {m} == {m};
    PushHand(t, live - {b}, {}, m, node);
    BuddyDiffers(m);
  }

  lemma BuddyDiffers(b: Block)
    ensures b.Buddy() != b
  {
  }
}
