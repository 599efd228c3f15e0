/** No two free buddies of equal order coexist, and there is only one such set of free blocks for a
    given set of frames. */
module BuddyCoalesced {
  import opened Bits
  import opened Wrappers
  import opened BuddyModel
  import opened BuddyInvariant
  import opened BuddySteps

  lemma AllocKeepsNoBuddies(s: State, live: set<Block>, node: set<nat>, order: nat)
    requires Inv(s, live, {}, node) && NoBuddies(FreeSet(s))
    ensures NoBuddies(FreeSet(Alloc(s, order).0))
  {
    AllocKeeps(s, live, node, order);
    var (t, r) := Alloc(s, order);
    if r.Some? {
      var b := Block(r.value, order);
      var from := Block(b.pfn, FindOrder(s.lists, order));
      assert FreeSet(t) == FreeSet(s) - {from} + Halves(b.pfn, order, from.order);
      assert from.WellPlaced() by { assert from in FreeSet(s) + live + {}; }
      forall c | c in FreeSet(t) && c.order < MAX_ORDER ensures c.Buddy() !in FreeSet(t) {
        if c.Buddy() in FreeSet(t) {
          assert c in FreeSet(t) + (live + {b}) + {};
          BuddySides(c.pfn, c.order);
          if c in Halves(b.pfn, order, from.order) {
            HalfHasNoFreeBuddy(t, live, b, from, c, node);
          } else if c.Buddy() in Halves(b.pfn, order, from.order) {
            HalfHasNoFreeBuddy(t, live, b, from, c.Buddy(), node);
          }
        }
      }
    }
  }

  lemma HalfHasNoFreeBuddy(t: State, live: set<Block>, b: Block, from: Block, h: Block, node: set<nat>)
    requires Inv(t, live + {b}, {}, node) && from.pfn == b.pfn && from.WellPlaced()
    requires h in Halves(b.pfn, b.order, from.order)
    ensures h.Buddy() !in FreeSet(t)
  {
    var low := Block(b.pfn, h.order);
    LowerOfHalf(b, from, h);
    assert low.Covers(b.pfn) && b.Covers(b.pfn);
    var blocks := FreeSet(t) + (live + {b}) + {};
    assert Partition(blocks, node) && b in blocks && FreeSet(t) !! live + {b};
    hide *;
    if low in FreeSet(t) { OneOwner(blocks, node, low, b, b.pfn); }
  }

  /** The buddy of an upper half that was split off is the lower half, which starts where the block does. */
  lemma LowerOfHalf(b: Block, from: Block, h: Block)
    requires from.pfn == b.pfn && from.WellPlaced() && h in Halves(b.pfn, b.order, from.order)
    ensures h.Buddy() == Block(b.pfn, h.order)
  {
    AlignedLower(from.pfn, h.order + 1, from.order);
    AlignedLower(from.pfn, h.order, from.order);
    BuddySides(b.pfn, h.order);
  }

  lemma FreeLowerKeepsNoBuddies(s: State, live: set<Block>, b: Block, node: set<nat>)
    requires Inv(s, live, {}, node) && b in live && NoBuddies(FreeSet(s))
    ensures b.order <= MAX_ORDER && |s.lists| == MAX_ORDER + 1
    ensures NoBuddies(FreeSet(FreeLower(s, b)))
  {
    FreeLowerKeeps(s, live, b, node);
    var t, m := FreeLower(s, b), MergeLower(s, b).1;
    forall c | c in FreeSet(t) && c.order < MAX_ORDER ensures c.Buddy() !in FreeSet(t) {
      assert c in FreeSet(t) + (live - {b}) + {};
      BuddySides(c.pfn, c.order);
      assert c.Buddy().Buddy() == c;
    }
  }

  /** In a coalesced partition no block can be strictly inside an aligned block of frames of the node:
      its buddy would have to be split further, and so on down. */
  lemma {:induction false} NothingSmallerInside(blocks: set<Block>, node: set<nat>, c: Block, b: Block)
    requires Partition(blocks, node) && NoBuddies(blocks) && c in blocks && b.WellPlaced()
    requires b.pfn <= c.pfn && c.End() <= b.End() && c.order < b.order
    requires forall f: nat :: b.Covers(f) ==> f in node
    ensures false
    decreases c.order
  {
    var q := c.Buddy();
    assert c.WellPlaced();
    ParentInside(c, b);
    assert b.Covers(q.pfn);
    var d :| d in blocks && d.Covers(q.pfn);
    BuddyOwnerIsHead(blocks, node, c, d);
    assert d.order == c.order ==> d == q;
    if d.order != c.order {
      Pow2Less(d.order, c.order);
      NothingSmallerInside(blocks, node, d, b);
    }
  }

  lemma ParentInside(c: Block, b: Block)
    requires b.WellPlaced() && c.WellPlaced() && c.order < b.order
    requires b.pfn <= c.pfn && c.End() <= b.End()
    ensures b.pfn <= c.Buddy().pfn && c.Buddy().End() <= b.End()
  {
    BuddySides(c.pfn, c.order);
    Laminar(c.Parent().pfn, c.order + 1, b.pfn, b.order);
  }

  lemma BlockInNode(blocks: set<Block>, node: set<nat>, b: Block)
    requires Partition(blocks, node) && b in blocks
    ensures forall f: nat :: b.Covers(f) ==> f in node
  {
    forall f: nat | b.Covers(f) ensures f in node { assert Covered(blocks, f); }
  }

  lemma CoalescedWithin(B: set<Block>, C: set<Block>, node: set<nat>, b: Block)
    requires Partition(B, node) && NoBuddies(B) && Partition(C, node) && NoBuddies(C)
    requires b in B
    ensures b in C
  {
    HeadCovered(B, node, b);
    assert Covered(C, b.pfn);
    var d :| d in C && d.Covers(b.pfn);
    assert b.WellPlaced() && d.WellPlaced();
    BlockInNode(B, node, b);
    BlockInNode(C, node, d);
    if d.order < b.order {
      Laminar(d.pfn, d.order, b.pfn, b.order);
      NothingSmallerInside(C, node, d, b);
    } else {
      Laminar(b.pfn, b.order, d.pfn, d.order);
      if b.order < d.order { NothingSmallerInside(B, node, b, d); }
      assert d == b;
    }
  }

  /** There is one coalesced partition of a set of frames. */
  lemma CoalescedIsUnique(B: set<Block>, C: set<Block>, node: set<nat>)
    requires Partition(B, node) && NoBuddies(B) && Partition(C, node) && NoBuddies(C)
    ensures B == C
  {
    forall b ensures b in B <==> b in C {
      if b in B { CoalescedWithin(B, C, node, b); }
      if b in C { CoalescedWithin(C, B, node, b); }
    }
  }
}
