/** What an allocation and the free that follows it do together (sys/page_allocator.cpp). */
module BuddyRoundTrip {
  import opened Bits
  import opened Wrappers
  import opened BuddyModel
  import opened BuddyInvariant
  import opened BuddySteps
  import opened BuddyCoalesced

  /** The frames that belong to no outstanding block. */
  ghost function NotOut(live: set<Block>, node: set<nat>): set<nat> {
    set f | f in node && !Covered(live, f)
  }

  lemma FreePartition(s: State, live: set<Block>, node: set<nat>)
    requires Inv(s, live, {}, node)
    ensures Partition(FreeSet(s), NotOut(live, node))
  {
    var free := FreeSet(s);
    var all := free + live + {};
    assert Partition(all, node) && free !! live;
    hide Inv, FreeSet;
    forall f: nat ensures f in NotOut(live, node) <==> Covered(free, f) {
      CoverSplits(free, live, f);
      assert free + live == all;
      if Covered(free, f) && Covered(live, f) {
        var b :| b in free && b.Covers(f);
        var c :| c in live && c.Covers(f);
        OneOwner(all, node, b, c, f);
      }
    }
  }

  /** Without free buddies the free blocks depend on the outstanding blocks alone, not on the calls that led there. */
  lemma FreeDependsOnLive(s: State, t: State, live: set<Block>, node: set<nat>)
    requires Inv(s, live, {}, node) && Inv(t, live, {}, node)
    requires NoBuddies(FreeSet(s)) && NoBuddies(FreeSet(t))
    ensures FreeSet(s) == FreeSet(t)
  {
    hide Inv, Partition, NoBuddies, FreeSet;
    FreePartition(s, live, node);
    FreePartition(t, live, node);
    CoalescedIsUnique(FreeSet(s), FreeSet(t), NotOut(live, node));
  }

  /** Freeing what was just allocated merges every block that was split: the free blocks are the same again. */
  lemma AllocThenFree(s: State, live: set<Block>, node: set<nat>, order: nat)
    requires Inv(s, live, {}, node) && NoBuddies(FreeSet(s)) && Alloc(s, order).1.Some?
    ensures var (t, r) := Alloc(s, order);
            && order <= MAX_ORDER && |t.lists| == MAX_ORDER + 1
            && FreeSet(FreeLower(t, Block(r.value, order))) == FreeSet(s)
  {
    hide Inv, Partition, NoBuddies, FreeSet, NothingLarge, Halves;
    AllocKeeps(s, live, node, order);
    AllocKeepsNoBuddies(s, live, node, order);
    var (t, r) := Alloc(s, order);
    var b := Block(r.value, order);
    FreeLowerKeeps(t, live + {b}, b, node);
    FreeLowerKeepsNoBuddies(t, live + {b}, b, node);
    assert live + {b} - {b} == live;
    FreeDependsOnLive(FreeLower(t, b), s, live, node);
  }

  /** A freed block that finds no buddy to merge with is the next one of its order to be handed out; the lists are
      then as before, and the frame's record says that a block of this order is in use. */
  lemma FreeThenAlloc(s: State, b: Block)
    requires b.order <= MAX_ORDER && |s.lists| == MAX_ORDER + 1
    requires b.order == MAX_ORDER || !TagTest(s, b.Buddy())
    ensures Alloc(FreeLower(s, b), b.order)
         == (State(s.lists, s.pages[b.pfn := Page(InUse, b.order)]), Some(b.pfn))
  {
    var t := Push(s, b);
    MergeLowerNext(s, b);
    assert FreeLower(s, b) == t;
    assert FindOrder(t.lists, b.order) == b.order;
    assert t.lists[b.order][1..] == s.lists[b.order];
    var u := PopFront(t, b.order);
    assert u.lists == s.lists && u.pages == t.pages;
    AllocUnfolds(t, b.order);
    SplitNone(u, b.pfn, b.order);
    assert MarkInUse(u, b.pfn).pages == s.pages[b.pfn := Page(InUse, b.order)];
  }

  lemma SplitNone(s: State, pfn: nat, order: nat)
    requires order <= |s.lists|
    ensures SplitDown(s, pfn, order, order) == s
  {
  }
}
