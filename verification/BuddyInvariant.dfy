/** What every operation of the page allocator keeps: the free blocks and the outstanding blocks
    partition the node's frames, and a tag test on a buddy is exact. */
module BuddyInvariant {
  import opened Bits
  import opened Sequences
  import opened Wrappers
  import opened BuddyModel

  /** A frame outside the node never looks like the free buddy of a block of the node. */
  ghost predicate ForeignQuiet(pages: map<nat, Page>, node: set<nat>) {
    forall b: Block :: b.order < MAX_ORDER && Aligned(b.pfn, b.order) && b.pfn in node
                       && b.Buddy().pfn !in node && b.Buddy().pfn in pages
                       ==> pages[b.Buddy().pfn] != Page(InPageAllocator, b.order)
  }

  ghost predicate ListsOk(s: State) {
    |s.lists| == MAX_ORDER + 1 && forall k :: 0 <= k < |s.lists| ==> NoDup(s.lists[k])
  }

  ghost predicate TagsOk(s: State, live: set<Block>) {
    && (forall b :: b in FreeSet(s) ==> TagTest(s, b))
    && (forall b :: b in live ==> b.pfn in s.pages && s.pages[b.pfn].usage != InPageAllocator)
  }

  /** `live` are the blocks handed out; `hand` are blocks an operation is working on, whose tags
      are in between. */
  ghost predicate Inv(s: State, live: set<Block>, hand: set<Block>, node: set<nat>) {
    && ListsOk(s)
    && FreeSet(s) !! live && FreeSet(s) !! hand && live !! hand
    && Partition(FreeSet(s) + live + hand, node)
    && TagsOk(s, live)
    && node <= s.pages.Keys
    && ForeignQuiet(s.pages, node)
  }

  /** Blocks of a partition that share a frame are the same block. */
  lemma OneOwner(blocks: set<Block>, node: set<nat>, b: Block, c: Block, f: nat)
    requires Partition(blocks, node) && b in blocks && c in blocks && b.Covers(f) && c.Covers(f)
    ensures b == c
  {
    assert b != c ==> Disjoint(b, c);
  }

  lemma HeadCovered(blocks: set<Block>, node: set<nat>, b: Block)
    requires Partition(blocks, node) && b in blocks
    ensures b.pfn in node
  {
    assert b.Covers(b.pfn);
    assert Covered(blocks, b.pfn);
  }

  // ---- list surgery, seen as changes of the free set ----

  lemma {:induction false} RemoveKeeps(l: seq<nat>, x: nat)
    requires NoDup(l)
    ensures NoDup(Remove(l, x)) && forall y :: y in Remove(l, x) <==> y in l && y != x
  {
    if l != [] {
      assert forall y :: y in l <==> y == l[0] || y in l[1..];
      if l[0] != x {
        RemoveKeeps(l[1..], x);
        NoDupCons(l[0], Remove(l[1..], x));
      }
    }
  }

  lemma FreeSetHas(s: State, b: Block)
    ensures b in FreeSet(s) <==> b.order < |s.lists| && b.pfn in s.lists[b.order]
  {
  }

  lemma PushSet(s: State, b: Block)
    requires ListsOk(s) && b.order <= MAX_ORDER
    ensures FreeSet(Push(s, b)) == FreeSet(s) + {b}
    ensures b !in FreeSet(s) ==> ListsOk(Push(s, b))
  {
    var t := Push(s, b);
    forall c ensures c in FreeSet(t) <==> c in FreeSet(s) + {b} {
      FreeSetHas(s, c);
      FreeSetHas(t, c);
    }
    FreeSetHas(s, b);
  }

  lemma UnlinkSet(s: State, b: Block)
    requires ListsOk(s) && b.order <= MAX_ORDER
    ensures FreeSet(Unlink(s, b)) == FreeSet(s) - {b} && ListsOk(Unlink(s, b))
  {
    var t := Unlink(s, b);
    RemoveKeeps(s.lists[b.order], b.pfn);
    forall c ensures c in FreeSet(t) <==> c in FreeSet(s) - {b} {
      FreeSetHas(s, c);
      FreeSetHas(t, c);
    }
  }

  // ---- splitting and merging blocks of a partition ----

  /** Replacing some blocks by others that cover the same frames keeps coverage. */
  lemma SameCover(rest: set<Block>, out: set<Block>, into: set<Block>, f: nat)
    requires Covered(out, f) <==> Covered(into, f)
    ensures Covered(rest + out, f) <==> Covered(rest + into, f)
  {
    hide *;
    if Covered(rest + out, f) { CoverSplits(rest, out, f); CoverSplits(rest, into, f); }
    if Covered(rest + into, f) { CoverSplits(rest, out, f); CoverSplits(rest, into, f); }
  }

  lemma CoverSplits(a: set<Block>, b: set<Block>, f: nat)
    ensures Covered(a + b, f) <==> Covered(a, f) || Covered(b, f)
  {
    if Covered(a, f) {
      var c :| c in a && c.Covers(f);
      assert c in a + b;
    }
    if Covered(b, f) {
      var c :| c in b && c.Covers(f);
      assert c in a + b;
    }
  }

  lemma PairCover(b: Block, lo: Block, hi: Block, f: nat)
    requires lo.pfn == b.pfn && lo.End() == hi.pfn && hi.End() == b.End()
    ensures Covered({b}, f) <==> Covered({hi, lo}, f)
  {
    if b.Covers(f) {
      assert b in {b};
      assert lo in {hi, lo} && hi in {hi, lo};
      assert lo.Covers(f) || hi.Covers(f);
    } else {
      assert !lo.Covers(f) && !hi.Covers(f);
    }
  }

  lemma SplitPartition(rest: set<Block>, b: Block, node: set<nat>)
    requires Partition(rest + {b}, node) && b !in rest && b.order > 0
    ensures Partition(rest + {b.UpperHalf(), Block(b.pfn, b.order - 1)}, node)
    ensures b.UpperHalf() !in rest && Block(b.pfn, b.order - 1) !in rest
    ensures b.UpperHalf() == Block(FlipBit(b.pfn, b.order - 1), b.order - 1)
  {
    hide FlipBit, Aligned, Pow2, Covered;
    var lo, hi := Block(b.pfn, b.order - 1), b.UpperHalf();
    var was, now := rest + {b}, rest + {hi, lo};
    assert b in was && b.WellPlaced();
    HalvesOf(b);
    forall c | c in rest ensures Disjoint(c, lo) && Disjoint(c, hi) {
      assert c in was && Disjoint(b, c);
    }
    forall f: nat ensures f in node <==> Covered(now, f) {
      PairCover(b, lo, hi, f);
      SameCover(rest, {b}, {hi, lo}, f);
    }
  }

  lemma HalvesOf(b: Block)
    requires b.WellPlaced() && b.order > 0
    ensures var lo, hi := Block(b.pfn, b.order - 1), b.UpperHalf();
            && lo.WellPlaced() && hi.WellPlaced() && b.pfn < lo.End() == hi.pfn < hi.End() == b.End()
            && hi == Block(FlipBit(b.pfn, b.order - 1), b.order - 1)
  {
    AlignedLower(b.pfn, b.order - 1, b.order);
    BuddySides(b.pfn, b.order - 1);
  }

  lemma MergePartition(rest: set<Block>, b: Block, node: set<nat>)
    requires b !in rest && b.order < MAX_ORDER && b.Buddy() !in rest
    requires Partition(rest + {b.Buddy(), b}, node)
    ensures Partition(rest + {b.Parent()}, node) && b.Parent() !in rest
  {
    var was, now := rest + {b.Buddy(), b}, rest + {b.Parent()};
    var p := b.Parent();
    assert b in was && b.WellPlaced();
    BuddySides(b.pfn, b.order);
    forall c | c in rest ensures Disjoint(c, p) {
      assert c in was && b.Buddy() in was;
      assert Disjoint(b, c) && Disjoint(b.Buddy(), c);
    }
    forall f: nat ensures f in node <==> Covered(now, f) {
      if b.Buddy().pfn < b.pfn { PairCover(p, b.Buddy(), b, f); } else { PairCover(p, b, b.Buddy(), f); }
      assert {b, b.Buddy()} == {b.Buddy(), b};
      SameCover(rest, {b.Buddy(), b}, {p}, f);
    }
  }

  // ---- the tag test ----

  /** The block that holds the first frame of b's buddy starts there and is no larger than b. */
  lemma BuddyOwnerIsHead(blocks: set<Block>, node: set<nat>, b: Block, c: Block)
    requires Partition(blocks, node) && b in blocks && c in blocks && c.Covers(b.Buddy().pfn)
    ensures c.pfn == b.Buddy().pfn && c.order <= b.order && c != b
  {
    var q := b.Buddy().pfn;
    assert b.WellPlaced() && c.WellPlaced();
    BuddySides(b.pfn, b.order);
    if c.order > b.order {
      Laminar(if q < b.pfn then q else b.pfn, b.order + 1, c.pfn, c.order);
      OneOwner(blocks, node, b, c, b.pfn);
    } else {
      AlignedLower(q, c.order, b.order);
      if c.pfn < q { AlignedGap(c.pfn, q, c.order); }
    }
  }

  lemma BuddyInNode(s: State, b: Block, node: set<nat>)
    requires ForeignQuiet(s.pages, node) && b.order < MAX_ORDER && b.WellPlaced() && b.pfn in node
    requires TagTest(s, b.Buddy())
    ensures b.Buddy().pfn in node
  {
  }

  /** The test that `Free` makes on the buddy of the block in hand is exact: stale tags inside
      merged or handed-out blocks never pass it. */
  lemma TagTestExact(s: State, live: set<Block>, b: Block, node: set<nat>)
    requires Inv(s, live, {b}, node) && b.order < MAX_ORDER
    ensures TagTest(s, b.Buddy()) <==> b.Buddy() in FreeSet(s)
  {
    if TagTest(s, b.Buddy()) {
      var blocks := FreeSet(s) + live + {b};
      assert b in blocks && b.WellPlaced();
      HeadCovered(blocks, node, b);
      BuddyInNode(s, b, node);
      assert Covered(blocks, b.Buddy().pfn);
      var c :| c in blocks && c.Covers(b.Buddy().pfn);
      BuddyOwnerIsHead(blocks, node, b, c);
      assert c in FreeSet(s) ==> TagTest(s, c);
      assert c in FreeSet(s) ==> c == b.Buddy();
    }
  }
}
