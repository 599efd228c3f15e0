/** When `Init` leaves free buddies: early_set_nid_range cuts ranges and never joins them, so two ranges of
    a node may touch (sys/page_allocator.cpp:20-45, sys/early_page_allocator.cpp:83-115). */
module BuddyTouching {
  import opened Bits
  import opened Wrappers
  import opened BuddyModel
  import opened BuddyInvariant
  import opened BuddyCoalesced
  import opened BuddyInit
  import opened BuddyRuns

  // ---- the blocks of one range ----

  lemma {:induction false} LaterBlock(blocks: seq<Block>, lo: nat, hi: nat, i: nat, j: nat)
    requires Tiles(blocks, lo, hi) && i < j < |blocks|
    ensures blocks[i].End() <= blocks[j].pfn
    decreases j - i
  {
    TilesFacts(blocks, lo, hi);
    assert blocks[j - 1].End() == blocks[j].pfn;
    if i < j - 1 { LaterBlock(blocks, lo, hi, i, j - 1); }
  }

  lemma NextBlock(blocks: seq<Block>, lo: nat, hi: nat, i: nat, j: nat)
    requires Tiles(blocks, lo, hi) && i < |blocks| && j < |blocks| && blocks[i].End() == blocks[j].pfn
    ensures j == i + 1
  {
    TilesFacts(blocks, lo, hi);
    if i + 1 < j {
      LaterBlock(blocks, lo, hi, i + 1, j);
    } else if j < i {
      LaterBlock(blocks, lo, hi, j, i);
    } else {
      assert blocks[i].End() > blocks[i].pfn;
    }
  }

  lemma {:induction false} TilesCover(blocks: seq<Block>, lo: nat, hi: nat, f: nat) returns (b: Block)
    requires Tiles(blocks, lo, hi) && lo <= f < hi
    ensures b in BlockSet(blocks) && b.Covers(f)
    decreases |blocks|
  {
    if f < blocks[0].End() {
      b := blocks[0];
    } else {
      b := TilesCover(blocks[1..], blocks[0].End(), hi, f);
    }
  }

  lemma NotABuddy(blocks: seq<Block>, lo: nat, hi: nat, b: Block)
    requires Tiles(blocks, lo, hi) && NoPairs(blocks) && b in BlockSet(blocks) && b.order < MAX_ORDER
    ensures b.Buddy() !in BlockSet(blocks)
  {
    TilesFacts(blocks, lo, hi);
    BuddySides(b.pfn, b.order);
    var q := b.Buddy();
    if q in BlockSet(blocks) {
      var i: nat :| i < |blocks| && blocks[i] == b;
      var j: nat :| j < |blocks| && blocks[j] == q;
      if b.pfn < q.pfn { NextBlock(blocks, lo, hi, i, j); } else { NextBlock(blocks, lo, hi, j, i); }
    }
  }

  /** The blocks of a range partition its frames, and no two of them are buddies. */
  lemma RangeIsCoalesced(r: Range)
    requires r.start < r.end
    ensures var blocks := BlockSet(Decompose(r.start, r.end));
            Partition(blocks, Span(r.start, r.end)) && NoBuddies(blocks)
  {
    hide Decompose, Tiles, NoPairs, BlockSet, Partition;
    var blocks := Decompose(r.start, r.end);
    DecomposeTiles(r.start, r.end);
    TilesPartition(blocks, r.start, r.end);
    forall b | b in BlockSet(blocks) && b.order < MAX_ORDER ensures b.Buddy() !in BlockSet(blocks) {
      NotABuddy(blocks, r.start, r.end, b);
    }
  }

  lemma TilesApart(blocks: seq<Block>, lo: nat, hi: nat, b: Block, c: Block)
    requires Tiles(blocks, lo, hi) && b in BlockSet(blocks) && c in BlockSet(blocks) && b != c
    ensures Disjoint(b, c)
  {
    hide Tiles, Pow2;
    var i: nat :| i < |blocks| && blocks[i] == b;
    var j: nat :| j < |blocks| && blocks[j] == c;
    if i < j { LaterBlock(blocks, lo, hi, i, j); } else { LaterBlock(blocks, lo, hi, j, i); }
  }

  lemma TilesInside(blocks: seq<Block>, lo: nat, hi: nat, b: Block)
    requires Tiles(blocks, lo, hi) && b in BlockSet(blocks)
    ensures b.WellPlaced() && lo <= b.pfn && b.End() <= hi
  {
    hide Tiles;
    TilesFacts(blocks, lo, hi);
  }

  lemma TilesPartition(blocks: seq<Block>, lo: nat, hi: nat)
    requires Tiles(blocks, lo, hi)
    ensures Partition(BlockSet(blocks), Span(lo, hi))
  {
    hide Tiles, BlockSet, Aligned, Pow2;
    forall b | b in BlockSet(blocks) ensures b.WellPlaced() { TilesInside(blocks, lo, hi, b); }
    forall b, c | b in BlockSet(blocks) && c in BlockSet(blocks) && b != c ensures Disjoint(b, c) {
      TilesApart(blocks, lo, hi, b, c);
    }
    forall f: nat ensures f in Span(lo, hi) <==> Covered(BlockSet(blocks), f) {
      if lo <= f < hi {
        var b := TilesCover(blocks, lo, hi, f);
      } else if Covered(BlockSet(blocks), f) {
        var b :| b in BlockSet(blocks) && b.Covers(f);
        TilesInside(blocks, lo, hi, b);
      }
    }
  }

  ghost function BlocksOf(r: Range): set<Block>
    requires r.start < r.end
  {
    BlockSet(Decompose(r.start, r.end))
  }

  lemma RangeBlocks(r: Range, b: Block)
    requires r.start < r.end && b in BlocksOf(r)
    ensures b.WellPlaced() && r.start <= b.pfn && b.pfn < b.End() <= r.end
  {
    DecomposeTiles(r.start, r.end);
    TilesFacts(Decompose(r.start, r.end), r.start, r.end);
    hide Decompose, Tiles;
  }

  /** Of two blocks that share an edge, the one that the edge does not let grow is the larger. */
  lemma SharedEdge(c: Block, d: Block, edge: nat)
    requires c.WellPlaced() && d.WellPlaced() && !Aligned(edge, c.order + 1)
    requires edge == c.pfn == d.pfn || edge == c.End() == d.End()
    ensures d.order <= c.order && c.pfn <= d.pfn && d.End() <= c.End()
    ensures d.order == c.order ==> d == c
  {
    if d.order > c.order {
      AlignedAdd(d.pfn, d.order, d.order);
      AlignedLower(edge, c.order + 1, d.order);
    } else {
      Pow2Split(d.order, c.order);
    }
  }

  /** A block at an edge of the range that the edge does not let grow is one of the range's blocks. */
  lemma EdgeBlock(r: Range, c: Block, edge: nat)
    requires c.WellPlaced() && r.start <= c.pfn < c.End() <= r.end && !Aligned(edge, c.order + 1)
    requires edge == c.pfn == r.start || edge == c.End() == r.end
    ensures c in BlocksOf(r)
  {
    DecomposeTiles(r.start, r.end);
    TilesFacts(Decompose(r.start, r.end), r.start, r.end);
    RangeIsCoalesced(r);
    var d := TilesCover(Decompose(r.start, r.end), r.start, r.end, if edge == c.End() then edge - 1 else edge);
    RangeBlocks(r, d);
    hide Decompose, Tiles, BlockSet, Aligned, Pow2, Partition, NoBuddies;
    SharedEdge(c, d, edge);
    if d.order < c.order { NothingSmallerInside(BlocksOf(r), Span(r.start, r.end), d, c); }
  }

  /** The frames of one aligned block stay one block. */
  lemma WholeBlock(b: Block)
    requires b.WellPlaced()
    ensures BlocksOf(Range(b.pfn, b.End())) == {b}
  {
    var r := Range(b.pfn, b.End());
    RangeIsCoalesced(r);
    BuddySides(b.pfn, b.order);
    assert b in {b};
    assert Partition({b}, Span(b.pfn, b.End()));
    assert NoBuddies({b});
    hide *;
    CoalescedIsUnique(BlocksOf(r), {b}, Span(b.pfn, b.End()));
  }

  // ---- two ranges that touch ----

  /** The boundary is a multiple of 2^k and no more, both ranges have 2^k frames or more next to it, and
      blocks of 2^k frames may still grow. */
  predicate BuddiesMeet(a: Range, b: Range) {
    && a.start < a.end == b.start < b.end
    && Ctz(b.start) < MAX_ORDER
    && Pow2(Ctz(b.start)) <= a.end - a.start && Pow2(Ctz(b.start)) <= b.end - b.start
  }

  /** The two blocks at the boundary where ranges meet are buddies. */
  lemma BoundaryBlocks(a: Range, b: Range, lo: Block, hi: Block)
    requires BuddiesMeet(a, b) && hi == Block(b.start, Ctz(b.start)) && lo == hi.Buddy()
    ensures lo.WellPlaced() && hi.WellPlaced() && lo.Buddy() == hi && lo.End() == hi.pfn
    ensures a.start <= lo.pfn && hi.End() <= b.end && !Aligned(b.start, lo.order + 1)
  {
    CtzAligned(b.start, hi.order);
    CtzAligned(b.start, hi.order + 1);
    BuddySides(b.start, hi.order);
    hide FlipBit, Aligned, Pow2;
  }

  lemma MeetingBlocks(a: Range, b: Range) returns (lo: Block)
    requires BuddiesMeet(a, b)
    ensures lo in BlocksOf(a) && lo.Buddy() in BlocksOf(b) && lo.order < MAX_ORDER
  {
    var hi := Block(b.start, Ctz(b.start));
    lo := hi.Buddy();
    BoundaryBlocks(a, b, lo, hi);
    assert hi.pfn < hi.End() && lo.pfn < lo.End();
    hide BlocksOf, Ctz, Aligned, Pow2, FlipBit;
    EdgeBlock(a, lo, b.start);
    EdgeBlock(b, hi, b.start);
  }

  /** Buddies in two ranges that follow each other lie on both sides of a boundary where they meet. */
  lemma MeetingRanges(a: Range, b: Range, lo: Block, hi: Block)
    requires a.start < a.end <= b.start < b.end
    requires lo in BlocksOf(a) && hi in BlocksOf(b) && lo.order < MAX_ORDER
    requires hi == lo.Buddy() && lo.pfn < hi.pfn
    ensures BuddiesMeet(a, b)
  {
    hide BlocksOf, FlipBit, Aligned, Pow2, Ctz;
    RangeBlocks(a, lo);
    RangeBlocks(b, hi);
    BuddySides(lo.pfn, lo.order);
    BuddySides(hi.pfn, lo.order);
    assert hi.pfn == b.start && !Aligned(b.start, lo.order + 1) && Aligned(b.start, lo.order);
    CtzAligned(b.start, lo.order);
    CtzAligned(b.start, lo.order + 1);
  }

  // ---- all ranges ----

  /** No two ranges meet in a pair of buddies. */
  ghost predicate NoneMeet(ranges: seq<Range>) {
    forall i, j :: 0 <= i < j < |ranges| ==> !BuddiesMeet(ranges[i], ranges[j])
  }

  lemma {:induction false} AllBlocksHas(ranges: seq<Range>, b: Block)
    requires forall i :: 0 <= i < |ranges| ==> ranges[i].start < ranges[i].end
    ensures b in AllBlocks(ranges) <==> exists i :: 0 <= i < |ranges| && b in BlocksOf(ranges[i])
    decreases |ranges|
  {
    hide Decompose, BlockSet;
    if ranges != [] {
      var last := |ranges| - 1;
      AllBlocksHas(ranges[..last], b);
      if b in AllBlocks(ranges[..last]) {
        var i :| 0 <= i < last && b in BlocksOf(ranges[..last][i]);
        assert b in BlocksOf(ranges[i]);
      }
      if i :| 0 <= i < |ranges| && b in BlocksOf(ranges[i]) {
        if i < last { assert ranges[i] == ranges[..last][i]; }
      }
    }
  }

  lemma AllBlocksOfTwo(a: Range, b: Range)
    requires a.start < a.end && b.start < b.end
    ensures AllBlocks([a, b]) == BlocksOf(a) + BlocksOf(b)
  {
    var ranges := [a, b];
    assert ranges[..1] == [a] && [a][..0] == [];
    hide Decompose, BlockSet;
    assert AllBlocks([]) == {} && AllBlocks([a]) == AllBlocks([]) + BlocksOf(a);
  }

  /** Buddies among the blocks of all ranges come from two ranges that meet. */
  lemma BuddiesMeetSomewhere(ranges: seq<Range>, lo: Block)
    requires RangesOk(ranges) && lo in AllBlocks(ranges) && lo.order < MAX_ORDER && lo.Buddy() in AllBlocks(ranges)
    requires lo.pfn < lo.Buddy().pfn
    ensures !NoneMeet(ranges)
  {
    var hi := lo.Buddy();
    AllBlocksHas(ranges, lo);
    AllBlocksHas(ranges, hi);
    var i: nat :| i < |ranges| && lo in BlocksOf(ranges[i]);
    var j: nat :| j < |ranges| && hi in BlocksOf(ranges[j]);
    var a, b := ranges[i], ranges[j];
    RangeIsCoalesced(a);
    RangeBlocks(a, lo);
    RangeBlocks(b, hi);
    BuddySides(lo.pfn, lo.order);
    hide Decompose, BlockSet, AllBlocks, NoneMeet, BuddiesMeet, FlipBit;
    assert i != j;
    if i < j {
      MeetingRanges(a, b, lo, hi);
      SomeMeet(ranges, i, j);
    }
  }

  lemma SomeMeet(ranges: seq<Range>, i: nat, j: nat)
    requires i < j < |ranges| && BuddiesMeet(ranges[i], ranges[j])
    ensures !NoneMeet(ranges)
  {
  }

  /** `Init` leaves two free buddies exactly if two of its ranges touch at a multiple of 2^k, no higher
      power, below the largest block, with at least 2^k frames on either side. */
  lemma InitBuddiesExact(pages: map<nat, Page>, ranges: seq<Range>)
    requires forall f :: f in pages ==> pages[f].usage == Reserved
    requires RangesOk(ranges) && Frames(ranges) <= pages.Keys
    ensures NoBuddies(FreeSet(Init(Empty(pages), ranges))) <==> NoneMeet(ranges)
  {
    InitKeeps(pages, ranges);
    var blocks := AllBlocks(ranges);
    if NoneMeet(ranges) {
      forall b | b in blocks && b.order < MAX_ORDER ensures b.Buddy() !in blocks {
        if b.Buddy() in blocks { AnyBuddies(ranges, b); }
      }
    } else {
      var i, j :| 0 <= i < j < |ranges| && BuddiesMeet(ranges[i], ranges[j]);
      var lo := MeetingBlocks(ranges[i], ranges[j]);
      assert lo in BlocksOf(ranges[i]) && lo.Buddy() in BlocksOf(ranges[j]);
      AllBlocksHas(ranges, lo);
      AllBlocksHas(ranges, lo.Buddy());
    }
  }

  lemma AnyBuddies(ranges: seq<Range>, b: Block)
    requires RangesOk(ranges) && b in AllBlocks(ranges) && b.order < MAX_ORDER && b.Buddy() in AllBlocks(ranges)
    ensures !NoneMeet(ranges)
  {
    AllBlocksHas(ranges, b);
    var i: nat :| i < |ranges| && b in BlocksOf(ranges[i]);
    RangeBlocks(ranges[i], b);
    BuddySides(b.pfn, b.order);
    if b.pfn < b.Buddy().pfn {
      BuddiesMeetSomewhere(ranges, b);
    } else {
      BuddySides(b.Buddy().pfn, b.order);
      BuddiesMeetSomewhere(ranges, b.Buddy());
    }
  }

  /** With a frame between any two ranges none meet. */
  lemma GapsMeetNowhere(ranges: seq<Range>)
    requires forall i, j :: 0 <= i < j < |ranges| ==> ranges[i].end < ranges[j].start
    ensures NoneMeet(ranges)
  {
  }

  /** Frames 0 to 3 and 4 to 7 as two ranges: the blocks (0, 2) and (4, 2) are both free. */
  lemma TwoHalves()
    ensures BuddiesMeet(Range(0, 4), Range(4, 8)) && !NoneMeet([Range(0, 4), Range(4, 8)])
  {
    var ranges := [Range(0, 4), Range(4, 8)];
    assert Ctz(1) == 0;
    assert Ctz(2) == 1;
    assert Ctz(4) == 2;
    assert Pow2(1) == 2;
    assert Pow2(2) == 4;
    assert ranges[0] == Range(0, 4) && ranges[1] == Range(4, 8);
    SomeMeet(ranges, 0, 1);
  }
}
