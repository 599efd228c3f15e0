/** How `PageAllocator::Init` cuts a range of frames into blocks (sys/page_allocator.cpp:20-45). */
module BuddyInit {
  import opened Bits
  import opened Wrappers
  import opened BuddyModel
  import opened BuddyInvariant
  import opened BuddySteps

  function CapOrder(k: nat): nat { if k > MAX_ORDER then MAX_ORDER else k }

  /** What the builtins demand of a range: it is not empty and fits 32-bit arithmetic. */
  predicate BuiltinsFit(start: nat, end: nat) {
    start < end <= U32 && end - start < U32 / 2
  }

  /** The blocks of the first loop: from pfn up to the divide, each as large as pfn's alignment. */
  function Front(pfn: nat, divide: nat): seq<Block>
    requires 0 < pfn || divide == 0
    decreases divide - pfn
  {
    if pfn >= divide then []
    else
      var order := CapOrder(Ctz(pfn));
      [Block(pfn, order)] + Front(pfn + Pow2(order), divide)
  }

  /** The blocks of the second loop: from pfn up to the end, each as large as fits. */
  function Back(pfn: nat, end: nat): seq<Block>
    decreases end - pfn
  {
    if pfn >= end then []
    else
      var order := CapOrder(Fls(end - pfn));
      [Block(pfn, order)] + Back(pfn + Pow2(order), end)
  }

  function Divide(start: nat, end: nat): nat
    requires start < end
  {
    AlignUp(start, Fls(end - start))
  }

  lemma DivideBounds(start: nat, end: nat)
    requires start < end
    ensures var l := Fls(end - start);
            && Aligned(Divide(start, end), l) && start <= Divide(start, end) <= end
            && Divide(start, end) - start < Pow2(l) && end - Divide(start, end) < Pow2(l + 1)
            && (start == 0 ==> Divide(start, end) == 0)
  {
    var l := Fls(end - start);
    DivideIs(start, end);
    hide *;
    FlsBounds(end - start);
    AlignBounds(start, l);
    if start == 0 && Divide(start, end) > 0 {
      AlignedGap(0, Divide(start, end), l);
    }
  }

  lemma DivideIs(start: nat, end: nat)
    requires start < end
    ensures Divide(start, end) == AlignUp(start, Fls(end - start)) && Aligned(0, Fls(end - start))
  {
    hide AlignUp, Fls, Pow2;
  }

  function Decompose(start: nat, end: nat): seq<Block>
    requires start < end
  {
    DivideBounds(start, end);
    Front(start, Divide(start, end)) + Back(Divide(start, end), end)
  }

  /** The blocks lie end to end from lo to hi. */
  ghost predicate Tiles(blocks: seq<Block>, lo: nat, hi: nat) {
    if blocks == [] then lo == hi
    else blocks[0].pfn == lo && blocks[0].WellPlaced() && Tiles(blocks[1..], blocks[0].End(), hi)
  }

  /** No block is the lower buddy of the block right after it. */
  ghost predicate NoPairs(blocks: seq<Block>) {
    forall i :: 0 <= i < |blocks| - 1 && blocks[i].order < MAX_ORDER && blocks[i].order == blocks[i + 1].order
                ==> !Aligned(blocks[i].pfn, blocks[i].order + 1)
  }

  /** No block is a lower buddy at all. */
  ghost predicate AllUpper(blocks: seq<Block>) {
    forall i :: 0 <= i < |blocks| && blocks[i].order < MAX_ORDER ==> !Aligned(blocks[i].pfn, blocks[i].order + 1)
  }

  lemma FrontStep(pfn: nat, divide: nat, l: nat)
    requires 0 < pfn < divide && Aligned(divide, l) && divide - pfn < Pow2(l)
    ensures var b := Block(pfn, CapOrder(Ctz(pfn)));
            && b.WellPlaced() && b.End() <= divide
            && (b.order < MAX_ORDER ==> !Aligned(pfn, b.order + 1))
  {
    var o := CapOrder(Ctz(pfn));
    CtzAligned(pfn, o);
    CtzAligned(pfn, o + 1);
    if l <= o {
      AlignedLower(pfn, l, o);
      AlignedGap(pfn, divide, l);
    } else {
      AlignedLower(divide, o, l);
      AlignedGap(pfn, divide, o);
    }
  }

  lemma {:induction false} FrontTiles(pfn: nat, divide: nat, l: nat)
    requires pfn <= divide && (0 < pfn || divide == 0) && Aligned(divide, l) && divide - pfn < Pow2(l)
    ensures Tiles(Front(pfn, divide), pfn, divide) && AllUpper(Front(pfn, divide))
    decreases divide - pfn
  {
    hide Pow2, Aligned, Ctz, Front, Tiles, AllUpper;
    if pfn < divide {
      var b := Block(pfn, CapOrder(Ctz(pfn)));
      FrontStep(pfn, divide, l);
      FrontTiles(b.End(), divide, l);
      FrontUnfolds(pfn, divide);
      TilesCons(b, Front(b.End(), divide), divide);
    } else {
      NoFront(pfn, divide);
    }
  }

  lemma FrontUnfolds(pfn: nat, divide: nat)
    requires 0 < pfn < divide
    ensures var b := Block(pfn, CapOrder(Ctz(pfn))); Front(pfn, divide) == [b] + Front(b.End(), divide)
  {
    hide Pow2, Ctz;
  }

  lemma NoFront(pfn: nat, divide: nat)
    requires pfn == divide && (0 < pfn || divide == 0)
    ensures Tiles(Front(pfn, divide), pfn, divide) && AllUpper(Front(pfn, divide))
  {
  }

  lemma TilesCons(b: Block, rest: seq<Block>, hi: nat)
    requires b.WellPlaced() && Tiles(rest, b.End(), hi)
    ensures Tiles([b] + rest, b.pfn, hi)
    ensures AllUpper(rest) && (b.order < MAX_ORDER ==> !Aligned(b.pfn, b.order + 1)) ==> AllUpper([b] + rest)
  {
    hide Pow2, Aligned;
    assert ([b] + rest)[1..] == rest;
  }

  /** The largest power of two that fits, capped, leaves less than itself when it is not capped. */
  lemma BackOrder(rest: nat)
    requires rest > 0
    ensures var o := CapOrder(Fls(rest)); Pow2(o) <= rest && (o < MAX_ORDER ==> rest < 2 * Pow2(o))
  {
    FlsBounds(rest);
    Pow2Split(CapOrder(Fls(rest)), Fls(rest));
  }

  lemma BackOrderNext(rest: nat)
    requires rest > 0 && rest > Pow2(CapOrder(Fls(rest)))
    ensures var o := CapOrder(Fls(rest));
            var o' := CapOrder(Fls(rest - Pow2(o)));
            o' <= o && (o < MAX_ORDER ==> o' < o)
  {
    var o := CapOrder(Fls(rest));
    BackOrder(rest);
    FlsMonotone(rest - Pow2(o), rest);
    FlsBounds(rest - Pow2(o));
    if o < MAX_ORDER && Fls(rest - Pow2(o)) >= o { Pow2Split(o, Fls(rest - Pow2(o))); }
  }

  lemma CapOrderBound(k: nat)
    ensures CapOrder(k) <= MAX_ORDER
  {
  }

  lemma AlignedNext(pfn: nat, i: nat, j: nat)
    requires i <= j && Aligned(pfn, j)
    ensures Aligned(pfn + Pow2(j), i)
  {
    hide Aligned, Pow2;
    AlignedAdd(pfn, j, j);
    AlignedLower(pfn + Pow2(j), i, j);
  }

  lemma BackStep(pfn: nat, end: nat)
    requires pfn < end && Aligned(pfn, CapOrder(Fls(end - pfn)))
    ensures var b := Block(pfn, CapOrder(Fls(end - pfn)));
            && b.WellPlaced() && b.End() <= end
            && (b.End() < end ==> && Aligned(b.End(), CapOrder(Fls(end - b.End())))
                                  && (b.order < MAX_ORDER ==> CapOrder(Fls(end - b.End())) < b.order))
  {
    var o := CapOrder(Fls(end - pfn));
    hide Fls, Pow2, Aligned, CapOrder;
    BackOrder(end - pfn);
    var e := pfn + Pow2(o);
    if e < end {
      assert end - e == end - pfn - Pow2(o);
      BackOrderNext(end - pfn);
      AlignedNext(pfn, CapOrder(Fls(end - e)), o);
    }
    assert o <= MAX_ORDER by { CapOrderBound(Fls(end - pfn)); }
  }

  lemma {:induction false} BackTiles(pfn: nat, end: nat)
    requires pfn < end ==> Aligned(pfn, CapOrder(Fls(end - pfn)))
    requires pfn <= end
    ensures Tiles(Back(pfn, end), pfn, end) && NoPairs(Back(pfn, end))
    decreases end - pfn
  {
    hide Aligned, Fls, Pow2;
    if pfn < end {
      BackStep(pfn, end);
      var b := Block(pfn, CapOrder(Fls(end - pfn)));
      var rest := Back(b.End(), end);
      BackTiles(b.End(), end);
      assert Back(pfn, end) == [b] + rest;
      assert rest != [] && b.order < MAX_ORDER ==> rest[0].order < b.order;
      NoPairsCons(b, rest);
    }
  }

  lemma NoPairsCons(b: Block, rest: seq<Block>)
    requires NoPairs(rest) && (rest != [] && b.order < MAX_ORDER ==> rest[0].order < b.order)
    ensures NoPairs([b] + rest)
  {
    hide Aligned;
    var c := [b] + rest;
    forall i | 0 <= i < |c| - 1 && c[i].order < MAX_ORDER && c[i].order == c[i + 1].order
      ensures !Aligned(c[i].pfn, c[i].order + 1)
    {
      assert i > 0;
      assert c[i] == rest[i - 1] && c[i + 1] == rest[i];
    }
  }

  lemma {:induction false} TilesAppend(a: seq<Block>, b: seq<Block>, lo: nat, mid: nat, hi: nat)
    requires Tiles(a, lo, mid) && Tiles(b, mid, hi)
    ensures Tiles(a + b, lo, hi)
  {
    if a == [] {
      assert a + b == b;
    } else {
      assert (a + b)[1..] == a[1..] + b;
      TilesAppend(a[1..], b, a[0].End(), mid, hi);
    }
  }

  /** For every range the two loops emit aligned blocks of order at most MAX_ORDER that lie end to
      end from start to end, and no emitted block is the lower buddy of the next. */
  lemma DecomposeTiles(start: nat, end: nat)
    requires start < end
    ensures Tiles(Decompose(start, end), start, end) && NoPairs(Decompose(start, end))
  {
    hide Tiles, NoPairs, AllUpper, AlignUp, Front, Back;
    DivideBounds(start, end);
    var l, d := Fls(end - start), Divide(start, end);
    FrontTiles(start, d, l);
    BackOfRangeTiles(start, end);
    TilesAppend(Front(start, d), Back(d, end), start, d, end);
    NoPairsAppend(Front(start, d), Back(d, end));
  }

  lemma NoPairsAppend(a: seq<Block>, b: seq<Block>)
    requires AllUpper(a) && NoPairs(b)
    ensures NoPairs(a + b)
  {
    var c := a + b;
    forall i | 0 <= i < |c| - 1 && c[i].order < MAX_ORDER && c[i].order == c[i + 1].order
      ensures !Aligned(c[i].pfn, c[i].order + 1)
    {
      if i >= |a| { assert c[i] == b[i - |a|] && c[i + 1] == b[i - |a| + 1]; }
    }
  }

  // ---- what the emitted blocks do to the allocator ----

  function Release(s: State, blocks: seq<Block>): (t: State)
    requires forall i :: 0 <= i < |blocks| ==> blocks[i].order < |s.lists|
    ensures |t.lists| == |s.lists|
    decreases blocks
  {
    if blocks == [] then s else Release(Push(s, blocks[0]), blocks[1..])
  }

  ghost predicate Quiet(s: State, node: set<nat>) {
    forall f :: f in s.pages && f !in node ==> s.pages[f].usage != InPageAllocator
  }

  predicate Within(f: nat, lo: nat, hi: nat) { lo <= f < hi }

  ghost function Span(lo: nat, hi: nat): set<nat> {
    set f: nat | f < hi && Within(f, lo, hi)
  }

  lemma ExtendPartition(blocks: set<Block>, node: set<nat>, b: Block)
    requires Partition(blocks, node) && b.WellPlaced() && Span(b.pfn, b.End()) !! node
    ensures Partition(blocks + {b}, node + Span(b.pfn, b.End())) && b !in blocks
  {
    var more := blocks + {b};
    var wide := node + Span(b.pfn, b.End());
    forall c | c in blocks ensures Disjoint(b, c) && c != b {
      BlockApart(blocks, node, b, c);
    }
    forall f: nat ensures f in wide <==> Covered(more, f) {
      if f in node {
        var c :| c in blocks && c.Covers(f);
        assert c in more;
      } else if f in wide {
        assert b in more && b.Covers(f);
      }
      if Covered(more, f) {
        var c :| c in more && c.Covers(f);
        if c in blocks { assert Covered(blocks, f); }
      }
    }
  }

  lemma BlockApart(blocks: set<Block>, node: set<nat>, b: Block, c: Block)
    requires Partition(blocks, node) && c in blocks && Span(b.pfn, b.End()) !! node
    ensures Disjoint(b, c) && b != c
  {
    assert c.Covers(c.pfn) && Covered(blocks, c.pfn);
    var f: nat := if b.pfn < c.pfn then c.pfn else b.pfn;
    assert c.Covers(f) ==> Covered(blocks, f) && f in node;
    assert !Disjoint(b, c) ==> c.Covers(f) && f in Span(b.pfn, b.End());
  }

  lemma ReleaseOne(s: State, live: set<Block>, node: set<nat>, b: Block)
    requires Inv(s, live, {}, node) && Quiet(s, node) && b.WellPlaced()
    requires Span(b.pfn, b.End()) !! node && Span(b.pfn, b.End()) <= s.pages.Keys
    ensures Inv(Push(s, b), live, {}, node + Span(b.pfn, b.End()))
    ensures Quiet(Push(s, b), node + Span(b.pfn, b.End()))
    ensures FreeSet(Push(s, b)) == FreeSet(s) + {b}
    ensures Push(s, b).pages.Keys == s.pages.Keys
  {
    var wide := node + Span(b.pfn, b.End());
    ExtendInv(s, live, node, b);
    assert {} + {b} == {b} && b.pfn in Span(b.pfn, b.End());
    hide Inv, FreeSet;
    PushHand(s, live, {}, b, wide);
  }

  lemma ExtendInv(s: State, live: set<Block>, node: set<nat>, b: Block)
    requires Inv(s, live, {}, node) && Quiet(s, node) && b.WellPlaced()
    requires Span(b.pfn, b.End()) !! node && Span(b.pfn, b.End()) <= s.pages.Keys
    ensures Inv(s, live, {b}, node + Span(b.pfn, b.End()))
  {
    ExtendPartition(FreeSet(s) + live + {}, node, b);
    assert FreeSet(s) + live + {b} == FreeSet(s) + live + {} + {b};
    hide Partition, FreeSet;
  }

  lemma {:induction false} TilesFacts(blocks: seq<Block>, lo: nat, hi: nat)
    requires Tiles(blocks, lo, hi)
    ensures lo <= hi
    ensures forall i :: 0 <= i < |blocks| ==> blocks[i].WellPlaced() && lo <= blocks[i].pfn && blocks[i].End() <= hi
    ensures forall i :: 0 <= i < |blocks| - 1 ==> blocks[i].End() == blocks[i + 1].pfn
    ensures blocks != [] ==> blocks[|blocks| - 1].End() == hi
  {
    if blocks != [] {
      TilesFacts(blocks[1..], blocks[0].End(), hi);
      forall i | 0 <= i < |blocks|
        ensures blocks[i].WellPlaced() && lo <= blocks[i].pfn && blocks[i].End() <= hi
      {
        if i > 0 { assert blocks[i] == blocks[1..][i - 1]; }
      }
      forall i | 0 <= i < |blocks| - 1 ensures blocks[i].End() == blocks[i + 1].pfn {
        if i > 0 { assert blocks[i] == blocks[1..][i - 1] && blocks[i + 1] == blocks[1..][i]; }
      }
    }
  }

  ghost function BlockSet(blocks: seq<Block>): set<Block> {
    set i: nat | i < |blocks| :: blocks[i]
  }

  /** Releasing fresh blocks takes s to t: the frames from lo to hi join the node, all of them free. */
  ghost predicate Released(s: State, t: State, live: set<Block>, node: set<nat>, blocks: seq<Block>, lo: nat, hi: nat) {
    && Inv(t, live, {}, node + Span(lo, hi)) && Quiet(t, node + Span(lo, hi))
    && FreeSet(t) == FreeSet(s) + BlockSet(blocks)
    && t.pages.Keys == s.pages.Keys
  }

  lemma ReleasedCons(s: State, s1: State, t: State, live: set<Block>, node: set<nat>, blocks: seq<Block>, lo: nat,
                     hi: nat)
    requires blocks != [] && blocks[0].pfn == lo && blocks[0].End() <= hi
    requires FreeSet(s1) == FreeSet(s) + {blocks[0]} && s1.pages.Keys == s.pages.Keys
    requires Released(s1, t, live, node + Span(lo, blocks[0].End()), blocks[1..], blocks[0].End(), hi)
    ensures Released(s, t, live, node, blocks, lo, hi)
  {
    hide Inv, Quiet, FreeSet;
    assert node + Span(lo, blocks[0].End()) + Span(blocks[0].End(), hi) == node + Span(lo, hi);
    assert BlockSet(blocks) == {blocks[0]} + BlockSet(blocks[1..]);
  }

  /** Releasing the blocks of a fresh range adds exactly its frames to the node, all of them free. */
  lemma {:induction false} ReleaseKeeps(s: State, live: set<Block>, node: set<nat>, blocks: seq<Block>, lo: nat,
                                        hi: nat)
    requires Inv(s, live, {}, node) && Quiet(s, node) && Tiles(blocks, lo, hi)
    requires Span(lo, hi) !! node && Span(lo, hi) <= s.pages.Keys
    ensures |s.lists| == MAX_ORDER + 1 && forall i :: 0 <= i < |blocks| ==> blocks[i].order < |s.lists|
    ensures Released(s, Release(s, blocks), live, node, blocks, lo, hi)
    decreases blocks
  {
    TilesFacts(blocks, lo, hi);
    assert |s.lists| == MAX_ORDER + 1;
    if blocks == [] {
      assert node + Span(lo, hi) == node;
    } else {
      hide Inv, Quiet, FreeSet, Released, Span, Aligned, Pow2;
      ReleaseFirst(s, live, node, blocks[0], lo, hi);
      ReleaseKeeps(Push(s, blocks[0]), live, node + Span(lo, blocks[0].End()), blocks[1..], blocks[0].End(), hi);
      ReleasedCons(s, Push(s, blocks[0]), Release(s, blocks), live, node, blocks, lo, hi);
    }
  }

  lemma ReleaseFirst(s: State, live: set<Block>, node: set<nat>, b: Block, lo: nat, hi: nat)
    requires Inv(s, live, {}, node) && Quiet(s, node) && b.WellPlaced() && b.pfn == lo && b.End() <= hi
    requires Span(lo, hi) !! node && Span(lo, hi) <= s.pages.Keys
    ensures Inv(Push(s, b), live, {}, node + Span(lo, b.End()))
    ensures Quiet(Push(s, b), node + Span(lo, b.End()))
    ensures FreeSet(Push(s, b)) == FreeSet(s) + {b}
    ensures Push(s, b).pages.Keys == s.pages.Keys
    ensures Span(b.End(), hi) !! node + Span(lo, b.End()) && Span(b.End(), hi) <= s.pages.Keys
  {
    assert Span(lo, hi) == Span(b.pfn, b.End()) + Span(b.End(), hi);
    ReleaseOne(s, live, node, b);
  }

  ghost predicate Small(blocks: seq<Block>) {
    forall i :: 0 <= i < |blocks| ==> blocks[i].order <= MAX_ORDER
  }

  lemma {:induction false} ReleaseAppend(s: State, a: seq<Block>, b: seq<Block>)
    requires |s.lists| == MAX_ORDER + 1 && Small(a) && Small(b) && Small(a + b)
    ensures Release(s, a + b) == Release(Release(s, a), b)
    decreases a
  {
    if a == [] {
      assert a + b == b;
    } else {
      assert (a + b)[1..] == a[1..] + b;
      ReleaseAppend(Push(s, a[0]), a[1..], b);
    }
  }

  lemma BackOfRangeTiles(start: nat, end: nat)
    requires start < end
    ensures Tiles(Back(Divide(start, end), end), Divide(start, end), end)
    ensures NoPairs(Back(Divide(start, end), end))
  {
    hide Tiles, NoPairs, AlignUp, Back;
    DivideBounds(start, end);
    var l, d := Fls(end - start), Divide(start, end);
    if d < end {
      FlsBounds(end - d);
      if Fls(end - d) > l { Pow2Split(l + 1, Fls(end - d)); }
      AlignedLower(d, CapOrder(Fls(end - d)), l);
    }
    BackTiles(d, end);
  }

  lemma TilesSmall(blocks: seq<Block>, lo: nat, hi: nat)
    requires Tiles(blocks, lo, hi)
    ensures Small(blocks) && lo <= hi
  {
    TilesFacts(blocks, lo, hi);
  }

  lemma Truncation(n: nat)
    requires 0 < n < U32
    ensures n % U32 == n && Fls32(n) == Fls(n) && Ctz32(n) == Ctz(n)
  {
  }

  /** What `Init` relies on for one range: the builtins see untruncated operands, and the blocks of
      the two loops lie end to end on the two sides of the divide. */
  lemma RangeFacts(start: nat, end: nat)
    requires BuiltinsFit(start, end)
    ensures (end - start) % U32 != 0 && Fls32(end - start) == Fls(end - start)
    ensures var d := Divide(start, end);
            && start <= d <= end && (0 < start || d == 0)
            && Tiles(Front(start, d), start, d) && Tiles(Back(d, end), d, end)
            && Decompose(start, end) == Front(start, d) + Back(d, end)
            && Small(Front(start, d)) && Small(Back(d, end)) && Small(Decompose(start, end))
  {
    hide Tiles, Front, Back, Small, Pow2, Fls, RoundDown, Aligned, NoPairs, AllUpper;
    Truncation(end - start);
    DivideBounds(start, end);
    var d := Divide(start, end);
    FrontTiles(start, d, Fls(end - start));
    BackOfRangeTiles(start, end);
    DecomposeTiles(start, end);
    TilesSmall(Front(start, d), start, d);
    TilesSmall(Back(d, end), d, end);
    TilesSmall(Decompose(start, end), start, end);
  }

  /** One round of each loop, on the blocks still to come. */
  lemma FrontNext(pfn: nat, divide: nat)
    requires 0 < pfn < divide && Tiles(Front(pfn, divide), pfn, divide)
    ensures var next := pfn + Pow2(CapOrder(Ctz(pfn)));
            && Front(pfn, divide) == [Block(pfn, CapOrder(Ctz(pfn)))] + Front(next, divide)
            && Tiles(Front(next, divide), next, divide) && next <= divide
            && Small(Front(next, divide))
  {
    var next := pfn + Pow2(CapOrder(Ctz(pfn)));
    hide Pow2, Aligned, Ctz;
    assert Front(pfn, divide)[1..] == Front(next, divide);
    TilesSmall(Front(next, divide), next, divide);
  }

  lemma BackNext(pfn: nat, end: nat)
    requires pfn < end && Tiles(Back(pfn, end), pfn, end)
    ensures var next := pfn + Pow2(CapOrder(Fls(end - pfn)));
            && Back(pfn, end) == [Block(pfn, CapOrder(Fls(end - pfn)))] + Back(next, end)
            && Tiles(Back(next, end), next, end) && next <= end
            && Small(Back(next, end))
  {
    var next := pfn + Pow2(CapOrder(Fls(end - pfn)));
    hide Pow2, Aligned, Fls;
    assert Back(pfn, end)[1..] == Back(next, end);
    TilesSmall(Back(next, end), next, end);
  }

  lemma ReleaseCons(s: State, b: Block, rest: seq<Block>)
    requires |s.lists| == MAX_ORDER + 1 && b.order <= MAX_ORDER && Small(rest) && Small([b] + rest)
    ensures Release(s, [b] + rest) == Release(Push(s, b), rest)
  {
    assert ([b] + rest)[1..] == rest;
  }
}
