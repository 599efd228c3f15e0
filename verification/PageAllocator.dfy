/** The page allocator of one node (class PageAllocator in sys/page_allocator.cpp). Its lock makes
    every method one step. */
module PageAllocator {
  import opened Bits
  import opened Wrappers
  import opened BuddyModel
  import opened BuddyInvariant
  import opened BuddySteps
  import opened BuddyFree
  import opened BuddyCoalesced
  import opened BuddyInit
  import opened BuddyRuns
  import opened BuddyTouching

  class Allocator {
    var lists: seq<seq<nat>>
    var pages: map<nat, Page>
    ghost var live: set<Block>
    ghost var node: set<nat>

    function Now(): State
      reads this
    {
      State(lists, pages)
    }

    ghost predicate Valid()
      reads this
    {
      Inv(Now(), live, {}, node)
    }

    constructor (frames: map<nat, Page>)
      requires forall f :: f in frames ==> frames[f].usage == Reserved
      ensures Now() == Empty(frames) && live == {} && node == {} && Valid()
    {
      lists := [[], [], [], [], [], [], [], [], [], [], [], []];
      pages := frames;
      live := {};
      node := {};
      new;
      EmptyInv(frames);
    }

    /** `early_free_page` and `FreePageNoCoalesce`, which do the same. */
    method FreePageNoCoalesce(pfn: nat, order: nat)
      requires order < |lists|
      modifies this`lists, this`pages
      ensures Now() == Push(old(Now()), Block(pfn, order)) && |lists| == old(|lists|)
    {
      lists := lists[order := [pfn] + lists[order]];
      pages := pages[pfn := Page(InPageAllocator, order)];
    }

    /** The first loop of the callback of `Init`: the blocks up to the divide. */
    method AddUpToDivide(start: nat, divide: nat)
      requires |lists| == MAX_ORDER + 1 && start <= divide <= U32 && (0 < start || divide == 0)
      requires Tiles(Front(start, divide), start, divide) && Small(Front(start, divide))
      modifies this`lists, this`pages
      ensures |lists| == MAX_ORDER + 1 && Now() == Release(old(Now()), Front(start, divide))
    {
      hide Tiles, Pow2, Ctz, Front, Push, Release;
      var pfn := start;
      while pfn != divide
        invariant start <= pfn <= divide && |lists| == MAX_ORDER + 1
        invariant Tiles(Front(pfn, divide), pfn, divide) && Small(Front(pfn, divide))
        invariant Release(Now(), Front(pfn, divide)) == Release(old(Now()), Front(start, divide))
        decreases divide - pfn
      {
        assert pfn < divide;
        FrontNext(pfn, divide);
        Truncation(pfn);
        var order := Ctz32(pfn);
        order := if order > MAX_ORDER then MAX_ORDER else order;
        ReleaseCons(Now(), Block(pfn, order), Front(pfn + Pow2(order), divide));
        FreePageNoCoalesce(pfn, order);
        pfn := pfn + Pow2(order);
      }
      NothingToRelease(Now(), divide);
    }

    /** The second loop: the rest of the range. */
    method AddFromDivide(divide: nat, end: nat)
      requires |lists| == MAX_ORDER + 1 && divide <= end && end - divide < U32
      requires Tiles(Back(divide, end), divide, end) && Small(Back(divide, end))
      modifies this`lists, this`pages
      ensures |lists| == MAX_ORDER + 1 && Now() == Release(old(Now()), Back(divide, end))
    {
      hide Tiles, Pow2, Fls, Back, Push, Release;
      var pfn := divide;
      while pfn != end
        invariant divide <= pfn <= end && |lists| == MAX_ORDER + 1
        invariant Tiles(Back(pfn, end), pfn, end) && Small(Back(pfn, end))
        invariant Release(Now(), Back(pfn, end)) == Release(old(Now()), Back(divide, end))
        decreases end - pfn
      {
        assert pfn < end;
        BackNext(pfn, end);
        Truncation(end - pfn);
        var order := Fls32(end - pfn);
        order := if order > MAX_ORDER then MAX_ORDER else order;
        ReleaseCons(Now(), Block(pfn, order), Back(pfn + Pow2(order), end));
        FreePageNoCoalesce(pfn, order);
        pfn := pfn + Pow2(order);
      }
      NothingToRelease(Now(), end);
    }

    /** The callback of `Init` for one range of frames. */
    method InitRange(start: nat, end: nat)
      requires BuiltinsFit(start, end) && |lists| == MAX_ORDER + 1
      modifies this`lists, this`pages
      ensures Now() == ReleaseRange(old(Now()), Range(start, end))
    {
      hide Tiles, Pow2, Fls, Back, Front, Push, Release, RoundDown, Small, Decompose;
      RangeFacts(start, end);
      var largestPow2 := Pow2(Fls32(end - start));
      var divide := RoundDown(start + largestPow2 - 1, largestPow2);
      AddUpToDivide(start, divide);
      AddFromDivide(divide, end);
      ReleaseAppend(old(Now()), Front(start, divide), Back(divide, end));
    }

    /** `Init`, for the ranges of this node. */
    method Init(ranges: seq<Range>)
      requires Valid() && live == {} && node == {} && Now() == Empty(pages)
      requires forall f :: f in pages ==> pages[f].usage == Reserved
      requires forall i :: 0 <= i < |ranges| ==> BuiltinsFit(ranges[i].start, ranges[i].end)
      requires RangesOk(ranges) && Frames(ranges) <= pages.Keys
      modifies this
      ensures Now() == BuddyRuns.Init(old(Now()), ranges)
      ensures Valid() && live == {} && node == Frames(ranges)
      ensures NoBuddies(FreeSet(Now())) <==> NoneMeet(ranges)
    {
      hide Inv, FreeSet, NoBuddies, NoneMeet, Frames, Decompose, Release, BuddyRuns.Init;
      InitNone(Now());
      for i := 0 to |ranges|
        invariant |lists| == MAX_ORDER + 1 && live == {}
        invariant Now() == BuddyRuns.Init(old(Now()), ranges[..i])
      {
        InitNext(old(Now()), ranges, i);
        InitRange(ranges[i].start, ranges[i].end);
      }
      assert ranges[..|ranges|] == ranges;
      InitKeeps(old(pages), ranges);
      InitBuddiesExact(old(pages), ranges);
      node := Frames(ranges);
    }

    /** The search of `AllocLocal`: takes the front of the first list that is not empty. */
    method TakeFront(order: nat) returns (fp: Option<nat>, thisOrder: nat)
      requires |lists| == MAX_ORDER + 1
      modifies this`lists
      ensures thisOrder == FindOrder(old(lists), order)
      ensures fp.None? ==> thisOrder > MAX_ORDER && lists == old(lists)
      ensures fp.Some? ==> && thisOrder <= MAX_ORDER && fp.value == old(lists)[thisOrder][0]
                           && Now() == PopFront(old(Now()), thisOrder)
    {
      thisOrder := order;
      while thisOrder <= MAX_ORDER
        invariant order <= thisOrder && lists == old(lists)
        invariant FindOrder(lists, thisOrder) == FindOrder(lists, order)
        decreases MAX_ORDER + 1 - thisOrder
      {
        if lists[thisOrder] != [] {
          fp := Some(lists[thisOrder][0]);
          lists := lists[thisOrder := lists[thisOrder][1..]];
          return;
        }
        thisOrder := thisOrder + 1;
      }
      fp := None;
    }

    /** Frees the upper half at each split. */
    method SplitTo(pfn: nat, from: nat, order: nat)
      requires order <= from <= MAX_ORDER && |lists| == MAX_ORDER + 1
      modifies this`lists, this`pages
      ensures Now() == SplitDown(old(Now()), pfn, from, order)
    {
      hide SplitDown, FlipBit, Push;
      var thisOrder := from;
      while thisOrder != order
        invariant order <= thisOrder <= from && |lists| == MAX_ORDER + 1
        invariant SplitDown(Now(), pfn, thisOrder, order) == SplitDown(old(Now()), pfn, from, order)
      {
        SplitDownNext(Now(), pfn, thisOrder, order);
        thisOrder := thisOrder - 1;
        FreePageNoCoalesce(FlipBit(pfn, thisOrder), thisOrder);
      }
      SplitDownDone(Now(), pfn, order);
    }

    /** The body of `AllocLocal`, on the lists and tags alone. */
    method TakeBlock(order: nat) returns (r: Option<nat>)
      requires |lists| == MAX_ORDER + 1
      modifies this`lists, this`pages
      ensures Now() == Alloc(old(Now()), order).0 && r == Alloc(old(Now()), order).1
    {
      AllocUnfolds(Now(), order);
      hide SplitDown, Alloc, FindOrder;
      var fp, thisOrder := TakeFront(order);
      if fp.None? {
        return None;
      }
      var pfn := fp.value;
      SplitTo(pfn, thisOrder, order);
      if pfn in pages {
        pages := pages[pfn := pages[pfn].(usage := InUse)];
      }
      return Some(pfn);
    }

    /** Returns None for NO_PFN. */
    method AllocLocal(order: nat) returns (r: Option<nat>)
      requires Valid()
      modifies this
      ensures Valid() && node == old(node)
      ensures Now() == Alloc(old(Now()), order).0 && r == Alloc(old(Now()), order).1
      ensures r.None? <==> NothingLarge(old(Now()), order)
      ensures r.Some? ==> AllocOk(old(Now()), Now(), old(live), node, r.value, order)
      ensures live == old(live) + if r.Some? then {Block(r.value, order)} else {}
    {
      AllocKeeps(Now(), live, node, order);
      assert |lists| == MAX_ORDER + 1;
      hide Inv, FreeSet, Alloc, FindOrder, NothingLarge;
      r := TakeBlock(order);
      if r.Some? {
        live := live + {Block(r.value, order)};
      }
    }

    /** The loop of `Free` as written: the order of the merged block grows, its first frame stays. */
    method Merge(pfn: nat, order: nat) returns (o: nat)
      requires order <= MAX_ORDER && |lists| == MAX_ORDER + 1
      modifies this`lists
      ensures |lists| == MAX_ORDER + 1 && (Now(), o) == MergeAsWritten(old(Now()), pfn, order)
    {
      hide FlipBit, MergeAsWritten;
      o := order;
      while o < MAX_ORDER
        invariant order <= o <= MAX_ORDER && |lists| == MAX_ORDER + 1
        invariant MergeAsWritten(Now(), pfn, o) == MergeAsWritten(old(Now()), pfn, order)
      {
        MergeAsWrittenNext(Now(), pfn, o);
        var buddy := FlipBit(pfn, o);
        if buddy !in pages || pages[buddy].usage != InPageAllocator || pages[buddy].order != o {
          break;
        }
        lists := lists[o := Remove(lists[o], buddy)];
        o := o + 1;
      }
      MergeAsWrittenNext(Now(), pfn, o);
    }

    /** `Free`, as written. */
    method Free(pfn: nat, order: nat)
      requires Valid() && Block(pfn, order) in live
      modifies this
      ensures live == old(live) - {Block(pfn, order)} && node == old(node)
      ensures order <= MAX_ORDER == |old(lists)| - 1 && Now() == FreeAsWritten(old(Now()), Block(pfn, order))
      ensures Valid() <==> !MeetsLowerBuddy(old(Now()), pfn, order)
    {
      hide Inv, MeetsLowerBuddy, MergeAsWritten, MergeLower, FreeAsWritten, FreeLower, Push;
      FreeWrittenIs(Now(), live, Block(pfn, order), node);
      var o := Merge(pfn, order);
      FreePageNoCoalesce(pfn, o);
      live := live - {Block(pfn, order)};
    }

    /** The loop of `Free`, with the merged block starting at the lower of the two buddies. */
    method MergeAtLower(pfn: nat, order: nat) returns (p: nat, o: nat)
      requires order <= MAX_ORDER && |lists| == MAX_ORDER + 1
      modifies this`lists
      ensures |lists| == MAX_ORDER + 1 && (Now(), Block(p, o)) == MergeLower(old(Now()), Block(pfn, order))
    {
      hide FlipBit, MergeLower;
      p, o := pfn, order;
      while o < MAX_ORDER
        invariant order <= o <= MAX_ORDER && |lists| == MAX_ORDER + 1
        invariant MergeLower(Now(), Block(p, o)) == MergeLower(old(Now()), Block(pfn, order))
      {
        MergeLowerNext(Now(), Block(p, o));
        var buddy := FlipBit(p, o);
        if buddy !in pages || pages[buddy].usage != InPageAllocator || pages[buddy].order != o {
          break;
        }
        lists := lists[o := Remove(lists[o], buddy)];
        p := if buddy < p then buddy else p;
        o := o + 1;
      }
      MergeLowerNext(Now(), Block(p, o));
    }

    /** `Free` as intended. */
    method FreeAtLower(pfn: nat, order: nat)
      requires Valid() && Block(pfn, order) in live
      modifies this
      ensures Valid() && live == old(live) - {Block(pfn, order)} && node == old(node)
      ensures order <= MAX_ORDER == |old(lists)| - 1 && Now() == FreeLower(old(Now()), Block(pfn, order))
      ensures old(NoBuddies(FreeSet(Now()))) ==> NoBuddies(FreeSet(Now()))
    {
      hide Inv, MergeLower, FreeLower, Push, NoBuddies, FreeSet;
      ghost var b := Block(pfn, order);
      FreeIsFine(Now(), live, b, node);
      var p, o := MergeAtLower(pfn, order);
      FreePageNoCoalesce(p, o);
      live := live - {b};
    }
  }

  lemma InitNone(s: State)
    requires |s.lists| == MAX_ORDER + 1
    ensures BuddyRuns.Init(s, []) == s
  {
  }

  lemma InitNext(s: State, ranges: seq<Range>, i: nat)
    requires |s.lists| == MAX_ORDER + 1 && i < |ranges|
    requires forall j :: 0 <= j < |ranges| ==> ranges[j].start < ranges[j].end
    ensures BuddyRuns.Init(s, ranges[..i + 1]) == ReleaseRange(BuddyRuns.Init(s, ranges[..i]), ranges[i])
  {
    assert ranges[..i + 1][..i] == ranges[..i];
  }

  lemma FreeWrittenIs(s: State, live: set<Block>, b: Block, node: set<nat>)
    requires Inv(s, live, {}, node) && b in live
    ensures b.order <= MAX_ORDER == |s.lists| - 1
    ensures Inv(FreeAsWritten(s, b), live - {b}, {}, node) <==> !MeetsLowerBuddy(s, b.pfn, b.order)
    ensures var (t, o) := MergeAsWritten(s, b.pfn, b.order); FreeAsWritten(s, b) == Push(t, Block(b.pfn, o))
  {
    hide Inv, MeetsLowerBuddy, MergeAsWritten, FreeLower, Push;
    FreeAsWrittenExact(s, live, b, node);
  }

  lemma FreeIsFine(s: State, live: set<Block>, b: Block, node: set<nat>)
    requires Inv(s, live, {}, node) && b in live
    ensures b.order <= MAX_ORDER == |s.lists| - 1
    ensures Inv(FreeLower(s, b), live - {b}, {}, node)
    ensures FreeLower(s, b) == Push(MergeLower(s, b).0, MergeLower(s, b).1)
    ensures NoBuddies(FreeSet(s)) ==> NoBuddies(FreeSet(FreeLower(s, b)))
  {
    FreeLowerKeeps(s, live, b, node);
    hide Inv, NoBuddies, FreeSet, MergeLower, Push;
    if NoBuddies(FreeSet(s)) { FreeLowerKeepsNoBuddies(s, live, b, node); }
  }

  lemma SplitDownDone(s: State, pfn: nat, order: nat)
    requires order <= |s.lists|
    ensures SplitDown(s, pfn, order, order) == s
  {
  }

  /** A loop that has reached its end has nothing left to release. */
  lemma NothingToRelease(s: State, pfn: nat)
    requires |s.lists| == MAX_ORDER + 1
    ensures Front(pfn, pfn) == [] && Back(pfn, pfn) == [] && Release(s, []) == s
  {
  }
}
