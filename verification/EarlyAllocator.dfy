/** The early page allocator as it runs: one global set of free ranges, changed in place while loops walk
    over it (sys/early_page_allocator.cpp). */
module EarlyAllocator {
  import opened Bits
  import opened Wrappers
  import opened EarlyPages
  import opened EarlySteps

  /** Ranges in the order of their starts. */
  ghost predicate Ascending(rs: seq<PageRange>) {
    forall i, j :: 0 <= i < j < |rs| ==> rs[i].start < rs[j].start
  }

  lemma SortedAscends(rs: seq<PageRange>)
    requires Sorted(rs)
    ensures Ascending(rs)
  {
  }

  /** A range that starts between range i and the next goes between them. */
  lemma {:induction false} SlotAfter(rs: seq<PageRange>, i: nat, start: nat)
    requires Ascending(rs) && i < |rs| && rs[i].start < start
    requires i + 1 < |rs| ==> start <= rs[i + 1].start
    ensures Slot(rs, start) == i + 1
    decreases i
  {
    if i > 0 {
      assert rs[0].start < rs[i].start;
      SlotAfter(rs[1..], i - 1, start);
    }
  }

  lemma FirstStep(done: seq<PageRange>, r: PageRange, rest: seq<PageRange>, start: nat, end: nat, nid: int)
    requires start <= end
    ensures done + Relabel([r] + rest, start, end, nid)
         == done + Parts(r, start, end, nid) + (if Stops(r, start, end) then rest else Relabel(rest, start, end, nid))
  {
    assert ([r] + rest)[1..] == rest;
    hide Parts, Stops;
  }

  /** The loop of early_set_nid_range has dealt with the first i ranges. */
  ghost predicate Relabelling(rs: seq<PageRange>, i: nat, start: nat, end: nat, nid: int, whole: seq<PageRange>)
    requires start <= end
  {
    && i <= |rs| && Ascending(rs) && Ordered(rs[i..], 0)
    && rs[..i] + Relabel(rs[i..], start, end, nid) == whole
  }

  lemma RelabelUnfolds(rs: seq<PageRange>, i: nat, start: nat, end: nat, nid: int, whole: seq<PageRange>)
    requires start <= end && Relabelling(rs, i, start, end, nid, whole) && i < |rs|
    ensures var r, rest := rs[i], rs[i + 1..];
            && Ascending(rs) && Ordered(rest, 0) && StartAt(rest, r.End())
            && whole == rs[..i] + Parts(r, start, end, nid) + (if Stops(r, start, end) then rest else Relabel(rest, start, end, nid))
  {
    assert rs[i..] == [rs[i]] + rs[i + 1..];
    FirstStep(rs[..i], rs[i], rs[i + 1..], start, end, nid);
    assert rs[i..][1..] == rs[i + 1..];
  }

  /** A range dealt with as a whole. */
  lemma OnePart(rs: seq<PageRange>, i: nat, start: nat, end: nat, nid: int, whole: seq<PageRange>, x: PageRange)
    requires start <= end && Relabelling(rs, i, start, end, nid, whole) && i < |rs|
    requires !Stops(rs[i], start, end) && Parts(rs[i], start, end, nid) == [x] && x.start == rs[i].start
    ensures Relabelling(rs[i := x], i + 1, start, end, nid, whole)
  {
    RelabelUnfolds(rs, i, start, end, nid, whole);
    hide Relabel, Parts, Stops, Sorted;
    var t := rs[i := x];
    assert t[..i + 1] == rs[..i] + [x] && t[i + 1..] == rs[i + 1..];
  }

  /** A range cut in two; the loop goes on with the upper part. */
  lemma TwoParts(rs: seq<PageRange>, i: nat, start: nat, end: nat, nid: int, whole: seq<PageRange>, x: PageRange,
                 y: PageRange)
    requires start <= end && Relabelling(rs, i, start, end, nid, whole) && i < |rs|
    requires Parts(rs[i], start, end, nid) == [x, y]
    ensures Relabelling(rs[..i] + [x, y] + rs[i + 1..], i + 1, start, end, nid, whole)
  {
    hide Relabel, Parts, Stops, Ascending, StartAt, Ordered, Slot;
    var r, rest, t := rs[i], rs[i + 1..], rs[..i] + [x, y] + rs[i + 1..];
    RelabelUnfolds(rs, i, start, end, nid, whole);
    CutFacts(r, start, end, nid, x, y);
    assert t[..i + 1] == rs[..i] + [x] && t[i + 1..] == [y] + rest;
    CutAscends(rs, i, x, y);
    OneOrdered(y);
    StartBelow(rest, r.End(), y.End());
    PartsBefore([y], y, rest, y.start);
    FirstStep(rs[..i] + [x], y, rest, start, end, nid);
    assert rs[..i] + [x] + [y] == rs[..i] + [x, y];
  }

  lemma OneOrdered(y: PageRange)
    ensures Ordered([y], 0)
  {
  }

  lemma StartBelow(rs: seq<PageRange>, lo: nat, lower: nat)
    requires StartAt(rs, lo) && lower <= lo
    ensures StartAt(rs, lower)
  {
  }

  lemma CutFacts(r: PageRange, start: nat, end: nat, nid: int, x: PageRange, y: PageRange)
    requires start <= end && Parts(r, start, end, nid) == [x, y]
    ensures x.start == r.start < y.start < r.End() && y.End() <= r.End()
    ensures Parts(y, start, end, nid) == [y] && (Stops(y, start, end) <==> Stops(r, start, end))
  {
  }

  lemma CutStarts(rs: seq<PageRange>, i: nat, x: PageRange, y: PageRange, j: nat)
    requires i < |rs| && j <= |rs| && x.start == rs[i].start
    ensures (rs[..i] + [x, y] + rs[i + 1..])[j].start
         == if j <= i then rs[j].start else if j == i + 1 then y.start else rs[j - 1].start
  {
  }

  lemma CutAscends(rs: seq<PageRange>, i: nat, x: PageRange, y: PageRange)
    requires i < |rs| && Ascending(rs) && x.start == rs[i].start < y.start < rs[i].End()
    requires StartAt(rs[i + 1..], rs[i].End())
    ensures Ascending(rs[..i] + [x, y] + rs[i + 1..])
    ensures Slot(rs, y.start) == i + 1
  {
    assert i + 1 < |rs| ==> rs[i + 1..][0] == rs[i + 1];
    SlotAfter(rs, i, y.start);
    assert forall k :: i < k < |rs| ==> y.start < rs[k].start;
    var t := rs[..i] + [x, y] + rs[i + 1..];
    assert |t| == |rs| + 1;
    hide Slot, StartAt;
    forall j: nat, k: nat | j < k < |t| ensures t[j].start < t[k].start {
      CutStarts(rs, i, x, y, j);
      CutStarts(rs, i, x, y, k);
    }
  }

  lemma Ends(rs: seq<PageRange>, i: nat, start: nat, end: nat, nid: int, whole: seq<PageRange>)
    requires start <= end && Relabelling(rs, i, start, end, nid, whole)
    requires i == |rs| || (rs[i].End() > start && rs[i].start >= end)
    ensures rs == whole
  {
    if i < |rs| {
      RelabelUnfolds(rs, i, start, end, nid, whole);
      assert rs[..i] + [rs[i]] + rs[i + 1..] == rs;
    }
  }

  /** How much of the labelled range is still ahead. */
  function Ahead(rs: seq<PageRange>, i: nat, end: nat): nat {
    if i >= |rs| then 0 else 1 + (if rs[i].start < end then end - rs[i].start else 0)
  }

  lemma NextLater(rs: seq<PageRange>, i: nat, start: nat, end: nat, nid: int, whole: seq<PageRange>)
    requires start <= end && Relabelling(rs, i, start, end, nid, whole)
    ensures i + 1 < |rs| ==> rs[i].start < rs[i + 1].start
  {
  }

  /** One round of the loop on a range that it keeps whole. */
  lemma WholeStep(rs: seq<PageRange>, i: nat, start: nat, end: nat, nid: int, whole: seq<PageRange>)
    requires start <= end && Relabelling(rs, i, start, end, nid, whole) && i < |rs|
    ensures var r := rs[i];
            && (r.End() <= start ==> Relabelling(rs, i + 1, start, end, nid, whole))
            && (start <= r.start < end && start < r.End() <= end ==>
                  Relabelling(rs[i := r.(nid := nid)], i + 1, start, end, nid, whole))
            && Ahead(rs, i + 1, end) <= Ahead(rs, i, end)
            && Ahead(rs[i := r.(nid := nid)], i + 1, end) <= Ahead(rs, i, end)
  {
    hide Relabelling, Relabel, Ascending;
    var r := rs[i];
    NextLater(rs, i, start, end, nid, whole);
    PartsIs(r, start, end, nid);
    assert rs[i := r] == rs;
    if r.End() <= start {
      OnePart(rs, i, start, end, nid, whole, r);
    } else if start <= r.start < end && r.End() <= end {
      OnePart(rs, i, start, end, nid, whole, r.(nid := nid));
    }
  }

  /** One round of the loop on a range that it cuts. */
  lemma CutStep(rs: seq<PageRange>, i: nat, start: nat, end: nat, nid: int, whole: seq<PageRange>, x: PageRange,
                y: PageRange)
    requires start <= end && Relabelling(rs, i, start, end, nid, whole) && i < |rs|
    requires Parts(rs[i], start, end, nid) == [x, y]
    ensures var t := rs[..i] + [x, y] + rs[i + 1..];
            && Relabelling(t, i + 1, start, end, nid, whole)
            && Slot(rs, y.start) == i + 1
            && Ahead(t, i + 1, end) < Ahead(rs, i, end)
  {
    hide Relabelling, Relabel, Parts, Stops, Slot, StartAt, Ordered, Ascending;
    RelabelUnfolds(rs, i, start, end, nid, whole);
    CutFacts(rs[i], start, end, nid, x, y);
    TwoParts(rs, i, start, end, nid, whole, x, y);
    CutAscends(rs, i, x, y);
    assert (rs[..i] + [x, y] + rs[i + 1..])[i + 1] == y;
    CutBelowEnd(rs[i], start, end, nid);
  }

  lemma CutBelowEnd(r: PageRange, start: nat, end: nat, nid: int)
    requires start <= end && |Parts(r, start, end, nid)| == 2
    ensures r.start < end
  {
  }

  class FreePages {
    var ranges: seq<PageRange>

    constructor ()
      ensures ranges == [] && Sorted(ranges) && Coalesced(ranges)
    {
      ranges := [];
    }

    /** The intrusive set's insert. */
    method Insert(r: PageRange) returns (it: nat)
      modifies this
      ensures it == Slot(old(ranges), r.start)
      ensures ranges == old(ranges)[..it] + [r] + old(ranges)[it..]
    {
      it := Slot(ranges, r.start);
      ranges := ranges[..it] + [r] + ranges[it..];
    }

    /** coalesce(a, b), for neighbours; the iterator that stays valid is returned. */
    method CoalesceNext(a: nat) returns (it: nat)
      requires a + 1 < |ranges|
      modifies this
      ensures ranges == Coalesce(old(ranges), a)
      ensures it == (if |ranges| < |old(ranges)| then a else a + 1) && it < |ranges|
    {
      if ranges[a].End() != ranges[a + 1].start { return a + 1; }
      ranges := ranges[..a] + [ranges[a].(npages := ranges[a].npages + ranges[a + 1].npages)] + ranges[a + 2..];
      it := a;
    }

    /** Adds exactly the pages from start to end; the set stays sorted, and coalesced if it was. */
    method FreePageRange(start: nat, end: nat, nid: int)
      requires Sorted(ranges) && start < end && NoneFree(ranges, start, end)
      modifies this
      ensures ranges == FreeRange(old(ranges), PageRange(start, end - start, nid))
      ensures Sorted(ranges) && (Coalesced(old(ranges)) ==> Coalesced(ranges))
      ensures forall p: nat :: Label(ranges, p).Some? <==> start <= p < end || Label(old(ranges), p).Some?
    {
      hide Sorted, Coalesced, NoneFree, Label, Coalesce;
      ghost var r := PageRange(start, end - start, nid);
      FreeKeeps(ranges, r);
      var it := Insert(PageRange(start, end - start, nid));
      if it != 0 {
        it := CoalesceNext(it - 1);
      }
      if it + 1 != |ranges| {
        var _ := CoalesceNext(it);
      }
    }

    /** Frees pages that lie wholly inside the memory: all of them exactly if what is left of it after the skip
        covers the bytes skipped, and otherwise all but the last. */
    method EarlyFreeMemoryRange(begin: nat, length: nat, nid: int)
      requires Sorted(ranges) && begin + length + PAGE < U64 && !Wraps(begin, length)
      requires forall p: nat :: Inside(begin, length, p) ==> Label(ranges, p).None?
      modifies this
      ensures Sorted(ranges) && (Coalesced(old(ranges)) ==> Coalesced(ranges))
      ensures forall p: nat :: Label(ranges, p).Some? <==> Freed(begin, length, p) || Label(old(ranges), p).Some?
      ensures (forall p: nat :: Label(ranges, p).Some? <==> Inside(begin, length, p) || Label(old(ranges), p).Some?)
         <==> TailCovers(begin, length)
    {
      FreedExact(begin, length);
      FreedInside(begin, length);
      NoneFreeTwice(ranges, begin, length);
      hide Sorted, Coalesced, Label, Inside, TailCovers, Wraps;
      var pfnStart := PfnUp(begin);
      var diff := pfnStart * PAGE - begin;
      if diff > length { return; }
      var pfnEnd := (begin + length - diff) / PAGE;
      if pfnEnd == pfnStart { return; }
      ghost var f := FreedPages(begin, length);
      assert f == Some((pfnStart, (pfnEnd + U64 - pfnStart) % U64)) && pfnEnd < U64;
      assert pfnStart < pfnEnd && f.value.1 == pfnEnd - pfnStart by { NotShort(begin, length, pfnStart, pfnEnd); }
      assert forall p: nat :: Freed(begin, length, p) <==> pfnStart <= p < pfnEnd;
      FreePageRange(pfnStart, pfnEnd, nid);
    }

    /** First fit; None where the code aborts. */
    method EarlyAllocatePage(npages: nat, nid: int) returns (r: Option<nat>)
      requires npages < U32 && forall i :: 0 <= i < |ranges| ==> ranges[i].End() < U64
      modifies this
      ensures var a := AllocAsWritten(old(ranges), npages, nid);
              if a.None? then r == None && ranges == old(ranges) else r == Some(a.value.0) && ranges == a.value.1
    {
      var it := 0;
      while it < |ranges|
        invariant it <= |ranges| && ranges == old(ranges)
        invariant Accepted(ranges, npages, nid) == it + Accepted(ranges[it..], npages, nid)
      {
        assert ranges[it..][1..] == ranges[it + 1..];
        if nid != ANY_NID && ranges[it].nid != nid {
          it := it + 1;
          continue;
        }
        var ret := Minus(ranges[it].End(), npages);
        if ret < ranges[it].start {
          it := it + 1;
          continue;
        }
        if ret == ranges[it].start {
          ranges := ranges[..it] + ranges[it + 1..];
        } else {
          ranges := ranges[it := ranges[it].(npages := Minus(ranges[it].npages, npages))];
        }
        return Some(ret);
      }
      return None;
    }

    /** Inserts the upper part of a range behind it; the range becomes the lower part. */
    method SplitOff(i: nat, lower: PageRange, upper: PageRange)
      requires i < |ranges| && Slot(ranges, upper.start) == i + 1
      modifies this
      ensures ranges == old(ranges)[..i] + [lower, upper] + old(ranges)[i + 1..]
    {
      hide Slot;
      var _ := Insert(upper);
      ranges := ranges[i := lower];
    }

    /** The range straddles the start: its upper part becomes a labelled range of its own. */
    method CutBelow(i: nat, start: nat, end: nat, nid: int, ghost whole: seq<PageRange>)
      requires i < |ranges| && start <= end && Relabelling(ranges, i, start, end, nid, whole)
      requires ranges[i].start < start < ranges[i].End()
      modifies this
      ensures i + 1 < |ranges| && Relabelling(ranges, i + 1, start, end, nid, whole)
      ensures Ahead(ranges, i + 1, end) < Ahead(old(ranges), i, end)
    {
      hide Relabelling, Parts, Ahead, Slot;
      var newEnd := if end < ranges[i].End() then end else ranges[i].End();
      PartsIs(ranges[i], start, end, nid);
      CutStep(ranges, i, start, end, nid, whole,
              ranges[i].(npages := start - ranges[i].start), PageRange(start, newEnd - start, nid));
      SplitOff(i, ranges[i].(npages := start - ranges[i].start), PageRange(start, newEnd - start, nid));
    }

    /** The range goes on past the end: its upper part becomes an unlabelled range of its own. */
    method CutAbove(i: nat, start: nat, end: nat, nid: int, ghost whole: seq<PageRange>)
      requires i < |ranges| && start <= end && Relabelling(ranges, i, start, end, nid, whole)
      requires start <= ranges[i].start < end < ranges[i].End()
      modifies this
      ensures i + 1 < |ranges| && Relabelling(ranges, i + 1, start, end, nid, whole)
      ensures Ahead(ranges, i + 1, end) < Ahead(old(ranges), i, end)
    {
      hide Relabelling, Parts, Ahead, Slot;
      var lower := ranges[i].(npages := end - ranges[i].start, nid := nid);
      var upper := PageRange(end, ranges[i].End() - end, ANY_NID);
      PartsIs(ranges[i], start, end, nid);
      CutStep(ranges, i, start, end, nid, whole, lower, upper);
      SplitOff(i, lower, upper);
    }

    /** The range lies inside. */
    method LabelWhole(i: nat, start: nat, end: nat, nid: int, ghost whole: seq<PageRange>)
      requires i < |ranges| && start <= end && Relabelling(ranges, i, start, end, nid, whole)
      requires start <= ranges[i].start < end && start < ranges[i].End() <= end
      modifies this
      ensures i + 1 <= |ranges| == |old(ranges)| && Relabelling(ranges, i + 1, start, end, nid, whole)
      ensures Ahead(ranges, i + 1, end) <= Ahead(old(ranges), i, end)
    {
      hide Relabelling, Ahead;
      WholeStep(ranges, i, start, end, nid, whole);
      ranges := ranges[i := ranges[i].(nid := nid)];
    }

    /** Relabels in place: a range that reaches over an end is cut and the new range inserted behind it. An empty
        stretch inside a range leaves an empty range there. */
    method EarlySetNidRange(start: nat, end: nat, nid: int)
      requires Sorted(ranges) && start <= end
      modifies this
      ensures ranges == Relabel(old(ranges), start, end, nid)
      ensures Sorted(ranges) <==> start < end || NoneAround(old(ranges), start, end)
    {
      hide Relabel, Relabelling, Ahead, Sorted, NoneAround, StartAt, Ordered;
      ghost var whole := Relabel(ranges, start, end, nid);
      FromZero(ranges);
      RelabelSorted(ranges, start, end, nid, 0);
      Begins(ranges, start, end, nid);
      var i := 0;
      while i < |ranges|
        invariant i <= |ranges| && Relabelling(ranges, i, start, end, nid, whole)
        decreases Ahead(ranges, i, end), |ranges| - i
      {
        if ranges[i].End() <= start {
          WholeStep(ranges, i, start, end, nid, whole);
          i := i + 1;
          continue;
        }
        if ranges[i].start >= end {
          Ends(ranges, i, start, end, nid, whole);
          return;
        }
        if ranges[i].start < start && ranges[i].End() > start {
          CutBelow(i, start, end, nid, whole);
          i := i + 1;
          continue;
        }
        if ranges[i].start < end && ranges[i].End() > end {
          CutAbove(i, start, end, nid, whole);
        } else {
          LabelWhole(i, start, end, nid, whole);
        }
        i := i + 1;
      }
      Ends(ranges, i, start, end, nid, whole);
    }
  }

  lemma FromZero(rs: seq<PageRange>)
    ensures StartAt(rs, 0)
  {
  }

  lemma Begins(rs: seq<PageRange>, start: nat, end: nat, nid: int)
    requires start <= end && Sorted(rs)
    ensures Relabelling(rs, 0, start, end, nid, Relabel(rs, start, end, nid))
  {
    SortedAscends(rs);
    assert rs[..0] == [] && rs[0..] == rs;
  }

  lemma PartsIs(r: PageRange, start: nat, end: nat, nid: int)
    requires start <= end
    ensures r.End() <= start ==> Parts(r, start, end, nid) == [r] && !Stops(r, start, end)
    ensures r.start < start < r.End() ==>
              Parts(r, start, end, nid)
              == [r.(npages := start - r.start), PageRange(start, (if end < r.End() then end else r.End()) - start, nid)]
    ensures start <= r.start < end < r.End() ==>
              Parts(r, start, end, nid) == [r.(npages := end - r.start, nid := nid), PageRange(end, r.End() - end, ANY_NID)]
    ensures start <= r.start < end && start < r.End() <= end ==>
              Parts(r, start, end, nid) == [r.(nid := nid)] && !Stops(r, start, end)
  {
  }

  lemma NotShort(begin: nat, length: nat, first: nat, end: nat)
    requires begin + length + PAGE < U64 && !Wraps(begin, length) && length >= Diff(begin)
    requires first == PfnUp(begin) && end == (begin + length - Diff(begin)) / PAGE && end != first
    ensures first < end < U64
  {
    FreedIs(begin, length);
  }

  /** Of memory none of whose pages is free, the pages inside are exactly those the call makes free if it makes
      the same set free. */
  lemma NoneFreeTwice(rs: seq<PageRange>, begin: nat, length: nat)
    requires forall p: nat :: Inside(begin, length, p) ==> Label(rs, p).None?
    requires forall p: nat :: Freed(begin, length, p) ==> Inside(begin, length, p)
    ensures (forall p: nat ::
               Freed(begin, length, p) || Label(rs, p).Some? <==> Inside(begin, length, p) || Label(rs, p).Some?)
       <==> (forall p: nat :: Freed(begin, length, p) <==> Inside(begin, length, p))
  {
    hide Inside, Freed, Label;
  }
}
