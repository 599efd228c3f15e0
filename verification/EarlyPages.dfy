/** The early page allocator's set of free ranges (sys/early_page_allocator.cpp). A range's node starts
    at its first frame, so the set is a sequence in the order of the starts. */
module EarlyPages {
  import opened Wrappers

  const ANY_NID: int := 256

  datatype PageRange = PageRange(start: nat, npages: nat, nid: int) {
    function End(): nat { start + npages }
    predicate Has(p: nat) { start <= p < End() }
  }

  /** Not empty, in order, not overlapping. */
  ghost predicate Sorted(rs: seq<PageRange>) {
    && (forall i :: 0 <= i < |rs| ==> rs[i].npages > 0)
    && (forall i, j :: 0 <= i < j < |rs| ==> rs[i].End() <= rs[j].start)
  }

  /** No two ranges touch. */
  ghost predicate Coalesced(rs: seq<PageRange>) {
    forall i, j :: 0 <= i < j < |rs| ==> rs[i].End() < rs[j].start
  }

  /** The node of a free page; None if the page is not free. */
  function Label(rs: seq<PageRange>, p: nat): Option<int> {
    if rs == [] then None
    else if rs[0].Has(p) then Some(rs[0].nid)
    else Label(rs[1..], p)
  }

  lemma {:induction false} LabelAppend(a: seq<PageRange>, b: seq<PageRange>, p: nat)
    ensures Label(a + b, p) == if Label(a, p).Some? then Label(a, p) else Label(b, p)
    decreases |a|
  {
    if a == [] {
      assert a + b == b;
    } else {
      assert (a + b)[1..] == a[1..] + b;
      LabelAppend(a[1..], b, p);
    }
  }

  lemma {:induction false} LabelFound(rs: seq<PageRange>, p: nat)
    ensures Label(rs, p).Some? <==> exists i :: 0 <= i < |rs| && rs[i].Has(p)
    decreases |rs|
  {
    if rs != [] {
      LabelFound(rs[1..], p);
      if rs[0].Has(p) {
      } else if i :| 0 <= i < |rs| && rs[i].Has(p) {
        assert rs[1..][i - 1].Has(p);
      }
    }
  }

  /** In a sorted set the label is that of the one range that holds the page. */
  lemma {:induction false} LabelAt(rs: seq<PageRange>, i: nat, p: nat)
    requires Sorted(rs) && i < |rs| && rs[i].Has(p)
    ensures Label(rs, p) == Some(rs[i].nid)
    decreases |rs|
  {
    if i > 0 {
      LabelAt(rs[1..], i - 1, p);
    }
  }

  // ---- freeing ----

  /** Where a set inserts a range that starts at `start`. */
  function Slot(rs: seq<PageRange>, start: nat): (k: nat)
    ensures k <= |rs|
  {
    if rs == [] || start <= rs[0].start then 0 else 1 + Slot(rs[1..], start)
  }

  /** Joins range i to the one after it if they touch. */
  function Coalesce(rs: seq<PageRange>, i: nat): seq<PageRange>
    requires i + 1 < |rs|
  {
    if rs[i].End() != rs[i + 1].start then rs
    else rs[..i] + [rs[i].(npages := rs[i].npages + rs[i + 1].npages)] + rs[i + 2..]
  }

  /** free_page_range: insert, join with the range before, join with the range after. */
  function FreeRange(rs: seq<PageRange>, r: PageRange): seq<PageRange> {
    var k := Slot(rs, r.start);
    var inserted := rs[..k] + [r] + rs[k..];
    var lower := if k > 0 then Coalesce(inserted, k - 1) else inserted;
    var it := if |lower| < |inserted| then k - 1 else k;
    if it + 1 < |lower| then Coalesce(lower, it) else lower
  }

  ghost predicate NoneFree(rs: seq<PageRange>, start: nat, end: nat) {
    forall p: nat :: start <= p < end ==> Label(rs, p).None?
  }

  /** The ranges before the slot end at or before the new one, and those after start at or after its end. */
  lemma {:induction false} SlotFits(rs: seq<PageRange>, r: PageRange)
    requires Sorted(rs) && r.npages > 0 && NoneFree(rs, r.start, r.End())
    ensures var k := Slot(rs, r.start);
            && (forall i :: 0 <= i < k ==> rs[i].End() <= r.start)
            && (forall i :: k <= i < |rs| ==> r.End() <= rs[i].start)
  {
    var k := Slot(rs, r.start);
    SlotStarts(rs, r.start);
    forall i | 0 <= i < k ensures rs[i].End() <= r.start {
      if rs[i].End() > r.start { LabelAt(rs, i, r.start); }
    }
    forall i | k <= i < |rs| ensures r.End() <= rs[i].start {
      if r.End() > rs[i].start { LabelAt(rs, i, rs[i].start); }
    }
  }

  lemma {:induction false} SlotStarts(rs: seq<PageRange>, start: nat)
    requires Sorted(rs)
    ensures var k := Slot(rs, start);
            && (forall i :: 0 <= i < k ==> rs[i].start < start)
            && (forall i :: k <= i < |rs| ==> start <= rs[i].start)
    decreases |rs|
  {
    if rs != [] && start > rs[0].start {
      SlotStarts(rs[1..], start);
      var k := Slot(rs[1..], start);
      assert forall i :: 0 < i < |rs| ==> rs[i] == rs[1..][i - 1];
    }
  }

  // ---- cutting a sorted set ----

  ghost predicate Before(a: seq<PageRange>, b: seq<PageRange>, gap: nat) {
    forall i, j :: 0 <= i < |a| && 0 <= j < |b| ==> a[i].End() + gap <= b[j].start
  }

  ghost predicate Ordered(rs: seq<PageRange>, gap: nat) {
    forall i, j :: 0 <= i < j < |rs| ==> rs[i].End() + gap <= rs[j].start
  }

  ghost predicate NotEmpty(rs: seq<PageRange>) {
    forall i :: 0 <= i < |rs| ==> rs[i].npages > 0
  }

  lemma SortedIs(rs: seq<PageRange>)
    ensures Sorted(rs) <==> Ordered(rs, 0) && NotEmpty(rs)
    ensures Coalesced(rs) <==> Ordered(rs, 1)
  {
  }

  lemma OrderedAppend(a: seq<PageRange>, b: seq<PageRange>, gap: nat)
    ensures Ordered(a + b, gap) <==> Ordered(a, gap) && Ordered(b, gap) && Before(a, b, gap)
    ensures NotEmpty(a + b) <==> NotEmpty(a) && NotEmpty(b)
  {
    var t := a + b;
    assert forall i :: 0 <= i < |a| ==> t[i] == a[i];
    assert forall j :: 0 <= j < |b| ==> t[|a| + j] == b[j];
    if Ordered(t, gap) {
      forall i, j | 0 <= i < j < |b| ensures b[i].End() + gap <= b[j].start {
        assert t[|a| + i].End() + gap <= t[|a| + j].start;
      }
      forall i, j | 0 <= i < |a| && 0 <= j < |b| ensures a[i].End() + gap <= b[j].start {
        assert t[i].End() + gap <= t[|a| + j].start;
      }
    }
    if NotEmpty(t) {
      forall j | 0 <= j < |b| ensures b[j].npages > 0 { assert t[|a| + j].npages > 0; }
    }
  }

  lemma BeforeAppend(a: seq<PageRange>, b: seq<PageRange>, c: seq<PageRange>, gap: nat)
    ensures Before(a + b, c, gap) <==> Before(a, c, gap) && Before(b, c, gap)
    ensures Before(a, b + c, gap) <==> Before(a, b, gap) && Before(a, c, gap)
  {
    var t, u := a + b, b + c;
    assert forall i :: 0 <= i < |a| ==> t[i] == a[i];
    assert forall j :: 0 <= j < |b| ==> t[|a| + j] == b[j];
    assert forall i :: 0 <= i < |b| ==> u[i] == b[i];
    assert forall j :: 0 <= j < |c| ==> u[|b| + j] == c[j];
  }

  /** A sorted set in three pieces. */
  ghost predicate Pieces(a: seq<PageRange>, b: seq<PageRange>, c: seq<PageRange>, gap: nat) {
    && Ordered(a, gap) && Ordered(b, gap) && Ordered(c, gap)
    && Before(a, b, gap) && Before(b, c, gap) && Before(a, c, gap)
  }

  lemma ThreePieces(a: seq<PageRange>, b: seq<PageRange>, c: seq<PageRange>, gap: nat)
    ensures Ordered(a + b + c, gap) <==> Pieces(a, b, c, gap)
    ensures NotEmpty(a + b + c) <==> NotEmpty(a) && NotEmpty(b) && NotEmpty(c)
  {
    hide Ordered, Before, NotEmpty;
    OrderedAppend(a + b, c, gap);
    OrderedAppend(a, b, gap);
    BeforeAppend(a, b, c, gap);
  }

  lemma ThreeLabels(a: seq<PageRange>, b: seq<PageRange>, c: seq<PageRange>, p: nat)
    ensures Label(a + b + c, p)
         == if Label(a, p).Some? then Label(a, p) else if Label(b, p).Some? then Label(b, p) else Label(c, p)
  {
    LabelAppend(a + b, c, p);
    LabelAppend(a, b, p);
  }

  /** A page of a piece is in no piece before it. */
  lemma NotInFirst(a: seq<PageRange>, b: seq<PageRange>, i: nat, p: nat)
    requires Before(a, b, 0) && i < |b| && p >= b[i].start
    ensures Label(a, p).None?
  {
    LabelFound(a, p);
  }

  // ---- inserting and joining ----

  lemma InsertKeeps(a: seq<PageRange>, r: PageRange, c: seq<PageRange>, gap: nat)
    requires Ordered(a + c, gap) && NotEmpty(a + c) && r.npages > 0
    requires Before(a, [r], gap) && Before([r], c, gap)
    ensures Ordered(a + [r] + c, gap) && NotEmpty(a + [r] + c)
  {
    OrderedAppend(a, c, gap);
    ThreePieces(a, [r], c, gap);
    assert Ordered([r], gap);
  }

  lemma InsertLabels(a: seq<PageRange>, r: PageRange, c: seq<PageRange>, p: nat)
    requires Before(a, [r], 0)
    ensures Label(a + [r] + c, p) == if r.Has(p) then Some(r.nid) else Label(a + c, p)
  {
    ThreeLabels(a, [r], c, p);
    LabelAppend(a, c, p);
    if r.Has(p) { NotInFirst(a, [r], 0, p); }
    assert [r][1..] == [];
  }

  predicate JoinsBelow(rs: seq<PageRange>, k: nat, r: PageRange)
    requires k <= |rs|
  {
    k > 0 && rs[k - 1].End() == r.start
  }

  predicate JoinsAbove(rs: seq<PageRange>, k: nat, r: PageRange)
    requires k <= |rs|
  {
    k < |rs| && r.End() == rs[k].start
  }

  /** The range that r becomes part of, and the ranges that stay as they are below and above it. */
  function Joined(rs: seq<PageRange>, k: nat, r: PageRange): PageRange
    requires k <= |rs|
  {
    var below := JoinedBelow(rs, k, r);
    if JoinsAbove(rs, k, r) then below.(npages := below.npages + rs[k].npages) else below
  }

  function JoinedBelow(rs: seq<PageRange>, k: nat, r: PageRange): PageRange
    requires k <= |rs|
  {
    if JoinsBelow(rs, k, r) then rs[k - 1].(npages := rs[k - 1].npages + r.npages) else r
  }

  function KeptBelow(rs: seq<PageRange>, k: nat, r: PageRange): seq<PageRange>
    requires k <= |rs|
  {
    if JoinsBelow(rs, k, r) then rs[..k - 1] else rs[..k]
  }

  function KeptAbove(rs: seq<PageRange>, k: nat, r: PageRange): seq<PageRange>
    requires k <= |rs|
  {
    if JoinsAbove(rs, k, r) then rs[k + 1..] else rs[k..]
  }

  lemma CoalesceAt(a: seq<PageRange>, x: PageRange, y: PageRange, c: seq<PageRange>)
    ensures Coalesce(a + [x, y] + c, |a|)
         == if x.End() == y.start then a + [x.(npages := x.npages + y.npages)] + c else a + [x] + ([y] + c)
  {
    var t := a + [x, y] + c;
    assert t[|a|] == x && t[|a| + 1] == y;
    assert t[..|a|] == a && t[|a| + 2..] == c;
    assert t == a + [x] + ([y] + c);
  }

  lemma LowerShape(rs: seq<PageRange>, k: nat, r: PageRange)
    requires k <= |rs|
    ensures var inserted := rs[..k] + [r] + rs[k..];
            (if k > 0 then Coalesce(inserted, k - 1) else inserted) == KeptBelow(rs, k, r) + [JoinedBelow(rs, k, r)] + rs[k..]
  {
    if k > 0 {
      assert rs[..k] + [r] + rs[k..] == rs[..k - 1] + [rs[k - 1], r] + rs[k..];
      CoalesceAt(rs[..k - 1], rs[k - 1], r, rs[k..]);
      assert rs[..k - 1] + [rs[k - 1]] + ([r] + rs[k..]) == rs[..k] + [r] + rs[k..];
    }
  }

  lemma UpperShape(rs: seq<PageRange>, k: nat, r: PageRange, a: seq<PageRange>)
    requires k < |rs| && JoinedBelow(rs, k, r).End() == r.End()
    ensures Coalesce(a + [JoinedBelow(rs, k, r)] + rs[k..], |a|) == a + [Joined(rs, k, r)] + KeptAbove(rs, k, r)
  {
    var m := JoinedBelow(rs, k, r);
    assert rs[k..] == [rs[k]] + rs[k + 1..];
    assert a + [m] + rs[k..] == a + [m, rs[k]] + rs[k + 1..];
    hide JoinedBelow;
    CoalesceAt(a, m, rs[k], rs[k + 1..]);
  }

  lemma UpperEmpty(rs: seq<PageRange>, k: nat, r: PageRange)
    requires k == |rs|
    ensures [JoinedBelow(rs, k, r)] + rs[k..] == [Joined(rs, k, r)] + KeptAbove(rs, k, r)
  {
  }

  lemma FreeShape(rs: seq<PageRange>, r: PageRange)
    ensures var k := Slot(rs, r.start);
            FreeRange(rs, r) == KeptBelow(rs, k, r) + [Joined(rs, k, r)] + KeptAbove(rs, k, r)
  {
    var k := Slot(rs, r.start);
    var inserted := rs[..k] + [r] + rs[k..];
    var lower := if k > 0 then Coalesce(inserted, k - 1) else inserted;
    LowerShape(rs, k, r);
    var a, m := KeptBelow(rs, k, r), JoinedBelow(rs, k, r);
    assert m.End() == r.End();
    assert |inserted| == |rs| + 1 && |lower| == |a| + 1 + (|rs| - k) && (|a| == k || |a| == k - 1);
    assert FreeRange(rs, r) == if |a| + 1 < |lower| then Coalesce(lower, |a|) else lower;
    hide *;
    if k < |rs| {
      UpperShape(rs, k, r, a);
    } else {
      UpperEmpty(rs, k, r);
      assert a + [m] + rs[k..] == a + ([m] + rs[k..]);
      assert a + [Joined(rs, k, r)] + KeptAbove(rs, k, r) == a + ([Joined(rs, k, r)] + KeptAbove(rs, k, r));
    }
  }

  ghost predicate Fits(rs: seq<PageRange>, k: nat, r: PageRange) {
    && k <= |rs| && r.npages > 0
    && (forall i :: 0 <= i < k ==> rs[i].End() <= r.start)
    && (forall i :: k <= i < |rs| ==> r.End() <= rs[i].start)
  }

  lemma JoinedFits(rs: seq<PageRange>, k: nat, r: PageRange, gap: nat)
    requires Sorted(rs) && k <= |rs| && Fits(rs, k, r) && gap <= 1 && Ordered(rs, gap)
    ensures var a, m, c := KeptBelow(rs, k, r), Joined(rs, k, r), KeptAbove(rs, k, r);
            Before(a, [m], gap) && Before([m], c, gap) && m.npages > 0
  {
    var a, m, c := KeptBelow(rs, k, r), Joined(rs, k, r), KeptAbove(rs, k, r);
    forall i | 0 <= i < |a| ensures a[i].End() + gap <= m.start {
      assert a[i] == rs[i];
    }
    forall j | 0 <= j < |c| ensures m.End() + gap <= c[j].start {
      assert c[j] == rs[|rs| - |c| + j];
    }
  }

  lemma KeptOrdered(rs: seq<PageRange>, k: nat, r: PageRange, gap: nat)
    requires k <= |rs| && Ordered(rs, gap) && NotEmpty(rs)
    ensures Ordered(KeptBelow(rs, k, r) + KeptAbove(rs, k, r), gap)
    ensures NotEmpty(KeptBelow(rs, k, r) + KeptAbove(rs, k, r))
  {
    WithoutMiddle(rs, |KeptBelow(rs, k, r)|, |rs| - |KeptAbove(rs, k, r)|, gap);
  }

  /** What is left when the ranges from i up to j are taken out. */
  lemma WithoutMiddle(rs: seq<PageRange>, i: nat, j: nat, gap: nat)
    requires i <= j <= |rs| && Ordered(rs, gap) && NotEmpty(rs)
    ensures Ordered(rs[..i] + rs[j..], gap) && NotEmpty(rs[..i] + rs[j..])
  {
    var t := rs[..i] + rs[j..];
    assert forall x :: 0 <= x < |t| ==> t[x] == rs[if x < i then x else x + (j - i)];
  }

  /** The ranges that are joined, one or two of them or none. */
  function Middle(rs: seq<PageRange>, k: nat, r: PageRange): seq<PageRange>
    requires k <= |rs|
  {
    (if JoinsBelow(rs, k, r) then [rs[k - 1]] else []) + (if JoinsAbove(rs, k, r) then [rs[k]] else [])
  }

  lemma MiddleIs(rs: seq<PageRange>, k: nat, r: PageRange, p: nat)
    requires k <= |rs|
    ensures rs == KeptBelow(rs, k, r) + Middle(rs, k, r) + KeptAbove(rs, k, r)
    ensures Label(Middle(rs, k, r), p).Some? ==> Joined(rs, k, r).Has(p)
  {
    LabelFound(Middle(rs, k, r), p);
  }

  lemma JoinedHas(rs: seq<PageRange>, k: nat, r: PageRange, p: nat)
    requires k <= |rs|
    ensures Joined(rs, k, r).Has(p)
       <==> r.Has(p) || (JoinsAbove(rs, k, r) && rs[k].Has(p)) || (JoinsBelow(rs, k, r) && rs[k - 1].Has(p))
  {
  }

  /** The label of a page after the two ends of the new range have been joined. */
  lemma JoinedLabels(rs: seq<PageRange>, k: nat, r: PageRange, p: nat)
    requires Sorted(rs) && k <= |rs| && Fits(rs, k, r)
    ensures var a, m, c := KeptBelow(rs, k, r), Joined(rs, k, r), KeptAbove(rs, k, r);
            Label(a + [m] + c, p)
            == if r.Has(p) || (JoinsAbove(rs, k, r) && rs[k].Has(p)) then Some(m.nid) else Label(rs, p)
  {
    var a, m, c := KeptBelow(rs, k, r), Joined(rs, k, r), KeptAbove(rs, k, r);
    SortedIs(rs);
    JoinedFits(rs, k, r, 0);
    JoinedHas(rs, k, r, p);
    JoinedNid(rs, k, r);
    if JoinsBelow(rs, k, r) && rs[k - 1].Has(p) { LabelAt(rs, k - 1, p); }
    MiddleIs(rs, k, r, p);
    hide Label, Sorted, Ordered, Before, NotEmpty, Fits, KeptBelow, KeptAbove, Joined, Middle;
    InsertLabels(a, m, c, p);
    ThreeLabels(a, Middle(rs, k, r), c, p);
    LabelAppend(a, c, p);
  }

  /** The node that freed pages get: that of the range they extend upwards, or the one given. */
  function FreedNid(rs: seq<PageRange>, r: PageRange): int {
    var k := Slot(rs, r.start);
    if JoinsBelow(rs, k, r) then rs[k - 1].nid else r.nid
  }

  /** A page of the range that freed pages extend downwards. */
  predicate InUpper(rs: seq<PageRange>, r: PageRange, p: nat) {
    var k := Slot(rs, r.start);
    JoinsAbove(rs, k, r) && rs[k].Has(p)
  }

  /** Freeing pages that are not free adds exactly these; the set stays sorted and, if no two ranges
      touched, none do. */
  lemma FreeKeeps(rs: seq<PageRange>, r: PageRange)
    requires Sorted(rs) && r.npages > 0 && NoneFree(rs, r.start, r.End())
    ensures Sorted(FreeRange(rs, r)) && (Coalesced(rs) ==> Coalesced(FreeRange(rs, r)))
    ensures forall p: nat :: Label(FreeRange(rs, r), p)
              == if r.Has(p) || InUpper(rs, r, p) then Some(FreedNid(rs, r)) else Label(rs, p)
    ensures forall p: nat :: Label(FreeRange(rs, r), p).Some? <==> r.Has(p) || Label(rs, p).Some?
  {
    hide *;
    FreeInOrder(rs, r);
    forall p: nat
      ensures Label(FreeRange(rs, r), p)
              == if r.Has(p) || InUpper(rs, r, p) then Some(FreedNid(rs, r)) else Label(rs, p)
      ensures Label(FreeRange(rs, r), p).Some? <==> r.Has(p) || Label(rs, p).Some?
    {
      FreedLabel(rs, r, p);
    }
  }

  lemma FreeInOrder(rs: seq<PageRange>, r: PageRange)
    requires Sorted(rs) && r.npages > 0 && NoneFree(rs, r.start, r.End())
    ensures Sorted(FreeRange(rs, r)) && (Coalesced(rs) ==> Coalesced(FreeRange(rs, r)))
  {
    var k := Slot(rs, r.start);
    SlotFits(rs, r);
    assert Fits(rs, k, r);
    hide *;
    FreeShape(rs, r);
    SortedIs(rs);
    SortedIs(FreeRange(rs, r));
    FreeOrdered(rs, k, r, 0);
    if Coalesced(rs) { FreeOrdered(rs, k, r, 1); }
  }

  lemma FreedLabel(rs: seq<PageRange>, r: PageRange, p: nat)
    requires Sorted(rs) && r.npages > 0 && NoneFree(rs, r.start, r.End())
    ensures Label(FreeRange(rs, r), p)
         == if r.Has(p) || InUpper(rs, r, p) then Some(FreedNid(rs, r)) else Label(rs, p)
    ensures Label(FreeRange(rs, r), p).Some? <==> r.Has(p) || Label(rs, p).Some?
  {
    var k := Slot(rs, r.start);
    SlotFits(rs, r);
    assert Fits(rs, k, r);
    if InUpper(rs, r, p) { LabelAt(rs, k, p); }
    JoinedNid(rs, k, r);
    assert FreedNid(rs, r) == Joined(rs, k, r).nid;
    assert InUpper(rs, r, p) <==> JoinsAbove(rs, k, r) && rs[k].Has(p);
    hide *;
    FreeShape(rs, r);
    JoinedLabels(rs, k, r, p);
  }

  lemma JoinedNid(rs: seq<PageRange>, k: nat, r: PageRange)
    requires k <= |rs|
    ensures Joined(rs, k, r).nid == if JoinsBelow(rs, k, r) then rs[k - 1].nid else r.nid
  {
  }

  lemma FreeOrdered(rs: seq<PageRange>, k: nat, r: PageRange, gap: nat)
    requires Sorted(rs) && k <= |rs| && Fits(rs, k, r) && gap <= 1 && Ordered(rs, gap)
    ensures var t := KeptBelow(rs, k, r) + [Joined(rs, k, r)] + KeptAbove(rs, k, r);
            Ordered(t, gap) && NotEmpty(t)
  {
    SortedIs(rs);
    hide Sorted, Ordered, Before, NotEmpty, KeptBelow, KeptAbove, Joined, Fits;
    JoinedFits(rs, k, r, gap);
    KeptOrdered(rs, k, r, gap);
    InsertKeeps(KeptBelow(rs, k, r), Joined(rs, k, r), KeptAbove(rs, k, r), gap);
  }

  /** Freeing keeps every label and gives the freed pages theirs exactly if the ranges it joins have the
      same node: joining does not look at it. */
  lemma FreeLabelsExact(rs: seq<PageRange>, r: PageRange)
    requires Sorted(rs) && r.npages > 0 && NoneFree(rs, r.start, r.End())
    ensures (forall p: nat :: Label(FreeRange(rs, r), p) == if r.Has(p) then Some(r.nid) else Label(rs, p))
       <==> var k := Slot(rs, r.start);
            && (JoinsBelow(rs, k, r) ==> rs[k - 1].nid == r.nid)
            && (JoinsAbove(rs, k, r) ==> rs[k].nid == FreedNid(rs, r))
  {
    var k := Slot(rs, r.start);
    FreeKeeps(rs, r);
    SlotFits(rs, r);
    assert r.Has(r.start);
    if JoinsAbove(rs, k, r) {
      forall p: nat | rs[k].Has(p) ensures Label(rs, p) == Some(rs[k].nid) { LabelAt(rs, k, p); }
      assert rs[k].Has(rs[k].start) && !r.Has(rs[k].start);
    }
    hide FreeRange, Label, Slot, Sorted, NoneFree;
  }
}
