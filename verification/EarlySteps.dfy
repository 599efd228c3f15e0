/** Allocating from the early page allocator, labelling ranges with a node, and giving it a range of
    memory (sys/early_page_allocator.cpp). */
module EarlySteps {
  import opened Bits
  import opened Wrappers
  import opened EarlyPages

  // ---- early_allocate_page ----

  /** All frames lie within 52 bits of physical addresses. */
  ghost predicate InMemory(rs: seq<PageRange>) {
    forall i :: 0 <= i < |rs| ==> rs[i].End() <= 0x100_0000_0000
  }

  predicate Matches(r: PageRange, nid: int) { nid == ANY_NID || r.nid == nid }

  /** The subtraction of two frame numbers in 64 bits. */
  function Minus(a: nat, n: nat): nat
    requires n < U64
  {
    (a + U64 - n) % U64
  }

  /** Whether the loop stops at a range: the code compares the wrapped difference with the start. */
  predicate Accepts(r: PageRange, n: nat, nid: int)
    requires n < U32
  {
    Matches(r, nid) && Minus(r.End(), n) >= r.start
  }

  predicate IsFit(r: PageRange, n: nat, nid: int) { Matches(r, nid) && n <= r.npages }

  /** The first range at which the loop stops; |rs| if there is none. */
  function Accepted(rs: seq<PageRange>, n: nat, nid: int): (i: nat)
    requires n < U32
    ensures i <= |rs|
  {
    if rs == [] || Accepts(rs[0], n, nid) then 0 else 1 + Accepted(rs[1..], n, nid)
  }

  /** early_allocate_page as written; None where the code aborts. */
  function AllocAsWritten(rs: seq<PageRange>, n: nat, nid: int): Option<(nat, seq<PageRange>)>
    requires n < U32
  {
    var i := Accepted(rs, n, nid);
    if i == |rs| then None
    else
      var ret := Minus(rs[i].End(), n);
      if ret == rs[i].start then Some((ret, rs[..i] + rs[i + 1..]))
      else Some((ret, rs[i := rs[i].(npages := Minus(rs[i].npages, n))]))
  }

  function FirstFit(rs: seq<PageRange>, n: nat, nid: int): (i: nat)
    ensures i <= |rs|
    ensures i < |rs| ==> IsFit(rs[i], n, nid)
    ensures forall j :: 0 <= j < i ==> !IsFit(rs[j], n, nid)
  {
    if rs == [] || IsFit(rs[0], n, nid) then 0 else 1 + FirstFit(rs[1..], n, nid)
  }

  /** What is meant: the upper end of the lowest range that has enough pages on the node. */
  function AllocFit(rs: seq<PageRange>, n: nat, nid: int): Option<(nat, seq<PageRange>)> {
    var i := FirstFit(rs, n, nid);
    if i == |rs| then None
    else
      var rest := if rs[i].npages == n then [] else [rs[i].(npages := rs[i].npages - n)];
      Some((rs[i].End() - n, rs[..i] + rest + rs[i + 1..]))
  }

  /** The lowest range of the node. */
  function FirstMatch(rs: seq<PageRange>, nid: int): (i: nat)
    ensures i <= |rs|
    ensures i < |rs| ==> Matches(rs[i], nid)
    ensures forall j :: 0 <= j < i ==> !Matches(rs[j], nid)
  {
    if rs == [] || Matches(rs[0], nid) then 0 else 1 + FirstMatch(rs[1..], nid)
  }

  lemma AcceptsExact(r: PageRange, n: nat, nid: int)
    requires n < U32 && r.End() <= 0x100_0000_0000
    ensures n <= r.End() ==> Minus(r.End(), n) == r.End() - n && (Accepts(r, n, nid) <==> IsFit(r, n, nid))
    ensures n > r.End() ==> Minus(r.End(), n) > 0x100_0000_0000 && (Accepts(r, n, nid) <==> Matches(r, nid))
  {
  }

  lemma {:induction false} SameTest(rs: seq<PageRange>, n: nat, nid: int)
    requires n < U32
    requires forall i :: 0 <= i < |rs| ==> (Accepts(rs[i], n, nid) <==> IsFit(rs[i], n, nid))
    ensures Accepted(rs, n, nid) == FirstFit(rs, n, nid)
    decreases |rs|
  {
    hide Accepts, IsFit;
    if rs != [] && !Accepts(rs[0], n, nid) {
      SameTest(rs[1..], n, nid);
    }
  }

  lemma {:induction false} FirstAccepted(rs: seq<PageRange>, n: nat, nid: int, i: nat)
    requires n < U32 && i < |rs| && Accepts(rs[i], n, nid)
    requires forall j :: 0 <= j < i ==> !Accepts(rs[j], n, nid)
    ensures Accepted(rs, n, nid) == i
    decreases i
  {
    hide Accepts;
    if i > 0 { FirstAccepted(rs[1..], n, nid, i - 1); }
  }

  lemma SameTake(rs: seq<PageRange>, n: nat, nid: int)
    requires 0 < n < U32 && InMemory(rs) && Accepted(rs, n, nid) == FirstFit(rs, n, nid)
    ensures AllocAsWritten(rs, n, nid) == AllocFit(rs, n, nid)
  {
    var i := FirstFit(rs, n, nid);
    if i < |rs| {
      AcceptsExact(rs[i], n, nid);
      var left := rs[i].npages - n;
      assert Minus(rs[i].npages, n) == left;
      hide Minus, Accepted, FirstFit, Matches;
      assert rs[..i] + [] + rs[i + 1..] == rs[..i] + rs[i + 1..];
      assert rs[i := rs[i].(npages := left)] == rs[..i] + [rs[i].(npages := left)] + rs[i + 1..];
    }
  }

  /** The wrapped comparison is right exactly if the lowest range of the node does not end below the
      number of pages asked for. */
  lemma AllocExact(rs: seq<PageRange>, n: nat, nid: int)
    requires Sorted(rs) && InMemory(rs) && 0 < n < U32
    ensures AllocAsWritten(rs, n, nid) == AllocFit(rs, n, nid)
       <==> var i := FirstMatch(rs, nid); i < |rs| ==> n <= rs[i].End()
  {
    var i := FirstMatch(rs, nid);
    hide Accepted, FirstFit, FirstMatch;
    if i < |rs| && n > rs[i].End() {
      forall j | 0 <= j < i ensures !Accepts(rs[j], n, nid) {}
      AcceptsExact(rs[i], n, nid);
      FirstAccepted(rs, n, nid, i);
      assert AllocAsWritten(rs, n, nid).value.0 > 0x100_0000_0000;
    } else {
      forall j | 0 <= j < |rs| ensures Accepts(rs[j], n, nid) <==> IsFit(rs[j], n, nid) {
        AcceptsExact(rs[j], n, nid);
        if i <= j { assert rs[i].End() <= rs[j].End(); }
      }
      SameTest(rs, n, nid);
      SameTake(rs, n, nid);
    }
  }

  /** A block of four pages asked of a single free page at frame 1: the code hands out frames that do not
      exist and keeps a range of 2^64 - 3 pages. */
  lemma AllocWraps()
    ensures var rs := [PageRange(1, 1, 0)];
            && AllocFit(rs, 4, 0) == None
            && AllocAsWritten(rs, 4, 0) == Some((U64 - 2, [PageRange(1, U64 - 3, 0)]))
  {
    var rs := [PageRange(1, 1, 0)];
    assert Accepts(rs[0], 4, 0) && Accepted(rs, 4, 0) == 0;
    assert rs[0 := PageRange(1, U64 - 3, 0)] == [PageRange(1, U64 - 3, 0)];
    assert FirstFit(rs, 4, 0) == 1;
  }

  lemma ShrunkKeeps(a: seq<PageRange>, r: PageRange, c: seq<PageRange>, n: nat, gap: nat)
    requires Ordered(a + [r] + c, gap) && NotEmpty(a + [r] + c) && 0 < n <= r.npages
    ensures var rest := if r.npages == n then [] else [r.(npages := r.npages - n)];
            Ordered(a + rest + c, gap) && NotEmpty(a + rest + c)
  {
    var rest := if r.npages == n then [] else [r.(npages := r.npages - n)];
    ThreePieces(a, [r], c, gap);
    ThreePieces(a, rest, c, gap);
    assert [r][0] == r;
  }

  lemma ShrunkLabel(a: seq<PageRange>, r: PageRange, c: seq<PageRange>, n: nat, p: nat)
    requires Ordered(a + [r] + c, 0) && NotEmpty(a + [r] + c) && 0 < n <= r.npages
    ensures var rest := if r.npages == n then [] else [r.(npages := r.npages - n)];
            Label(a + rest + c, p) == if r.End() - n <= p < r.End() then None else Label(a + [r] + c, p)
  {
    var rest := if r.npages == n then [] else [r.(npages := r.npages - n)];
    ThreePieces(a, [r], c, 0);
    ThreeLabels(a, [r], c, p);
    ThreeLabels(a, rest, c, p);
    assert [r][1..] == [] && (rest != [] ==> rest[1..] == []);
    assert [r][0] == r;
    if r.Has(p) {
      NotInFirst(a, [r], 0, p);
      LabelFound(c, p);
    }
  }

  /** The n pages from `ret` on are the top of a range that has enough, and no such range lies lower. */
  ghost predicate TopOfLowest(rs: seq<PageRange>, n: nat, nid: int, ret: nat) {
    exists i :: 0 <= i < |rs| && IsFit(rs[i], n, nid) && ret + n == rs[i].End()
             && forall j :: 0 <= j < |rs| && IsFit(rs[j], n, nid) ==> rs[i].start <= rs[j].start
  }

  /** A successful allocation takes exactly n pages, all free and of the node asked for, the top of the lowest
      range that has them; it fails only if there is no such range. */
  lemma AllocKeeps(rs: seq<PageRange>, n: nat, nid: int)
    requires Sorted(rs) && n > 0
    ensures AllocFit(rs, n, nid).None? <==> forall i :: 0 <= i < |rs| ==> !IsFit(rs[i], n, nid)
    ensures AllocFit(rs, n, nid).Some? ==>
              var (ret, t) := AllocFit(rs, n, nid).value;
              && Sorted(t) && (Coalesced(rs) ==> Coalesced(t))
              && (forall p: nat :: Label(t, p) == if ret <= p < ret + n then None else Label(rs, p))
              && (forall p: nat :: ret <= p < ret + n ==> Label(rs, p).Some? && (nid == ANY_NID || Label(rs, p) == Some(nid)))
              && TopOfLowest(rs, n, nid, ret)
  {
    if AllocFit(rs, n, nid).Some? {
      var i := FirstFit(rs, n, nid);
      var (ret, t) := AllocFit(rs, n, nid).value;
      assert IsFit(rs[i], n, nid) && ret + n == rs[i].End() && rs[i].start <= ret;
      LowestFit(rs, i, n, nid);
      TakenInOrder(rs, i, n);
      assert t == Taken(rs, i, n);
      hide *;
      forall p: nat
        ensures Label(t, p) == if ret <= p < ret + n then None else Label(rs, p)
        ensures ret <= p < ret + n ==> Label(rs, p).Some? && (nid == ANY_NID || Label(rs, p) == Some(nid))
      {
        TakenLabel(rs, i, n, nid, p);
      }
    }
  }

  /** Without the upper n pages of range i. */
  function Taken(rs: seq<PageRange>, i: nat, n: nat): seq<PageRange>
    requires i < |rs| && n <= rs[i].npages
  {
    rs[..i] + (if rs[i].npages == n then [] else [rs[i].(npages := rs[i].npages - n)]) + rs[i + 1..]
  }

  lemma LowestFit(rs: seq<PageRange>, i: nat, n: nat, nid: int)
    requires Sorted(rs) && n > 0 && i < |rs| && IsFit(rs[i], n, nid) && forall j :: 0 <= j < i ==> !IsFit(rs[j], n, nid)
    ensures TopOfLowest(rs, n, nid, rs[i].End() - n)
  {
    forall j | 0 <= j < |rs| && IsFit(rs[j], n, nid) ensures rs[i].start <= rs[j].start {
      if j > i { assert rs[i].End() <= rs[j].start; }
    }
  }

  lemma TakenInOrder(rs: seq<PageRange>, i: nat, n: nat)
    requires Sorted(rs) && i < |rs| && 0 < n <= rs[i].npages
    ensures Sorted(Taken(rs, i, n)) && (Coalesced(rs) ==> Coalesced(Taken(rs, i, n)))
  {
    var a, r, c := rs[..i], rs[i], rs[i + 1..];
    var rest := if r.npages == n then [] else [r.(npages := r.npages - n)];
    assert rs == a + [r] + c && Taken(rs, i, n) == a + rest + c;
    hide *;
    SortedIs(rs);
    SortedIs(Taken(rs, i, n));
    ShrunkKeeps(a, r, c, n, 0);
    if Coalesced(rs) { ShrunkKeeps(a, r, c, n, 1); }
  }

  lemma TakenLabel(rs: seq<PageRange>, i: nat, n: nat, nid: int, p: nat)
    requires Sorted(rs) && i < |rs| && n > 0 && IsFit(rs[i], n, nid)
    ensures var ret := rs[i].End() - n;
            && Label(Taken(rs, i, n), p) == (if ret <= p < ret + n then None else Label(rs, p))
            && (ret <= p < ret + n ==> Label(rs, p).Some? && (nid == ANY_NID || Label(rs, p) == Some(nid)))
  {
    var a, r, c := rs[..i], rs[i], rs[i + 1..];
    var rest := if r.npages == n then [] else [r.(npages := r.npages - n)];
    assert rs == a + [r] + c && Taken(rs, i, n) == a + rest + c;
    SortedIs(rs);
    if r.Has(p) { LabelAt(rs, i, p); }
    assert r.End() - n <= p < r.End() ==> r.Has(p) && (nid == ANY_NID || r.nid == nid);
    var end := r.End();
    hide *;
    ShrunkLabel(a, r, c, n, p);
  }

  // ---- early_set_nid_range ----

  /** What the loop of early_set_nid_range puts in the place of one range. */
  function Parts(r: PageRange, start: nat, end: nat, nid: int): seq<PageRange>
    requires start <= end
  {
    if r.End() <= start || r.start >= end then [r]
    else if r.start < start then
      [r.(npages := start - r.start), PageRange(start, (if end < r.End() then end else r.End()) - start, nid)]
    else if r.End() > end then [r.(npages := end - r.start, nid := nid), PageRange(end, r.End() - end, ANY_NID)]
    else [r.(nid := nid)]
  }

  /** Whether the loop changes nothing after a range. */
  predicate Stops(r: PageRange, start: nat, end: nat) {
    r.End() > start && (r.start >= end || (r.start >= start && r.End() > end))
  }

  /** The whole loop, range by range. */
  function Relabel(rs: seq<PageRange>, start: nat, end: nat, nid: int): seq<PageRange>
    requires start <= end
  {
    if rs == [] then []
    else Parts(rs[0], start, end, nid) + (if Stops(rs[0], start, end) then rs[1..] else Relabel(rs[1..], start, end, nid))
  }

  /** What becomes of one page of a range: it is labelled, it keeps its label, it loses it, or it is lost. */
  function Effect(r: PageRange, start: nat, end: nat, nid: int, p: nat): Option<int> {
    if start <= p < end then Some(nid)
    else if p >= end && r.start < end then (if r.start < start then None else Some(ANY_NID))
    else Some(r.nid)
  }

  function LabelAfter(rs: seq<PageRange>, start: nat, end: nat, nid: int, p: nat): Option<int> {
    if rs == [] then None
    else if rs[0].Has(p) then Effect(rs[0], start, end, nid, p)
    else LabelAfter(rs[1..], start, end, nid, p)
  }

  lemma {:induction false} AfterAt(rs: seq<PageRange>, i: nat, start: nat, end: nat, nid: int, p: nat)
    requires Sorted(rs) && i < |rs| && rs[i].Has(p)
    ensures LabelAfter(rs, start, end, nid, p) == Effect(rs[i], start, end, nid, p)
    decreases i
  {
    if i > 0 {
      assert rs[0].End() <= rs[i].start;
      AfterAt(rs[1..], i - 1, start, end, nid, p);
    }
  }

  lemma {:induction false} AfterNone(rs: seq<PageRange>, start: nat, end: nat, nid: int, p: nat)
    requires Label(rs, p).None?
    ensures LabelAfter(rs, start, end, nid, p) == None
    decreases |rs|
  {
    if rs != [] { AfterNone(rs[1..], start, end, nid, p); }
  }

  lemma {:induction false} BeyondEnd(rs: seq<PageRange>, start: nat, end: nat, nid: int, p: nat)
    requires forall i :: 0 <= i < |rs| ==> rs[i].start >= end
    ensures LabelAfter(rs, start, end, nid, p) == Label(rs, p)
    decreases |rs|
  {
    if rs != [] { BeyondEnd(rs[1..], start, end, nid, p); }
  }

  lemma OneLabel(x: PageRange, p: nat)
    ensures Label([x], p) == if x.Has(p) then Some(x.nid) else None
  {
    assert [x][1..] == [];
  }

  lemma TwoLabels(x: PageRange, y: PageRange, p: nat)
    ensures Label([x, y], p) == if x.Has(p) then Some(x.nid) else if y.Has(p) then Some(y.nid) else None
  {
    OneLabel(y, p);
    assert [x, y][1..] == [y];
  }

  /** The pages of the parts of a range fare as Effect says. */
  lemma PartsLabel(r: PageRange, start: nat, end: nat, nid: int, p: nat)
    requires start <= end
    ensures Label(Parts(r, start, end, nid), p) == if r.Has(p) then Effect(r, start, end, nid, p) else None
  {
    var t := Parts(r, start, end, nid);
    hide Label;
    if |t| == 1 { OneLabel(t[0], p); } else { TwoLabels(t[0], t[1], p); }
  }

  /** A range reaches past both ends. */
  predicate Around(r: PageRange, start: nat, end: nat) { r.start < start && end < r.End() }

  /** The parts of a range lie in it; one of them is empty if the range reaches past both ends of nothing. */
  lemma PartsInside(r: PageRange, start: nat, end: nat, nid: int)
    requires r.npages > 0 && start <= end
    ensures var t := Parts(r, start, end, nid);
            && Ordered(t, 0) && (forall i :: 0 <= i < |t| ==> r.start <= t[i].start && t[i].End() <= r.End())
            && (NotEmpty(t) <==> start < end || !Around(r, start, end))
  {
    if Around(r, start, end) { assert Parts(r, start, end, nid)[1].npages == end - start; }
  }

  ghost predicate StartAt(rs: seq<PageRange>, lo: nat) {
    forall i :: 0 <= i < |rs| ==> rs[i].start >= lo
  }

  lemma PartsBefore(parts: seq<PageRange>, r: PageRange, t: seq<PageRange>, lo: nat)
    requires forall i :: 0 <= i < |parts| ==> r.start <= parts[i].start && parts[i].End() <= r.End()
    requires Ordered(parts, 0) && Ordered(t, 0) && StartAt(t, r.End()) && lo <= r.start
    ensures Ordered(parts + t, 0) && StartAt(parts + t, lo)
    ensures NotEmpty(parts + t) <==> NotEmpty(parts) && NotEmpty(t)
  {
    OrderedAppend(parts, t, 0);
    assert Before(parts, t, 0);
  }

  /** The ranges stay in order; an empty stretch leaves an empty range exactly if some range reaches past it on
      both sides. */
  lemma {:induction false} RelabelSorted(rs: seq<PageRange>, start: nat, end: nat, nid: int, lo: nat)
    requires Sorted(rs) && start <= end && StartAt(rs, lo)
    ensures Ordered(Relabel(rs, start, end, nid), 0) && StartAt(Relabel(rs, start, end, nid), lo)
    ensures Sorted(Relabel(rs, start, end, nid)) <==> start < end || NoneAround(rs, start, end)
    decreases |rs|
  {
    hide Parts, Stops, Sorted, Ordered, NotEmpty, StartAt, NoneAround;
    var u := Relabel(rs, start, end, nid);
    SortedIs(u);
    SortedIs(rs);
    if rs == [] {
      NothingThere(start, end, lo);
    } else {
      var r, rest := rs[0], rs[1..];
      RestSorted(rs, start, end, lo);
      PartsInside(r, start, end, nid);
      var t := if Stops(r, start, end) then rest else Relabel(rest, start, end, nid);
      SortedIs(t);
      if Stops(r, start, end) {
        NoneBeyond(rest, r, start, end);
      } else {
        RelabelSorted(rest, start, end, nid, r.End());
      }
      PartsBefore(Parts(r, start, end, nid), r, t, lo);
    }
  }

  lemma NothingThere(start: nat, end: nat, lo: nat)
    ensures Ordered([], 0) && NotEmpty([]) && StartAt([], lo) && NoneAround([], start, end)
  {
  }

  lemma RestSorted(rs: seq<PageRange>, start: nat, end: nat, lo: nat)
    requires Sorted(rs) && rs != [] && StartAt(rs, lo)
    ensures Sorted(rs[1..]) && StartAt(rs[1..], rs[0].End()) && rs[0].npages > 0 && lo <= rs[0].start
    ensures NoneAround(rs, start, end) <==> !Around(rs[0], start, end) && NoneAround(rs[1..], start, end)
  {
    assert forall i :: 0 < i < |rs| ==> rs[i] == rs[1..][i - 1];
  }

  lemma NoneBeyond(rest: seq<PageRange>, r: PageRange, start: nat, end: nat)
    requires Sorted(rest) && StartAt(rest, r.End()) && Stops(r, start, end)
    ensures Ordered(rest, 0) && NoneAround(rest, start, end)
  {
  }

  /** Each page fares as Effect says, whatever the other ranges are. */
  lemma {:induction false} RelabelLabels(rs: seq<PageRange>, start: nat, end: nat, nid: int, p: nat)
    requires Sorted(rs) && start <= end
    ensures Label(Relabel(rs, start, end, nid), p) == LabelAfter(rs, start, end, nid, p)
    decreases |rs|
  {
    if rs != [] {
      var r, rest := rs[0], rs[1..];
      PartsLabel(r, start, end, nid, p);
      LabelFound(rest, p);
      if r.Has(p) { AfterNone(rest, start, end, nid, p); }
      if Stops(r, start, end) {
        BeyondEnd(rest, start, end, nid, p);
        LabelAppend(Parts(r, start, end, nid), rest, p);
      } else {
        RelabelLabels(rest, start, end, nid, p);
        LabelAppend(Parts(r, start, end, nid), Relabel(rest, start, end, nid), p);
      }
    }
  }

  /** What is meant: the free pages of the range get the node, the others keep theirs. */
  ghost predicate RelabelledRight(rs: seq<PageRange>, start: nat, end: nat, nid: int)
    requires start <= end
  {
    forall p: nat :: Label(Relabel(rs, start, end, nid), p)
      == if start <= p < end && Label(rs, p).Some? then Some(nid) else Label(rs, p)
  }

  /** The range that goes on past the end, if there is one, does not begin before the start and is not
      labelled yet. */
  ghost predicate EndsClear(rs: seq<PageRange>, start: nat, end: nat) {
    forall i :: 0 <= i < |rs| && rs[i].start < end < rs[i].End() ==> rs[i].start >= start && rs[i].nid == ANY_NID
  }

  lemma RelabelExact(rs: seq<PageRange>, start: nat, end: nat, nid: int)
    requires Sorted(rs) && start <= end
    ensures RelabelledRight(rs, start, end, nid) <==> EndsClear(rs, start, end)
  {
    forall i | 0 <= i < |rs| && rs[i].start < end < rs[i].End()
      ensures RelabelledRight(rs, start, end, nid) ==> rs[i].start >= start && rs[i].nid == ANY_NID
    {
      RelabelLabels(rs, start, end, nid, end);
      AfterAt(rs, i, start, end, nid, end);
      LabelAt(rs, i, end);
    }
    if EndsClear(rs, start, end) {
      hide Relabel, LabelAfter, Label;
      forall p: nat
        ensures Label(Relabel(rs, start, end, nid), p)
             == if start <= p < end && Label(rs, p).Some? then Some(nid) else Label(rs, p)
      {
        RelabelLabels(rs, start, end, nid, p);
        LabelFound(rs, p);
        if Label(rs, p).Some? {
          var i :| 0 <= i < |rs| && rs[i].Has(p);
          AfterAt(rs, i, start, end, nid, p);
          LabelAt(rs, i, p);
        } else {
          AfterNone(rs, start, end, nid, p);
        }
      }
    }
  }

  /** No range reaches past both ends. */
  ghost predicate NoneAround(rs: seq<PageRange>, start: nat, end: nat) {
    forall i :: 0 <= i < |rs| ==> !Around(rs[i], start, end)
  }

  lemma FreeAfter(rs: seq<PageRange>, start: nat, end: nat, nid: int, p: nat)
    requires Sorted(rs) && start <= end && NoneAround(rs, start, end)
    ensures Label(Relabel(rs, start, end, nid), p).Some? <==> Label(rs, p).Some?
  {
    hide Relabel, LabelAfter, Label;
    RelabelLabels(rs, start, end, nid, p);
    LabelFound(rs, p);
    if Label(rs, p).Some? {
      var i :| 0 <= i < |rs| && rs[i].Has(p);
      AfterAt(rs, i, start, end, nid, p);
    } else {
      AfterNone(rs, start, end, nid, p);
    }
  }

  /** No free page is lost exactly if no range reaches past both ends. */
  lemma NoPageLostExact(rs: seq<PageRange>, start: nat, end: nat, nid: int)
    requires Sorted(rs) && start <= end
    ensures (forall p: nat :: Label(Relabel(rs, start, end, nid), p).Some? <==> Label(rs, p).Some?)
       <==> NoneAround(rs, start, end)
  {
    hide Relabel, LabelAfter, Label;
    if NoneAround(rs, start, end) {
      forall p: nat ensures Label(Relabel(rs, start, end, nid), p).Some? <==> Label(rs, p).Some? {
        FreeAfter(rs, start, end, nid, p);
      }
    } else {
      var i :| 0 <= i < |rs| && rs[i].start < start && end < rs[i].End();
      RelabelLabels(rs, start, end, nid, end);
      AfterAt(rs, i, start, end, nid, end);
      LabelAt(rs, i, end);
    }
  }

  lemma RelabelOne(r: PageRange, start: nat, end: nat, nid: int)
    requires start <= end
    ensures Relabel([r], start, end, nid) == Parts(r, start, end, nid)
  {
    hide Parts;
    assert [r][1..] == [] && Relabel([], start, end, nid) == [];
    assert Parts(r, start, end, nid) + [] == Parts(r, start, end, nid);
  }

  lemma OnlyBelow(x: PageRange, y: PageRange, p: nat)
    requires p >= x.End() && p >= y.End()
    ensures Label([x, y], p) == None
  {
    hide Label;
    TwoLabels(x, y, p);
  }

  lemma EightPages(p: nat)
    requires p < 8
    ensures Label([PageRange(0, 8, ANY_NID)], p).Some?
  {
    hide Label;
    OneLabel(PageRange(0, 8, ANY_NID), p);
  }

  /** Of eight free pages, labelling the third and fourth loses the last four. */
  lemma RelabelLoses()
    ensures var rs := [PageRange(0, 8, ANY_NID)];
            && Relabel(rs, 2, 4, 0) == [PageRange(0, 2, ANY_NID), PageRange(2, 2, 0)]
            && (forall p: nat :: 4 <= p < 8 ==> Label(rs, p).Some? && Label(Relabel(rs, 2, 4, 0), p).None?)
  {
    hide Label, Relabel;
    RelabelOne(PageRange(0, 8, ANY_NID), 2, 4, 0);
    forall p: nat | 4 <= p < 8
      ensures Label([PageRange(0, 8, ANY_NID)], p).Some?
      ensures Label([PageRange(0, 2, ANY_NID), PageRange(2, 2, 0)], p).None?
    {
      EightPages(p);
      OnlyBelow(PageRange(0, 2, ANY_NID), PageRange(2, 2, 0), p);
    }
  }

  /** So does labelling no pages at all, from the fifth on; it also leaves an empty range. */
  lemma NothingLabelledLoses()
    ensures var rs := [PageRange(0, 8, ANY_NID)];
            && Relabel(rs, 4, 4, 0) == [PageRange(0, 4, ANY_NID), PageRange(4, 0, 0)]
            && (forall p: nat :: 4 <= p < 8 ==> Label(rs, p).Some? && Label(Relabel(rs, 4, 4, 0), p).None?)
  {
    hide Label, Relabel;
    RelabelOne(PageRange(0, 8, ANY_NID), 4, 4, 0);
    forall p: nat | 4 <= p < 8
      ensures Label([PageRange(0, 8, ANY_NID)], p).Some?
      ensures Label([PageRange(0, 4, ANY_NID), PageRange(4, 0, 0)], p).None?
    {
      EightPages(p);
      OnlyBelow(PageRange(0, 4, ANY_NID), PageRange(4, 0, 0), p);
    }
  }

  // ---- early_free_memory_range ----

  /** What has to be skipped to reach a page boundary. */
  function Diff(begin: nat): (d: nat)
    ensures d < PAGE && PfnUp(begin) * PAGE == begin + d
  {
    PfnUp(begin) * PAGE - begin
  }

  /** The first page and the number of pages that the code frees; the number wraps. */
  function FreedPages(begin: nat, length: nat): Option<(nat, nat)> {
    var first := PfnUp(begin);
    var diff := Diff(begin);
    if diff > length then None
    else
      var end := (begin + length - diff) / PAGE;
      if end == first then None else Some((first, (end + U64 - first) % U64))
  }

  predicate Freed(begin: nat, length: nat, p: nat) {
    var f := FreedPages(begin, length);
    f.Some? && f.value.0 <= p < f.value.0 + f.value.1
  }

  /** The page lies wholly inside the memory. */
  predicate Inside(begin: nat, length: nat, p: nat) {
    begin <= p * PAGE && (p + 1) * PAGE <= begin + length
  }

  /** The skipped bytes are taken off the end a second time. The code frees exactly the pages inside the
      memory if and only if what is left of it after the skip, modulo the page size, covers that. */
  predicate TailCovers(begin: nat, length: nat) {
    length < Diff(begin) || (length - Diff(begin)) % PAGE >= Diff(begin)
  }

  lemma FreedIs(begin: nat, length: nat)
    requires begin + length < U64 && length >= Diff(begin)
    ensures var rest := length - Diff(begin);
            var first := PfnUp(begin);
            var end := (begin + length - Diff(begin)) / PAGE;
            && (forall p: nat :: Inside(begin, length, p) <==> first <= p < first + rest / PAGE)
            && (rest % PAGE >= Diff(begin) ==> end == first + rest / PAGE)
            && (rest % PAGE < Diff(begin) ==> end == first + rest / PAGE - 1)
  {
    var d, first := Diff(begin), PfnUp(begin);
    var rest := length - d;
    var q, m := rest / PAGE, rest % PAGE;
    assert rest == q * PAGE + m;
    assert begin + length == (first + q) * PAGE + m;
    assert begin + length - d == (first + q) * PAGE + m - d;
    forall p: nat ensures Inside(begin, length, p) <==> first <= p < first + q {
      assert begin <= p * PAGE <==> first <= p;
      assert (p + 1) * PAGE <= (first + q) * PAGE + m <==> p + 1 <= first + q;
    }
  }

  lemma FreedExact(begin: nat, length: nat)
    requires begin + length < U64
    ensures (forall p: nat :: Freed(begin, length, p) <==> Inside(begin, length, p)) <==> TailCovers(begin, length)
  {
    var d, first := Diff(begin), PfnUp(begin);
    if length >= d {
      FreedIs(begin, length);
      hide PfnUp, Diff, Inside;
      var rest := length - d;
      var end := (begin + length - d) / PAGE;
      if rest % PAGE < d {
        var last := first + rest / PAGE - 1;
        if rest / PAGE == 0 {
          assert Freed(begin, length, first) && !Inside(begin, length, first);
        } else {
          assert Inside(begin, length, last) && !Freed(begin, length, last);
        }
      }
    } else {
      forall p: nat ensures !Inside(begin, length, p) {
        if p < first { assert (p + 1) * PAGE <= first * PAGE; } else { assert (p + 1) * PAGE > first * PAGE; }
      }
    }
  }

  /** What is left of the memory after the skip is shorter than the skip: the end comes out below the first
      page, and the number of pages wraps. */
  predicate Wraps(begin: nat, length: nat) {
    Diff(begin) <= length < 2 * Diff(begin)
  }

  /** Without the wrap-around every page freed lies inside the memory; with it, 2^64 - 1 pages are freed. */
  lemma FreedInside(begin: nat, length: nat)
    requires begin + length < U64
    ensures !Wraps(begin, length) ==> forall p: nat :: Freed(begin, length, p) ==> Inside(begin, length, p)
    ensures Wraps(begin, length) ==> FreedPages(begin, length) == Some((PfnUp(begin), U64 - 1))
  {
    if length >= Diff(begin) {
      FreedIs(begin, length);
      hide PfnUp, Diff, Inside;
    }
  }

  /** 4097 bytes from address 1: nothing would be freed by rights, and the code frees a range that wraps. */
  lemma ShortRegionWraps()
    ensures FreedPages(1, 4097) == Some((1, U64 - 1))
  {
  }
}
