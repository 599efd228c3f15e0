/** The walk on a page table applies its callback to one reference tile after the other
    (sys/vmem.hpp:71-96). */
module PageMapping {
  import opened Bits
  import opened Wrappers
  import opened PageWalk
  import opened PageTable

  lemma {:induction false} RefLevels(from: nat, end: nat)
    ensures forall t :: t in RefTiles(from, end) ==> t.level < 2
    decreases end - from
  {
    if from < end {
      if from % LARGE == 0 && from + LARGE <= end { RefLevels(from + LARGE, end); } else { RefLevels(from + PAGE, end); }
    }
  }

  /** A stretch that holds no whole 2 MiB block is tiled with pages. */
  lemma {:induction false} PagesOnly(from: nat, end: nat)
    requires from % PAGE == 0 && end % PAGE == 0
    requires forall p :: p % LARGE == 0 && from <= p ==> p + LARGE > end
    ensures forall t :: t in RefTiles(from, end) ==> t.level == 0
    decreases end - from
  {
    if from < end { PagesOnly(from + PAGE, end); }
  }

  lemma SameIndex(b: nat, a: nat, l: nat)
    requires OnStep(b, l) && b <= a < b + StepOf(l)
    ensures PtIndex(a, l) == PtIndex(b, l)
  {
    var d := StepOf(l);
    hide StepOf;
    MulDiv(b, d);
    Distribute(b / d, -1, d);
    DivModUnique(a, b / d, d);
  }

  /** All tiles of an entry's region lie below that entry. */
  lemma TilesUnder(from: nat, end: nat, b: nat, l: nat)
    requires OnStep(b, l) && b <= from && end <= b + StepOf(l)
    requires forall t :: t in RefTiles(from, end) ==> t.level <= l
    ensures AllUnder(RefTiles(from, end), PtIndex(b, l), l)
  {
    var ts := RefTiles(from, end);
    RefBound(from, end);
    hide RefTiles, PtIndex, StepOf, OnStep;
    forall k | 0 <= k < |ts| ensures PtIndex(ts[k].base, l) == PtIndex(b, l) && ts[k].level <= l {
      assert ts[k] in ts;
      SameIndex(b, ts[k].base, l);
    }
  }

  lemma EntryLevels(s: nat, r: nat, b: nat, l: nat)
    requires s % PAGE == 0 && r % PAGE == 0 && OnStep(b, l)
    ensures forall t :: t in RefTiles(Max(s, b), Min(r, b + StepOf(l))) ==> t.level <= l
  {
    RefLevels(Max(s, b), Min(r, b + StepOf(l)));
    if l == 0 { PagesOnly(Max(s, b), Min(r, b + PAGE)); }
  }

  /** What the loop does at one entry is what the tiles of its region do. */
  lemma EntryIsTiles(op: Op, e: Entry, s: nat, en: nat, b: nat, l: nat)
    requires PageRange(s, en) && OnStep(b, l) && s < b + StepOf(l) && b < en
    requires l == 0 ==> Partly(s, Reach(s, en), b / LARGE * LARGE)
    ensures var ts := RefTiles(Max(s, b), Min(Reach(s, en), b + StepOf(l)));
            && AllUnder(ts, PtIndex(b, l), l)
            && SetTiles(op, e, ts, l)
               == (if IsFound(Canonical(s), EndOf(en), Canonical(b), l) then Found(op, e, Canonical(b), l)
                   else if l == 0 then None
                   else WalkEntry(op, e, Canonical(s), EndOf(en), Canonical(b), l))
    decreases l, 1, 0
  {
    hide Canonical, EndOf, WalkEntry, RefTiles, Reach, PageRange, PtIndex, AllUnder, OnStep;
    var r := Reach(s, en);
    var ts := RefTiles(Max(s, b), Min(r, b + StepOf(l)));
    ReachBounds(s, en);
    OnStepIs(b, l);
    EntryLevels(s, r, b, l);
    TilesUnder(Max(s, b), Min(r, b + StepOf(l)), b, l);
    if l < 2 { FoundTile(s, en, b, l); }
    if l > 0 { RegionIs(l); }
    if IsFound(Canonical(s), EndOf(en), Canonical(b), l) {
      FoundRegion(s, r, b, l);
      assert SetTiles(op, e, [Tile(b, l)], l) == Found(op, e, Canonical(b), l);
    } else {
      if l == 0 { PageCovered(s, en, b); }
      assert l == 1 ==> Partly(s, r, b) by { if l == 1 { LargeStep(); } }
      WalkIsTiles(op, e, s, en, b, l);
    }
  }

  lemma FoundRegion(s: nat, r: nat, b: nat, l: nat)
    requires l < 2 && b % StepOf(l) == 0 && s <= b && b + StepOf(l) <= r
    ensures RefTiles(Max(s, b), Min(r, b + StepOf(l))) == [Tile(b, l)]
  {
    if l == 0 { PageFirst(b, b + PAGE); } else { LargeOnly(b); }
  }

  lemma LoopUnfolds(op: Op, slots: seq<Entry>, start: nat, end: nat, base: nat, l: nat, idx: nat, last: nat)
    requires idx <= last
    ensures LoopEntry(op, slots, start, end, base, l, idx, last)
         == if idx >= |slots| then None
            else
              var here := if IsFound(start, end, base, l) then Found(op, slots[idx], base, l)
                          else if l == 0 then None
                          else WalkEntry(op, slots[idx], start, end, base, l);
              if here.None? then None
              else LoopEntry(op, slots[idx := here.value], start, end, NextAddr(base, l), l, idx + 1, last)
  {
    hide WalkEntry, IsFound, NextAddr;
  }

  lemma SlotsOutside(op: Op, slots: seq<Entry>, ts: seq<Tile>, i: nat, l: nat)
    requires AllUnder(ts, i, l) && i >= |slots| && ts != []
    ensures SetSlots(op, slots, ts, l).None?
  {
  }

  lemma {:induction false} LoopIsTiles(op: Op, slots: seq<Entry>, s: nat, en: nat, b: nat, l: nat, idx: nat,
                                       last: nat, top: nat)
    requires PageRange(s, en) && OnStep(b, l) && PtIndex(b, l) == idx <= last < 512
    requires Reaches(b, last + 1 - idx, l, top)
    requires s < b + StepOf(l) && b < en && top - StepOf(l) < en
    requires l == 0 ==> PageLoop(s, Reach(s, en), b, top)
    ensures LoopEntry(op, slots, Canonical(s), EndOf(en), Canonical(b), l, idx, last)
         == SetSlots(op, slots, RefTiles(Max(s, b), Min(Reach(s, en), top)), l)
    decreases l, 2, last + 1 - idx
  {
    hide Canonical, EndOf, WalkEntry, StepOf, NextAddr, IsFound, LoopEntry, OnStep, Reaches, PageLoop, PageRange,
      Reach, RefTiles, PtIndex, AllUnder, SetTiles, SetSlots, Found;
    var r := Reach(s, en);
    ReachBounds(s, en);
    if l == 0 { PageLoopPartly(s, r, b, top); }
    var here := RefTiles(Max(s, b), Min(r, b + StepOf(l)));
    var rest := RefTiles(Max(s, b + StepOf(l)), Min(r, top));
    LoopUnfolds(op, slots, Canonical(s), EndOf(en), Canonical(b), l, idx, last);
    SlotsAppend(op, slots, here, rest, l);
    if idx == last {
      NothingLeft(s, r, b, l, top);
    } else {
      LoopGoesOn(s, en, b, l, last + 1 - idx, top, r);
    }
    CutAtEntry(s, r, b, l, top);
    if idx >= |slots| {
      EntryIsTiles(op, Absent, s, en, b, l);
      HereNotEmpty(s, r, b, l);
      SlotsOutside(op, slots, here, idx, l);
    } else {
      EntryIsTiles(op, slots[idx], s, en, b, l);
      SlotsOfOne(op, slots, here, idx, l);
      var slot := SetTiles(op, slots[idx], here, l);
      if slot.Some? {
        if idx == last {
          LoopEnds(op, slots[idx := slot.value], Canonical(s), EndOf(en), NextAddr(Canonical(b), l), l, idx + 1, last);
        } else {
          NextIndex(b, l, idx, last);
          LoopIsTiles(op, slots[idx := slot.value], s, en, b + StepOf(l), l, idx + 1, last, top);
        }
      }
    }
  }

  lemma HereNotEmpty(s: nat, r: nat, b: nat, l: nat)
    requires s < b + StepOf(l) && b < r && s < r
    ensures RefTiles(Max(s, b), Min(r, b + StepOf(l))) != []
  {
  }

  lemma LoopEnds(op: Op, slots: seq<Entry>, start: nat, end: nat, base: nat, l: nat, idx: nat, last: nat)
    requires idx > last
    ensures LoopEntry(op, slots, start, end, base, l, idx, last) == Some(slots)
    ensures SetSlots(op, slots, [], l) == Some(slots)
  {
  }

  lemma NextIndex(b: nat, l: nat, idx: nat, last: nat)
    requires OnStep(b, l) && PtIndex(b, l) == idx && idx < last < 512
    ensures PtIndex(b + StepOf(l), l) == idx + 1
  {
    var d := StepOf(l);
    hide StepOf;
    DivNext(b, d);
    ModNext(b / d, idx);
  }

  lemma DivNext(b: nat, d: nat)
    requires d > 0 && b % d == 0
    ensures (b + d) / d == b / d + 1
  {
    MulDiv(b, d);
    Distribute(b / d, -1, d);
    Distribute(b / d + 1, -1, d);
    DivModUnique(b + d, b / d + 1, d);
  }

  lemma ModNext(q: nat, idx: nat)
    requires q % 512 == idx < 511
    ensures (q + 1) % 512 == idx + 1
  {
  }

  /** traverse_page_table, with the callbacks of op, is op applied to the reference tiles in order. */
  lemma {:induction false} WalkIsTiles(op: Op, e: Entry, s: nat, en: nat, base: nat, level: nat)
    requires PageRange(s, en) && 1 <= level <= 4
    requires base % (StepOf(level - 1) * 512) == 0 && s < base + StepOf(level - 1) * 512 && base < en
    requires level == 1 ==> Partly(s, Reach(s, en), base)
    ensures WalkEntry(op, e, Canonical(s), EndOf(en), Canonical(base), level)
         == SetTiles(op, e, RefTiles(Max(s, base), Min(Reach(s, en), base + StepOf(level - 1) * 512)), level)
    decreases level, 0, 0
  {
    var l := level - 1;
    hide Canonical, PtIndex, EndOf, WalkEntry, LoopEntry, RefTiles, StepOf, Reaches, PageLoop, PageRange, Reach,
      OnStep, FirstIdx, LastIdx, FirstAddr, SetTiles, SetSlots, Partly;
    var first, last, b, top := WalkSetup(s, en, base, level);
    FirstIndex(base, first, l);
    var ts := RefTiles(Max(s, base), Min(Reach(s, en), base + StepOf(l) * 512));
    TableLevels(s, en, base, level);
    ReachBounds(s, en);
    TilesAreSlots(op, e, ts, level);
    WalkEntryUnfolds(op, e, Canonical(s), EndOf(en), Canonical(base), level);
    if Below(op, e).Some? {
      LoopIsTiles(op, Below(op, e).value.slots, s, en, b, l, first, last, top);
    }
  }

  lemma WalkEntryUnfolds(op: Op, e: Entry, start: nat, end: nat, base: nat, level: nat)
    requires 1 <= level
    ensures WalkEntry(op, e, start, end, base, level)
         == var table := Below(op, e);
            if table.None? then None
            else
              var l := level - 1;
              var first := FirstIdx(start, base, l);
              var slots := LoopEntry(op, table.value.slots, start, end, FirstAddr(base, first, l), l, first, LastIdx(end, base, l));
              if slots.None? then None else Some(Table(slots.value))
  {
    hide LoopEntry, FirstIdx, FirstAddr, LastIdx;
  }

  lemma FirstIndex(base: nat, first: nat, l: nat)
    requires l < 4 && base % (StepOf(l) * 512) == 0 && first < 512
    ensures PtIndex(base + first * StepOf(l), l) == first
  {
    var d := StepOf(l);
    hide StepOf;
    MulLe(first + 1, 512, d);
    Distribute(first, -1, d);
    MulLe(0, first, d);
    IndexAt(base, first, l);
  }

  lemma IndexAt(base: nat, first: nat, l: nat)
    requires l < 4 && base % (StepOf(l) * 512) == 0 && first < 512 && first * StepOf(l) < StepOf(l) * 512
    requires 0 <= first * StepOf(l)
    ensures PtIndex(base + first * StepOf(l), l) == first
  {
    IndexInside(base, base + first * StepOf(l), l);
    hide StepOf, PtIndex;
    ModOfMultiple(first, StepOf(l));
  }

  /** A table of pages ends on a 2 MiB boundary or where the range does. */
  lemma LastTable(s: nat, en: nat, base: nat, from: nat, end: nat)
    requires PageRange(s, en) && base % LARGE == 0 && s < base + LARGE && base < en
    requires Partly(s, Reach(s, en), base)
    requires from == Max(s, base) && end == Min(Reach(s, en), base + LARGE)
    ensures from % PAGE == 0 && end % PAGE == 0
    ensures forall p :: p % LARGE == 0 && from <= p ==> p + LARGE > end
  {
    ReachBounds(s, en);
    LargeIsPages(base);
    hide Reach, PageRange;
    forall p: nat | p % LARGE == 0 && from <= p ensures p + LARGE > end {
      NextLarge(base, p);
    }
  }

  lemma LargeIsPages(base: nat)
    requires base % LARGE == 0
    ensures base % PAGE == 0 && (base + LARGE) % PAGE == 0
  {
  }

  lemma NextLarge(base: nat, p: nat)
    requires base % LARGE == 0 && p % LARGE == 0
    ensures p > base ==> p >= base + LARGE
  {
  }

  lemma SomeTile(from: nat, end: nat)
    requires from < end
    ensures RefTiles(from, end) != []
  {
  }

  lemma LevelsBelow(ts: seq<Tile>, level: nat)
    requires forall t :: t in ts ==> t.level < level
    ensures forall k :: 0 <= k < |ts| ==> ts[k].level < level
  {
    forall k | 0 <= k < |ts| ensures ts[k].level < level { assert ts[k] in ts; }
  }

  /** The tiles of a table are smaller than what the entry above it covers, and there is one. */
  lemma TableLevels(s: nat, en: nat, base: nat, level: nat)
    requires PageRange(s, en) && 1 <= level <= 4
    requires base % (StepOf(level - 1) * 512) == 0 && s < base + StepOf(level - 1) * 512 && base < en
    requires level == 1 ==> Partly(s, Reach(s, en), base)
    ensures var ts := RefTiles(Max(s, base), Min(Reach(s, en), base + StepOf(level - 1) * 512));
            ts != [] && forall k :: 0 <= k < |ts| ==> ts[k].level < level
  {
    var from, end := Max(s, base), Min(Reach(s, en), base + StepOf(level - 1) * 512);
    ReachBounds(s, en);
    RefLevels(from, end);
    SomeTile(from, end);
    if level == 1 {
      LastTable(s, en, base, from, end);
      hide RefTiles, Reach, PageRange, Partly;
      PagesOnly(from, end);
    }
    hide *;
    LevelsBelow(RefTiles(from, end), level);
  }
}
