/** The walk over an empty range: it follows one path of tables and calls `found` on nothing, except at address 0,
    where the end less one wraps (traverse_page_table in sys/vmem.hpp). */
module PageEmpty {
  import opened Bits
  import opened Wrappers
  import opened PageWalk
  import opened PageTable
  import PageMapping
  import opened PageTranslate

  /** Up to the middle and from there on the address is its own end. */
  lemma StartIsEnd(s: nat)
    requires s % PAGE == 0 && 0 < s < WHOLE && s != HALF
    ensures Canonical(s) == EndOf(s)
  {
    hide Canonical;
    CanonicalIs(s);
    CanonicalIs(s - 1);
  }

  /** Only the root's region has the middle of the space inside. */
  lemma MiddleInside(base: nat, l: nat)
    requires l < 4 && base % (StepOf(l) * 512) == 0 && base < HALF < base + StepOf(l) * 512
    ensures l == 3 && base == 0
  {
    TableInHalf(base, l);
  }

  lemma MiddleIndex()
    ensures LastIdx(Canonical(HALF), Canonical(0), 3) == 255
  {
    assert Canonical(HALF) == U64 - HALF && Canonical(0) == 0;
    assert Canonical(AddAddr(0, StepOf(3) * 512 - 1)) == U64 - 1;
    assert Min(Before(U64 - HALF), U64 - 1) == U64 - HALF - 1;
    hide Canonical, AddAddr;
    MiddleDigits();
  }

  lemma MiddleDigits()
    ensures PtIndex(U64 - HALF - 1, 3) == 255
  {
    DivModUnique(U64 - HALF - 1, 0x1FF_FEFF, 0x80_0000_0000);
    DivModUnique(0x1FF_FEFF, 0xFFFF, 512);
  }

  /** The entries the walk looks at: none, or the one that has the address inside. */
  lemma EmptyIndices(s: nat, base: nat, l: nat) returns (first: nat, b: nat)
    requires l < 4 && base % (StepOf(l) * 512) == 0 && base < s < base + StepOf(l) * 512 && s % PAGE == 0 && s < WHOLE
    ensures first == FirstIdx(Canonical(s), Canonical(base), l) && first < 512 && b == base + first * StepOf(l)
    ensures FirstAddr(Canonical(base), first, l) == Canonical(b) && OnStep(b, l) && b <= s < b + StepOf(l)
    ensures LastIdx(Canonical(s), Canonical(base), l) == if s == b then first - 1 else first
  {
    hide Canonical, PtIndex, EndOf, StepOf, OnStep, FirstIdx, LastIdx, FirstAddr;
    first, b := FirstEntry(s, base, l);
    if s == HALF {
      MiddleInside(base, l);
      MiddleIndex();
      MiddleFirst(first, b);
    } else {
      StartIsEnd(s);
      LastEntry(s, base, l);
      EntryBefore(s, base, first, LastIdx(Canonical(s), Canonical(base), l), StepOf(l));
    }
  }

  lemma MiddleFirst(first: nat, b: nat)
    requires b == first * StepOf(3) && b <= HALF < b + StepOf(3)
    ensures first == 256 && b == HALF
  {
  }

  lemma EntryBefore(s: nat, base: nat, first: nat, last: nat, d: nat)
    requires d > 0 && base + first * d <= s < base + first * d + d
    requires base + last * d < s && Min(s, base + (last + 1) * d) == Min(s, base + d * 512) && s < base + d * 512
    ensures last == if s == base + first * d then first - 1 else first
  {
    Distribute(last + 1, last, d);
    Distribute(first + 1, first, d);
    if last + 1 < first { MulLe(last + 2, first, d); Distribute(last + 2, last + 1, d); }
    if last > first { MulLe(first + 1, last, d); }
    if last + 1 == first { MulLe(first, last + 1, d); }
  }

  /** Where the address lies inside an entry the walk does not call `found` on it. */
  lemma InsideNotFound(s: nat, b: nat, l: nat)
    requires s < WHOLE && b < s
    ensures !IsFound(Canonical(s), Canonical(s), Canonical(b), l)
  {
    hide Canonical;
    CanonicalOrder(s, b);
  }

  lemma InsidePage(s: nat, b: nat, l: nat)
    requires OnStep(b, l) && b < s < b + StepOf(l) && s % PAGE == 0
    ensures l > 0 && b % (StepOf(l - 1) * 512) == 0
  {
    if l == 0 { NextMultiple(b, s, PAGE); } else { RegionIs(l); }
  }

  lemma {:induction false} EmptyWalk(s: nat, base: nat, level: nat)
    requires s % PAGE == 0 && s < WHOLE && 1 <= level <= 4 && base % (StepOf(level - 1) * 512) == 0
    requires base < s < base + StepOf(level - 1) * 512
    ensures WalkTiles(Canonical(s), Canonical(s), Canonical(base), level) == Some([])
    decreases level
  {
    hide Canonical, StepOf, PtIndex, OnStep, FirstIdx, LastIdx, FirstAddr, IsFound, WalkTiles, LoopTiles, NextAddr;
    var l := level - 1;
    var start := Canonical(s);
    var first, b := EmptyIndices(s, base, l);
    WalkUnfolds(start, start, Canonical(base), level);
    if s == b {
      LoopDone(start, start, Canonical(b), l, first, first - 1);
    } else {
      InsideNotFound(s, b, l);
      InsidePage(s, b, l);
      if l > 0 { RegionIs(l); }
      EmptyWalk(s, b, l);
      LoopDone(start, start, NextAddr(Canonical(b), l), l, first + 1, first);
      var none: seq<Tile> := [];
      assert none + none == none;
      LoopUnfolds(start, start, Canonical(b), l, first, first, none, none);
    }
  }

  /** The walk to 0 from 0 goes below the last level. */
  lemma ZeroLast(l: nat)
    requires l < 4
    ensures FirstIdx(Canonical(0), Canonical(0), l) == 0 && FirstAddr(Canonical(0), 0, l) == Canonical(0)
    ensures !IsFound(Canonical(0), Canonical(0), Canonical(0), l)
  {
    assert Canonical(0) == 0;
    hide PtIndex;
    assert PtIndex(0, l) == 0 by { DivModUnique(0, 0, StepOf(l)); }
  }

  /** For every page-aligned address: the walk over nothing calls `found` on nothing, and ends, exactly if the
      address is not 0. */
  lemma EmptyExact(s: nat)
    requires s % PAGE == 0 && s < WHOLE
    ensures WalkTiles(Canonical(s), Canonical(s), Canonical(0), 4) == if s == 0 then None else Some([])
  {
    hide Canonical, WalkTiles;
    assert StepOf(3) * 512 == WHOLE && 0 % (StepOf(3) * 512) == 0;
    if s == 0 { ZeroWalk(4); } else { EmptyWalk(s, 0, 4); }
  }

  lemma {:induction false} ZeroWalk(level: nat)
    requires 1 <= level <= 4
    ensures WalkTiles(Canonical(0), Canonical(0), Canonical(0), level) == None
    decreases level
  {
    hide Canonical, PtIndex, StepOf, FirstIdx, LastIdx, FirstAddr, IsFound, WalkTiles, LoopTiles;
    var l := level - 1;
    ZeroLast(l);
    WalkUnfolds(Canonical(0), Canonical(0), Canonical(0), level);
    if l > 0 { ZeroWalk(l); }
    ZeroLoop(l, LastIdx(Canonical(0), Canonical(0), l));
  }

  lemma ZeroLoop(l: nat, last: nat)
    requires !IsFound(Canonical(0), Canonical(0), Canonical(0), l)
    requires l == 0 || WalkTiles(Canonical(0), Canonical(0), Canonical(0), l) == None
    ensures LoopTiles(Canonical(0), Canonical(0), Canonical(0), l, 0, last) == None
  {
    hide Canonical, IsFound, WalkTiles;
  }

  // ---- on a tree of tables ----

  /** The tables on the path to an address, down to the one in which it starts an entry, are there or can be
      made. */
  ghost predicate PathReady(op: Op, e: Entry, s: nat, level: nat)
    decreases level
  {
    level > 0 && Below(op, e).Some?
    && (s % StepOf(level - 1) == 0
        || var i, slots := PtIndex(s, level - 1), Below(op, e).value.slots;
           i < |slots| && PathReady(op, slots[i], s, level - 1))
  }

  lemma StartsEntry(s: nat, b: nat, l: nat)
    requires OnStep(b, l) && b <= s < b + StepOf(l)
    ensures s % StepOf(l) == 0 <==> s == b
  {
    var d := StepOf(l);
    MulDiv(b, d);
    Distribute(b / d + 1, b / d, d);
    DivModUnique(s, b / d, d);
  }

  /** The same translation, through a table that had to be made or not. */
  ghost predicate SameBelow(e: Entry, g: Entry, level: nat) {
    WellFormed(g, level) && forall v: nat :: Translate(g, v, level) == Translate(e, v, level)
  }

  lemma BelowSame(op: Op, e: Entry, level: nat)
    requires level > 0 && WellFormed(e, level) && Below(op, e).Some?
    ensures SameBelow(e, Below(op, e).value, level) && |Below(op, e).value.slots| == 512
  {
    hide PtIndex;
    if e.Absent? {
      assert Below(op, e).value == EmptyTable();
      EmptyIsFine(level);
      forall v: nat ensures Translate(EmptyTable(), v, level) == None { IndexInTable(v, level - 1); }
    }
  }

  lemma SlotSame(slots: seq<Entry>, i: nat, x: Entry, level: nat)
    requires level > 0 && WellFormed(Table(slots), level) && i < |slots| && SameBelow(slots[i], x, level - 1)
    ensures SameBelow(Table(slots), Table(slots[i := x]), level)
  {
    hide PtIndex;
    var more := slots[i := x];
    assert forall j: nat :: j < |more| && j != i ==> WellFormed(slots[j], level - 1);
    assert forall j: nat :: j < |more| ==> WellFormed(more[j], level - 1);
    forall v: nat ensures Translate(Table(more), v, level) == Translate(Table(slots), v, level) {
      if PtIndex(v, level - 1) == i { assert Translate(x, v, level - 1) == Translate(slots[i], v, level - 1); }
    }
  }

  /** The walk over nothing succeeds exactly if the path to the address is ready, and changes no translation. */
  lemma {:induction false} EmptyEntry(op: Op, e: Entry, s: nat, base: nat, level: nat)
    requires WellFormed(e, level) && 1 <= level <= 4
    requires s % PAGE == 0 && s < WHOLE && base % (StepOf(level - 1) * 512) == 0
    requires base < s < base + StepOf(level - 1) * 512
    ensures var r := WalkEntry(op, e, Canonical(s), Canonical(s), Canonical(base), level);
            && (r.Some? <==> PathReady(op, e, s, level))
            && (r.Some? ==> SameBelow(e, r.value, level))
    decreases level
  {
    hide Canonical, StepOf, PtIndex, OnStep, FirstIdx, LastIdx, FirstAddr, IsFound, WalkEntry, LoopEntry, NextAddr,
      SameBelow, WellFormed, Below;
    var l, start := level - 1, Canonical(s);
    var first, b := EmptyIndices(s, base, l);
    StartsEntry(s, b, l);
    PageMapping.WalkEntryUnfolds(op, e, start, start, Canonical(base), level);
    PathUnfolds(op, e, s, level);
    if Below(op, e).Some? {
      BelowSame(op, e, level);
      var slots := Below(op, e).value.slots;
      TableOf(op, e, slots, level);
      if s == b {
        PageMapping.LoopEnds(op, slots, start, start, Canonical(b), l, first, first - 1);
      } else {
        InsideNotFound(s, b, l);
        InsidePage(s, b, l);
        RegionIs(l);
        IndexOfEntry(s, base, first, b, l);
        SlotsFine(slots, first, level);
        EmptyEntry(op, slots[first], s, b, l);
        PageMapping.LoopUnfolds(op, slots, start, start, Canonical(b), l, first, first);
        var x := WalkEntry(op, slots[first], start, start, Canonical(b), l);
        if x.Some? {
          var more := slots[first := x.value];
          PageMapping.LoopEnds(op, more, start, start, NextAddr(Canonical(b), l), l, first + 1, first);
          SlotSame(slots, first, x.value, level);
          SameTwice(e, Table(slots), Table(more), level);
        }
      }
    }
  }

  lemma PathUnfolds(op: Op, e: Entry, s: nat, level: nat)
    requires level > 0
    ensures PathReady(op, e, s, level)
       <==> Below(op, e).Some?
            && (s % StepOf(level - 1) == 0
                || var i, slots := PtIndex(s, level - 1), Below(op, e).value.slots;
                   i < |slots| && PathReady(op, slots[i], s, level - 1))
  {
    hide StepOf, PtIndex, Below;
  }

  lemma TableOf(op: Op, e: Entry, slots: seq<Entry>, level: nat)
    requires Below(op, e).Some? && slots == Below(op, e).value.slots && SameBelow(e, Below(op, e).value, level)
    ensures SameBelow(e, Table(slots), level) && WellFormed(Table(slots), level)
  {
  }

  lemma SlotsFine(slots: seq<Entry>, i: nat, level: nat)
    requires level > 0 && WellFormed(Table(slots), level) && i < |slots|
    ensures WellFormed(slots[i], level - 1)
  {
  }

  lemma SameTwice(e: Entry, f: Entry, g: Entry, level: nat)
    requires SameBelow(e, f, level) && SameBelow(f, g, level)
    ensures SameBelow(e, g, level)
  {
  }

  /** The highest level at which an address starts an entry. */
  function EntryLevel(s: nat): (l: nat)
    ensures l < 4 && forall k :: l < k < 4 ==> s % StepOf(k) != 0
    ensures s % PAGE == 0 ==> s % StepOf(l) == 0
  {
    if s % StepOf(3) == 0 then 3 else if s % StepOf(2) == 0 then 2 else if s % StepOf(1) == 0 then 1 else 0
  }

  /** The table in which an address starts an entry is there, or nothing is, where tables may be made. */
  predicate TableFor(root: Entry, s: nat, make: bool) {
    var x := GetTile(root, Tile(s, EntryLevel(s) + 1), 4);
    x.Some? && (x.value.Table? || (make && x.value.Absent?))
  }

  /** Following the tables from above finds the one that is asked for. */
  lemma {:induction false} PathIsTable(op: Op, e: Entry, s: nat, level: nat)
    requires WellFormed(e, level) && EntryLevel(s) < level <= 4 && s % PAGE == 0
    ensures PathReady(op, e, s, level)
       <==> var x := GetTile(e, Tile(s, EntryLevel(s) + 1), level);
            x.Some? && (x.value.Table? || (!op.Unmap? && x.value.Absent?))
    decreases level
  {
    hide StepOf, PtIndex, EntryLevel;
    IndexInTable(s, level - 1);
    if level > EntryLevel(s) + 1 && Below(op, e).Some? {
      var slots := Below(op, e).value.slots;
      if e.Absent? { EmptyIsFine(level); }
      PathIsTable(op, slots[PtIndex(s, level - 1)], s, level - 1);
    }
  }

  /** From the root: at any address but 0 the walk over nothing succeeds exactly if the table for the address is there
      or may be made, and every address translates as before; at 0 it has no defined outcome. */
  lemma EmptyRoot(op: Op, root: Entry, s: nat)
    requires WellFormed(root, 4) && s % PAGE == 0 && s < WHOLE
    ensures var r := WalkEntry(op, root, Canonical(s), Canonical(s), 0, 4);
            && (r.Some? <==> s != 0 && TableFor(root, s, !op.Unmap?))
            && (r.Some? ==> WellFormed(r.value, 4)
                            && forall v: nat :: Translate(r.value, v, 4) == Translate(root, v, 4))
  {
    PathIsTable(op, root, s, 4);
    hide WalkEntry, PathReady;
    assert StepOf(3) * 512 == WHOLE && 0 % (StepOf(3) * 512) == 0 && Canonical(0) == 0;
    if s == 0 { ZeroEntry(op, root, 4); } else { EmptyEntry(op, root, s, 0, 4); }
  }

  lemma {:induction false} ZeroEntry(op: Op, e: Entry, level: nat)
    requires 1 <= level <= 4
    ensures WalkEntry(op, e, Canonical(0), Canonical(0), Canonical(0), level) == None
    decreases level
  {
    hide Canonical, PtIndex, StepOf, FirstIdx, LastIdx, FirstAddr, IsFound, WalkEntry, LoopEntry, Below, NextAddr;
    var l := level - 1;
    ZeroLast(l);
    PageMapping.WalkEntryUnfolds(op, e, Canonical(0), Canonical(0), Canonical(0), level);
    if Below(op, e).Some? {
      var slots := Below(op, e).value.slots;
      PageMapping.LoopUnfolds(op, slots, Canonical(0), Canonical(0), Canonical(0), l, 0,
                              LastIdx(Canonical(0), Canonical(0), l));
      if l > 0 && slots != [] { ZeroEntry(op, slots[0], l); }
    }
  }
}
