/** The walk over a range that ends with the last byte of the address space: its end is 2^64, which is 0 in 64
    bits (traverse_page_table in sys/vmem.hpp). */
module PageTop {
  import opened Bits
  import opened Wrappers
  import opened PageWalk
  import opened PageTable
  import PageMapping

  lemma TopIndex(base: nat, l: nat)
    requires l < 4 && base % (StepOf(l) * 512) == 0 && base < WHOLE
    ensures LastIdx(0, Canonical(base), l) == 511
  {
    hide Canonical, PtIndex, AddAddr, StepOf;
    LastByte(base, l);
    var x := base + StepOf(l) * 512 - 1;
    CanonicalOrder(x, x);
    IndexOfCanonical(x, l);
    IndexInside(base, x, l);
    ByteBelow(l);
    assert Min(Before(0), Canonical(x)) == Canonical(x);
  }

  lemma ByteBelow(l: nat)
    requires l < 4
    ensures (StepOf(l) * 512 - 1) / StepOf(l) == 511
  {
  }

  /** With end 0 the comparison lets only an entry pass that ends the address space and starts the range. */
  lemma TopFound(s: nat, b: nat, l: nat)
    requires OnStep(b, l) && b < WHOLE && s < WHOLE && b <= s
    ensures IsFound(Canonical(s), 0, Canonical(b), l) <==> l < 2 && s == b && b + StepOf(l) == WHOLE
  {
    CanonicalOrder(s, b);
    CanonicalOrder(b, s);
    NextBase(b, l);
    hide Canonical, AddAddr;
  }

  /** The last page and the last 2 MiB block. */
  predicate Last(s: nat) { s == WHOLE - PAGE || s == WHOLE - LARGE }

  function LastTile(s: nat): Tile { Tile(Canonical(s), if s == WHOLE - PAGE then 0 else 1) }

  function TopResult(s: nat): Option<seq<Tile>> {
    if Last(s) then Some([LastTile(s)]) else None
  }

  lemma LoopFails(start: nat, end: nat, base: nat, l: nat, idx: nat, last: nat)
    requires idx <= last && !IsFound(start, end, base, l)
    requires l == 0 || WalkTiles(start, end, base, l) == None
    ensures LoopTiles(start, end, base, l, idx, last) == None
  {
    hide IsFound, WalkTiles, NextAddr;
  }

  lemma LoopLast(start: nat, end: nat, base: nat, l: nat, last: nat, here: seq<Tile>)
    requires if IsFound(start, end, base, l) then here == [Tile(base, l)]
             else l > 0 && WalkTiles(start, end, base, l) == Some(here)
    ensures LoopTiles(start, end, base, l, last, last) == Some(here)
  {
    hide IsFound, WalkTiles;
    assert LoopTiles(start, end, NextAddr(base, l), l, last + 1, last) == Some([]);
    LoopUnfolds(start, end, base, l, last, last, here, []);
    assert here + [] == here;
  }

  /** The entry that holds the start of the range ends the address space exactly if the range is one of the two. */
  lemma LastEntryEnds(s: nat, base: nat, b: nat, first: nat, l: nat)
    requires s % PAGE == 0 && s < WHOLE && OnStep(b, l) && b <= s < b + StepOf(l) && first < 512
    requires b == base + first * StepOf(l) && base + StepOf(l) * 512 <= WHOLE
    requires l == 0 ==> s != WHOLE - LARGE
    ensures Last(s) ==> first == 511 && b + StepOf(l) == WHOLE
    ensures l == 0 ==> s == b
    ensures l < 2 && s == b && b + StepOf(l) == WHOLE ==> Last(s) && LastTile(s) == Tile(Canonical(b), l)
    ensures l == 0 && Last(s) ==> s == b && b + StepOf(l) == WHOLE
  {
    hide Canonical;
    if Last(s) {
      EndsSpace(s, b, l);
      EntriesLeft(base, first, StepOf(l));
    }
  }

  lemma EndsSpace(s: nat, b: nat, l: nat)
    requires s % PAGE == 0 && s < WHOLE && OnStep(b, l) && b <= s < b + StepOf(l)
    requires s == WHOLE - PAGE || (s == WHOLE - LARGE && l > 0)
    ensures b + StepOf(l) == WHOLE
  {
  }

  lemma EntriesLeft(base: nat, first: nat, d: nat)
    requires d > 0 && first < 512 && base + d * 512 <= WHOLE == base + first * d + d
    ensures first == 511
  {
    if first < 511 { MulLe(first + 1, 511, d); }
  }

  lemma {:induction false} TopWalk(s: nat, base: nat, level: nat)
    requires s % PAGE == 0 && s < WHOLE && 1 <= level <= 4 && base % (StepOf(level - 1) * 512) == 0
    requires base <= s < base + StepOf(level - 1) * 512
    requires level == 1 ==> s != WHOLE - LARGE
    ensures WalkTiles(Canonical(s), 0, Canonical(base), level) == TopResult(s)
    decreases level
  {
    var l := level - 1;
    var start := Canonical(s);
    var first, b := FirstEntry(s, base, l);
    TopIndex(base, l);
    TableInHalf(base, l);
    assert Max(s, base) == s;
    LastEntryEnds(s, base, b, first, l);
    TopFound(s, b, l);
    if l > 0 { RegionIs(l); }
    assert OnStep(b, l) ==> b % StepOf(l) == 0;
    hide StepOf, Canonical, PtIndex, FirstIdx, LastIdx, FirstAddr, IsFound, WalkTiles, LoopTiles,
      OnStep, LastTile;
    WalkUnfolds(start, 0, Canonical(base), level);
    var found := IsFound(start, 0, Canonical(b), l);
    if l > 0 && !found { TopWalk(s, b, l); }
    if Last(s) {
      LoopLast(start, 0, Canonical(b), l, first, [LastTile(s)]);
    } else {
      LoopFails(start, 0, Canonical(b), l, first, 511);
    }
  }

  lemma LastPageTiles()
    ensures RefTiles(WHOLE - PAGE, WHOLE) == [Tile(WHOLE - PAGE, 0)]
  {
    PageFirst(WHOLE - PAGE, WHOLE);
    assert RefTiles(WHOLE, WHOLE) == [];
  }

  lemma LastBlockTiles()
    ensures RefTiles(WHOLE - LARGE, WHOLE) == [Tile(WHOLE - LARGE, 1)]
  {
    LargeOnly(WHOLE - LARGE);
  }

  /** For every start: the walk to the end of the address space covers the range, as it should, exactly if the
      range is the last page or the last 2 MiB block; for any other it goes below the last level. */
  lemma TopEndExact(s: nat)
    requires s % PAGE == 0 && s < WHOLE
    ensures WalkTiles(Canonical(s), 0, 0, 4).Some? <==> Last(s)
    ensures Last(s) ==> WalkTiles(Canonical(s), 0, 0, 4) == Some(Canon(RefTiles(s, WHOLE)))
  {
    assert Canonical(0) == 0;
    assert StepOf(3) * 512 == WHOLE && 0 % (StepOf(3) * 512) == 0;
    hide WalkTiles, RefTiles, Canon, Canonical, StepOf;
    TopWalk(s, 0, 4);
    LastPageTiles();
    LastBlockTiles();
    OneCanon(Tile(WHOLE - PAGE, 0));
    OneCanon(Tile(WHOLE - LARGE, 1));
  }

  // ---- on a tree of tables ----

  /** The tile of the last page or of the last 2 MiB block, by its position. */
  function EndTile(s: nat): Tile { Tile(s, if s == WHOLE - PAGE then 0 else 1) }

  lemma TopSet(op: Op, e: Entry, s: nat, level: nat)
    requires Last(s) && 1 <= level && (level == 1 ==> s != WHOLE - LARGE)
    ensures SetTile(op, e, EndTile(s), level)
         == var table := Below(op, e);
            if table.None? || PtIndex(s, level - 1) >= |table.value.slots| then None
            else
              var i := PtIndex(s, level - 1);
              var slot := SetTile(op, table.value.slots[i], EndTile(s), level - 1);
              if slot.None? then None else Some(Table(table.value.slots[i := slot.value]))
  {
    hide PtIndex, Below;
  }

  lemma TopFoundSet(op: Op, e: Entry, s: nat, l: nat)
    requires Last(s) && LastTile(s) == Tile(Canonical(s), l)
    ensures SetTile(op, e, EndTile(s), l) == Found(op, e, Canonical(s), l)
  {
    hide Canonical, Found;
  }

  lemma TopLoop(op: Op, slots: seq<Entry>, start: nat, base: nat, first: nat, l: nat, x: Option<Entry>)
    requires first <= 511 && (x.Some? ==> first == 511) && first < |slots|
    requires x == if IsFound(start, 0, base, l) then Found(op, slots[first], base, l)
                  else if l == 0 then None else WalkEntry(op, slots[first], start, 0, base, l)
    ensures LoopEntry(op, slots, start, 0, base, l, first, 511)
         == if x.None? then None else Some(slots[first := x.value])
  {
    hide IsFound, Found, WalkEntry, LoopEntry, NextAddr;
    PageMapping.LoopUnfolds(op, slots, start, 0, base, l, first, 511);
    if x.Some? {
      PageMapping.LoopEnds(op, slots[first := x.value], start, 0, NextAddr(base, l), l, 512, 511);
    }
  }

  /** The entry that the walk looks at first, and whether it stops there. */
  lemma TopIndices(s: nat, base: nat, l: nat) returns (first: nat, b: nat)
    requires s % PAGE == 0 && s < WHOLE && l < 4 && base % (StepOf(l) * 512) == 0
    requires base <= s < base + StepOf(l) * 512 && (l == 0 ==> s != WHOLE - LARGE)
    ensures first == FirstIdx(Canonical(s), Canonical(base), l) == PtIndex(s, l) && first <= 511
    ensures LastIdx(0, Canonical(base), l) == 511 && FirstAddr(Canonical(base), first, l) == Canonical(b)
    ensures b <= s < b + StepOf(l) && (l > 0 ==> b % (StepOf(l - 1) * 512) == 0)
    ensures Last(s) ==> first == 511
    ensures IsFound(Canonical(s), 0, Canonical(b), l) ==> Last(s) && s == b && LastTile(s) == Tile(Canonical(s), l)
    ensures l == 0 && Last(s) ==> IsFound(Canonical(s), 0, Canonical(b), l)
  {
    hide StepOf, Canonical, PtIndex, FirstIdx, LastIdx, FirstAddr, IsFound, OnStep, LastTile;
    first, b := FirstEntry(s, base, l);
    TopIndex(base, l);
    TableInHalf(base, l);
    assert Max(s, base) == s;
    IndexOfEntry(s, base, first, b, l);
    LastEntryEnds(s, base, b, first, l);
    TopFound(s, b, l);
    if l > 0 { RegionIs(l); }
    OnStepIs(b, l);
  }

  /** The walk to the end of the space sets the one tile, or fails. */
  lemma {:induction false} TopEntry(op: Op, e: Entry, s: nat, base: nat, level: nat)
    requires s % PAGE == 0 && s < WHOLE && 1 <= level <= 4 && base % (StepOf(level - 1) * 512) == 0
    requires base <= s < base + StepOf(level - 1) * 512
    requires level == 1 ==> s != WHOLE - LARGE
    ensures WalkEntry(op, e, Canonical(s), 0, Canonical(base), level)
         == if Last(s) then SetTile(op, e, EndTile(s), level) else None
    decreases level
  {
    hide StepOf, Canonical, PtIndex, FirstIdx, LastIdx, FirstAddr, IsFound, WalkEntry, LoopEntry, LastTile, Last,
      Below, Found, SetTile, EndTile;
    var l, start := level - 1, Canonical(s);
    var first, b := TopIndices(s, base, l);
    PageMapping.WalkEntryUnfolds(op, e, start, 0, Canonical(base), level);
    NotLastBlock(s, l);
    if Last(s) { TopSet(op, e, s, level); }
    if Below(op, e).Some? {
      var slots := Below(op, e).value.slots;
      if first < |slots| {
        if IsFound(start, 0, Canonical(b), l) {
          TopFoundSet(op, slots[first], s, l);
        } else if l > 0 {
          if l == 1 { NotFoundBlock(s, b); }
          RegionIs(l);
          TopEntry(op, slots[first], s, b, l);
        }
        TopLoop(op, slots, start, Canonical(b), first, l,
                if Last(s) then SetTile(op, slots[first], EndTile(s), l) else None);
      } else {
        PageMapping.LoopUnfolds(op, slots, start, 0, Canonical(b), l, first, 511);
      }
    }
  }

  lemma NotFoundBlock(s: nat, b: nat)
    requires b % (StepOf(0) * 512) == 0 && b <= s < b + StepOf(1) && s < WHOLE
    requires !IsFound(Canonical(s), 0, Canonical(b), 1)
    ensures s != WHOLE - LARGE
  {
    hide Canonical, IsFound;
    if s == WHOLE - LARGE { NextMultiple(b, s, LARGE); TopFound(s, b, 1); }
  }

  lemma NotLastBlock(s: nat, l: nat)
    requires l == 0 ==> s != WHOLE - LARGE
    ensures l == 0 && Last(s) ==> s == WHOLE - PAGE
  {
  }

  lemma TopTiles(s: nat)
    requires Last(s)
    ensures RefTiles(s, WHOLE) == [EndTile(s)]
  {
    hide RefTiles;
    LastPageTiles();
    LastBlockTiles();
  }

  lemma OneTileSet(op: Op, e: Entry, t: Tile)
    ensures SetTiles(op, e, [t], 4) == SetTile(op, e, t, 4)
  {
    hide SetTile;
    assert [t][1..] == [];
  }

  /** From the root. */
  lemma TopRoot(op: Op, root: Entry, s: nat)
    requires s % PAGE == 0 && s < WHOLE
    ensures WalkEntry(op, root, Canonical(s), 0, 0, 4)
         == if Last(s) then SetTiles(op, root, RefTiles(s, WHOLE), 4) else None
  {
    hide WalkEntry, Last, RefTiles, SetTile, SetTiles, EndTile;
    assert Canonical(0) == 0;
    assert StepOf(3) * 512 == WHOLE && 0 % (StepOf(3) * 512) == 0;
    TopEntry(op, root, s, 0, 4);
    if Last(s) {
      TopTiles(s);
      OneTileSet(op, root, EndTile(s));
    }
  }
}
