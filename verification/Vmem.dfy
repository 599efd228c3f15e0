/** The page-table functions as they run: the loop of the walk, and the three callers
    (sys/vmem.hpp:71-96, sys/vmem.cpp:17-85). */
module Vmem {
  import opened Bits
  import opened Wrappers
  import opened PageWalk
  import opened PageTable
  import opened PageTranslate
  import opened PageMaps
  import opened PageEmpty

  /** The walk over one table and what lies below it; the entries of the table change one by one. */
  method Traverse(op: Op, entry: Entry, virtStart: nat, virtEnd: nat, baseVirt: nat,
                  level: nat) returns (r: Option<Entry>)
    requires 1 <= level
    ensures r == WalkEntry(op, entry, virtStart, virtEnd, baseVirt, level)
    decreases level
  {
    hide Canonical, PtIndex, IsFound, Found;
    var table := entry;
    if entry.Absent? {
      var made := Empty(op);
      if made.None? { return None; }
      table := made.value;
    }
    if table.Leaf? { return None; }
    var l := level - 1;
    var idx, idxEnd := FirstIdx(virtStart, baseVirt, l), LastIdx(virtEnd, baseVirt, l);
    var base := FirstAddr(baseVirt, idx, l);
    var slots := table.slots;
    ghost var whole := LoopEntry(op, slots, virtStart, virtEnd, base, l, idx, idxEnd);
    while idx <= idxEnd
      invariant LoopEntry(op, slots, virtStart, virtEnd, base, l, idx, idxEnd) == whole
      decreases idxEnd + 1 - idx
    {
      if idx >= |slots| { return None; }
      var here;
      if IsFound(virtStart, virtEnd, base, l) {
        here := Found(op, slots[idx], base, l);
      } else if l == 0 {
        return None;
      } else {
        here := Traverse(op, slots[idx], virtStart, virtEnd, base, l);
      }
      if here.None? { return None; }
      slots := slots[idx := here.value];
      base := NextAddr(base, l);
      idx := idx + 1;
    }
    r := Some(Table(slots));
  }

  /** The 48-bit position of an address. */
  function Position(vaddr: nat): nat { vaddr % WHOLE }

  /** A range of canonical addresses in one half; it may be empty, and it may end with the last byte. */
  predicate OneHalf(vaddr: nat, length: nat) {
    (vaddr < HALF && vaddr + length <= HALF) || (U64 - HALF <= vaddr < U64 && vaddr + length <= U64)
  }

  /** The last page that the walk over a range of bytes changes: that of the last byte, or the very last one if
      the range begins at or below the last 2 MiB block of the space and ends inside it. An empty range inside a
      page counts as that page. */
  function LastPage(addr: nat, length: nat): int {
    var last := (addr + length - 1) / PAGE;
    if addr / PAGE * PAGE <= U64 - LARGE < (last + 1) * PAGE then U64 / PAGE - 1 else last
  }

  /** A byte, by its 48-bit position, whose page the walk over the range changes. */
  predicate Touched(v: nat, addr: nat, length: nat) {
    addr / PAGE <= Canonical(v) / PAGE <= LastPage(addr, length)
  }

  /** Rounding leaves nothing to map. */
  predicate NoPages(addr: nat, length: nat) { length == 0 && addr % PAGE == 0 }

  /** The end of the pages that a range of bytes touches, as a position. */
  function TouchedEnd(addr: nat, length: nat): nat
    requires !NoPages(addr, length)
  {
    Position(addr / PAGE * PAGE) + ((addr + length - 1) / PAGE + 1 - addr / PAGE) * PAGE
  }

  /** The tiles of those pages. */
  function TouchedTiles(addr: nat, length: nat): seq<Tile>
    requires !NoPages(addr, length)
  {
    Tiles(Position(addr / PAGE * PAGE), TouchedEnd(addr, length))
  }

  /** A walk over a range of bytes ends: a range that ends the space is its last page or 2 MiB block, and one over no
      pages does not start at 0. */
  predicate WalkEnds(addr: nat, length: nat) {
    if NoPages(addr, length) then Position(addr) != 0
    else Walkable(Position(addr / PAGE * PAGE), TouchedEnd(addr, length))
  }

  /** When early_map_memory succeeds: each tile is free, or mapped to its own address already. */
  ghost predicate MayMap(root: Entry, addr: nat, length: nat) {
    && WalkEnds(addr, length)
    && if NoPages(addr, length) then TableFor(root, Position(addr), true)
       else AllFreeOrSelf(root, TouchedTiles(addr, length))
  }

  /** When early_unmap_memory succeeds: each tile holds a mapping or a table. */
  ghost predicate MayUnmap(root: Entry, addr: nat, length: nat) {
    && WalkEnds(addr, length)
    && if NoPages(addr, length) then TableFor(root, Position(addr), false)
       else AllUsed(root, TouchedTiles(addr, length))
  }

  lemma PositionsOf(vaddr: nat, length: nat)
    requires OneHalf(vaddr, length) && vaddr % PAGE == 0 && length % PAGE == 0 && length > 0
    ensures var s := Position(vaddr);
            HalfRange(s, s + length) && Canonical(s) == vaddr && EndAddr(s + length) == AddAddr(vaddr, length)
  {
    hide EndAddr, EndOf;
    PositionIs(vaddr);
    EndAddrIs(Position(vaddr) + length);
    EndOfIs(Position(vaddr) + length);
  }

  lemma EndOfIs(e: nat)
    requires 0 < e <= WHOLE
    ensures EndOf(e) == if e <= HALF then e else e + (U64 - WHOLE)
  {
    hide Canonical;
    CanonicalIs(e - 1);
  }

  lemma PositionIs(vaddr: nat)
    requires OneHalf(vaddr, 0)
    ensures Position(vaddr) == if vaddr < HALF then vaddr else vaddr - (U64 - WHOLE)
    ensures Position(vaddr) < WHOLE && Canonical(Position(vaddr)) == vaddr
    ensures vaddr % PAGE == 0 ==> Position(vaddr) % PAGE == 0
  {
    hide Canonical;
    if vaddr >= HALF {
      DivModUnique(vaddr, 0xFFFF, WHOLE);
      HighHalf(vaddr - (U64 - WHOLE));
    } else {
      DivModUnique(vaddr, 0, WHOLE);
      CanonicalIs(vaddr);
    }
  }

  /** What rounding to pages does. */
  lemma Rounded(addr: nat, length: nat, start: nat, rounded: nat)
    requires start == RoundDown(addr, PAGE) && rounded == RoundDown(length + (addr - start) + PAGE - 1, PAGE)
    ensures start == addr / PAGE * PAGE && start + rounded == ((addr + length - 1) / PAGE + 1) * PAGE
    ensures start <= addr && addr + length <= start + rounded < addr + length + PAGE
    ensures start % PAGE == 0 && rounded % PAGE == 0 && (rounded == 0 <==> NoPages(addr, length))
    ensures rounded == ((addr + length - 1) / PAGE + 1 - addr / PAGE) * PAGE
    ensures OneHalf(addr, length) ==> OneHalf(start, rounded) && OneHalf(start, 0)
  {
  }

  /** The positions the walk changes are those of the bytes touched. */
  lemma TouchedExact(addr: nat, length: nat, start: nat, rounded: nat, v: nat)
    requires v < WHOLE && OneHalf(start, rounded) && OneHalf(start, 0) && rounded > 0
    requires start == addr / PAGE * PAGE && start + rounded == ((addr + length - 1) / PAGE + 1) * PAGE
    ensures Position(start) <= v < Reach(Position(start), Position(start) + rounded) <==> Touched(v, addr, length)
  {
    hide Canonical, Position;
    PositionIs(start);
    CanonicalIs(v);
    PageOf(Canonical(v), start, start + rounded, addr / PAGE, (addr + length - 1) / PAGE);
  }

  lemma PageOf(x: nat, start: nat, end: nat, first: nat, last: int)
    requires start == first * PAGE && end == (last + 1) * PAGE
    ensures start <= x < end <==> first <= x / PAGE <= last
    ensures start <= x <==> first <= x / PAGE
    ensures x < U64 <==> x / PAGE <= U64 / PAGE - 1
  {
  }

  /** The pages that a range of bytes touches, as early_map_memory rounds it. */
  lemma RoundedRange(addr: nat, length: nat, start: nat, rounded: nat)
    requires OneHalf(addr, length) && !NoPages(addr, length)
    requires start == RoundDown(addr, PAGE) && rounded == RoundDown(length + (addr - start) + PAGE - 1, PAGE)
    ensures var s := Position(start);
            && s == Position(addr / PAGE * PAGE) && s + rounded == TouchedEnd(addr, length)
            && Pages(s, s + rounded) && Canonical(s) == start && EndAddr(s + rounded) == AddAddr(start, rounded)
            && start <= addr && addr + length <= start + rounded
            && forall v: nat :: v < WHOLE ==> (s <= v < Reach(s, s + rounded) <==> Touched(v, addr, length))
  {
    hide Canonical, Touched, Reach, EndAddr, AddAddr, RoundDown, Position, Pages, HalfRange, OneHalf;
    Rounded(addr, length, start, rounded);
    PositionsOf(start, rounded);
    InHalf(Position(start), Position(start) + rounded);
    forall v: nat | v < WHOLE
      ensures Position(start) <= v < Reach(Position(start), Position(start) + rounded) <==> Touched(v, addr, length)
    {
      TouchedExact(addr, length, start, rounded, v);
    }
  }

  lemma KeptOutside(root: Entry, g: Entry, s: nat, e: nat, v: nat)
    requires Untouched(root, g, s, e) && v < WHOLE && !(s <= v < e)
    ensures Translate(g, v, 4) == Translate(root, v, 4)
  {
  }

  /** Maps the pages of a range of memory at their own addresses; every other byte translates as before.
      None where the code stops, or goes below the last level. */
  method EarlyMapMemory(root: Entry, addr: nat, length: nat) returns (r: Option<Entry>)
    requires WellFormed(root, 4) && OneHalf(addr, length)
    ensures r.Some? <==> MayMap(root, addr, length)
    ensures r.Some? ==> WellFormed(r.value, 4)
    ensures r.Some? ==> forall v: nat :: v < WHOLE ==>
              Translate(r.value, v, 4) == if Touched(v, addr, length) then Some(Own(v)) else Translate(root, v, 4)
  {
    hide OneHalf, WellFormed, MayMap, Touched, Own, Translate, RoundDown, WalkEntry, AddAddr;
    var alignedAddr := RoundDown(addr, PAGE);
    BelowItself(addr, PAGE);
    var alignedLength := RoundDown(length + (addr - alignedAddr) + PAGE - 1, PAGE);
    EarlyMapFacts(root, addr, length, alignedAddr, alignedLength);
    r := Traverse(MapIdentity, root, alignedAddr, AddAddr(alignedAddr, alignedLength), 0, 4);
  }

  /** Over no pages nothing changes. */
  lemma NoPagesFacts(op: Op, root: Entry, addr: nat, length: nat, start: nat, rounded: nat)
    requires WellFormed(root, 4) && OneHalf(addr, length) && NoPages(addr, length)
    requires start == RoundDown(addr, PAGE) && rounded == RoundDown(length + (addr - start) + PAGE - 1, PAGE)
    ensures var r := WalkEntry(op, root, start, AddAddr(start, rounded), 0, 4);
            && (r.Some? <==> Position(addr) != 0 && TableFor(root, Position(addr), !op.Unmap?))
            && (r.Some? ==> WellFormed(r.value, 4)
                            && forall v: nat :: Translate(r.value, v, 4) == Translate(root, v, 4))
    ensures forall v: nat :: !Touched(v, addr, length)
  {
    hide WellFormed, WalkEntry, TableFor, Translate, RoundDown, Canonical, Position, AddAddr;
    Rounded(addr, length, start, rounded);
    PositionIs(addr);
    EmptyRoot(op, root, Position(addr));
    AddIs(start, 0);
  }

  lemma EarlyMapFacts(root: Entry, addr: nat, length: nat, start: nat, rounded: nat)
    requires WellFormed(root, 4) && OneHalf(addr, length)
    requires start == RoundDown(addr, PAGE) && rounded == RoundDown(length + (addr - start) + PAGE - 1, PAGE)
    ensures var r := WalkEntry(MapIdentity, root, start, AddAddr(start, rounded), 0, 4);
            && (r.Some? <==> MayMap(root, addr, length))
            && (r.Some? ==>
                  && WellFormed(r.value, 4)
                  && forall v: nat :: v < WHOLE ==>
                       Translate(r.value, v, 4)
                       == if Touched(v, addr, length) then Some(Own(v)) else Translate(root, v, 4))
  {
    hide WellFormed, WalkEntry, AllFreeOrSelf, TableFor, Walkable, Translate, Touched, Own, Position, AddAddr, Reach,
      RoundDown, Canonical, EndAddr, TouchedEnd, NoPages, OneHalf, Pages, MapRange;
    if NoPages(addr, length) {
      NoPagesFacts(MapIdentity, root, addr, length, start, rounded);
    } else {
      RoundedRange(addr, length, start, rounded);
      EarlyMapAt(root, Position(start), Position(start) + rounded);
      RangeIsWalk(MapIdentity, root, Position(start), Position(start) + rounded);
    }
  }

  lemma EarlyMapAt(root: Entry, s: nat, e: nat)
    requires WellFormed(root, 4) && Pages(s, e)
    ensures var r := MapRange(MapIdentity, root, s, e);
            && (r.Some? <==> Walkable(s, e) && AllFreeOrSelf(root, Tiles(s, e)))
            && (r.Some? ==>
                  && WellFormed(r.value, 4)
                  && forall v: nat :: v < WHOLE ==>
                       Translate(r.value, v, 4) == if s <= v < Reach(s, e) then Some(Own(v)) else Translate(root, v, 4))
  {
    hide WellFormed, MapRange, AllReady, AllFreeOrSelf, AllDone, Untouched, Walkable, Translate, Own, Tiles, Tiling,
      Pages, Reach;
    RangeOutcome(MapIdentity, root, s, e);
    IdentityReady(root, s, e);
    var r := MapRange(MapIdentity, root, s, e);
    if r.Some? {
      IdentityMapped(root, s, e);
      forall v: nat | v < WHOLE && !(s <= v < Reach(s, e)) ensures Translate(r.value, v, 4) == Translate(root, v, 4) {
        KeptOutside(root, r.value, s, Reach(s, e), v);
      }
    }
  }

  /** Unmaps the pages of a range: its tiles hold nothing, none of its bytes translates any more, and every other byte
      translates as before. */
  method EarlyUnmapMemory(root: Entry, addr: nat, length: nat) returns (r: Option<Entry>)
    requires WellFormed(root, 4) && OneHalf(addr, length)
    ensures r.Some? <==> MayUnmap(root, addr, length)
    ensures r.Some? ==> WellFormed(r.value, 4)
    ensures r.Some? ==> forall v: nat :: v < WHOLE ==>
              Translate(r.value, v, 4) == if Touched(v, addr, length) then None else Translate(root, v, 4)
    ensures r.Some? && !NoPages(addr, length) ==> AllFree(r.value, TouchedTiles(addr, length))
  {
    hide OneHalf, WellFormed, MayUnmap, AllFree, NoPages, Touched, Translate, RoundDown, WalkEntry, AddAddr;
    var alignedAddr := RoundDown(addr, PAGE);
    BelowItself(addr, PAGE);
    var alignedLength := RoundDown(length + (addr - alignedAddr) + PAGE - 1, PAGE);
    EarlyUnmapFacts(root, addr, length, alignedAddr, alignedLength);
    r := Traverse(Unmap, root, alignedAddr, AddAddr(alignedAddr, alignedLength), 0, 4);
  }

  lemma EarlyUnmapFacts(root: Entry, addr: nat, length: nat, start: nat, rounded: nat)
    requires WellFormed(root, 4) && OneHalf(addr, length)
    requires start == RoundDown(addr, PAGE) && rounded == RoundDown(length + (addr - start) + PAGE - 1, PAGE)
    ensures var r := WalkEntry(Unmap, root, start, AddAddr(start, rounded), 0, 4);
            && (r.Some? <==> MayUnmap(root, addr, length))
            && (r.Some? ==>
                  && WellFormed(r.value, 4)
                  && forall v: nat :: v < WHOLE ==>
                       Translate(r.value, v, 4) == if Touched(v, addr, length) then None else Translate(root, v, 4))
            && (r.Some? && !NoPages(addr, length) ==> AllFree(r.value, TouchedTiles(addr, length)))
  {
    hide WellFormed, WalkEntry, AllUsed, AllFree, TableFor, Walkable, Translate, Touched, Position, AddAddr, Reach,
      RoundDown, Canonical, EndAddr, TouchedEnd, NoPages, OneHalf, Pages, MapRange;
    if NoPages(addr, length) {
      NoPagesFacts(Unmap, root, addr, length, start, rounded);
    } else {
      RoundedRange(addr, length, start, rounded);
      EarlyUnmapAt(root, Position(start), Position(start) + rounded);
      RangeIsWalk(Unmap, root, Position(start), Position(start) + rounded);
    }
  }

  lemma EarlyUnmapAt(root: Entry, s: nat, e: nat)
    requires WellFormed(root, 4) && Pages(s, e)
    ensures var r := MapRange(Unmap, root, s, e);
            && (r.Some? <==> Walkable(s, e) && AllUsed(root, Tiles(s, e)))
            && (r.Some? ==> AllFree(r.value, Tiles(s, e)))
            && (r.Some? ==>
                  && WellFormed(r.value, 4)
                  && forall v: nat :: v < WHOLE ==>
                       Translate(r.value, v, 4) == if s <= v < Reach(s, e) then None else Translate(root, v, 4))
  {
    hide WellFormed, MapRange, AllReady, AllUsed, AllFree, AllDone, Untouched, Walkable, Translate, Tiles, Tiling,
      Pages, Reach;
    RangeOutcome(Unmap, root, s, e);
    UnmapReady(root, s, e);
    var r := MapRange(Unmap, root, s, e);
    if r.Some? {
      UnmappedTiles(root, r.value, s, e);
      RangeUnmapped(root, s, e);
      forall v: nat | v < WHOLE && !(s <= v < Reach(s, e)) ensures Translate(r.value, v, 4) == Translate(root, v, 4) {
        KeptOutside(root, r.value, s, Reach(s, e), v);
      }
    }
  }

  lemma BelowItself(addr: nat, d: nat)
    requires d > 0
    ensures 0 <= RoundDown(addr, d) <= addr
  {
    MulDiv(addr, d);
    MulLe(0, addr / d, d);
  }

  lemma RangeUnmapped(root: Entry, s: nat, e: nat)
    requires WellFormed(root, 4) && Pages(s, e)
    requires MapRange(Unmap, root, s, e).Some?
    ensures var g := MapRange(Unmap, root, s, e).value;
            && WellFormed(g, 4) && Untouched(root, g, s, Reach(s, e))
            && forall v: nat :: s <= v < Reach(s, e) ==> Translate(g, v, 4) == None
  {
    RangeOutcome(Unmap, root, s, e);
    var g := MapRange(Unmap, root, s, e).value;
    UnmappedTiles(root, g, s, e);
    hide WellFormed, MapRange, GetTile, AllDone, Untouched, Translate, Tiles, Tiling, Pages, Reach, TileOk;
    forall v: nat | s <= v < Reach(s, e) ensures Translate(g, v, 4) == None {
      var t := TilingCovers(Tiles(s, e), s, Reach(s, e), v);
      TileInside(s, e, t);
      TranslateAt(g, t, v);
      NothingThere(v, t.level);
    }
  }

  lemma NothingThere(v: nat, level: nat)
    ensures Translate(Absent, v, level) == None
  {
  }

  /** What map_memory promises of its outcome: it succeeds exactly if none of the pages is mapped, and nothing outside
      the range changes; the range is translated as asked exactly if it holds no 2 MiB block or the frames agree. */
  ghost predicate MapOutcome(root: Entry, r: Option<Entry>, s: nat, length: nat, pfn: nat, vfn: nat) {
    var top := Reach(s, s + length);
    && (r.Some? <==> Walkable(s, s + length) && AllFree(root, Tiles(s, s + length)))
    && (r.Some? ==> WellFormed(r.value, 4) && Untouched(root, r.value, s, top))
    && (r.Some? ==> (Shifted(r.value, s, top, pfn * PAGE) <==> (HoldsLarge(s, top) ==> pfn % 512 == vfn % 512)))
  }

  /** Maps a range of virtual pages to physical ones. Over no pages it makes at most tables. */
  method MapMemory(root: Entry, vfn: nat, pfn: nat, length: nat) returns (r: Option<Entry>)
    requires WellFormed(root, 4) && length % PAGE == 0 && OneHalf(vfn * PAGE, length)
    requires pfn * PAGE + (Reach(Position(vfn * PAGE), Position(vfn * PAGE) + length) - Position(vfn * PAGE)) <= PHYSICAL
    ensures length > 0 ==> MapOutcome(root, r, Position(vfn * PAGE), length, pfn, vfn)
    ensures length == 0 ==>
              var s := Position(vfn * PAGE);
              && (r.Some? <==> s != 0 && TableFor(root, s, true))
              && (r.Some? ==> WellFormed(r.value, 4)
                              && forall v: nat :: Translate(r.value, v, 4) == Translate(root, v, 4))
  {
    hide OneHalf, WellFormed, Position, Reach, MapOutcome, TableFor, Translate, WalkEntry, AddAddr;
    var vaddr := vfn * PAGE;
    if length > 0 { MapFacts(root, vfn, pfn, length); } else { MapNothing(root, vfn, pfn); }
    r := Traverse(MapAt(vaddr, pfn * PAGE), root, vaddr, AddAddr(vaddr, length), 0, 4);
  }

  lemma MapNothing(root: Entry, vfn: nat, pfn: nat)
    requires WellFormed(root, 4) && OneHalf(vfn * PAGE, 0)
    ensures var s := Position(vfn * PAGE);
            var op := MapAt(vfn * PAGE, pfn * PAGE);
            var r := WalkEntry(op, root, vfn * PAGE, AddAddr(vfn * PAGE, 0), 0, 4);
            && (r.Some? <==> s != 0 && TableFor(root, s, true))
            && (r.Some? ==> WellFormed(r.value, 4)
                            && forall v: nat :: Translate(r.value, v, 4) == Translate(root, v, 4))
  {
    hide WellFormed, WalkEntry, TableFor, Translate, Canonical, Position, AddAddr;
    FrameNumbers(vfn);
    PositionIs(vfn * PAGE);
    AddIs(vfn * PAGE, 0);
    EmptyRoot(MapAt(vfn * PAGE, pfn * PAGE), root, Position(vfn * PAGE));
  }

  /** The walk of map_memory in terms of frame numbers. */
  lemma MapFacts(root: Entry, vfn: nat, pfn: nat, length: nat)
    requires WellFormed(root, 4) && length % PAGE == 0 && length > 0 && OneHalf(vfn * PAGE, length)
    requires pfn * PAGE + (Reach(Position(vfn * PAGE), Position(vfn * PAGE) + length) - Position(vfn * PAGE)) <= PHYSICAL
    ensures var vaddr := vfn * PAGE;
            var r := WalkEntry(MapAt(vaddr, pfn * PAGE), root, vaddr, AddAddr(vaddr, length), 0, 4);
            MapOutcome(root, r, Position(vaddr), length, pfn, vfn)
  {
    hide WellFormed, WalkEntry, AllFree, Walkable, Untouched, Shifted, HoldsLarge, Position, AddAddr, Reach, OneHalf,
      Tiles;
    FrameNumbers(vfn);
    FrameNumbers(pfn);
    PositionFrames(vfn, pfn);
    MapAddresses(root, vfn * PAGE, pfn * PAGE, length);
  }

  lemma MapAddresses(root: Entry, vaddr: nat, paddr: nat, length: nat)
    requires WellFormed(root, 4) && length % PAGE == 0 && length > 0 && OneHalf(vaddr, length)
    requires vaddr % PAGE == 0 && paddr % PAGE == 0
    requires paddr + (Reach(Position(vaddr), Position(vaddr) + length) - Position(vaddr)) <= PHYSICAL
    ensures var s := Position(vaddr);
            var top := Reach(s, s + length);
            var r := WalkEntry(MapAt(vaddr, paddr), root, vaddr, AddAddr(vaddr, length), 0, 4);
            && (r.Some? <==> Walkable(s, s + length) && AllFree(root, Tiles(s, s + length)))
            && (r.Some? ==> WellFormed(r.value, 4) && Untouched(root, r.value, s, top))
            && (r.Some? ==>
                 (Shifted(r.value, s, top, paddr) <==> (HoldsLarge(s, top) ==> paddr % LARGE == s % LARGE)))
  {
    hide WellFormed, WalkEntry, MapRange, AllFree, Walkable, Untouched, Shifted, HoldsLarge, Position, AddAddr, Reach,
      OneHalf, Tiles, HalfRange, Pages, Canonical, EndAddr;
    PositionsOf(vaddr, length);
    var s := Position(vaddr);
    InHalf(s, s + length);
    MapMemoryExact(root, s, s + length, paddr);
    RangeIsWalk(MapAt(vaddr, paddr), root, s, s + length);
  }

  lemma RangeIsWalk(op: Op, root: Entry, s: nat, e: nat)
    requires Pages(s, e)
    ensures MapRange(op, root, s, e) == WalkEntry(op, root, Canonical(s), EndAddr(e), 0, 4)
  {
    hide WalkEntry, Canonical, EndAddr;
  }

  lemma FrameNumbers(n: nat)
    ensures n * PAGE % PAGE == 0
  {
  }

  lemma PositionFrames(vfn: nat, pfn: nat)
    ensures pfn * PAGE % LARGE == Position(vfn * PAGE) % LARGE <==> pfn % 512 == vfn % 512
  {
    hide Position;
    PositionInBlock(vfn * PAGE);
    FrameInBlock(pfn);
    FrameInBlock(vfn);
  }

  lemma PositionInBlock(addr: nat)
    ensures Position(addr) % LARGE == addr % LARGE
  {
    var q, r := addr / WHOLE, addr % WHOLE;
    MulDiv(addr, WHOLE);
    MulDiv(r, LARGE);
    DivModUnique(addr, q * 0x800_0000 + r / LARGE, LARGE);
  }

  lemma FrameInBlock(n: nat)
    ensures n * PAGE % LARGE == n % 512 * PAGE
  {
    MulDiv(n, 512);
    DivModUnique(n * PAGE, n / 512, LARGE);
  }
}
