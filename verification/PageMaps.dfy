/** Mapping, identity mapping and unmapping a range of pages (sys/vmem.cpp:17-85): when each succeeds,
    and what the processor translates afterwards. */
module PageMaps {
  import opened Bits
  import opened Wrappers
  import opened PageWalk
  import opened PageTop
  import opened PageTable
  import opened PageMapping
  import opened PageTranslate

  /** Whole pages, as 48-bit positions; they may be the last of the space. */
  predicate Pages(s: nat, e: nat) {
    s % PAGE == 0 && e % PAGE == 0 && s < e <= WHOLE
  }

  /** The end of a range in 64 bits. */
  function EndAddr(e: nat): nat
    requires e > 0
  {
    EndOf(e) % U64
  }

  /** The walk from the root over the pages from s up to e. */
  function MapRange(op: Op, root: Entry, s: nat, e: nat): Option<Entry>
    requires Pages(s, e)
  {
    WalkEntry(op, root, Canonical(s), EndAddr(e), 0, 4)
  }

  /** The walk does not go below the last level (`TopEndExact`). */
  predicate Walkable(s: nat, e: nat) { e == WHOLE ==> Last(s) }

  lemma EndAddrIs(e: nat)
    requires 0 < e <= WHOLE
    ensures EndAddr(e) == if e == WHOLE then 0 else EndOf(e)
  {
    hide Canonical;
    CanonicalIs(e - 1);
  }

  lemma PagesBounds(s: nat, e: nat)
    requires Pages(s, e)
    ensures s % PAGE == 0 && Reach(s, e) % PAGE == 0 && s < e <= Reach(s, e) <= WHOLE
    ensures e == WHOLE ==> Reach(s, e) == WHOLE
    ensures e < WHOLE ==> PageRange(s, e)
  {
  }

  function Tiles(s: nat, e: nat): seq<Tile> { RefTiles(s, Reach(s, e)) }

  /** A range of addresses of one half of the space. */
  predicate HalfRange(s: nat, e: nat) { Pages(s, e) && (e <= HALF || s >= HALF) }

  /** No mapping at any of the tiles, and none above. */
  ghost predicate AllFree(root: Entry, ts: seq<Tile>) {
    forall t :: t in ts ==> GetTile(root, t, 4) == Some(Absent)
  }

  /** Every tile holds something: a mapping, or a table. */
  ghost predicate AllUsed(root: Entry, ts: seq<Tile>) {
    forall t :: t in ts ==> GetTile(root, t, 4).Some? && GetTile(root, t, 4) != Some(Absent)
  }

  /** An aligned 2 MiB block lies inside. */
  predicate HoldsLarge(s: nat, r: nat) { (s + LARGE - 1) / LARGE * LARGE + LARGE <= r }

  /** For every range: the walk succeeds exactly if it stays above the last level and its callback is defined at
      each tile; then each tile holds what the callback makes of it, and no other address or tile changes. */
  lemma RangeOutcome(op: Op, root: Entry, s: nat, e: nat)
    requires WellFormed(root, 4) && Pages(s, e)
    ensures Tiling(Tiles(s, e), s, Reach(s, e)) && s < e <= Reach(s, e) <= WHOLE
    ensures MapRange(op, root, s, e).Some? <==> Walkable(s, e) && AllReady(op, root, Tiles(s, e))
    ensures MapRange(op, root, s, e).Some? ==>
              var g := MapRange(op, root, s, e).value;
              WellFormed(g, 4) && AllDone(op, root, g, Tiles(s, e)) && Untouched(root, g, s, Reach(s, e))
  {
    hide WellFormed, MapRange, SetTiles, Tiling, RefTiles, AllReady, AllDone, Untouched, Reach, Pages, Walkable;
    PagesBounds(s, e);
    RangeIsTiles(op, root, s, e);
    RefIsTiling(s, Reach(s, e));
    SetAll(op, root, Tiles(s, e), s, Reach(s, e));
  }

  /** The walk sets one reference tile after the other, or goes below the last level. */
  lemma RangeIsTiles(op: Op, root: Entry, s: nat, e: nat)
    requires Pages(s, e)
    ensures MapRange(op, root, s, e) == if Walkable(s, e) then SetTiles(op, root, Tiles(s, e), 4) else None
  {
    hide WalkEntry, SetTiles, RefTiles, Canonical, EndOf, EndAddr, Reach, Pages, Last;
    PagesBounds(s, e);
    EndAddrIs(e);
    if e == WHOLE {
      TopRoot(op, root, s);
    } else {
      TopRange(s, e);
      WalkIsTiles(op, root, s, e, 0, 4);
    }
  }

  lemma TopRange(s: nat, e: nat)
    requires PageRange(s, e)
    ensures StepOf(3) * 512 == WHOLE && Canonical(0) == 0
    ensures 0 % (StepOf(3) * 512) == 0 && s < 0 + StepOf(3) * 512
    ensures Max(s, 0) == s && Min(Reach(s, e), 0 + StepOf(3) * 512) == Reach(s, e)
  {
  }

  // ---- what one leaf translates ----

  /** What an entry shows of an address: bits 12 to 51, or 13 to 51 if it is large. */
  lemma VisibleBits(high: nat, frame: nat, low: nat, level: nat)
    requires frame < 0x100_0000_0000 && low < PAGE
    ensures Visible(high * PHYSICAL + frame * PAGE + low, level)
         == (if level > 0 then frame / 2 * 2 else frame) * PAGE
  {
    var addr := high * PHYSICAL + frame * PAGE + low;
    DivModUnique(addr, high, PHYSICAL);
    DivModUnique(frame * PAGE + low, frame, PAGE);
  }

  lemma VisiblePage(addr: nat, level: nat)
    requires level < 2 && addr < PHYSICAL && addr % PAGE == 0
    ensures level == 0 ==> Visible(addr, level) == addr
    ensures level == 1 ==> (Visible(addr, level) == addr || Visible(addr, level) == addr - PAGE)
    ensures level == 1 && addr % LARGE == 0 ==> Visible(addr, level) == addr
  {
    if level == 1 && addr % LARGE == 0 {
      assert addr / PAGE == addr / LARGE * 512;
    }
  }

  lemma OffsetInTile(t: Tile, v: nat)
    requires TileOk(t) && Covers(t, v)
    ensures v % Region(t.level) == v - t.base && t.base % Region(t.level) == 0
  {
  }

  /** A leaf at a tile translates the tile's first address to its own exactly if its address is aligned
      to the size of the tile; then it translates every address of the tile in order. */
  lemma LeafExact(addr: nat, t: Tile, v: nat)
    requires TileOk(t) && Covers(t, v) && addr < PHYSICAL && addr % PAGE == 0
    ensures addr % StepOf(t.level) == 0 ==> Translate(Leaf(addr), v, t.level) == Some(addr + (v - t.base))
    ensures Translate(Leaf(addr), t.base, t.level) == Some(addr) ==> addr % StepOf(t.level) == 0
  {
    VisiblePage(addr, t.level);
    OffsetInTile(t, v);
    assert Region(t.level) == StepOf(t.level);
    hide Visible, Region, TileEnd;
  }

  lemma TranslateAt(root: Entry, t: Tile, v: nat)
    requires WellFormed(root, 4) && TileOk(t) && Covers(t, v) && GetTile(root, t, 4).Some?
    ensures Translate(root, v, 4) == Translate(GetTile(root, t, 4).value, v, t.level)
  {
    OneSpace(t.base, v);
    TranslateVia(root, t, v, 4);
  }

  lemma TileOnPage(t: Tile)
    requires TileOk(t)
    ensures t.base % PAGE == 0
  {
  }

  lemma TileInside(s: nat, e: nat, t: Tile)
    requires Pages(s, e) && t in Tiles(s, e)
    ensures TileOk(t) && s <= t.base && TileEnd(t) <= Reach(s, e) <= WHOLE && t.base % PAGE == 0
  {
    PagesBounds(s, e);
    hide RefTiles, Reach, Pages, Tiling, TileOk, TileEnd;
    RefIsTiling(s, Reach(s, e));
    TilingTiles(Tiles(s, e), s, Reach(s, e));
    TileOnPage(t);
  }

  // ---- map_memory ----

  /** Within one half the 64-bit offset is the offset. */
  lemma OffsetInHalf(s: nat, e: nat, t: Tile)
    requires HalfRange(s, e) && t in Tiles(s, e)
    ensures Canonical(t.base) >= Canonical(s) && Canonical(t.base) - Canonical(s) == t.base - s
  {
    hide RefTiles, Canonical, TileOk, StepOf;
    TileInside(s, e, t);
    assert t.base < TileEnd(t);
    CanonicalIs(s);
    CanonicalIs(t.base);
  }

  /** map_memory succeeds exactly on ranges whose tiles are all free. */
  lemma MapReady(root: Entry, s: nat, e: nat, paddr: nat)
    requires HalfRange(s, e)
    ensures AllReady(MapAt(Canonical(s), paddr), root, Tiles(s, e)) <==> AllFree(root, Tiles(s, e))
  {
    hide GetTile, Canonical, Tiles, HalfRange;
    forall t | t in Tiles(s, e)
      ensures Ready(MapAt(Canonical(s), paddr), root, t) <==> GetTile(root, t, 4) == Some(Absent)
    {
      OffsetInHalf(s, e, t);
    }
  }

  /** The frame asked for at a tile. */
  function FrameAt(paddr: nat, s: nat, t: Tile): nat {
    if t.base < s then 0 else paddr + (t.base - s)
  }

  predicate FrameFits(paddr: nat, s: nat, t: Tile) { FrameAt(paddr, s, t) % StepOf(t.level) == 0 }

  /** Whether each tile's frame is aligned to the size of the tile. */
  ghost predicate FramesAligned(ts: seq<Tile>, s: nat, paddr: nat) {
    forall t :: t in ts ==> FrameFits(paddr, s, t)
  }

  /** A page always fits; a 2 MiB tile fits exactly if the frames agree modulo 2 MiB. */
  lemma FitsExact(paddr: nat, s: nat, t: Tile)
    requires s % PAGE == 0 && paddr % PAGE == 0 && TileOk(t) && s <= t.base
    ensures FrameFits(paddr, s, t) <==> (t.level == 1 ==> paddr % LARGE == s % LARGE)
  {
    TileOnPage(t);
    if t.level == 1 {
      LargeFits(paddr, s, t.base);
    } else {
      PageFits(paddr, s, t.base);
    }
  }

  lemma PageFits(paddr: nat, s: nat, base: nat)
    requires s % PAGE == 0 && paddr % PAGE == 0 && base % PAGE == 0 && s <= base
    ensures (paddr + (base - s)) % PAGE == 0
  {
  }

  lemma LargeFits(paddr: nat, s: nat, base: nat)
    requires base % LARGE == 0 && s <= base
    ensures (paddr + (base - s)) % LARGE == 0 <==> paddr % LARGE == s % LARGE
  {
  }

  lemma FirstBlock(s: nat, r: nat)
    ensures HoldsLarge(s, r) ==> var p := (s + LARGE - 1) / LARGE * LARGE; p % LARGE == 0 && s <= p && p + LARGE <= r
    ensures forall p: nat :: p % LARGE == 0 && s <= p && p + LARGE <= r ==> HoldsLarge(s, r)
  {
  }

  lemma LargeInside(s: nat, r: nat, t: Tile)
    requires s % PAGE == 0 && r % PAGE == 0 && t in RefTiles(s, r) && t.level == 1
    ensures HoldsLarge(s, r)
  {
    LargeTiles(s, r, t.base);
    hide RefTiles;
    FirstBlock(s, r);
  }

  lemma LargeExists(s: nat, r: nat) returns (t: Tile)
    requires s % PAGE == 0 && r % PAGE == 0 && HoldsLarge(s, r)
    ensures t in RefTiles(s, r) && t.level == 1
  {
    t := Tile((s + LARGE - 1) / LARGE * LARGE, 1);
    LargeTiles(s, r, t.base);
    hide RefTiles;
    FirstBlock(s, r);
  }

  lemma CongruentFrames(s: nat, e: nat, paddr: nat)
    requires Pages(s, e) && paddr % PAGE == 0
    ensures FramesAligned(Tiles(s, e), s, paddr) <==> (HoldsLarge(s, Reach(s, e)) ==> paddr % LARGE == s % LARGE)
  {
    var r := Reach(s, e);
    PagesBounds(s, e);
    hide RefTiles, Reach, HoldsLarge, FrameFits, Pages, TileOk;
    if HoldsLarge(s, r) {
      var t := LargeExists(s, r);
      TileInside(s, e, t);
      FitsExact(paddr, s, t);
    }
    forall t | t in Tiles(s, e)
      ensures (HoldsLarge(s, r) ==> paddr % LARGE == s % LARGE) ==> FrameFits(paddr, s, t)
    {
      TileInside(s, e, t);
      FitsExact(paddr, s, t);
      if t.level == 1 { LargeInside(s, r, t); }
    }
  }

  lemma MappedTile(root: Entry, g: Entry, s: nat, e: nat, paddr: nat, t: Tile)
    requires HalfRange(s, e) && t in Tiles(s, e)
    requires AllDone(MapAt(Canonical(s), paddr), root, g, Tiles(s, e))
    ensures GetTile(g, t, 4) == Some(Leaf(FrameAt(paddr, s, t)))
  {
    hide GetTile, Canonical, Tiles, HalfRange, Pages, Reach, TileOk, TileEnd, StepOf, Visible;
    OffsetInHalf(s, e, t);
    InHalf(s, e);
    TileInside(s, e, t);
    assert Ready(MapAt(Canonical(s), paddr), root, t);
  }

  lemma InHalf(s: nat, e: nat)
    requires HalfRange(s, e)
    ensures Pages(s, e)
  {
  }

  /** Each address of the range goes to its own offset. */
  ghost predicate Shifted(g: Entry, s: nat, r: nat, paddr: nat) {
    forall v: nat :: s <= v < r ==> Translate(g, v, 4) == Some(paddr + (v - s))
  }

  /** The frame asked for is a page within the physical space. */
  lemma FrameIsPage(paddr: nat, s: nat, e: nat, t: Tile)
    requires Pages(s, e) && t in Tiles(s, e) && paddr % PAGE == 0 && paddr + (Reach(s, e) - s) <= PHYSICAL
    ensures FrameAt(paddr, s, t) % PAGE == 0 && FrameAt(paddr, s, t) == paddr + (t.base - s) < PHYSICAL
  {
    TileInside(s, e, t);
    PagesBounds(s, e);
    hide Reach, Pages, RefTiles, TileOk;
  }

  lemma ShiftedIfAligned(root: Entry, g: Entry, s: nat, e: nat, paddr: nat, v: nat)
    requires HalfRange(s, e) && WellFormed(g, 4) && s <= v < Reach(s, e)
    requires paddr % PAGE == 0 && paddr + (Reach(s, e) - s) <= PHYSICAL
    requires AllDone(MapAt(Canonical(s), paddr), root, g, Tiles(s, e))
    requires FramesAligned(Tiles(s, e), s, paddr) && Tiling(Tiles(s, e), s, Reach(s, e))
    ensures Translate(g, v, 4) == Some(paddr + (v - s))
  {
    InHalf(s, e);
    hide GetTile, Translate, Canonical, Tiles, HalfRange, AllDone, Tiling, WellFormed, Pages, Reach, FrameAt,
      StepOf, TileOk;
    var t := TilingCovers(Tiles(s, e), s, Reach(s, e), v);
    TileInside(s, e, t);
    MappedTile(root, g, s, e, paddr, t);
    FrameIsPage(paddr, s, e, t);
    TranslateAt(g, t, v);
    assert FrameFits(paddr, s, t);
    hide *;
    LeafAt(FrameAt(paddr, s, t), paddr, s, t, v);
  }

  lemma LeafAt(frame: nat, paddr: nat, s: nat, t: Tile, v: nat)
    requires TileOk(t) && Covers(t, v) && frame < PHYSICAL && frame % PAGE == 0 && frame % StepOf(t.level) == 0
    requires s <= t.base && frame == paddr + (t.base - s)
    ensures v >= s && Translate(Leaf(frame), v, t.level) == Some(paddr + (v - s))
  {
    hide Translate, TileOk, StepOf;
    LeafExact(frame, t, v);
  }

  lemma AlignedIfShifted(root: Entry, g: Entry, s: nat, e: nat, paddr: nat)
    requires HalfRange(s, e) && WellFormed(g, 4)
    requires paddr % PAGE == 0 && paddr + (Reach(s, e) - s) <= PHYSICAL
    requires AllDone(MapAt(Canonical(s), paddr), root, g, Tiles(s, e))
    requires Shifted(g, s, Reach(s, e), paddr)
    ensures FramesAligned(Tiles(s, e), s, paddr)
  {
    InHalf(s, e);
    hide GetTile, Translate, Canonical, Tiles, HalfRange, AllDone, WellFormed, Pages, Reach, FrameAt, TileOk;
    forall t | t in Tiles(s, e) ensures FrameFits(paddr, s, t) {
      TileInside(s, e, t);
      MappedTile(root, g, s, e, paddr, t);
      FrameIsPage(paddr, s, e, t);
      TranslateAt(g, t, t.base);
      LeafExact(FrameAt(paddr, s, t), t, t.base);
    }
  }

  /** map_memory, for every page table and every range in one half: it succeeds exactly if no tile is
      mapped; nothing outside the range changes; and the range is translated as asked exactly if it holds
      no 2 MiB block or the frames agree modulo 2 MiB. */
  lemma MapMemoryExact(root: Entry, s: nat, e: nat, paddr: nat)
    requires WellFormed(root, 4) && HalfRange(s, e)
    requires paddr % PAGE == 0 && paddr + (Reach(s, e) - s) <= PHYSICAL
    ensures var r := MapRange(MapAt(Canonical(s), paddr), root, s, e);
            && (r.Some? <==> Walkable(s, e) && AllFree(root, Tiles(s, e)))
            && (r.Some? ==> WellFormed(r.value, 4) && Untouched(root, r.value, s, Reach(s, e)))
            && (r.Some? ==>
                 (Shifted(r.value, s, Reach(s, e), paddr)
                  <==> (HoldsLarge(s, Reach(s, e)) ==> paddr % LARGE == s % LARGE)))
  {
    var op := MapAt(Canonical(s), paddr);
    RangeOutcome(op, root, s, e);
    MapReady(root, s, e, paddr);
    PagesBounds(s, e);
    CongruentFrames(s, e, paddr);
    hide WellFormed, MapRange, AllReady, AllDone, AllFree, Untouched, HoldsLarge, FramesAligned, HalfRange,
      Pages, Reach, Translate, Canonical;
    var r := MapRange(op, root, s, e);
    if r.Some? {
      if FramesAligned(Tiles(s, e), s, paddr) {
        forall v: nat | s <= v < Reach(s, e) ensures Translate(r.value, v, 4) == Some(paddr + (v - s)) {
          ShiftedIfAligned(root, r.value, s, e, paddr, v);
        }
      }
      if Shifted(r.value, s, Reach(s, e), paddr) {
        AlignedIfShifted(root, r.value, s, e, paddr);
      }
    }
  }

  // ---- early_map_memory and early_unmap_memory ----

  /** An identity mapping is there and can be seen: the entry is a leaf of its own address. */
  predicate SelfMapped(e: Option<Entry>, t: Tile) {
    e.Some? && e.value.Leaf? && Visible(e.value.addr, t.level) == Canonical(t.base)
  }

  /** Every tile is free, or is mapped to its own address already. */
  ghost predicate AllFreeOrSelf(root: Entry, ts: seq<Tile>) {
    forall t :: t in ts ==> GetTile(root, t, 4) == Some(Absent) || SelfMapped(GetTile(root, t, 4), t)
  }

  /** early_map_memory succeeds exactly on ranges whose tiles are free or mapped to their own addresses. */
  lemma IdentityReady(root: Entry, s: nat, e: nat)
    ensures AllReady(MapIdentity, root, Tiles(s, e)) <==> AllFreeOrSelf(root, Tiles(s, e))
  {
    hide GetTile, Canonical, Tiles, Visible;
    forall t | t in Tiles(s, e)
      ensures Ready(MapIdentity, root, t)
         <==> GetTile(root, t, 4) == Some(Absent) || SelfMapped(GetTile(root, t, 4), t)
    {
    }
  }

  /** early_unmap_memory succeeds exactly on ranges whose tiles all hold something; a tile that holds a table, of which
      some pages may be mapped, counts. */
  lemma UnmapReady(root: Entry, s: nat, e: nat)
    ensures AllReady(Unmap, root, Tiles(s, e)) <==> AllUsed(root, Tiles(s, e))
  {
    hide GetTile, Canonical, Tiles;
    forall t | t in Tiles(s, e)
      ensures Ready(Unmap, root, t) <==> GetTile(root, t, 4).Some? && GetTile(root, t, 4) != Some(Absent)
    {
    }
  }

  lemma SelfLeaf(t: Tile)
    requires TileOk(t)
    ensures Visible(Canonical(t.base), t.level) == Canonical(t.base) <==> t.base < HALF
    ensures t.base < HALF ==> Canonical(t.base) == t.base && t.base < PHYSICAL
  {
    TileOnPage(t);
    if t.base < HALF { VisiblePage(t.base, t.level); } else { HighHalf(t.base); }
  }

  lemma LeafTranslates(addr: nat, v: nat, level: nat, frame: nat)
    requires Visible(addr, level) == frame && frame % Region(level) == 0
    ensures Translate(Leaf(addr), v, level) == Some(frame + v % Region(level))
  {
    hide Visible, Region;
  }

  lemma SelfTranslates(addr: nat, t: Tile, v: nat)
    requires TileOk(t) && Covers(t, v) && t.base < HALF && Visible(addr, t.level) == Canonical(t.base)
    ensures Translate(Leaf(addr), v, t.level) == Some(v)
  {
    SelfLeaf(t);
    OffsetInTile(t, v);
    hide *;
    LeafTranslates(addr, v, t.level, t.base);
  }

  /** What identity mapping leaves at a tile of the low half. */
  lemma SelfMappedTile(root: Entry, g: Entry, s: nat, e: nat, t: Tile)
    requires Pages(s, e) && t in Tiles(s, e) && AllDone(MapIdentity, root, g, Tiles(s, e))
    ensures t.base < HALF ==> SelfMapped(GetTile(g, t, 4), t)
    ensures t.base >= HALF ==> GetTile(g, t, 4) == Some(Leaf(Canonical(t.base))) && !SelfMapped(GetTile(g, t, 4), t)
  {
    TileInside(s, e, t);
    SelfLeaf(t);
    assert Ready(MapIdentity, root, t);
    assert t.base >= HALF ==> Canonical(t.base) >= PHYSICAL by { if t.base >= HALF { HighHalf(t.base); } }
    VisibleBound(GetTile(root, t, 4).value, t.level);
    hide GetTile, Tiles, Canonical, Visible, TileOk, Pages;
  }

  lemma VisibleBound(e: Entry, level: nat)
    ensures e.Leaf? ==> Visible(e.addr, level) < PHYSICAL
  {
  }

  lemma LowTiles(s: nat, e: nat)
    requires Pages(s, e)
    ensures e <= HALF ==> Reach(s, e) == e && forall t :: t in Tiles(s, e) ==> t.base < HALF
  {
    hide RefTiles;
    if e <= HALF {
      forall t | t in Tiles(s, e) ensures t.base < HALF { TileInside(s, e, t); }
    }
  }

  lemma HighTile(s: nat, e: nat) returns (t: Tile)
    requires Pages(s, e) && e > HALF
    ensures t in Tiles(s, e) && t.base >= HALF
  {
    hide RefTiles, Reach, Pages, Tiling, TileOk, TileEnd;
    PagesBounds(s, e);
    RefIsTiling(s, Reach(s, e));
    t := TilingCovers(Tiles(s, e), s, Reach(s, e), e - 1);
    TileInside(s, e, t);
    TileOneHalf(t, e - 1);
  }

  /** Where an address of the range goes: to itself below the middle of the space; above it the page entry
      keeps only the low 52 bits of the canonical address. */
  function Own(v: nat): nat { Canonical(v) % PHYSICAL }

  lemma OwnIs(v: nat)
    requires v < WHOLE
    ensures Own(v) == if v < HALF then v else v + (PHYSICAL - WHOLE)
    ensures Own(v) < PHYSICAL
  {
    if v >= HALF { HighHalf(v); }
  }

  /** A leaf of a tile of the high half. */
  lemma HighTranslates(t: Tile, v: nat)
    requires TileOk(t) && Covers(t, v) && t.base >= HALF
    ensures Translate(Leaf(Canonical(t.base)), v, t.level) == Some(Own(v))
  {
    OwnIs(t.base);
    OwnIs(v);
    HighFrame(t);
    OffsetInTile(t, v);
    hide *;
    LeafTranslates(Canonical(t.base), v, t.level, Own(t.base));
  }

  lemma VisibleLow(addr: nat, level: nat)
    ensures Visible(addr, level) == Visible(addr % PHYSICAL, level)
  {
  }

  lemma HighFrame(t: Tile)
    requires TileOk(t) && HALF <= t.base < WHOLE
    ensures Visible(Canonical(t.base), t.level) == Own(t.base) && Own(t.base) % Region(t.level) == 0
  {
    OwnIs(t.base);
    HighAligned(t.base);
    TileOnPage(t);
    VisibleLow(Canonical(t.base), t.level);
    VisiblePage(Own(t.base), t.level);
    hide Canonical, TileEnd, Visible;
  }

  lemma HighAligned(base: nat)
    requires base < WHOLE
    ensures base % PAGE == 0 ==> (base + (PHYSICAL - WHOLE)) % PAGE == 0
    ensures base % LARGE == 0 ==> (base + (PHYSICAL - WHOLE)) % LARGE == 0
  {
    assert PHYSICAL - WHOLE == 0xF0_0000_0000 * PAGE && PHYSICAL - WHOLE == 0x7800_0000 * LARGE;
    if base % PAGE == 0 { AddMultiple(base, 0xF0_0000_0000, PAGE); }
    if base % LARGE == 0 { AddMultiple(base, 0x7800_0000, LARGE); }
  }

  lemma AddMultiple(a: nat, m: nat, d: nat)
    requires d > 0 && a % d == 0
    ensures (a + m * d) % d == 0
  {
    MulDiv(a, d);
    Distribute(a / d + m, m, d);
    ModOfMultiple(a / d + m, d);
  }

  /** early_map_memory: every address of the range translates to its own, the rest as before. */
  lemma IdentityMapped(root: Entry, s: nat, e: nat)
    requires WellFormed(root, 4) && Pages(s, e)
    requires MapRange(MapIdentity, root, s, e).Some?
    ensures var g := MapRange(MapIdentity, root, s, e).value;
            && WellFormed(g, 4) && Untouched(root, g, s, Reach(s, e))
            && forall v: nat :: s <= v < Reach(s, e) ==> Translate(g, v, 4) == Some(Own(v))
  {
    RangeOutcome(MapIdentity, root, s, e);
    var g := MapRange(MapIdentity, root, s, e).value;
    hide WellFormed, MapRange, GetTile, AllDone, Untouched, Translate, Tiles, Tiling, Pages, SelfMapped, Reach,
      TileOk, Own, Canonical;
    forall v: nat | s <= v < Reach(s, e) ensures Translate(g, v, 4) == Some(Own(v)) {
      IdentityAt(root, g, s, e, v);
    }
  }

  lemma IdentityAt(root: Entry, g: Entry, s: nat, e: nat, v: nat)
    requires WellFormed(g, 4) && Pages(s, e) && s <= v < Reach(s, e)
    requires Tiling(Tiles(s, e), s, Reach(s, e)) && AllDone(MapIdentity, root, g, Tiles(s, e))
    ensures Translate(g, v, 4) == Some(Own(v))
  {
    hide WellFormed, GetTile, AllDone, Translate, Tiles, Tiling, Pages, SelfMapped, Reach, TileOk, Own, Canonical;
    var t := TilingCovers(Tiles(s, e), s, Reach(s, e), v);
    TileInside(s, e, t);
    SelfMappedTile(root, g, s, e, t);
    TileOneHalf(t, v);
    OwnIs(v);
    if t.base < HALF {
      SelfShown(GetTile(g, t, 4), t);
      TranslateAt(g, t, v);
      SelfTranslates(GetTile(g, t, 4).value.addr, t, v);
    } else {
      TranslateAt(g, t, v);
      HighTranslates(t, v);
    }
  }

  /** No tile crosses the middle. */
  lemma TileOneHalf(t: Tile, v: nat)
    requires TileOk(t) && Covers(t, v)
    ensures v < WHOLE && (v < HALF <==> t.base < HALF)
  {
  }

  lemma SelfShown(e: Option<Entry>, t: Tile)
    requires SelfMapped(e, t)
    ensures e.Some? && e.value.Leaf? && Visible(e.value.addr, t.level) == Canonical(t.base)
  {
  }

  /** Setting a tile to what it holds changes nothing. */
  lemma {:induction false} SetSame(op: Op, e: Entry, t: Tile, level: nat)
    requires WellFormed(e, level) && t.level <= level && t.level < 2
    requires var x := GetTile(e, t, level); x.Some? && !x.value.Absent? && Found(op, x.value, Canonical(t.base), t.level) == x
    ensures SetTile(op, e, t, level) == Some(e)
    decreases level
  {
    hide Canonical, PtIndex, Visible;
    if level > t.level && e.Table? {
      var i := PtIndex(t.base, level - 1);
      IndexInTable(t.base, level - 1);
      SetSame(op, e.slots[i], t, level - 1);
      assert e.slots[i := e.slots[i]] == e.slots;
    }
  }

  lemma {:induction false} SetAllSame(e: Entry, ts: seq<Tile>)
    requires WellFormed(e, 4)
    requires forall t :: t in ts ==> t.level < 2 && SelfMapped(GetTile(e, t, 4), t)
    ensures SetTiles(MapIdentity, e, ts, 4) == Some(e)
    decreases |ts|
  {
    hide WellFormed, SetTile, GetTile, Canonical, Visible;
    if ts != [] {
      SetSame(MapIdentity, e, ts[0], 4);
      SetAllSame(e, ts[1..]);
    }
  }

  /** Identity mapping a range again changes no entry if it lies below the middle; a range that goes above
      the middle cannot be mapped again, since the stored address has lost its sign extension. */
  lemma RemapExact(root: Entry, s: nat, e: nat)
    requires WellFormed(root, 4) && Pages(s, e)
    requires MapRange(MapIdentity, root, s, e).Some?
    ensures var g := MapRange(MapIdentity, root, s, e).value;
            var again := MapRange(MapIdentity, g, s, e);
            && (again.Some? <==> e <= HALF)
            && (again.Some? ==> again.value == g)
  {
    RangeOutcome(MapIdentity, root, s, e);
    var g := MapRange(MapIdentity, root, s, e).value;
    RangeOutcome(MapIdentity, g, s, e);
    LowTiles(s, e);
    if e <= HALF {
      hide WellFormed, GetTile, AllDone, AllReady, Untouched, Tiling, Pages, SelfMapped, Reach, TileOk,
        WalkEntry, RefTiles, Canonical, SetTiles, EndOf;
      forall t | t in Tiles(s, e) ensures t.level < 2 && SelfMapped(GetTile(g, t, 4), t) {
        TileInside(s, e, t);
        OkLevel(t);
        SelfMappedTile(root, g, s, e, t);
      }
      SetAllSame(g, Tiles(s, e));
      RangeIsTiles(MapIdentity, g, s, e);
    } else {
      var t := HighTile(s, e);
      hide WellFormed, GetTile, AllDone, Untouched, Tiling, Pages, Reach, TileOk, RefTiles, Canonical, MapRange,
        Visible;
      SelfMappedTile(root, g, s, e, t);
      assert !Ready(MapIdentity, g, t);
    }
  }

  lemma OkLevel(t: Tile)
    requires TileOk(t)
    ensures t.level < 2
  {
  }

  /** Mapping a free range and unmapping it again succeeds, and every address translates as before; the
      range is free again. */
  lemma UnmapRestores(root: Entry, s: nat, e: nat)
    requires WellFormed(root, 4) && Pages(s, e) && Walkable(s, e) && AllFree(root, Tiles(s, e))
    ensures var g := MapRange(MapIdentity, root, s, e);
            && g.Some?
            && var h := MapRange(Unmap, g.value, s, e);
            && h.Some?
            && AllFree(h.value, Tiles(s, e))
            && forall v: nat :: v < WHOLE ==> Translate(h.value, v, 4) == Translate(root, v, 4)
  {
    RangeOutcome(MapIdentity, root, s, e);
    FreeIsReady(root, s, e);
    var g := MapRange(MapIdentity, root, s, e).value;
    RangeOutcome(Unmap, g, s, e);
    MappedIsReady(root, g, s, e);
    var h := MapRange(Unmap, g, s, e).value;
    UnmappedTiles(g, h, s, e);
    hide MapRange, WellFormed, AllReady, AllDone, Translate, GetTile, TileOk, Tiling, Pages, Reach, Tiles;
    forall v: nat | v < WHOLE ensures Translate(h, v, 4) == Translate(root, v, 4) {
      if s <= v < Reach(s, e) {
        var t := TilingCovers(Tiles(s, e), s, Reach(s, e), v);
        TileInside(s, e, t);
        TranslateAt(h, t, v);
        TranslateAt(root, t, v);
      }
    }
  }

  lemma FreeIsReady(root: Entry, s: nat, e: nat)
    requires AllFree(root, Tiles(s, e))
    ensures AllReady(MapIdentity, root, Tiles(s, e))
  {
    hide GetTile, Tiles, Canonical, Visible;
  }

  lemma MappedIsReady(root: Entry, g: Entry, s: nat, e: nat)
    requires AllDone(MapIdentity, root, g, Tiles(s, e))
    ensures AllReady(Unmap, g, Tiles(s, e))
  {
    hide GetTile, Tiles, Canonical, Visible;
    forall t | t in Tiles(s, e) ensures Ready(Unmap, g, t) {
      assert Ready(MapIdentity, root, t);
    }
  }

  lemma UnmappedTiles(g: Entry, h: Entry, s: nat, e: nat)
    requires AllDone(Unmap, g, h, Tiles(s, e))
    ensures AllFree(h, Tiles(s, e))
  {
    hide GetTile, Tiles, Canonical;
    forall t | t in Tiles(s, e) ensures GetTile(h, t, 4) == Some(Absent) {
      assert Ready(Unmap, g, t);
    }
  }
}
