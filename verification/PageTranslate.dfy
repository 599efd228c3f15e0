/** What a page table translates, and what mapping and unmapping a range do to it
    (sys/vmem.cpp:17-85; 4-level paging, section 4.5 of the Intel SDM, Volume 3A). */
module PageTranslate {
  import opened Bits
  import opened Wrappers
  import opened PageWalk
  import opened PageTable
  import opened PageMapping

  /** The bytes below an entry of a level; the root's are the whole 48-bit space. */
  function Region(level: nat): (r: nat)
    ensures r > 0
  {
    if level >= 4 then WHOLE else StepOf(level)
  }

  predicate SameRegion(v: nat, w: nat, level: nat) { v / Region(level) == w / Region(level) }

  predicate Covers(t: Tile, v: nat) { t.base <= v < TileEnd(t) }

  predicate Apart(t: Tile, u: Tile) { TileEnd(t) <= u.base || TileEnd(u) <= t.base }

  predicate TileOk(t: Tile) { t.level < 2 && t.base % StepOf(t.level) == 0 && TileEnd(t) <= WHOLE }

  /** What the processor makes of an address; None is a page fault. A large entry whose frame is not
      2 MiB aligned has reserved bits set. */
  function Translate(e: Entry, v: nat, level: nat): Option<nat>
    decreases level
  {
    match e
    case Absent => None
    case Leaf(addr) =>
      var frame := Visible(addr, level);
      if frame % Region(level) != 0 then None else Some(frame + v % Region(level))
    case Table(slots) =>
      if level == 0 || PtIndex(v, level - 1) >= |slots| then None
      else Translate(slots[PtIndex(v, level - 1)], v, level - 1)
  }

  /** The entry at a tile: Absent where a table above is missing, None where a leaf lies above. */
  function GetTile(e: Entry, t: Tile, level: nat): Option<Entry>
    decreases level
  {
    if level <= t.level then Some(e)
    else
      match e
      case Absent => Some(Absent)
      case Leaf(addr) => None
      case Table(slots) =>
        if PtIndex(t.base, level - 1) >= |slots| then None
        else GetTile(slots[PtIndex(t.base, level - 1)], t, level - 1)
  }

  /** op is defined on the entry at a tile. */
  predicate Ready(op: Op, e: Entry, t: Tile) {
    GetTile(e, t, 4).Some? && Found(op, GetTile(e, t, 4).value, Canonical(t.base), t.level).Some?
  }

  // ---- regions ----

  lemma Descend(v: nat, w: nat, level: nat)
    requires 1 <= level <= 4 && SameRegion(v, w, level)
    ensures PtIndex(v, level - 1) == PtIndex(w, level - 1) <==> SameRegion(v, w, level - 1)
  {
    assert Region(level) == Region(level - 1) * 512 && Region(level - 1) == StepOf(level - 1);
    hide StepOf, Region;
    Quotients(v, Region(level - 1));
    Quotients(w, Region(level - 1));
  }

  lemma Quotients(v: nat, d: nat)
    requires d > 0
    ensures v / d == v / (d * 512) * 512 + (v / d) % 512
  {
    var q, i := v / d / 512, (v / d) % 512;
    MulDiv(v, d);
    assert v / d == q * 512 + i;
    Pieces(v, q, i, d, v / d);
    DivModUnique(v, q, d * 512);
  }

  lemma Pieces(v: nat, q: nat, i: nat, d: nat, n: nat)
    requires d > 0 && i < 512 && n == q * 512 + i && n * d <= v < n * d + d
    ensures 0 <= q * (d * 512) <= v < q * (d * 512) + d * 512
    ensures q * (d * 512) <= v < (q + 1) * (d * 512)
  {
    Distribute(q * 512 + i, i, d);
    Reassoc(q, d);
    Distribute(i, -1, d);
    MulLe(0, i, d);
    MulLe(0, q, d * 512);
    MulLe(i + 1, 512, d);
    Distribute(q, -1, d * 512);
  }

  lemma CoversIsRegion(t: Tile, v: nat)
    requires TileOk(t)
    ensures Covers(t, v) <==> SameRegion(v, t.base, t.level)
  {
  }

  lemma OneSpace(v: nat, w: nat)
    requires v < WHOLE && w < WHOLE
    ensures SameRegion(v, w, 4)
  {
  }

  lemma ApartRegions(t: Tile, u: Tile)
    requires TileOk(t) && TileOk(u) && Apart(t, u)
    ensures !SameRegion(t.base, u.base, t.level) && !SameRegion(t.base, u.base, u.level)
  {
    CoversIsRegion(t, u.base);
    CoversIsRegion(u, t.base);
  }

  // ---- one tile ----

  lemma IndexInTable(v: nat, level: nat)
    ensures PtIndex(v, level) < 512
  {
  }

  /** Setting a tile succeeds when the entry there allows it; afterwards the tile holds the new entry. */
  lemma {:induction false} SetThenGet(op: Op, e: Entry, t: Tile, level: nat)
    requires WellFormed(e, level) && t.level <= level && t.level < 2
    ensures var r := SetTile(op, e, t, level);
            var x := GetTile(e, t, level);
            && (r.Some? <==> x.Some? && Found(op, x.value, Canonical(t.base), t.level).Some?)
            && (r.Some? ==> && WellFormed(r.value, level)
                            && GetTile(r.value, t, level) == Found(op, x.value, Canonical(t.base), t.level))
    decreases level
  {
    hide Canonical, PtIndex, Visible;
    if level > t.level && !e.Leaf? {
      var i := PtIndex(t.base, level - 1);
      IndexInTable(t.base, level - 1);
      var slots := if e.Absent? then seq(512, i => Absent) else e.slots;
      SetThenGet(op, slots[i], t, level - 1);
      EmptyIsFine(level);
    }
  }

  lemma EmptyIsFine(level: nat)
    requires level > 0
    ensures WellFormed(EmptyTable(), level)
  {
  }

  lemma {:induction false} SetKeepsOther(op: Op, e: Entry, t: Tile, u: Tile, level: nat)
    requires WellFormed(e, level) && t.level <= level <= 4 && u.level <= level
    requires TileOk(t) && TileOk(u) && Apart(t, u) && SameRegion(t.base, u.base, level)
    requires SetTile(op, e, t, level).Some?
    ensures GetTile(SetTile(op, e, t, level).value, u, level) == GetTile(e, u, level)
    decreases level
  {
    hide Canonical, PtIndex, Visible, Found, SameRegion, TileOk, Apart;
    ApartRegions(t, u);
    if level > 0 { Descend(t.base, u.base, level); }
    var i, j := PtIndex(t.base, level - 1), PtIndex(u.base, level - 1);
    IndexInTable(t.base, level - 1);
    IndexInTable(u.base, level - 1);
    var slots := if e.Absent? then seq(512, i => Absent) else e.slots;
    if i == j {
      SetKeepsOther(op, slots[i], t, u, level - 1);
    }
  }

  lemma {:induction false} SetKeepsAddress(op: Op, e: Entry, t: Tile, v: nat, level: nat)
    requires WellFormed(e, level) && t.level <= level <= 4
    requires TileOk(t) && !Covers(t, v) && SameRegion(t.base, v, level)
    requires SetTile(op, e, t, level).Some?
    ensures Translate(SetTile(op, e, t, level).value, v, level) == Translate(e, v, level)
    decreases level
  {
    hide Canonical, PtIndex, Visible, Found, TileOk, Covers, Region;
    CoversIsRegion(t, v);
    if level > 0 { Descend(t.base, v, level); }
    var i, j := PtIndex(t.base, level - 1), PtIndex(v, level - 1);
    IndexInTable(t.base, level - 1);
    IndexInTable(v, level - 1);
    var slots := if e.Absent? then seq(512, i => Absent) else e.slots;
    if i == j {
      SetKeepsAddress(op, slots[i], t, v, level - 1);
    }
  }

  /** An address is translated by the entry of the tile that covers it. */
  lemma {:induction false} TranslateVia(e: Entry, t: Tile, v: nat, level: nat)
    requires WellFormed(e, level) && t.level <= level <= 4
    requires TileOk(t) && Covers(t, v) && SameRegion(t.base, v, level) && GetTile(e, t, level).Some?
    ensures Translate(e, v, level) == Translate(GetTile(e, t, level).value, v, t.level)
    decreases level
  {
    hide Canonical, PtIndex, Visible, TileOk, Covers, Region, SameRegion;
    if level > t.level && e.Table? {
      CoversIsRegion(t, v);
      SameBelow(t.base, v, t.level, level);
      Descend(t.base, v, level);
      IndexInTable(v, level - 1);
      TranslateVia(e.slots[PtIndex(v, level - 1)], t, v, level - 1);
    }
  }

  /** Addresses that share a region share every larger one. */
  lemma SameBelow(v: nat, w: nat, low: nat, level: nat)
    requires low < level <= 4 && SameRegion(w, v, low)
    ensures SameRegion(v, w, level - 1)
    decreases level
  {
    if low < level - 1 {
      SameBelow(v, w, low, level - 1);
      assert Region(level - 1) == Region(level - 2) * 512;
      hide Region, StepOf;
      DivDiv(v, Region(level - 2));
      DivDiv(w, Region(level - 2));
    }
  }

  lemma DivDiv(v: nat, d: nat)
    requires d > 0
    ensures v / (d * 512) == v / d / 512
  {
    Quotients(v, d);
  }

  // ---- a tiling ----

  /** op is defined at every tile. */
  ghost predicate AllReady(op: Op, e: Entry, ts: seq<Tile>) {
    forall t :: t in ts ==> Ready(op, e, t)
  }

  /** Every tile holds what op makes of the entry it held. */
  ghost predicate AllDone(op: Op, e: Entry, g: Entry, ts: seq<Tile>) {
    forall t :: t in ts ==>
      && Ready(op, e, t)
      && GetTile(g, t, 4) == Found(op, GetTile(e, t, 4).value, Canonical(t.base), t.level)
  }

  predicate Outside(u: Tile, from: nat, end: nat) { TileOk(u) && (TileEnd(u) <= from || end <= u.base) }

  /** Addresses and tiles outside a range are as before. */
  ghost predicate Untouched(e: Entry, g: Entry, from: nat, end: nat) {
    && (forall v: nat :: v < WHOLE && !(from <= v < end) ==> Translate(g, v, 4) == Translate(e, v, 4))
    && (forall u: Tile :: Outside(u, from, end) ==> GetTile(g, u, 4) == GetTile(e, u, 4))
  }

  /** The tiles of a tiling lie in its range. */
  lemma {:induction false} TilingTiles(ts: seq<Tile>, from: nat, end: nat)
    requires Tiling(ts, from, end) && end <= WHOLE
    ensures from <= end
    ensures forall t :: t in ts ==> TileOk(t) && from <= t.base && TileEnd(t) <= end
    decreases |ts|
  {
    if ts != [] {
      TilingTiles(ts[1..], TileEnd(ts[0]), end);
      assert forall t :: t in ts ==> t == ts[0] || t in ts[1..];
    }
  }

  /** Each address of the range lies in one of the tiles. */
  lemma {:induction false} TilingCovers(ts: seq<Tile>, from: nat, end: nat, v: nat) returns (t: Tile)
    requires Tiling(ts, from, end) && from <= v < end
    ensures t in ts && Covers(t, v)
    decreases |ts|
  {
    if v < TileEnd(ts[0]) { t := ts[0]; } else { t := TilingCovers(ts[1..], TileEnd(ts[0]), end, v); }
  }

  /** One tile set: its entry is new, the rest of the space is as before. */
  lemma SetOne(op: Op, e: Entry, t: Tile)
    requires WellFormed(e, 4) && TileOk(t)
    ensures SetTile(op, e, t, 4).Some? <==> Ready(op, e, t)
    ensures SetTile(op, e, t, 4).Some? ==>
              var g := SetTile(op, e, t, 4).value;
              && WellFormed(g, 4)
              && GetTile(g, t, 4) == Found(op, GetTile(e, t, 4).value, Canonical(t.base), t.level)
              && Untouched(e, g, t.base, TileEnd(t))
  {
    SetThenGet(op, e, t, 4);
    hide WellFormed, SetTile, GetTile, Translate, Canonical, Found;
    if SetTile(op, e, t, 4).Some? {
      var g := SetTile(op, e, t, 4).value;
      forall v: nat | v < WHOLE && !Covers(t, v) ensures Translate(g, v, 4) == Translate(e, v, 4) {
        OneSpace(t.base, v);
        SetKeepsAddress(op, e, t, v, 4);
      }
      forall u: Tile | Outside(u, t.base, TileEnd(t)) ensures GetTile(g, u, 4) == GetTile(e, u, 4) {
        OneSpace(t.base, u.base);
        SetKeepsOther(op, e, t, u, 4);
      }
    }
  }

  lemma UntouchedTwice(e: Entry, f: Entry, g: Entry, from: nat, middle: nat, end: nat)
    requires from <= middle <= end && Untouched(e, f, from, middle) && Untouched(f, g, middle, end)
    ensures Untouched(e, g, from, end)
  {
    hide Translate, GetTile, TileOk;
    forall u: Tile | Outside(u, from, end) ensures GetTile(g, u, 4) == GetTile(e, u, 4) {
      assert Outside(u, from, middle) && Outside(u, middle, end);
    }
  }

  /** The tiles of the tail are as op found them before the head was set. */
  lemma TailReady(op: Op, e: Entry, f: Entry, head: Tile, tail: seq<Tile>, end: nat)
    requires Untouched(e, f, head.base, TileEnd(head))
    requires forall t :: t in tail ==> TileOk(t) && TileEnd(head) <= t.base && TileEnd(t) <= end
    ensures forall t :: t in tail ==> GetTile(f, t, 4) == GetTile(e, t, 4)
    ensures AllReady(op, f, tail) <==> AllReady(op, e, tail)
  {
    hide Translate, GetTile, TileOk, TileEnd, Found, Canonical;
    forall t | t in tail ensures GetTile(f, t, 4) == GetTile(e, t, 4) {
      assert Outside(t, head.base, TileEnd(head));
    }
  }

  lemma HeadAndTail(op: Op, e: Entry, f: Entry, g: Entry, head: Tile, tail: seq<Tile>)
    requires Ready(op, e, head)
    requires GetTile(g, head, 4) == Found(op, GetTile(e, head, 4).value, Canonical(head.base), head.level)
    requires forall t :: t in tail ==> GetTile(f, t, 4) == GetTile(e, t, 4)
    requires AllDone(op, f, g, tail)
    ensures AllDone(op, e, g, [head] + tail)
  {
    hide GetTile, Found, Canonical;
  }

  /** op on all tiles of a tiling succeeds exactly if it is defined at each of them in the tree as it
      was; then each tile holds the new entry and the rest is as before. */
  lemma {:induction false} SetAll(op: Op, e: Entry, ts: seq<Tile>, from: nat, end: nat)
    requires WellFormed(e, 4) && Tiling(ts, from, end) && end <= WHOLE
    ensures SetTiles(op, e, ts, 4).Some? <==> AllReady(op, e, ts)
    ensures SetTiles(op, e, ts, 4).Some? ==>
              var g := SetTiles(op, e, ts, 4).value;
              WellFormed(g, 4) && AllDone(op, e, g, ts) && Untouched(e, g, from, end)
    decreases |ts|
  {
    hide WellFormed, SetTile, GetTile, Ready, TileOk, Translate, Found, Canonical, TileEnd, Untouched;
    if ts == [] {
      assert Untouched(e, e, from, end) by { NothingTouched(e, from, end); }
    } else {
      var head, tail := ts[0], ts[1..];
      assert ts == [head] + tail;
      TilingTiles(ts, from, end);
      TilingTiles(tail, TileEnd(head), end);
      SetOne(op, e, head);
      var f := SetTile(op, e, head, 4);
      if f.Some? {
        SetAll(op, f.value, tail, TileEnd(head), end);
        TailReady(op, e, f.value, head, tail, end);
        if SetTiles(op, f.value, tail, 4).Some? {
          var g := SetTiles(op, f.value, tail, 4).value;
          HeadKept(f.value, g, head, end);
          HeadAndTail(op, e, f.value, g, head, tail);
          UntouchedTwice(e, f.value, g, from, TileEnd(head), end);
        }
      }
    }
  }

  lemma NothingTouched(e: Entry, from: nat, end: nat)
    ensures Untouched(e, e, from, end)
  {
  }

  lemma HeadKept(f: Entry, g: Entry, head: Tile, end: nat)
    requires TileOk(head) && Untouched(f, g, TileEnd(head), end)
    ensures GetTile(g, head, 4) == GetTile(f, head, 4)
  {
    assert Outside(head, TileEnd(head), end);
  }
}
