/** Page tables as trees, the walk with its callbacks, and one-tile access to them
    (sys/vmem.hpp:71-96, sys/vmem.cpp:17-85). */
module PageTable {
  import opened Bits
  import opened Wrappers
  import opened PageWalk

  const PHYSICAL: nat := 0x10_0000_0000_0000

  /** An entry that is not present, one that maps a page (large at level 1), or one that refers to a
      table of 512 entries. */
  datatype Entry = Absent | Leaf(addr: nat) | Table(slots: seq<Entry>)

  /** An entry of the given level: leaves are at levels 0 and 1 only. */
  ghost predicate WellFormed(e: Entry, level: nat)
    decreases level
  {
    if e.Absent? then true
    else if e.Leaf? then level < 2
    else level > 0 && |e.slots| == 512 && forall i: nat :: i < |e.slots| ==> WellFormed(e.slots[i], level - 1)
  }

  function EmptyTable(): Entry { Table(seq(512, i => Absent)) }

  /** The three callers of the walk. */
  datatype Op = MapAt(vaddr: nat, paddr: nat) | MapIdentity | Unmap

  /** What `pte::addr(large)` shows of an address: bits 12 to 51, without bit 12 in a large entry,
      where it is the PAT bit. */
  function Visible(addr: nat, level: nat): nat {
    var frame := addr % PHYSICAL / PAGE;
    (if level > 0 && frame % 2 == 1 then frame - 1 else frame) * PAGE
  }

  /** The callback for an entry found; None where the code asserts. */
  function Found(op: Op, e: Entry, base: nat, level: nat): Option<Entry> {
    match op
    case MapAt(vaddr, paddr) => if e.Absent? && base >= vaddr then Some(Leaf(paddr + (base - vaddr))) else None
    case MapIdentity =>
      if e.Absent? then Some(Leaf(base))
      else if e.Leaf? && Visible(e.addr, level) == base then Some(e)
      else None
    case Unmap => if e.Absent? then None else Some(Absent)
  }

  /** The callback for a missing table; None where the code aborts. */
  function Empty(op: Op): Option<Entry> {
    if op.Unmap? then None else Some(EmptyTable())
  }

  /** The table below an entry, made if it is missing. A leaf would be followed as if it were a table;
      that is not a defined outcome. */
  function Below(op: Op, e: Entry): (r: Option<Entry>)
    ensures r.Some? ==> r.value.Table?
  {
    match e
    case Absent => Empty(op)
    case Leaf(addr) => None
    case Table(slots) => Some(e)
  }

  /** traverse_page_table with the callbacks of op, on the tree below an entry. */
  function WalkEntry(op: Op, e: Entry, start: nat, end: nat, base: nat, level: nat): Option<Entry>
    requires 1 <= level
    decreases level, 0
  {
    var table := Below(op, e);
    if table.None? then None
    else
      var l := level - 1;
      var first := FirstIdx(start, base, l);
      var slots := LoopEntry(op, table.value.slots, start, end, FirstAddr(base, first, l), l, first, LastIdx(end, base, l));
      if slots.None? then None else Some(Table(slots.value))
  }

  function LoopEntry(op: Op, slots: seq<Entry>, start: nat, end: nat, base: nat, l: nat, idx: nat,
                     last: nat): Option<seq<Entry>>
    decreases l, last + 1 - idx
  {
    if idx > last then Some(slots)
    else if idx >= |slots| then None
    else
      var here := if IsFound(start, end, base, l) then Found(op, slots[idx], base, l)
                  else if l == 0 then None
                  else WalkEntry(op, slots[idx], start, end, base, l);
      if here.None? then None
      else LoopEntry(op, slots[idx := here.value], start, end, NextAddr(base, l), l, idx + 1, last)
  }

  // ---- one tile at a time ----

  /** Applies op at one tile of the tree below an entry of the given level. */
  function SetTile(op: Op, e: Entry, t: Tile, level: nat): Option<Entry>
    decreases level
  {
    if level <= t.level then Found(op, e, Canonical(t.base), level)
    else
      var table := Below(op, e);
      if table.None? || PtIndex(t.base, level - 1) >= |table.value.slots| then None
      else
        var i := PtIndex(t.base, level - 1);
        var slot := SetTile(op, table.value.slots[i], t, level - 1);
        if slot.None? then None else Some(Table(table.value.slots[i := slot.value]))
  }

  /** One tile after the other. */
  function SetTiles(op: Op, e: Entry, ts: seq<Tile>, level: nat): Option<Entry>
    decreases |ts|
  {
    if ts == [] then Some(e)
    else
      var g := SetTile(op, e, ts[0], level);
      if g.None? then None else SetTiles(op, g.value, ts[1..], level)
  }

  /** The same for the entries of one table. */
  function SetSlots(op: Op, slots: seq<Entry>, ts: seq<Tile>, l: nat): Option<seq<Entry>>
    decreases |ts|
  {
    if ts == [] then Some(slots)
    else
      var i := PtIndex(ts[0].base, l);
      if i >= |slots| then None
      else
        var slot := SetTile(op, slots[i], ts[0], l);
        if slot.None? then None else SetSlots(op, slots[i := slot.value], ts[1..], l)
  }

  /** All tiles lie below entry i. */
  ghost predicate AllUnder(ts: seq<Tile>, i: nat, l: nat) {
    forall k :: 0 <= k < |ts| ==> PtIndex(ts[k].base, l) == i && ts[k].level <= l
  }

  lemma {:induction false} SlotsAppend(op: Op, slots: seq<Entry>, a: seq<Tile>, b: seq<Tile>, l: nat)
    ensures SetSlots(op, slots, a + b, l)
         == var m := SetSlots(op, slots, a, l); if m.None? then None else SetSlots(op, m.value, b, l)
    decreases |a|
  {
    if a == [] {
      assert a + b == b;
    } else {
      assert (a + b)[1..] == a[1..] + b;
      var i := PtIndex(a[0].base, l);
      if i < |slots| {
        var slot := SetTile(op, slots[i], a[0], l);
        if slot.Some? { SlotsAppend(op, slots[i := slot.value], a[1..], b, l); }
      }
    }
  }

  /** Tiles below one entry change that entry only. */
  lemma {:induction false} SlotsOfOne(op: Op, slots: seq<Entry>, ts: seq<Tile>, i: nat, l: nat)
    requires AllUnder(ts, i, l) && i < |slots|
    ensures SetSlots(op, slots, ts, l)
         == var slot := SetTiles(op, slots[i], ts, l); if slot.None? then None else Some(slots[i := slot.value])
    decreases |ts|
  {
    if ts == [] {
      assert slots[i := slots[i]] == slots;
    } else {
      var slot := SetTile(op, slots[i], ts[0], l);
      if slot.Some? {
        var next := slots[i := slot.value];
        SlotsOfOne(op, next, ts[1..], i, l);
        var rest := SetTiles(op, slot.value, ts[1..], l);
        if rest.Some? { assert next[i := rest.value] == slots[i := rest.value]; }
      }
    }
  }

  /** Above the level of its tiles an entry becomes a table whose slots are set. */
  lemma {:induction false} TilesAreSlots(op: Op, e: Entry, ts: seq<Tile>, level: nat)
    requires level > 0 && ts != [] && forall k :: 0 <= k < |ts| ==> ts[k].level < level
    ensures SetTiles(op, e, ts, level)
         == var table := Below(op, e);
            if table.None? then None
            else
              var slots := SetSlots(op, table.value.slots, ts, level - 1);
              if slots.None? then None else Some(Table(slots.value))
    decreases |ts|
  {
    var g := SetTile(op, e, ts[0], level);
    if g.Some? && |ts| > 1 {
      TilesAreSlots(op, g.value, ts[1..], level);
    }
  }
}
