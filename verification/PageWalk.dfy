/** Which entries the page-table walk visits (traverse_page_table in sys/vmem.hpp; 4-level paging,
    section 4.5 of the Intel SDM, Volume 3A), computed in 64-bit arithmetic as the code does it. */
module PageWalk {
  import opened Bits
  import opened Wrappers

  const HALF: nat := 0x8000_0000_0000
  const WHOLE: nat := 0x1_0000_0000_0000
  const LARGE: nat := 0x20_0000

  /** The bytes an entry of a level covers: 2^(12 + 9 * level). */
  function StepOf(level: nat): (s: nat)
    ensures s > 0
  {
    if level == 0 then PAGE else if level == 1 then LARGE else if level == 2 then 0x4000_0000 else 0x80_0000_0000
  }

  function PtIndex(addr: nat, level: nat): nat { (addr / StepOf(level)) % 512 }

  /** Sign extension of the low 48 bits. */
  function Canonical(addr: nat): nat {
    var low := addr % WHOLE;
    if low < HALF then low else low + (U64 - WHOLE)
  }

  /** 64-bit addition and the address just below. */
  function AddAddr(a: nat, b: nat): nat { (a + b) % U64 }
  function Before(a: nat): nat { (a + U64 - 1) % U64 }

  function Max(a: nat, b: nat): nat { if a < b then b else a }
  function Min(a: nat, b: nat): nat { if a < b then a else b }

  datatype Tile = Tile(base: nat, level: nat)

  /** The first and the last entry of a table that the walk looks at, and the address of the first. */
  function FirstIdx(start: nat, base: nat, l: nat): nat { PtIndex(Max(start, base), l) }

  function LastIdx(end: nat, base: nat, l: nat): nat {
    var baseEnd := Canonical(AddAddr(base, StepOf(l) * 512 - 1));
    PtIndex(Min(Before(end), baseEnd), l)
  }

  function FirstAddr(base: nat, first: nat, l: nat): nat { AddAddr(base, Canonical(first * StepOf(l))) }

  function NextAddr(base: nat, l: nat): nat { Canonical(AddAddr(base, StepOf(l))) }

  /** Whether the walk calls `found` on an entry. */
  predicate IsFound(start: nat, end: nat, base: nat, l: nat) {
    l < 2 && start <= base && end >= AddAddr(base, StepOf(l))
  }

  /** The entries on which the walk calls `found`, in order; None if it goes below the last level. */
  function WalkTiles(start: nat, end: nat, base: nat, level: nat): Option<seq<Tile>>
    requires 1 <= level
    decreases level, 0
  {
    var l := level - 1;
    var first := FirstIdx(start, base, l);
    LoopTiles(start, end, FirstAddr(base, first, l), l, first, LastIdx(end, base, l))
  }

  function LoopTiles(start: nat, end: nat, base: nat, l: nat, idx: nat, last: nat): Option<seq<Tile>>
    decreases l, last + 1 - idx
  {
    if idx > last then Some([])
    else
      var here := if IsFound(start, end, base, l) then Some([Tile(base, l)])
                  else if l == 0 then None
                  else WalkTiles(start, end, base, l);
      if here.None? then None
      else
        var rest := LoopTiles(start, end, NextAddr(base, l), l, idx + 1, last);
        if rest.None? then None else Some(here.value + rest.value)
  }

  // ---- the reference: 48-bit positions, one tile after the other ----

  /** A 2 MiB tile wherever an aligned 2 MiB block lies wholly inside, and 4 KiB tiles elsewhere. */
  function RefTiles(from: nat, end: nat): seq<Tile>
    decreases end - from
  {
    if from >= end then []
    else if from % LARGE == 0 && from + LARGE <= end then [Tile(from, 1)] + RefTiles(from + LARGE, end)
    else [Tile(from, 0)] + RefTiles(from + PAGE, end)
  }

  /** The canonical form of the end of a range: one past its last byte. */
  function EndOf(e: nat): nat
    requires e > 0
  {
    Canonical(e - 1) + 1
  }

  function Canon(ts: seq<Tile>): (r: seq<Tile>)
    ensures |r| == |ts|
  {
    seq(|ts|, i requires 0 <= i < |ts| => Tile(Canonical(ts[i].base), ts[i].level))
  }

  /** The only ranges the 64-bit comparison gets wrong: they contain the start of the last 2 MiB block
      of the address space but not all of it, and base + step is 2^64 there. */
  predicate TopQuirk(s: nat, e: nat) {
    s <= WHOLE - LARGE < e
  }

  /** How far the walk goes: with the quirk, up to the top. */
  function Reach(s: nat, e: nat): nat {
    if TopQuirk(s, e) then WHOLE else e
  }

  predicate PageRange(s: nat, e: nat) {
    s % PAGE == 0 && e % PAGE == 0 && s < e < WHOLE
  }

  // ---- arithmetic of one level ----

  lemma CanonicalOrder(a: nat, b: nat)
    requires a < WHOLE && b < WHOLE
    ensures Canonical(a) <= Canonical(b) <==> a <= b
    ensures Canonical(Max(a, b)) == Max(Canonical(a), Canonical(b))
    ensures Canonical(Min(a, b)) == Min(Canonical(a), Canonical(b))
    ensures Canonical(a) < U64 && Canonical(Canonical(a)) == Canonical(a)
  {
    CanonicalIs(a);
    CanonicalIs(b);
    hide Canonical;
  }

  lemma CanonicalIs(a: nat)
    requires a < WHOLE
    ensures Canonical(a) == if a < HALF then a else a + (U64 - WHOLE)
    ensures Canonical(Canonical(a)) == Canonical(a)
  {
  }

  /** Adding whole tables does not change an index. */
  lemma IndexShift(a: nat, m: nat, d: nat)
    requires d > 0
    ensures ((a + m * 512 * d) / d) % 512 == (a / d) % 512
  {
    DivShift(a, m * 512, d);
    Mod512(a / d, m);
  }

  lemma DivShift(a: nat, n: nat, d: nat)
    requires d > 0
    ensures (a + n * d) / d == a / d + n
  {
    var q := a / d;
    MulDiv(a, d);
    Distribute(q + n, n, d);
    Distribute(q + n + 1, 1, d);
    DivModUnique(a + n * d, q + n, d);
  }

  lemma Mod512(q: nat, m: nat)
    ensures (q + m * 512) % 512 == q % 512
  {
  }

  lemma IndexOfCanonical(a: nat, l: nat)
    requires a < WHOLE && l < 4
    ensures PtIndex(Canonical(a), l) == PtIndex(a, l)
  {
    var m := if l == 0 then 0x7FFF8000000 else if l == 1 then 0x3FFFC0000 else if l == 2 then 0x1FFFE00 else 0xFFFF;
    assert U64 - WHOLE == m * 512 * StepOf(l);
    IndexShift(a, m, StepOf(l));
  }

  lemma IndexInBlock(q: nat, r: nat, d: nat)
    requires d > 0 && r < d * 512
    ensures ((q * (d * 512) + r) / d) % 512 == r / d < 512
    ensures r / d * d <= r < (r / d + 1) * d
  {
    IndexSmall(r, d);
    Reassoc(q, d);
    IndexShift(r, q, d);
  }

  lemma IndexSmall(r: nat, d: nat)
    requires d > 0 && r < d * 512
    ensures 0 <= r / d < 512 && (r / d) % 512 == r / d
    ensures r / d * d <= r < (r / d + 1) * d
  {
    var i := r / d;
    MulDiv(r, d);
    Distribute(i, -1, d);
    if i >= 512 { MulLe(512, i, d); }
  }

  lemma Reassoc(q: nat, d: nat)
    ensures q * (d * 512) == q * 512 * d
  {
  }

  /** The entry of an address inside an aligned region of 512 entries. */
  lemma IndexInside(base: nat, a: nat, l: nat)
    requires l < 4 && base % (StepOf(l) * 512) == 0 && base <= a < base + StepOf(l) * 512
    ensures PtIndex(a, l) == (a - base) / StepOf(l) < 512
    ensures base + PtIndex(a, l) * StepOf(l) <= a < base + (PtIndex(a, l) + 1) * StepOf(l)
  {
    var w := StepOf(l) * 512;
    MulDiv(base, w);
    hide StepOf;
    IndexInBlock(base / w, a - base, StepOf(l));
  }

  /** Moving to the next entry. */
  lemma NextBase(b: nat, l: nat)
    requires l < 4 && b % StepOf(l) == 0 && b < WHOLE
    ensures b + StepOf(l) <= WHOLE
    ensures b + StepOf(l) < WHOLE ==> Canonical(AddAddr(Canonical(b), StepOf(l))) == Canonical(b + StepOf(l))
    ensures AddAddr(Canonical(b), StepOf(l)) == if b + StepOf(l) == WHOLE then 0 else EndOf(b + StepOf(l))
  {
    assert b + StepOf(l) <= WHOLE && (b < HALF ==> b + StepOf(l) <= HALF);
    NextCanonical(b, StepOf(l));
  }

  lemma HighHalf(x: nat)
    requires HALF <= x < WHOLE
    ensures Canonical(x) == x + (U64 - WHOLE) && Canonical(x + (U64 - WHOLE)) == x + (U64 - WHOLE)
  {
  }

  lemma NextCanonical(b: nat, d: nat)
    requires 0 < d <= HALF && b + d <= WHOLE && (b < HALF ==> b + d <= HALF)
    ensures b + d < WHOLE ==> Canonical(AddAddr(Canonical(b), d)) == Canonical(b + d)
    ensures AddAddr(Canonical(b), d) == if b + d == WHOLE then 0 else EndOf(b + d)
  {
    hide Canonical, AddAddr;
    CanonicalIs(b);
    CanonicalIs(b + d - 1);
    AddIs(Canonical(b), d);
    if b + d < WHOLE { CanonicalIs(b + d); }
  }

  lemma AddIs(a: nat, b: nat)
    requires a < U64 && b < U64
    ensures AddAddr(a, b) == if a + b < U64 then a + b else a + b - U64
  {
  }

  /** Moving up without crossing the middle. */
  lemma OffsetCanonical(b: nat, d: nat)
    requires b + d < WHOLE && (b < HALF ==> b + d < HALF)
    ensures AddAddr(Canonical(b), d) == Canonical(b + d) && Canonical(Canonical(b + d)) == Canonical(b + d)
  {
    if b >= HALF {
      HighHalf(b);
      HighHalf(b + d);
      hide Canonical;
    }
  }

  /** A table lies in one half, except the root's, which starts at zero. */
  lemma TableInHalf(base: nat, l: nat)
    requires l < 4 && base % (StepOf(l) * 512) == 0 && base < WHOLE
    ensures base + StepOf(l) * 512 <= WHOLE
    ensures if l == 3 then base == 0 else StepOf(l) * 512 <= HALF && (base < HALF ==> base + StepOf(l) * 512 <= HALF)
  {
  }

  lemma IndexOffset(base: nat, idx: nat, d: nat)
    requires d > 0 && idx < 512 && base + d * 512 <= WHOLE
    ensures 0 <= idx * d && base + idx * d < WHOLE && idx * d + d <= d * 512
  {
    MulLe(idx + 1, 512, d);
    Distribute(idx, -1, d);
    MulLe(0, idx, d);
  }

  lemma RootOffset(d: nat)
    requires d < WHOLE
    ensures AddAddr(Canonical(0), Canonical(d)) == Canonical(d)
  {
  }

  lemma FirstBase(base: nat, idx: nat, l: nat)
    requires l < 4 && base % (StepOf(l) * 512) == 0 && idx < 512 && base < WHOLE
    ensures base + idx * StepOf(l) < WHOLE
    ensures AddAddr(Canonical(base), Canonical(idx * StepOf(l))) == Canonical(base + idx * StepOf(l))
  {
    TableInHalf(base, l);
    hide StepOf, Canonical, AddAddr;
    IndexOffset(base, idx, StepOf(l));
    var d := idx * StepOf(l);
    if l == 3 {
      RootOffset(d);
    } else {
      OffsetCanonical(0, d);
      OffsetCanonical(base, d);
      SmallAddr(d);
    }
  }

  lemma SmallAddr(d: nat)
    requires d < HALF
    ensures Canonical(0) == 0 && AddAddr(0, d) == d && Canonical(d) == d
  {
  }

  lemma LastByte(base: nat, l: nat)
    requires l < 4 && base % (StepOf(l) * 512) == 0 && base < WHOLE
    ensures base + StepOf(l) * 512 <= WHOLE
    ensures Canonical(AddAddr(Canonical(base), StepOf(l) * 512 - 1)) == Canonical(base + StepOf(l) * 512 - 1)
  {
    TableInHalf(base, l);
    if l < 3 {
      hide StepOf, Canonical;
      OffsetCanonical(base, StepOf(l) * 512 - 1);
    }
  }

  lemma EndOrder(a: nat, b: nat)
    requires 0 < a < WHOLE && 0 < b < WHOLE
    ensures EndOf(a) <= EndOf(b) <==> a <= b
    ensures Before(EndOf(a)) == Canonical(a - 1)
  {
  }

  // ---- the reference cut in pieces ----

  lemma CanonAppend(a: seq<Tile>, b: seq<Tile>)
    ensures Canon(a + b) == Canon(a) + Canon(b)
  {
  }

  lemma NextMultiple(from: nat, p: nat, d: nat)
    requires d == PAGE || d == LARGE
    requires from % d == 0 && p % d == 0
    ensures p > from ==> p >= from + d
  {
  }

  lemma LargeOnPage(p: nat)
    requires p % LARGE == 0
    ensures p % PAGE == 0
  {
  }

  lemma PageAfter(x: nat)
    requires x % PAGE == 0
    ensures (x + PAGE) % PAGE == 0 && (x + LARGE) % PAGE == 0
  {
  }

  /** The reference can be cut at a 2 MiB boundary. */
  lemma {:induction false} CutAtLarge(x: nat, y: nat, z: nat)
    requires x % PAGE == 0 && y % LARGE == 0 && x <= y <= z
    ensures RefTiles(x, z) == RefTiles(x, y) + RefTiles(y, z)
    decreases y - x
  {
    if x < y {
      PageAfter(x);
      LargeOnPage(y);
      NextMultiple(x, y, PAGE);
      if x % LARGE == 0 {
        NextMultiple(x, y, LARGE);
        CutAtLarge(x + LARGE, y, z);
        CutFirst(Tile(x, 1), RefTiles(x + LARGE, y), RefTiles(y, z));
      } else {
        CutAtLarge(x + PAGE, y, z);
        CutFirst(Tile(x, 0), RefTiles(x + PAGE, y), RefTiles(y, z));
      }
    }
  }

  lemma CutFirst(t: Tile, a: seq<Tile>, b: seq<Tile>)
    ensures [t] + (a + b) == ([t] + a) + b
  {
  }

  /** Where no 2 MiB tile starts, the first tile is a page. */
  lemma PageFirst(x: nat, z: nat)
    requires x % PAGE == 0 && x + PAGE <= z && !(x % LARGE == 0 && x + LARGE <= z)
    ensures RefTiles(x, z) == RefTiles(x, x + PAGE) + RefTiles(x + PAGE, z)
    ensures RefTiles(x, x + PAGE) == [Tile(x, 0)]
  {
    assert RefTiles(x + PAGE, x + PAGE) == [];
  }

  lemma LargeOnly(x: nat)
    requires x % LARGE == 0
    ensures RefTiles(x, x + LARGE) == [Tile(x, 1)]
  {
    assert RefTiles(x + LARGE, x + LARGE) == [];
  }

  // ---- the walk is the reference ----

  predicate OnStep(b: nat, l: nat) { l < 4 && b % StepOf(l) == 0 }

  /** A page entry of a 2 MiB block that is not wholly inside the range; the loop stays in the block. */
  predicate PageLoop(s: nat, e: nat, b: nat, top: nat) {
    Partly(s, e, b / LARGE * LARGE) && top <= b / LARGE * LARGE + LARGE
  }

  /** The last n entries of a loop run from b to top. */
  predicate Reaches(b: nat, n: nat, l: nat, top: nat) {
    top == b + n * StepOf(l) && top <= WHOLE
  }

  /** A 2 MiB block that is not wholly inside the range. */
  predicate Partly(s: nat, e: nat, base: nat) {
    s > base || e < base + LARGE
  }

  /** What one entry of the loop contributes when it is a tile. */
  lemma FoundTile(s: nat, e: nat, b: nat, l: nat)
    requires PageRange(s, e) && l < 2 && b % StepOf(l) == 0 && b < e
    requires l == 0 ==> Partly(s, Reach(s, e), b / LARGE * LARGE)
    ensures (Canonical(s) <= Canonical(b) && EndOf(e) >= AddAddr(Canonical(b), StepOf(l)))
       <==> (s <= b && Reach(s, e) >= b + StepOf(l))
  {
    NextBase(b, l);
    CanonicalOrder(s, b);
    QuirkCovers(s, e, b, l);
    hide Canonical, AddAddr, EndOf, Reach, PageRange, Partly;
    if b + StepOf(l) < WHOLE { EndOrder(b + StepOf(l), e); }
  }

  /** The quirk changes the outcome only for the last 2 MiB block. */
  lemma QuirkCovers(s: nat, e: nat, b: nat, l: nat)
    requires PageRange(s, e) && l < 2 && b % StepOf(l) == 0 && b < e
    requires l == 0 ==> Partly(s, Reach(s, e), b / LARGE * LARGE)
    ensures e < WHOLE
    ensures b + StepOf(l) == WHOLE && s <= b ==> Reach(s, e) == WHOLE
    ensures b + StepOf(l) < WHOLE && s <= b ==> (Reach(s, e) >= b + StepOf(l) <==> e >= b + StepOf(l))
  {
  }

  lemma RegionIs(l: nat)
    requires 0 < l < 4
    ensures StepOf(l) == StepOf(l - 1) * 512
  {
  }

  lemma AddOwn(b: nat, d: nat)
    requires d > 0 && b % d == 0
    ensures (b + d) % d == 0
  {
    MulDiv(b, d);
    Distribute(b / d, -1, d);
    ModOfMultiple(b / d + 1, d);
  }

  lemma DividesThrough(b: nat, k: nat, d: nat)
    requires k > 0 && d > 0 && k * d > 0 && b % (k * d) == 0
    ensures b % d == 0
  {
    var q := b / (k * d);
    MulDiv(b, k * d);
    assert b == (q * k) * d;
    ModOfMultiple(q * k, d);
  }

  lemma StepMultiple(b: nat, l: nat)
    requires l < 4 && b % StepOf(l) == 0
    ensures (b + StepOf(l)) % StepOf(l) == 0 && b % PAGE == 0
    ensures l > 0 ==> b % LARGE == 0 && StepOf(l) % LARGE == 0 && (b + StepOf(l)) % LARGE == 0
  {
    AddOwn(b, StepOf(l));
    DividesThrough(b, StepOf(l) / PAGE, PAGE);
    if l > 0 {
      DividesThrough(b, StepOf(l) / LARGE, LARGE);
      DividesThrough(b + StepOf(l), StepOf(l) / LARGE, LARGE);
    }
  }

  lemma PageCovered(s: nat, e: nat, b: nat)
    requires s % PAGE == 0 && e % PAGE == 0 && b % PAGE == 0 && s < b + PAGE && b < e
    ensures s <= b && b + PAGE <= e
  {
  }

  lemma OneTile(b: nat, l: nat)
    requires l < 2 && b % StepOf(l) == 0 && b < WHOLE
    ensures Canon(RefTiles(b, b + StepOf(l))) == [Tile(Canonical(b), l)]
  {
    if l == 0 { PageFirst(b, b + PAGE); } else { LargeOnly(b); }
  }

  lemma WalkUnfolds(start: nat, end: nat, base: nat, level: nat)
    requires 1 <= level
    ensures var l := level - 1;
            var first := FirstIdx(start, base, l);
            WalkTiles(start, end, base, level)
            == LoopTiles(start, end, FirstAddr(base, first, l), l, first, LastIdx(end, base, l))
  {
    hide LoopTiles;
  }

  lemma LoopUnfolds(start: nat, end: nat, base: nat, l: nat, idx: nat, last: nat, here: seq<Tile>, rest: seq<Tile>)
    requires idx <= last
    requires if IsFound(start, end, base, l) then here == [Tile(base, l)] else l > 0 && WalkTiles(start, end, base, l) == Some(here)
    requires LoopTiles(start, end, NextAddr(base, l), l, idx + 1, last) == Some(rest)
    ensures LoopTiles(start, end, base, l, idx, last) == Some(here + rest)
  {
    hide StepOf, Canonical, WalkTiles;
  }

  /** The contribution of one entry: the reference tiles of its part of the range. */
  lemma EntryIsRef(s: nat, e: nat, b: nat, l: nat)
    requires PageRange(s, e) && l < 4 && b % StepOf(l) == 0
    requires s < b + StepOf(l) && b < e
    requires l == 0 ==> Partly(s, Reach(s, e), b / LARGE * LARGE)
    ensures var here := Canon(RefTiles(Max(s, b), Min(Reach(s, e), b + StepOf(l))));
            if IsFound(Canonical(s), EndOf(e), Canonical(b), l) then here == [Tile(Canonical(b), l)]
            else l > 0 && WalkTiles(Canonical(s), EndOf(e), Canonical(b), l) == Some(here)
    decreases l, 1, 0
  {
    if l < 2 { FoundTile(s, e, b, l); }
    if l == 0 { PageCovered(s, e, b); }
    if l > 0 { RegionIs(l); }
    hide Canonical, EndOf, WalkTiles, RefTiles, Canon, StepOf;
    if IsFound(Canonical(s), EndOf(e), Canonical(b), l) {
      OneTile(b, l);
    } else {
      assert l == 1 ==> Partly(s, Reach(s, e), b) by { if l == 1 { LargeStep(); } }
      WalkIsRef(s, e, b, l);
    }
  }

  lemma LargeStep()
    ensures StepOf(1) == LARGE
  {
  }

  lemma {:induction false} LoopIsRef(s: nat, e: nat, b: nat, l: nat, idx: nat, last: nat, top: nat)
    requires PageRange(s, e) && OnStep(b, l)
    requires idx <= last && Reaches(b, last + 1 - idx, l, top)
    requires s < b + StepOf(l) && b < e && top - StepOf(l) < e
    requires l == 0 ==> PageLoop(s, Reach(s, e), b, top)
    ensures LoopTiles(Canonical(s), EndOf(e), Canonical(b), l, idx, last)
         == Some(Canon(RefTiles(Max(s, b), Min(Reach(s, e), top))))
    decreases l, 2, last + 1 - idx
  {
    hide Canonical, EndOf, WalkTiles, StepOf, NextAddr, IsFound, LoopTiles, OnStep, Reaches, PageLoop, PageRange,
      Reach, RefTiles, Canon;
    var r := Reach(s, e);
    OnStepIs(b, l);
    ReachBounds(s, e);
    if l == 0 { PageLoopPartly(s, r, b, top); }
    EntryIsRef(s, e, b, l);
    var here := RefTiles(Max(s, b), Min(r, b + StepOf(l)));
    var rest := RefTiles(Max(s, b + StepOf(l)), Min(r, top));
    if idx == last {
      LoopDone(Canonical(s), EndOf(e), NextAddr(Canonical(b), l), l, idx + 1, last);
      NothingLeft(s, r, b, l, top);
    } else {
      LoopGoesOn(s, e, b, l, last + 1 - idx, top, r);
      LoopIsRef(s, e, b + StepOf(l), l, idx + 1, last, top);
    }
    LoopUnfolds(Canonical(s), EndOf(e), Canonical(b), l, idx, last, Canon(here), Canon(rest));
    CanonAppend(here, rest);
    CutAtEntry(s, r, b, l, top);
  }

  lemma PageLoopPartly(s: nat, r: nat, b: nat, top: nat)
    requires PageLoop(s, r, b, top)
    ensures Partly(s, r, b / LARGE * LARGE)
  {
  }

  lemma ReachBounds(s: nat, e: nat)
    requires PageRange(s, e)
    ensures s % PAGE == 0 && Reach(s, e) % PAGE == 0 && s < e <= Reach(s, e) <= WHOLE && e < WHOLE
  {
  }

  lemma OnStepIs(b: nat, l: nat)
    ensures OnStep(b, l) <==> l < 4 && b % StepOf(l) == 0
  {
  }

  lemma LoopDone(start: nat, end: nat, base: nat, l: nat, idx: nat, last: nat)
    requires idx > last
    ensures LoopTiles(start, end, base, l, idx, last) == Some([])
  {
  }

  lemma NothingLeft(s: nat, e: nat, b: nat, l: nat, top: nat)
    requires Reaches(b, 1, l, top) && s < b + StepOf(l)
    ensures top == b + StepOf(l) <= WHOLE && RefTiles(Max(s, b + StepOf(l)), Min(e, top)) == []
  {
  }

  lemma LoopGoesOn(s: nat, e: nat, b: nat, l: nat, n: nat, top: nat, r: nat)
    requires OnStep(b, l) && n > 1 && Reaches(b, n, l, top) && top - StepOf(l) < e
    requires s < b + StepOf(l)
    ensures OnStep(b + StepOf(l), l) && s < b + StepOf(l) + StepOf(l) && b + StepOf(l) < e
    ensures b + StepOf(l) <= top <= WHOLE
    ensures Reaches(b + StepOf(l), n - 1, l, top)
    ensures NextAddr(Canonical(b), l) == Canonical(b + StepOf(l))
    ensures l == 0 && PageLoop(s, r, b, top) ==> PageLoop(s, r, b + StepOf(l), top)
  {
    hide Canonical, StepOf, PageLoop;
    assert StepOf(l) > 0;
    TopNext(b, StepOf(l), n, top);
    StepMultiple(b, l);
    NextBase(b, l);
    if l == 0 && PageLoop(s, r, b, top) { PageLoopNext(s, r, b, top); }
  }

  lemma PageLoopNext(s: nat, e: nat, b: nat, top: nat)
    requires PageLoop(s, e, b, top) && b % PAGE == 0 && b + StepOf(0) < top
    ensures PageLoop(s, e, b + StepOf(0), top)
  {
    BlockStart(b);
    InBlock(b / LARGE * LARGE, b + PAGE);
  }

  /** The reference, cut between an entry and the ones after it. */
  lemma CutAtEntry(s: nat, e: nat, b: nat, l: nat, top: nat)
    requires s % PAGE == 0 && e % PAGE == 0 && s < e && OnStep(b, l)
    requires s < b + StepOf(l) && b < e && b + StepOf(l) <= top <= WHOLE
    requires l == 0 ==> PageLoop(s, e, b, top)
    requires b + StepOf(l) == top || b + StepOf(l) < e
    ensures RefTiles(Max(s, b), Min(e, top))
         == RefTiles(Max(s, b), Min(e, b + StepOf(l))) + RefTiles(Max(s, b + StepOf(l)), Min(e, top))
  {
    if b + StepOf(l) == top {
      assert Reaches(b, 1, l, top);
      NothingLeft(s, e, b, l, top);
    } else {
      StepMultiple(b, l);
      if l > 0 {
        CutAtLarge(Max(s, b), b + StepOf(l), Min(e, top));
      } else {
        PageCovered(s, e, b);
        NoLargeHere(s, e, b, top);
        PageFirst(b, Min(e, top));
      }
    }
  }

  lemma NoLargeHere(s: nat, e: nat, b: nat, top: nat)
    requires b % PAGE == 0 && s <= b && PageLoop(s, e, b, top)
    ensures !(b % LARGE == 0 && b + LARGE <= Min(e, top))
  {
  }

  lemma TopNext(b: nat, step: nat, n: nat, top: nat)
    requires n > 1 && step > 0 && top == b + n * step
    ensures top == b + step + (n - 1) * step && b + step < top && b + step <= top - step
  {
    Distribute(n, 1, step);
    MulLe(2, n, step);
  }

  /** The first entry the walk looks at. */
  lemma FirstEntry(s: nat, base: nat, l: nat) returns (first: nat, b: nat)
    requires l < 4 && base % (StepOf(l) * 512) == 0 && base < WHOLE && s < WHOLE && s < base + StepOf(l) * 512
    ensures first == FirstIdx(Canonical(s), Canonical(base), l) && b == base + first * StepOf(l)
    ensures first < 512 && b <= Max(s, base) < b + StepOf(l) && OnStep(b, l)
    ensures FirstAddr(Canonical(base), first, l) == Canonical(b)
  {
    hide Canonical, PtIndex, AddAddr, StepOf;
    var m := Max(s, base);
    CanonicalOrder(s, base);
    IndexOfCanonical(m, l);
    IndexInside(base, m, l);
    first := PtIndex(m, l);
    FirstBase(base, first, l);
    EntryAligned(base, first, l);
    MulLe(0, first, StepOf(l));
    b := base + first * StepOf(l);
  }

  lemma IndexOfEntry(s: nat, base: nat, first: nat, b: nat, l: nat)
    requires l < 4 && base % (StepOf(l) * 512) == 0 && base <= s < base + StepOf(l) * 512 && s < WHOLE
    requires b == base + first * StepOf(l) && b <= s < b + StepOf(l)
    ensures PtIndex(s, l) == first
  {
    hide PtIndex;
    IndexInside(base, s, l);
    DivModUnique(s - base, first, StepOf(l));
  }

  lemma EntryAligned(base: nat, i: nat, l: nat)
    requires l < 4 && base % (StepOf(l) * 512) == 0
    ensures OnStep(base + i * StepOf(l), l)
  {
    var d := StepOf(l);
    MulDiv(base, d * 512);
    var q := base / (d * 512);
    Reassoc(q, d);
    Distribute(q * 512, 0 - i, d);
    hide StepOf;
    assert q >= 0;
    ModOfMultiple(q * 512 + i, d);
  }

  /** The last entry the walk looks at. */
  lemma LastEntry(e: nat, base: nat, l: nat)
    requires l < 4 && base % (StepOf(l) * 512) == 0 && base < e < WHOLE
    ensures var last := LastIdx(EndOf(e), Canonical(base), l);
            && last < 512 && base + last * StepOf(l) < e
            && Min(e, base + (last + 1) * StepOf(l)) == Min(e, base + StepOf(l) * 512)
  {
    LastByte(base, l);
    EndOrder(e, e);
    hide AddAddr, Before;
    var x := Min(e - 1, base + StepOf(l) * 512 - 1);
    CanonicalOrder(e - 1, base + StepOf(l) * 512 - 1);
    IndexOfCanonical(x, l);
    IndexInside(base, x, l);
    hide Canonical, PtIndex;
    var last := PtIndex(x, l);
    MulLe(last + 1, 512, StepOf(l));
  }

  lemma {:induction false} WalkIsRef(s: nat, e: nat, base: nat, level: nat)
    requires PageRange(s, e) && 1 <= level <= 4
    requires base % (StepOf(level - 1) * 512) == 0 && s < base + StepOf(level - 1) * 512 && base < e
    requires level == 1 ==> Partly(s, Reach(s, e), base)
    ensures WalkTiles(Canonical(s), EndOf(e), Canonical(base), level)
         == Some(Canon(RefTiles(Max(s, base), Min(Reach(s, e), base + StepOf(level - 1) * 512))))
    decreases level, 0, 0
  {
    hide Canonical, PtIndex, EndOf, WalkTiles, LoopTiles, RefTiles, Canon, StepOf, Reaches, PageLoop, PageRange,
      Reach, OnStep, FirstIdx, LastIdx, FirstAddr;
    var first, last, b, top := WalkSetup(s, e, base, level);
    WalkUnfolds(Canonical(s), EndOf(e), Canonical(base), level);
    LoopIsRef(s, e, b, level - 1, first, last, top);
  }

  lemma LargeTable(base: nat, l: nat)
    requires base % (StepOf(l) * 512) == 0
    ensures l == 0 ==> base % LARGE == 0
  {
  }

  /** The first and the last entry that the walk looks at, where the first starts and the last ends. */
  lemma WalkIndices(s: nat, e: nat, base: nat, l: nat) returns (first: nat, last: nat, b: nat, top: nat)
    requires l < 4 && base % (StepOf(l) * 512) == 0 && s < base + StepOf(l) * 512 && base < e && s < e < WHOLE
    ensures first == FirstIdx(Canonical(s), Canonical(base), l) && last == LastIdx(EndOf(e), Canonical(base), l)
    ensures first < 512 && last < 512 && (l == 0 ==> base % LARGE == 0)
    ensures b == base + first * StepOf(l) && top == base + (last + 1) * StepOf(l)
    ensures FirstAddr(Canonical(base), first, l) == Canonical(b) && OnStep(b, l) && b <= Max(s, base)
    ensures s < b + StepOf(l)
    ensures base + last * StepOf(l) < e && Min(e, top) == Min(e, base + StepOf(l) * 512)
  {
    hide Canonical, PtIndex, EndOf, StepOf, AddAddr, Before, OnStep, FirstIdx, LastIdx, FirstAddr;
    first, b := FirstEntry(s, base, l);
    LastEntry(e, base, l);
    LargeTable(base, l);
    last := LastIdx(EndOf(e), Canonical(base), l);
    MulLe(0, last + 1, StepOf(l));
    top := base + (last + 1) * StepOf(l);
  }

  /** The walk of a table is the loop over the entries that meet the range. */
  lemma WalkSetup(s: nat, e: nat, base: nat, level: nat) returns (first: nat, last: nat, b: nat, top: nat)
    requires PageRange(s, e) && 1 <= level <= 4
    requires base % (StepOf(level - 1) * 512) == 0 && s < base + StepOf(level - 1) * 512 && base < e
    requires level == 1 ==> Partly(s, Reach(s, e), base)
    ensures var l := level - 1;
            && first == FirstIdx(Canonical(s), Canonical(base), l) && last == LastIdx(EndOf(e), Canonical(base), l)
            && FirstAddr(Canonical(base), first, l) == Canonical(b) && b == base + first * StepOf(l)
            && last < 512
            && OnStep(b, l) && first <= last && Reaches(b, last + 1 - first, l, top)
            && s < b + StepOf(l) && b < e && top - StepOf(l) < e
            && (l == 0 ==> PageLoop(s, Reach(s, e), b, top))
            && Max(s, b) == Max(s, base) && Min(Reach(s, e), top) == Min(Reach(s, e), base + StepOf(l) * 512)
  {
    ReachBounds(s, e);
    hide *;
    var l := level - 1;
    TableInHalf(base, l);
    first, last, b, top := WalkIndices(s, e, base, l);
    WalkRange(s, e, base, l, first, last, Reach(s, e));
    LastAligned(base, last, l);
    ReachTop(s, e, base, l, top);
  }

  lemma FirstIsMax(s: nat, base: nat, first: nat, d: nat)
    requires d > 0 && base + first * d <= Max(s, base)
    ensures Max(s, base + first * d) == Max(s, base)
  {
    MulLe(0, first, d);
    if first > 0 { MulLe(1, first, d); }
  }

  /** The loop runs over the entries that meet the range. */
  lemma WalkRange(s: nat, e: nat, base: nat, l: nat, first: nat, last: nat, r: nat)
    requires l < 4 && s < e && base < e && s < base + StepOf(l) * 512 && base + StepOf(l) * 512 <= WHOLE
    requires base + first * StepOf(l) <= Max(s, base) && last < 512 && base + last * StepOf(l) < e
    requires Min(e, base + (last + 1) * StepOf(l)) == Min(e, base + StepOf(l) * 512)
    requires l == 0 ==> base % LARGE == 0
    requires l == 0 ==> Partly(s, r, base)
    ensures first <= last && base + first * StepOf(l) < e
    ensures var b, top := base + first * StepOf(l), base + (last + 1) * StepOf(l);
            && Reaches(b, last + 1 - first, l, top) && top - StepOf(l) < e
            && (l == 0 ==> PageLoop(s, r, b, top))
            && Max(s, b) == Max(s, base)
            && top <= base + StepOf(l) * 512
  {
    FirstIsMax(s, base, first, StepOf(l));
    var d := StepOf(l);
    FirstBeforeLast(s, e, base, first, last, d);
    Distribute(last + 1, first, d);
    Distribute(last + 1, 1, d);
    MulLe(last + 1, 512, d);
    MulLe(first, last, d);
    MulLe(0, first, d);
    if l == 0 { InBlock(base, base + first * d); }
  }

  lemma LastAligned(base: nat, last: nat, l: nat)
    requires l < 4 && base % (StepOf(l) * 512) == 0
    ensures OnStep(base + (last + 1) * StepOf(l), l)
  {
    EntryAligned(base, last + 1, l);
  }

  /** The loop that meets the end of the range ends where the walk's reach does. */
  lemma ReachTop(s: nat, e: nat, base: nat, l: nat, top: nat)
    requires PageRange(s, e) && l < 4 && base % (StepOf(l) * 512) == 0 && base < e && OnStep(top, l)
    requires top <= base + StepOf(l) * 512 <= WHOLE
    requires Min(e, top) == Min(e, base + StepOf(l) * 512)
    requires l == 0 ==> Partly(s, Reach(s, e), base)
    ensures Min(Reach(s, e), top) == Min(Reach(s, e), base + StepOf(l) * 512)
  {
    if TopQuirk(s, e) && base + StepOf(l) * 512 > e {
      if l == 0 {
        LargeTable(base, l);
      } else {
        OnLarge(top, l);
      }
    }
  }

  lemma OnLarge(b: nat, l: nat)
    requires OnStep(b, l) && l > 0
    ensures b % LARGE == 0
  {
  }

  lemma InBlock(base: nat, b: nat)
    requires base % LARGE == 0 && base <= b < base + LARGE
    ensures b / LARGE * LARGE == base
  {
  }

  lemma FirstBeforeLast(s: nat, e: nat, base: nat, first: nat, last: nat, d: nat)
    requires d > 0 && s < e && base < e
    requires base + first * d <= Max(s, base)
    requires Min(e, base + (last + 1) * d) == Min(e, base + d * 512) && s < base + d * 512
    ensures first <= last
  {
    if last + 1 <= first {
      MulLe(last + 1, first, d);
      Distribute(last, -1, d);
    }
  }

  /** The walk from the root, for every page-aligned range of canonical addresses: it calls `found` on
      exactly the reference tiles of the range, in order; only a range with the quirk is taken up to the
      top of the address space. */
  lemma WalkIsTiling(s: nat, e: nat)
    requires PageRange(s, e)
    ensures WalkTiles(Canonical(s), EndOf(e), 0, 4) == Some(Canon(RefTiles(s, Reach(s, e))))
  {
    assert Canonical(0) == 0;
    WalkIsRef(s, e, 0, 4);
  }

  // ---- what the reference tiles are ----

  function TileEnd(t: Tile): nat { t.base + StepOf(t.level) }

  /** Tiles in order, without gap or overlap, from `from` to `to`; each aligned to its size. */
  ghost predicate Tiling(ts: seq<Tile>, from: nat, end: nat) {
    if ts == [] then from == end
    else ts[0].base == from && ts[0].level < 2 && from % StepOf(ts[0].level) == 0 && Tiling(ts[1..], TileEnd(ts[0]), end)
  }

  lemma TilingPage(from: nat, rest: seq<Tile>, end: nat)
    requires from % PAGE == 0 && Tiling(rest, from + PAGE, end)
    ensures Tiling([Tile(from, 0)] + rest, from, end)
  {
    assert ([Tile(from, 0)] + rest)[1..] == rest;
  }

  lemma TilingLarge(from: nat, rest: seq<Tile>, end: nat)
    requires from % LARGE == 0 && Tiling(rest, from + LARGE, end)
    ensures Tiling([Tile(from, 1)] + rest, from, end)
  {
    assert ([Tile(from, 1)] + rest)[1..] == rest;
  }

  lemma PageStep(from: nat, end: nat)
    requires from % PAGE == 0 && end % PAGE == 0 && from < end
    ensures (from + PAGE) % PAGE == 0 && (from + LARGE) % PAGE == 0 && from + PAGE <= end
  {
  }

  lemma {:induction false} RefIsTiling(from: nat, end: nat)
    requires from % PAGE == 0 && end % PAGE == 0 && from <= end
    ensures Tiling(RefTiles(from, end), from, end)
    decreases end - from
  {
    hide Tiling;
    if from < end {
      PageStep(from, end);
      if from % LARGE == 0 && from + LARGE <= end {
        RefIsTiling(from + LARGE, end);
        TilingLarge(from, RefTiles(from + LARGE, end), end);
      } else {
        RefIsTiling(from + PAGE, end);
        TilingPage(from, RefTiles(from + PAGE, end), end);
      }
    } else {
      assert Tiling([], from, end) by { NoTiles(from); }
    }
  }

  lemma NoTiles(from: nat)
    ensures Tiling([], from, from)
  {
  }

  /** An aligned 2 MiB block that lies wholly inside. */
  predicate LargeAt(from: nat, end: nat, p: nat) { p % LARGE == 0 && from <= p && p + LARGE <= end }

  /** The 2 MiB block around p lies wholly inside. */
  predicate BlockInside(from: nat, end: nat, p: nat) {
    from <= p / LARGE * LARGE && p / LARGE * LARGE + LARGE <= end
  }

  /** A page inside, with its 2 MiB block not wholly so. */
  predicate PageAt(from: nat, end: nat, p: nat) {
    p % PAGE == 0 && from <= p < end && !BlockInside(from, end, p)
  }

  lemma BlockStart(p: nat)
    ensures var block := p / LARGE * LARGE; block % LARGE == 0 && block % PAGE == 0 && block <= p < block + LARGE
  {
    MulDiv(p, LARGE);
    ModOfMultiple(p / LARGE, LARGE);
    ModOfMultiple(p / LARGE * 512, PAGE);
  }

  /** Past a 2 MiB tile. */
  lemma LargeFirst(from: nat, end: nat, p: nat)
    requires from % LARGE == 0 && from + LARGE <= end
    ensures LargeAt(from, end, p) <==> p == from || LargeAt(from + LARGE, end, p)
    ensures PageAt(from, end, p) <==> PageAt(from + LARGE, end, p)
  {
    BlockStart(p);
    var block := p / LARGE * LARGE;
    NextMultiple(from, block, LARGE);
    assert BlockInside(from, end, p) <==> from <= block && block + LARGE <= end;
    assert BlockInside(from + LARGE, end, p) <==> from + LARGE <= block && block + LARGE <= end;
    if p % LARGE == 0 { NextMultiple(from, p, LARGE); }
    hide BlockInside;
    assert block < from ==> p < from by { NextMultiple(block, from, LARGE); }
  }

  /** Past a page. */
  lemma PageFirstAt(from: nat, end: nat, p: nat)
    requires from % PAGE == 0 && end % PAGE == 0 && from < end && !(from % LARGE == 0 && from + LARGE <= end)
    ensures LargeAt(from, end, p) <==> LargeAt(from + PAGE, end, p)
    ensures PageAt(from, end, p) <==> p == from || PageAt(from + PAGE, end, p)
  {
    BlockStart(p);
    var block := p / LARGE * LARGE;
    NextMultiple(from, block, PAGE);
    assert BlockInside(from, end, p) <==> from <= block && block + LARGE <= end;
    assert BlockInside(from + PAGE, end, p) <==> from + PAGE <= block && block + LARGE <= end;
    if p % LARGE == 0 { LargeOnPage(p); NextMultiple(from, p, PAGE); }
    if p % PAGE == 0 { NextMultiple(from, p, PAGE); }
    hide BlockInside;
  }

  lemma NothingAt(from: nat, end: nat, p: nat)
    requires from >= end
    ensures !LargeAt(from, end, p) && !PageAt(from, end, p)
  {
  }

  /** A 2 MiB tile is exactly where an aligned 2 MiB block lies wholly inside the range. */
  lemma {:induction false} LargeTiles(from: nat, end: nat, p: nat)
    requires from % PAGE == 0 && end % PAGE == 0
    ensures Tile(p, 1) in RefTiles(from, end) <==> LargeAt(from, end, p)
    ensures Tile(p, 0) in RefTiles(from, end) <==> PageAt(from, end, p)
    decreases end - from
  {
    hide LargeAt, PageAt;
    if from < end {
      PageStep(from, end);
      if from % LARGE == 0 && from + LARGE <= end {
        LargeTiles(from + LARGE, end, p);
        LargeFirst(from, end, p);
      } else {
        LargeTiles(from + PAGE, end, p);
        PageFirstAt(from, end, p);
      }
    } else {
      NothingAt(from, end, p);
    }
  }

  /** The walk is the tiling of the range asked for exactly without the quirk. */
  lemma QuirkExact(s: nat, e: nat)
    requires PageRange(s, e)
    ensures WalkTiles(Canonical(s), EndOf(e), 0, 4) == Some(Canon(RefTiles(s, e))) <==> !TopQuirk(s, e)
  {
    WalkIsTiling(s, e);
    hide RefTiles, WalkTiles, Canon, Canonical, EndOf, PageRange;
    if TopQuirk(s, e) {
      TopTile(s, e);
      RefBound(s, e);
      RefBound(s, WHOLE);
      if Canon(RefTiles(s, e)) == Canon(RefTiles(s, WHOLE)) {
        CanonInjective(RefTiles(s, e), RefTiles(s, WHOLE));
      }
    }
  }

  lemma OneCanon(t: Tile)
    ensures Canon([t]) == [Tile(Canonical(t.base), t.level)]
  {
    hide Canonical;
  }

  /** The first page of the last 2 MiB block: the walk calls `found` on the whole block. */
  lemma QuirkInput()
    ensures WalkTiles(Canonical(WHOLE - LARGE), EndOf(WHOLE - LARGE + PAGE), 0, 4)
         == Some([Tile(Canonical(WHOLE - LARGE), 1)])
    ensures RefTiles(WHOLE - LARGE, WHOLE - LARGE + PAGE) == [Tile(WHOLE - LARGE, 0)]
  {
    hide WalkTiles, Canonical, EndOf, Canon, RefTiles;
    WalkIsTiling(WHOLE - LARGE, WHOLE - LARGE + PAGE);
    LargeOnly(WHOLE - LARGE);
    OneCanon(Tile(WHOLE - LARGE, 1));
    OnePage(WHOLE - LARGE);
  }

  lemma OnePage(x: nat)
    requires x % PAGE == 0
    ensures RefTiles(x, x + PAGE) == [Tile(x, 0)]
  {
    PageFirst(x, x + PAGE);
  }

  lemma TopTile(s: nat, e: nat)
    requires PageRange(s, e) && TopQuirk(s, e)
    ensures e < WHOLE
    ensures Tile(WHOLE - LARGE, 1) !in RefTiles(s, e) && Tile(WHOLE - LARGE, 1) in RefTiles(s, WHOLE)
  {
    LargeTiles(s, e, WHOLE - LARGE);
    LargeTiles(s, WHOLE, WHOLE - LARGE);
    hide RefTiles;
  }

  lemma {:induction false} RefBound(from: nat, end: nat)
    ensures forall i :: 0 <= i < |RefTiles(from, end)| ==> (from <= RefTiles(from, end)[i].base < end)
    decreases end - from
  {
    if from < end {
      if from % LARGE == 0 && from + LARGE <= end { RefBound(from + LARGE, end); } else { RefBound(from + PAGE, end); }
    }
  }

  lemma CanonInjective(a: seq<Tile>, b: seq<Tile>)
    requires Canon(a) == Canon(b)
    requires forall i :: 0 <= i < |a| ==> a[i].base < WHOLE
    requires forall i :: 0 <= i < |b| ==> b[i].base < WHOLE
    ensures a == b
  {
    assert |a| == |b|;
    forall i | 0 <= i < |a| ensures a[i] == b[i] {
      assert Canon(a)[i] == Canon(b)[i];
      CanonicalOrder(a[i].base, b[i].base);
    }
  }
}
