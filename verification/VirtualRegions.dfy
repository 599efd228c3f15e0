/** The allocator of virtual regions: an ordered map that tiles the managed range (sys/vmem_allocator.cpp). */
module VirtualRegions {
  import opened Bits
  import opened Wrappers

  /** The managed addresses: the high half of the space up to LOCAL_TRANS_VMEM_START. */
  const LOW_ADDR: nat := 0xFFFF_8000_0000_0000
  const HIGH_ADDR: nat := 0xFFFF_FFFF_0000_0000

  /** Their pages: pfn_up of the one and pfn_down of the other. */
  const LOW: nat := 0xF_FFF8_0000_0000
  const HIGH: nat := 0xF_FFFF_FFF0_0000

  lemma ManagedRange(addr: nat)
    ensures LOW <= addr / PAGE < HIGH <==> LOW_ADDR <= addr < HIGH_ADDR
    ensures LOW == PfnUp(LOW_ADDR) && HIGH == HIGH_ADDR / PAGE
  {
  }

  /** A region and its page fault handler; one without a handler counts as free. */
  datatype Region = Region(begin: nat, end: nat, handler: Option<nat>) {
    predicate Has(p: nat) { begin <= p < end }
  }

  /** Non-empty regions from the highest to the lowest, without gap or overlap. */
  ghost predicate Tiles(rs: seq<Region>, low: nat, high: nat) {
    if rs == [] then low == high
    else rs[0].begin < rs[0].end == high && Tiles(rs[1..], low, rs[0].begin)
  }

  /** The handler of the region that holds a page. */
  function Owner(rs: seq<Region>, p: nat): Option<nat> {
    if rs == [] then None else if rs[0].Has(p) then rs[0].handler else Owner(rs[1..], p)
  }

  /** The highest region that is free and large enough; |rs| if there is none. */
  function FirstFit(rs: seq<Region>, npages: nat): (i: nat)
    ensures i <= |rs|
    ensures i < |rs| ==> rs[i].handler.None? && rs[i].begin + npages <= rs[i].end
    ensures forall j :: 0 <= j < i ==> rs[j].handler.Some? || rs[j].begin + npages > rs[j].end
  {
    if rs == [] || (rs[0].handler.None? && rs[0].begin + npages <= rs[0].end) then 0 else 1 + FirstFit(rs[1..], npages)
  }

  /** Takes pages from the top of region i. */
  function Carve(rs: seq<Region>, i: nat, npages: nat, handler: Option<nat>): seq<Region>
    requires i < |rs| && npages <= rs[i].end
  {
    var ret := rs[i].end - npages;
    if ret == rs[i].begin then rs[i := rs[i].(handler := handler)]
    else rs[..i] + [Region(ret, rs[i].end, handler), rs[i].(end := ret)] + rs[i + 1..]
  }

  /** Alloc; None where the code aborts. */
  function Alloc(rs: seq<Region>, npages: nat, handler: Option<nat>): Option<(nat, seq<Region>)> {
    var i := FirstFit(rs, npages);
    if i == |rs| then None else Some((rs[i].end - npages, Carve(rs, i, npages, handler)))
  }

  lemma {:induction false} TilesBounds(rs: seq<Region>, low: nat, high: nat)
    requires Tiles(rs, low, high)
    ensures low <= high
    ensures forall i :: 0 <= i < |rs| ==> low <= rs[i].begin < rs[i].end <= high
    ensures forall i, j :: 0 <= i < j < |rs| ==> rs[j].end <= rs[i].begin
    decreases |rs|
  {
    if rs != [] { TilesBounds(rs[1..], low, rs[0].begin); }
  }

  lemma {:induction false} OwnerAt(rs: seq<Region>, low: nat, high: nat, i: nat, p: nat)
    requires Tiles(rs, low, high) && i < |rs| && rs[i].Has(p)
    ensures Owner(rs, p) == rs[i].handler
    decreases i
  {
    if i > 0 {
      TilesBounds(rs, low, high);
      OwnerAt(rs[1..], low, rs[0].begin, i - 1, p);
    }
  }

  /** Carving a region keeps the tiling and changes the owner of the pages taken, and of no others. */
  lemma {:induction false} CarveKeeps(rs: seq<Region>, low: nat, high: nat, i: nat, npages: nat,
                                      handler: Option<nat>, p: nat)
    requires Tiles(rs, low, high) && i < |rs| && npages > 0 && rs[i].begin + npages <= rs[i].end
    ensures var t, ret := Carve(rs, i, npages, handler), rs[i].end - npages;
            && Tiles(t, low, high)
            && Owner(t, p) == if ret <= p < ret + npages then handler else Owner(rs, p)
    decreases i
  {
    if i == 0 {
      CarveFirst(rs, low, high, npages, handler, p);
    } else {
      var t, rest := Carve(rs, i, npages, handler), rs[1..];
      TilesBounds(rs, low, high);
      CarveTail(rs, i, npages, handler);
      assert rs[i].end <= rs[0].begin;
      hide Carve;
      CarveKeeps(rest, low, rs[0].begin, i - 1, npages, handler, p);
      assert rest[i - 1] == rs[i];
    }
  }

  lemma CarveTail(rs: seq<Region>, i: nat, npages: nat, handler: Option<nat>)
    requires 0 < i < |rs| && npages <= rs[i].end
    ensures var t := Carve(rs, i, npages, handler);
            t != [] && t[0] == rs[0] && t[1..] == Carve(rs[1..], i - 1, npages, handler)
  {
  }

  lemma CarveFirst(rs: seq<Region>, low: nat, high: nat, npages: nat, handler: Option<nat>, p: nat)
    requires Tiles(rs, low, high) && rs != [] && npages > 0 && rs[0].begin + npages <= rs[0].end
    ensures var t, ret := Carve(rs, 0, npages, handler), rs[0].end - npages;
            && Tiles(t, low, high)
            && Owner(t, p) == if ret <= p < ret + npages then handler else Owner(rs, p)
  {
    var t, ret, rest := Carve(rs, 0, npages, handler), rs[0].end - npages, rs[1..];
    if ret == rs[0].begin {
      assert t == [rs[0].(handler := handler)] + rest && t[1..] == rest;
    } else {
      var top, bottom := Region(ret, rs[0].end, handler), rs[0].(end := ret);
      assert t == [top] + ([bottom] + rest) && t[1..] == [bottom] + rest && t[1..][1..] == rest;
    }
  }

  predicate Suffices(r: Region, npages: nat) {
    r.handler.None? && r.begin + npages <= r.end
  }

  /** The pages from `ret` on are the top of a free region that is large enough, and no such region lies higher. */
  ghost predicate TopOfHighest(rs: seq<Region>, npages: nat, ret: nat) {
    exists i :: 0 <= i < |rs| && Suffices(rs[i], npages) && ret + npages == rs[i].end
             && forall j :: 0 <= j < |rs| && Suffices(rs[j], npages) ==> rs[j].begin <= rs[i].begin
  }

  lemma HighestFit(rs: seq<Region>, low: nat, high: nat, npages: nat)
    requires Tiles(rs, low, high) && npages > 0 && FirstFit(rs, npages) < |rs|
    ensures var i := FirstFit(rs, npages);
            Suffices(rs[i], npages) && TopOfHighest(rs, npages, rs[i].end - npages)
  {
    var i := FirstFit(rs, npages);
    TilesBounds(rs, low, high);
    forall j | 0 <= j < |rs| && Suffices(rs[j], npages) ensures rs[j].begin <= rs[i].begin {
      if i < j { assert rs[j].end <= rs[i].begin; }
    }
  }

  /** An allocation takes pages that belong to nobody, the top of the highest free region that has enough, and
      gives them to the handler; all other pages keep their owner, and the regions still tile the range. It
      fails only if no free region is large enough. */
  lemma AllocKeeps(rs: seq<Region>, low: nat, high: nat, npages: nat, handler: Option<nat>)
    requires Tiles(rs, low, high) && npages > 0
    ensures var a := Alloc(rs, npages, handler);
            && (a.None? <==> forall i :: 0 <= i < |rs| ==> rs[i].handler.Some? || rs[i].end - rs[i].begin < npages)
            && (a.Some? ==>
                  var (ret, t) := a.value;
                  && low <= ret && ret + npages <= high && Tiles(t, low, high)
                  && TopOfHighest(rs, npages, ret)
                  && (forall p: nat :: ret <= p < ret + npages ==> Owner(rs, p).None?)
                  && (forall p: nat :: Owner(t, p) == if ret <= p < ret + npages then handler else Owner(rs, p)))
  {
    TilesBounds(rs, low, high);
    var i := FirstFit(rs, npages);
    if i < |rs| {
      var (ret, t) := Alloc(rs, npages, handler).value;
      HighestFit(rs, low, high, npages);
      hide Owner, Carve, FirstFit, TopOfHighest;
      CarveKeeps(rs, low, high, i, npages, handler, 0);
      forall p: nat
        ensures Owner(t, p) == if ret <= p < ret + npages then handler else Owner(rs, p)
        ensures ret <= p < ret + npages ==> Owner(rs, p).None?
      {
        CarveKeeps(rs, low, high, i, npages, handler, p);
        if ret <= p < ret + npages { OwnerAt(rs, low, high, i, p); }
      }
    }
  }

  /** The next allocation of as many pages returns the same pages exactly if they got no handler. */
  lemma HandlerlessExact(rs: seq<Region>, low: nat, high: nat, npages: nat, handler: Option<nat>, next: Option<nat>)
    requires Tiles(rs, low, high) && npages > 0 && Alloc(rs, npages, handler).Some?
    ensures var (ret, t) := Alloc(rs, npages, handler).value;
            (Alloc(t, npages, next).Some? && Alloc(t, npages, next).value.0 == ret) <==> handler.None?
  {
    hide FirstFit, Owner, Tiles, TopOfHighest;
    AllocKeeps(rs, low, high, npages, handler);
    var (ret, t) := Alloc(rs, npages, handler).value;
    AllocKeeps(t, low, high, npages, next);
    var i := FirstFit(rs, npages);
    if handler.None? {
      assert t[i].handler.None? && t[i].begin == ret && t[i].end == ret + npages;
      assert forall j :: 0 <= j < i ==> t[j] == rs[j];
      assert FirstFit(t, npages) == i;
    } else {
      assert Owner(t, ret) == handler;
    }
  }

  // ---- runs ----

  datatype Request = Request(npages: nat, handler: Option<nat>)

  /** The requests in turn; one that fails aborts the system, which then stays as it is. */
  function Run(rs: seq<Region>, reqs: seq<Request>): seq<Region>
    decreases |reqs|
  {
    if reqs == [] then rs
    else
      var a := Alloc(rs, reqs[0].npages, reqs[0].handler);
      Run(if a.None? then rs else a.value.1, reqs[1..])
  }

  ghost predicate Positive(reqs: seq<Request>) {
    forall i :: 0 <= i < |reqs| ==> reqs[i].npages > 0
  }

  lemma {:induction false} RunKeeps(rs: seq<Region>, low: nat, high: nat, reqs: seq<Request>)
    requires Tiles(rs, low, high) && Positive(reqs)
    ensures Tiles(Run(rs, reqs), low, high)
    ensures forall p: nat :: Owner(rs, p).Some? ==> Owner(Run(rs, reqs), p) == Owner(rs, p)
    decreases |reqs|
  {
    hide Tiles, Owner, Alloc;
    if reqs != [] {
      AllocKeeps(rs, low, high, reqs[0].npages, reqs[0].handler);
      var a := Alloc(rs, reqs[0].npages, reqs[0].handler);
      RunKeeps(if a.None? then rs else a.value.1, low, high, reqs[1..]);
    }
  }

  /** The one region of the constructor. */
  function Start(): seq<Region> { [Region(LOW, HIGH, None)] }

  /** Over every run: the regions tile the managed range, pages handed out hold managed addresses only, and pages
      handed out with a handler are part of no later result, however many requests come between. */
  lemma EveryRun(before: seq<Request>, request: Request, between: seq<Request>, later: Request)
    requires Positive(before) && Positive(between) && request.npages > 0 && later.npages > 0 && request.handler.Some?
    requires Alloc(Run(Start(), before), request.npages, request.handler).Some?
    requires var rs := Alloc(Run(Start(), before), request.npages, request.handler).value.1;
             Alloc(Run(rs, between), later.npages, later.handler).Some?
    ensures var (ret, rs) := Alloc(Run(Start(), before), request.npages, request.handler).value;
            var (again, t) := Alloc(Run(rs, between), later.npages, later.handler).value;
            && Tiles(t, LOW, HIGH)
            && (ret + request.npages <= again || again + later.npages <= ret)
            && (forall addr: nat :: ret <= addr / PAGE < ret + request.npages ==> LOW_ADDR <= addr < HIGH_ADDR)
            && forall p: nat :: ret <= p < ret + request.npages ==> Owner(t, p) == request.handler
  {
    assert Start()[1..] == [] && Tiles(Start(), LOW, HIGH);
    hide Tiles, Owner, Alloc, Run, Start;
    RunKeeps(Start(), LOW, HIGH, before);
    AllocKeeps(Run(Start(), before), LOW, HIGH, request.npages, request.handler);
    var (ret, rs) := Alloc(Run(Start(), before), request.npages, request.handler).value;
    RunKeeps(rs, LOW, HIGH, between);
    AllocKeeps(Run(rs, between), LOW, HIGH, later.npages, later.handler);
    var (again, t) := Alloc(Run(rs, between), later.npages, later.handler).value;
    forall addr: nat | ret <= addr / PAGE < ret + request.npages ensures LOW_ADDR <= addr < HIGH_ADDR {
      ManagedRange(addr);
    }
    var p := if ret < again then again else ret;
    assert p < ret + request.npages ==> Owner(Run(rs, between), p) == Owner(rs, p) == request.handler;
    assert p < again + later.npages ==> Owner(Run(rs, between), p).None?;
  }

  // ---- page faults ----

  datatype Fault = NoRegion | FreeRegion | Handled(handler: nat)

  /** lower_bound in descending order: the first region that starts at or below the page. */
  function LowerBound(rs: seq<Region>, p: nat): (i: nat)
    ensures i <= |rs|
    ensures i < |rs| ==> rs[i].begin <= p
    ensures forall j :: 0 <= j < i ==> rs[j].begin > p
  {
    if rs == [] || rs[0].begin <= p then 0 else 1 + LowerBound(rs[1..], p)
  }

  function HandlePageFault(rs: seq<Region>, addr: nat): Fault {
    var i := LowerBound(rs, addr / PAGE);
    if i == |rs| || rs[i].end < PfnUp(addr) then NoRegion
    else if rs[i].handler.None? then FreeRegion
    else Handled(rs[i].handler.value)
  }

  lemma RoundUp(addr: nat)
    ensures PfnUp(addr) == addr / PAGE + (if addr % PAGE == 0 then 0 else 1)
  {
  }

  /** Some region holds each page of the range. */
  lemma {:induction false} Holder(rs: seq<Region>, low: nat, high: nat, p: nat) returns (i: nat)
    requires Tiles(rs, low, high) && low <= p < high
    ensures i < |rs| && rs[i].Has(p)
    decreases |rs|
  {
    if rs[0].begin <= p { i := 0; } else { i := Holder(rs[1..], low, rs[0].begin, p); i := i + 1; }
  }

  /** A fault inside the managed range goes to the owner of its page. */
  lemma FaultFinds(rs: seq<Region>, low: nat, high: nat, addr: nat)
    requires Tiles(rs, low, high) && low <= addr / PAGE < high
    ensures HandlePageFault(rs, addr)
         == if Owner(rs, addr / PAGE).None? then FreeRegion else Handled(Owner(rs, addr / PAGE).value)
  {
    var p := addr / PAGE;
    var i := Holder(rs, low, high, p);
    TilesBounds(rs, low, high);
    OwnerAt(rs, low, high, i, p);
    RoundUp(addr);
    var j := LowerBound(rs, p);
    hide LowerBound, Owner, Tiles, PfnUp;
  }

  /** Outside the range the check stops every fault but one: that at the first address above it. */
  lemma FaultOutsideExact(rs: seq<Region>, low: nat, high: nat, addr: nat)
    requires Tiles(rs, low, high) && low < high && !(low <= addr / PAGE < high)
    ensures HandlePageFault(rs, addr) == NoRegion <==> addr != high * PAGE
  {
    var p := addr / PAGE;
    TilesBounds(rs, low, high);
    RoundUp(addr);
    hide PfnUp;
    if p >= high {
      assert rs[0].end == high && LowerBound(rs, p) == 0;
    } else {
      assert LowerBound(rs, p) == |rs|;
    }
  }

  // ---- the allocator as it runs ----

  /** The map's emplace: a region of pages `ret` to `end` before region i, unless the one there begins at the same
      page; that one gets the handler either way. */
  function Emplace(rs: seq<Region>, i: nat, ret: nat, end: nat, handler: Option<nat>): seq<Region>
    requires i < |rs|
  {
    if i > 0 && rs[i - 1].begin == ret then rs[i - 1 := rs[i - 1].(handler := handler)]
    else rs[..i] + [Region(ret, end, handler)] + rs[i..]
  }

  /** The two branches, on the map; they include a request for no pages. */
  function CarveAsWritten(rs: seq<Region>, i: nat, npages: nat, handler: Option<nat>): seq<Region>
    requires i < |rs| && npages <= rs[i].end
  {
    var ret := rs[i].end - npages;
    if ret == rs[i].begin then rs[i := rs[i].(handler := handler)]
    else Emplace(rs[i := rs[i].(end := ret)], i, ret, ret + npages, handler)
  }

  function AllocAsWritten(rs: seq<Region>, npages: nat, handler: Option<nat>): Option<(nat, seq<Region>)> {
    var i := FirstFit(rs, npages);
    if i == |rs| then None else Some((rs[i].end - npages, CarveAsWritten(rs, i, npages, handler)))
  }

  lemma AllocIsRight(rs: seq<Region>, low: nat, high: nat, npages: nat, handler: Option<nat>)
    requires Tiles(rs, low, high) && npages > 0
    ensures AllocAsWritten(rs, npages, handler) == Alloc(rs, npages, handler)
  {
    hide Tiles;
    var i := FirstFit(rs, npages);
    TilesBounds(rs, low, high);
    if i < |rs| {
      assert i > 0 ==> rs[i].end <= rs[i - 1].begin;
      CarveIsRight(rs, i, npages, handler);
    }
  }

  lemma CarveIsRight(rs: seq<Region>, i: nat, npages: nat, handler: Option<nat>)
    requires i < |rs| && npages <= rs[i].end && (i > 0 ==> rs[i - 1].begin != rs[i].end - npages)
    ensures CarveAsWritten(rs, i, npages, handler) == Carve(rs, i, npages, handler)
  {
    var ret := rs[i].end - npages;
    CutAndPut(rs, i, Region(ret, ret + npages, handler), rs[i].(end := ret));
  }

  lemma CutAndPut(rs: seq<Region>, i: nat, x: Region, y: Region)
    requires i < |rs|
    ensures var cut := rs[i := y]; cut[..i] + [x] + cut[i..] == rs[..i] + [x, y] + rs[i + 1..]
  {
    var cut := rs[i := y];
    assert cut[..i] == rs[..i];
    assert cut[i..] == [y] + rs[i + 1..];
    Regroup(rs[..i], x, y, rs[i + 1..]);
  }

  lemma Regroup(a: seq<Region>, x: Region, y: Region, c: seq<Region>)
    ensures a + [x] + ([y] + c) == a + [x, y] + c
  {
  }

  /** A request for no pages is served at the top of the highest free region. It leaves every page its owner exactly
      if no region lies above that one, or that region has the request's handler already: otherwise the pages of
      the region above get the new handler. */
  lemma NoPagesExact(rs: seq<Region>, low: nat, high: nat, handler: Option<nat>)
    requires Tiles(rs, low, high) && AllocAsWritten(rs, 0, handler).Some?
    ensures var i := FirstFit(rs, 0);
            var (ret, t) := AllocAsWritten(rs, 0, handler).value;
            && i < |rs| && ret == rs[i].end
            && ((forall p: nat :: Owner(t, p) == Owner(rs, p)) <==> i == 0 || rs[i - 1].handler == handler)
  {
    hide FirstFit, Owner, Tiles;
    var i := FirstFit(rs, 0);
    var t := AllocAsWritten(rs, 0, handler).value.1;
    FitInside(rs, 0);
    TilesBounds(rs, low, high);
    assert rs[i := rs[i].(end := rs[i].end)] == rs;
    if i == 0 {
      assert t == [Region(rs[0].end, rs[0].end, handler)] + rs;
      forall p: nat ensures Owner(t, p) == Owner(rs, p) { EmptyTop(rs[0].end, handler, rs, p); }
    } else {
      TilesMeet(rs, low, high, i);
      assert t == rs[i - 1 := rs[i - 1].(handler := handler)];
      forall p: nat ensures Owner(t, p) == if rs[i - 1].Has(p) then handler else Owner(rs, p) {
        HandlerAt(rs, low, high, i - 1, handler, p);
      }
      OwnerAt(rs, low, high, i - 1, rs[i - 1].begin);
      assert rs[i - 1].Has(rs[i - 1].begin);
      if rs[i - 1].handler == handler { assert t == rs; }
    }
  }

  lemma FitInside(rs: seq<Region>, npages: nat)
    ensures FirstFit(rs, npages) <= |rs|
    ensures FirstFit(rs, npages) < |rs| ==> Suffices(rs[FirstFit(rs, npages)], npages)
  {
  }

  lemma EmptyTop(at: nat, handler: Option<nat>, rs: seq<Region>, p: nat)
    ensures Owner([Region(at, at, handler)] + rs, p) == Owner(rs, p)
  {
    assert ([Region(at, at, handler)] + rs)[1..] == rs;
  }

  /** Each region ends where the one above begins. */
  lemma {:induction false} TilesMeet(rs: seq<Region>, low: nat, high: nat, i: nat)
    requires Tiles(rs, low, high) && 0 < i < |rs|
    ensures rs[i].end == rs[i - 1].begin
    decreases i
  {
    if i > 1 { TilesMeet(rs[1..], low, rs[0].begin, i - 1); } else { assert rs[1..][0] == rs[1]; }
  }

  lemma {:induction false} HandlerAt(rs: seq<Region>, low: nat, high: nat, i: nat, handler: Option<nat>, p: nat)
    requires Tiles(rs, low, high) && i < |rs|
    ensures Owner(rs[i := rs[i].(handler := handler)], p) == if rs[i].Has(p) then handler else Owner(rs, p)
    decreases i
  {
    var t := rs[i := rs[i].(handler := handler)];
    TilesBounds(rs, low, high);
    if i > 0 {
      HandlerAt(rs[1..], low, rs[0].begin, i - 1, handler, p);
      assert t[1..] == rs[1..][i - 1 := rs[i].(handler := handler)];
    } else {
      assert t[1..] == rs[1..];
    }
  }

  /** One round of the loop. */
  lemma FitNext(rs: seq<Region>, npages: nat, i: nat)
    requires i < |rs|
    ensures FirstFit(rs[i..], npages) == if Suffices(rs[i], npages) then 0 else 1 + FirstFit(rs[i + 1..], npages)
  {
    assert rs[i..][1..] == rs[i + 1..];
  }

  /** The region the loop stops at is the one taken, and the map stays a tiling if there is a page to take. */
  lemma FoundFit(rs: seq<Region>, npages: nat, handler: Option<nat>, i: nat)
    requires Tiles(rs, LOW, HIGH) && i < |rs|
    requires FirstFit(rs, npages) == i + FirstFit(rs[i..], npages)
    requires rs[i].handler.None? && rs[i].end - rs[i].begin >= npages
    ensures npages <= rs[i].end
    ensures AllocAsWritten(rs, npages, handler) == Some((rs[i].end - npages, CarveAsWritten(rs, i, npages, handler)))
    ensures npages > 0 ==> Tiles(CarveAsWritten(rs, i, npages, handler), LOW, HIGH)
  {
    hide Tiles, Carve, CarveAsWritten, FirstFit, Alloc, Owner;
    FitNext(rs, npages, i);
    if npages > 0 {
      AllocIsRight(rs, LOW, HIGH, npages, handler);
      AllocKeeps(rs, LOW, HIGH, npages, handler);
    }
  }

  lemma NoFit(npages: nat)
    ensures FirstFit([], npages) == 0
  {
  }

  lemma NothingFits(rs: seq<Region>, npages: nat, handler: Option<nat>)
    requires FirstFit(rs, npages) == |rs|
    ensures AllocAsWritten(rs, npages, handler) == None
  {
  }

  /** The map `regions_`, in the order in which it is walked. */
  class VMemAllocator {
    var regions: seq<Region>

    ghost predicate Valid()
      reads this
    {
      Tiles(regions, LOW, HIGH)
    }

    constructor ()
      ensures Valid() && regions == Start()
    {
      regions := [Region(LOW, HIGH, None)];
      new;
      assert regions[1..] == [];
    }

    /** The rest of the loop's body, for the region found. */
    method TakeTop(it: nat, npages: nat, handler: Option<nat>) returns (ret: nat)
      requires it < |regions| && npages <= regions[it].end
      modifies this
      ensures ret == old(regions)[it].end - npages
      ensures regions == CarveAsWritten(old(regions), it, npages, handler)
    {
      hide Emplace;
      var begin, end := regions[it].begin, regions[it].end;
      ret := end - npages;
      if ret == begin {
        regions := regions[it := regions[it].(handler := handler)];
      } else {
        regions := regions[it := regions[it].(end := ret)];
        regions := Emplace(regions, it, ret, ret + npages, handler);
      }
    }

    /** Alloc; None where the code aborts. With `AllocIsRight` and `NoPagesExact`. */
    method AllocPages(npages: nat, handler: Option<nat>) returns (r: Option<nat>)
      requires Valid()
      modifies this
      ensures npages > 0 ==> Valid()
      ensures var a := AllocAsWritten(old(regions), npages, handler);
              if a.None? then r == None && regions == old(regions) else r == Some(a.value.0) && regions == a.value.1
    {
      hide Tiles, Owner, AllocAsWritten, CarveAsWritten, FirstFit;
      var it := 0;
      assert regions[0..] == regions;
      while it < |regions|
        invariant it <= |regions| && regions == old(regions)
        invariant FirstFit(regions, npages) == it + FirstFit(regions[it..], npages)
      {
        FitNext(regions, npages, it);
        if regions[it].handler.Some? || regions[it].end - regions[it].begin < npages {
          it := it + 1;
          continue;
        }
        FoundFit(regions, npages, handler, it);
        var ret := TakeTop(it, npages, handler);
        return Some(ret);
      }
      NoFit(npages);
      NothingFits(regions, npages, handler);
      return None;
    }
  }
}
