/** A run that ends with an Alloc that never returns: ClaimRemoteFreeList leaves remote_check set
    (sys/slab_allocator.cpp:125-143, sys/slab_allocator.cpp:241-250, sys/slab_allocator.cpp:343-366). */
module SlabSpin {
  import opened Bits
  import opened Wrappers
  import opened SlabModel
  import opened SlabRuns
  import SlabSizing

  /** The root of objects of 64 pages: one object per slab of order 6, and a batch of one. */
  const ROOT: Root := Root(0x4_0000, 6, 1, 4)

  /** The second object, at the start of frame 64. */
  const NEXT: nat := 0x4_0000

  /** One cache, numbered 0, and one CPU, numbered 1. */
  function Table(cache: Cache, cpu: Cpu, slabs: map<nat, Slab>): Heap {
    Heap(map[0 := cache], map[1 := cpu], slabs, map p | p in slabs :: 0)
  }

  const BOTH: map<nat, Slab> := map[0 := Slab(0, 1, []), 64 := Slab(0, 1, [])]

  const START: Heap := Table(Cache([], [], [], false), Cpu([], None), map[])

  /** Two objects are allocated and freed on CPU 1, whose remote list reaches the watermark; the owner claims
      them and hands both out again. */
  const OPS: seq<Op> :=
    [NewSlab(0, 0), Take(0), NewSlab(0, 64), Take(0), Remote(1, 0), Remote(1, NEXT),
     ClaimStep(0, false), Pop(0), Pop(0)]

  /** One step from one state of the table to another. */
  ghost predicate Leads(h: Heap, clients: set<nat>, op: Op, g: Heap, after: set<nat>) {
    Enabled(ROOT, System(h, clients), op) && Step(ROOT, System(h, clients), op) == System(g, after)
  }

  lemma TableParts(cache: Cache, cpu: Cpu, slabs: map<nat, Slab>)
    ensures var h := Table(cache, cpu, slabs);
            && (forall x: Cache :: h.caches[0 := x] == map[0 := x]) && (forall x: Cpu :: h.cpus[1 := x] == map[1 := x])
            && h.caches[0] == cache && h.cpus[1] == cpu && h.slabs == slabs
  {
  }

  lemma Sizes()
    ensures ROOT.Ok() && ROOT.PerSlab() == 1 && Aligned(0, 6) && Aligned(64, 6)
  {
    assert Pow2(2) == 4;
    assert Pow2(4) == 16;
    assert Pow2(6) == 64;
    hide Pow2;
  }

  lemma OneObject(p: nat, owner: map<nat, nat>)
    ensures Carve(ROOT, p, 1) == [p * PAGE] && TagOwner(ROOT, owner, p, 1, 0) == owner[p := 0]
  {
    assert Carve(ROOT, p, 0) == [] && TagOwner(ROOT, owner, p, 0, 0) == owner;
    assert ROOT.ObjectAt(p, 0) == p * PAGE;
  }

  lemma NewSlabLeads(slabs: map<nat, Slab>, clients: set<nat>, p: nat)
    requires Aligned(p, 6) && p !in slabs
    ensures Leads(Table(Cache([], [], [], false), Cpu([], None), slabs), clients, NewSlab(0, p),
                  Table(Cache([], [p], [], false), Cpu([], None), slabs[p := Slab(0, 0, [p * PAGE])]), clients)
  {
    var h := Table(Cache([], [], [], false), Cpu([], None), slabs);
    var g := Table(Cache([], [p], [], false), Cpu([], None), slabs[p := Slab(0, 0, [p * PAGE])]);
    Sizes();
    OneObject(p, h.owner);
    TableParts(Cache([], [], [], false), Cpu([], None), slabs);
    assert g.owner == h.owner[p := 0];
    assert [p] + [] == [p];
    hide Carve, TagOwner, Aligned;
    assert AddSlab(ROOT, h, 0, p) == g;
  }

  lemma TakeLeads(slabs: map<nat, Slab>, clients: set<nat>, p: nat, o: nat)
    requires p in slabs && slabs[p] == Slab(0, 0, [o])
    ensures Leads(Table(Cache([], [p], [], false), Cpu([], None), slabs), clients, Take(0),
                  Table(Cache([], [], [], false), Cpu([], None), slabs[p := Slab(0, 1, [])]), clients + {o})
  {
    var h := Table(Cache([], [p], [], false), Cpu([], None), slabs);
    var g := Table(Cache([], [], [], false), Cpu([], None), slabs[p := Slab(0, 1, [])]);
    Sizes();
    TableParts(Cache([], [p], [], false), Cpu([], None), slabs);
    assert g.owner == h.owner;
    assert [o][1..] == [] && [p][1..] == [];
    assert TakePartial(ROOT, h, 0) == Got(g, o);
  }

  lemma RemoteLeads()
    ensures Leads(Table(Cache([], [], [], false), Cpu([], None), BOTH), {0, NEXT}, Remote(1, 0),
                  Table(Cache([], [], [], false), Cpu([0], Some(0)), BOTH), {NEXT})
  {
    var h := Table(Cache([], [], [], false), Cpu([], None), BOTH);
    var mid := Table(Cache([], [], [], false), Cpu([], Some(0)), BOTH);
    assert Owner(h, 0 / PAGE) == Some(0);
    TableParts(Cache([], [], [], false), Cpu([], None), BOTH);
    TableParts(Cache([], [], [], false), Cpu([], Some(0)), BOTH);
    assert Retarget(ROOT, h, 1, Some(0)) == mid;
    assert [0] + [] == [0];
    assert {0, NEXT} - {0} == {NEXT};
  }

  lemma RemoteFlushes()
    ensures Leads(Table(Cache([], [], [], false), Cpu([0], Some(0)), BOTH), {NEXT}, Remote(1, NEXT),
                  Table(Cache([], [], [NEXT, 0], true), Cpu([], Some(0)), BOTH), {})
  {
    var h := Table(Cache([], [], [], false), Cpu([0], Some(0)), BOTH);
    var mid := Table(Cache([], [], [], false), Cpu([NEXT, 0], Some(0)), BOTH);
    assert Owner(h, NEXT / PAGE) == Some(0);
    TableParts(Cache([], [], [], false), Cpu([0], Some(0)), BOTH);
    TableParts(Cache([], [], [], false), Cpu([NEXT, 0], Some(0)), BOTH);
    assert [NEXT] + [0] == [NEXT, 0];
    assert PushRemote(h, 1, NEXT) == mid;
    assert FlushRemoteList(ROOT, mid, 1) == Table(Cache([], [], [NEXT, 0], true), Cpu([], Some(0)), BOTH);
    assert {NEXT} - {NEXT} == {};
  }

  lemma ClaimLeads()
    ensures Leads(Table(Cache([], [], [NEXT, 0], true), Cpu([], Some(0)), BOTH), {}, ClaimStep(0, false),
                  Table(Cache([NEXT, 0], [], [], true), Cpu([], Some(0)), BOTH), {})
  {
    TableParts(Cache([], [], [NEXT, 0], true), Cpu([], Some(0)), BOTH);
    assert [] + [NEXT, 0] == [NEXT, 0];
  }

  lemma PopLeads(o: nat, rest: seq<nat>, clients: set<nat>)
    ensures Leads(Table(Cache([o] + rest, [], [], true), Cpu([], Some(0)), BOTH), clients, Pop(0),
                  Table(Cache(rest, [], [], true), Cpu([], Some(0)), BOTH), clients + {o})
  {
    TableParts(Cache([o] + rest, [], [], true), Cpu([], Some(0)), BOTH);
    assert ([o] + rest)[1..] == rest;
  }

  lemma RunStep(h: Heap, clients: set<nat>, ops: seq<Op>, g: Heap, after: set<nat>)
    requires ops != [] && Leads(h, clients, ops[0], g, after) && EnabledRun(ROOT, System(g, after), ops[1..])
    ensures EnabledRun(ROOT, System(h, clients), ops)
    ensures Run(ROOT, System(h, clients), ops) == Run(ROOT, System(g, after), ops[1..])
  {
    hide Enabled, Step;
  }

  const END: Heap := Table(Cache([], [], [], true), Cpu([], Some(0)), BOTH)

  /** The last three steps. */
  lemma ClaimedAndPopped()
    ensures var h := Table(Cache([], [], [NEXT, 0], true), Cpu([], Some(0)), BOTH);
            && EnabledRun(ROOT, System(h, {}), OPS[6..])
            && Run(ROOT, System(h, {}), OPS[6..]) == System(END, {NEXT, 0})
  {
    ClaimLeads();
    PopLeads(NEXT, [0], {});
    PopLeads(0, [], {NEXT});
    assert [NEXT] + [0] == [NEXT, 0] && [0] + [] == [0] && {} + {NEXT} == {NEXT} && {NEXT} + {0} == {NEXT, 0};
    var claimed := Table(Cache([NEXT, 0], [], [], true), Cpu([], Some(0)), BOTH);
    var popped := Table(Cache([0], [], [], true), Cpu([], Some(0)), BOTH);
    hide Leads, Enabled, Step, Table;
    assert OPS[6..][1..] == OPS[7..] && OPS[7..][1..] == OPS[8..] && OPS[8..][1..] == [];
    RunStep(popped, {NEXT}, OPS[8..], END, {NEXT, 0});
    RunStep(claimed, {}, OPS[7..], popped, {NEXT});
    RunStep(Table(Cache([], [], [NEXT, 0], true), Cpu([], Some(0)), BOTH), {}, OPS[6..], claimed, {});
  }

  /** The two steps that free the objects, and what follows. */
  lemma FreedAndClaimed()
    ensures var h := Table(Cache([], [], [], false), Cpu([], None), BOTH);
            && EnabledRun(ROOT, System(h, {0, NEXT}), OPS[4..])
            && Run(ROOT, System(h, {0, NEXT}), OPS[4..]) == System(END, {NEXT, 0})
  {
    ClaimedAndPopped();
    RemoteLeads();
    RemoteFlushes();
    hide Leads, Enabled, Step, Table, Run, EnabledRun;
    assert OPS[4..][1..] == OPS[5..] && OPS[5..][1..] == OPS[6..];
    RunStep(Table(Cache([], [], [], false), Cpu([0], Some(0)), BOTH), {NEXT}, OPS[5..],
            Table(Cache([], [], [NEXT, 0], true), Cpu([], Some(0)), BOTH), {});
    RunStep(Table(Cache([], [], [], false), Cpu([], None), BOTH), {0, NEXT}, OPS[4..],
            Table(Cache([], [], [], false), Cpu([0], Some(0)), BOTH), {NEXT});
  }

  /** The steps that add the second slab and take its object, and what follows. */
  lemma SecondObject()
    ensures var h := Table(Cache([], [], [], false), Cpu([], None), map[0 := Slab(0, 1, [])]);
            && EnabledRun(ROOT, System(h, {0}), OPS[2..])
            && Run(ROOT, System(h, {0}), OPS[2..]) == System(END, {NEXT, 0})
  {
    hide Leads, Enabled, Step, Table, Run, EnabledRun, Aligned;
    var used := map[0 := Slab(0, 1, [])];
    var two := used[64 := Slab(0, 0, [NEXT])];
    Sizes();
    FreedAndClaimed();
    NewSlabLeads(used, {0}, 64);
    TakeLeads(two, {0}, 64, NEXT);
    assert two[64 := Slab(0, 1, [])] == BOTH;
    assert {0} + {NEXT} == {0, NEXT};
    assert OPS[2..][1..] == OPS[3..] && OPS[3..][1..] == OPS[4..];
    RunStep(Table(Cache([], [64], [], false), Cpu([], None), two), {0}, OPS[3..],
            Table(Cache([], [], [], false), Cpu([], None), BOTH), {0, NEXT});
    RunStep(Table(Cache([], [], [], false), Cpu([], None), used), {0}, OPS[2..],
            Table(Cache([], [64], [], false), Cpu([], None), two), {0});
  }

  lemma WholeRun()
    ensures EnabledRun(ROOT, System(START, {}), OPS)
    ensures Run(ROOT, System(START, {}), OPS) == System(END, {NEXT, 0})
  {
    hide Leads, Enabled, Step, Table, Run, EnabledRun, Aligned;
    var none: map<nat, Slab> := map[];
    var one := none[0 := Slab(0, 0, [0])];
    Sizes();
    SecondObject();
    NewSlabLeads(none, {}, 0);
    TakeLeads(one, {}, 0, 0);
    assert {} + {0} == {0} && one[0 := Slab(0, 1, [])] == map[0 := Slab(0, 1, [])];
    assert OPS[1..][1..] == OPS[2..];
    RunStep(Table(Cache([], [0], [], false), Cpu([], None), one), {}, OPS[1..],
            Table(Cache([], [], [], false), Cpu([], None), map[0 := Slab(0, 1, [])]), {0});
    RunStep(START, {}, OPS, Table(Cache([], [0], [], false), Cpu([], None), one), {});
  }

  /** The claim left the flag set and the objects are handed out, so an Alloc in this state goes round for ever. */
  lemma SpinIsReached(n: nat)
    ensures ROOT.Ok() && Empty(START) && EnabledRun(ROOT, System(START, {}), OPS)
    ensures var end := Run(ROOT, System(START, {}), OPS);
            && 1 in end.h.cpus && 0 in end.h.caches && Passes(ROOT, end.h, 1, 0, false, n) == Again(end.h)
  {
    Sizes();
    WholeRun();
    hide Run, EnabledRun, Passes;
    SpinsForever(ROOT, END, 1, 0, n);
  }

  /** These are the numbers of a root of this size. */
  lemma RootOfSize()
    ensures SlabSizing.RightOrder(ROOT.size, ROOT.order)
    ensures ROOT == Root(ROOT.size, ROOT.order, SlabSizing.FreeBatch(ROOT.size), SlabSizing.FreeBatch(ROOT.size) * 4)
  {
    forall k: nat ensures SlabSizing.SlabBytes(k) >= ROOT.size <==> k >= 6 {
      assert Pow2(2) == 4;
      assert Pow2(4) == 16;
      assert Pow2(6) == 64;
      if k >= 6 { Pow2Split(6, k); } else { Pow2Split(k + 1, 6); }
    }
    assert SlabSizing.SlabBytes(6) >= ROOT.size;
  }
}
