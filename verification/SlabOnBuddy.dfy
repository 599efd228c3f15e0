/** The slab allocator on top of the page allocator: where its slabs come from and where they go
    (sys/slab_allocator.cpp:208-238, sys/slab_allocator.cpp:300-328). */
module SlabOnBuddy {
  import opened Bits
  import opened Wrappers
  import Slab = SlabModel
  import SlabInvariant
  import SlabSteps
  import SlabPages
  import SlabRuns
  import Buddy = BuddyModel
  import BuddyInvariant
  import BuddySteps
  import BuddyRuns

  /** The page allocator and the slab allocator, each with what its clients hold. */
  datatype System = System(pages: BuddyRuns.System, slab: SlabRuns.System)

  /** The slabs as blocks of frames. */
  ghost function SlabBlocks(root: Slab.Root, h: Slab.Heap): set<Buddy.Block> {
    set p | p in h.slabs :: Buddy.Block(p, root.order)
  }

  /** Both allocators are in order, and every slab is a block of the root's order that is out. */
  ghost predicate Good(root: Slab.Root, sys: System, node: set<nat>) {
    && root.Ok()
    && SlabRuns.Good(root, sys.slab)
    && BuddyRuns.Good(sys.pages, node)
    && SlabBlocks(root, sys.slab.h) <= sys.pages.live
  }

  /** Steps of the slab allocator, and of other clients of the page allocator. */
  datatype Op =
    | SlabStep(op: SlabRuns.Op)
    | GrowCache(c: nat)
    | AllocBlock(order: nat)
    | FreeBlock(b: Buddy.Block)

  /** Other clients free blocks that they hold, not the slabs. */
  ghost predicate Enabled(root: Slab.Root, sys: System, op: Op) {
    match op
    case SlabStep(o) => !o.NewSlab? && SlabRuns.Enabled(root, sys.slab, o)
    case GrowCache(c) => c in sys.slab.h.caches
    case AllocBlock(order) => true
    case FreeBlock(b) => b in sys.pages.live && b !in SlabBlocks(root, sys.slab.h)
  }

  /** A slab that a step gave up goes back to the page allocator. */
  ghost function GiveBack(pages: BuddyRuns.System, gone: set<Buddy.Block>): BuddyRuns.System {
    if gone == {} then pages
    else
      var b :| b in gone;
      BuddyRuns.Step(pages, BuddyRuns.DoFree(b))
  }

  /** Growing a cache asks the page allocator for a block, writes the block's first tag and adds the slab. */
  ghost function Grow(root: Slab.Root, sys: System, c: nat): System
    requires root.size > 0 && c in sys.slab.h.caches
  {
    var pages := BuddyRuns.Step(sys.pages, BuddyRuns.DoAlloc(root.order));
    var r := Buddy.Alloc(sys.pages.s, root.order).1;
    if r.None? then System(pages, sys.slab)
    else
      System(BuddyRuns.Step(pages, BuddyRuns.Overwrite(r.value, Buddy.Page(Buddy.InSlabAllocator, 0))),
             SlabRuns.System(Slab.AddSlab(root, sys.slab.h, c, r.value), sys.slab.clients))
  }

  ghost function Step(root: Slab.Root, sys: System, op: Op): System
    requires root.size > 0 && Enabled(root, sys, op)
  {
    match op
    case SlabStep(o) =>
      var slab := SlabRuns.Step(root, sys.slab, o);
      System(GiveBack(sys.pages, SlabBlocks(root, sys.slab.h) - SlabBlocks(root, slab.h)), slab)
    case GrowCache(c) => Grow(root, sys, c)
    case AllocBlock(order) => sys.(pages := BuddyRuns.Step(sys.pages, BuddyRuns.DoAlloc(order)))
    case FreeBlock(b) => sys.(pages := BuddyRuns.Step(sys.pages, BuddyRuns.DoFree(b)))
  }

  // ---- which slabs a step gives up ----

  /** A step gives up at most one slab and makes none. */
  lemma SlabsAfter(root: Slab.Root, sys: SlabRuns.System, op: SlabRuns.Op)
    requires root.size > 0 && SlabRuns.Enabled(root, sys, op) && !op.NewSlab?
    ensures var g := SlabRuns.Step(root, sys, op).h;
            && g.slabs.Keys <= sys.h.slabs.Keys
            && forall p, q :: p in sys.h.slabs && p !in g.slabs && q in sys.h.slabs && q !in g.slabs ==> p == q
  {
    match op
    case FlushStep(k, c) => FlushSlabs(root, sys.h, k, c);
    case Remote(k, o) => SlabsStay(root, sys.h, k, o);
    case _ =>
  }

  lemma SlabsStay(root: Slab.Root, h: Slab.Heap, k: nat, o: nat)
    requires k in h.cpus
    ensures Slab.FreeRemote(root, h, k, o).slabs == h.slabs
  {
  }

  lemma FlushSlabs(root: Slab.Root, h: Slab.Heap, k: nat, c: nat)
    requires root.size > 0 && k in h.cpus && c in h.caches && h.caches[c].objects != []
    ensures var p := root.HeadOf(h.caches[c].objects[0]);
            var g := Slab.FlushOne(root, h, k, c);
            g.slabs.Keys == h.slabs.Keys || g.slabs.Keys == h.slabs.Keys - {p}
  {
    var o := h.caches[c].objects[0];
    SlabsStay(root, Slab.PopObject(h, c), k, o);
    hide Slab.FreeRemote;
  }

  lemma GoneBlocks(root: Slab.Root, h: Slab.Heap, g: Slab.Heap)
    requires g.slabs.Keys <= h.slabs.Keys
    requires forall p, q :: p in h.slabs && p !in g.slabs && q in h.slabs && q !in g.slabs ==> p == q
    ensures SlabBlocks(root, g) <= SlabBlocks(root, h)
    ensures forall b, d :: b in SlabBlocks(root, h) - SlabBlocks(root, g) && d in SlabBlocks(root, h) - SlabBlocks(root, g) ==> b == d
  {
  }

  // ---- every step keeps both allocators in order ----

  lemma GiveBackKeeps(pages: BuddyRuns.System, gone: set<Buddy.Block>, node: set<nat>)
    requires BuddyRuns.Good(pages, node) && gone <= pages.live
    requires forall b, d :: b in gone && d in gone ==> b == d
    ensures BuddyRuns.Good(GiveBack(pages, gone), node) && GiveBack(pages, gone).live == pages.live - gone
  {
    hide BuddyRuns.Good;
    if gone != {} {
      var b :| b in gone;
      assert gone == {b};
      FreeIsLegal(pages, b, node);
      BuddyRuns.StepKeeps(pages, BuddyRuns.DoFree(b), node);
    }
  }

  lemma FreeIsLegal(pages: BuddyRuns.System, b: Buddy.Block, node: set<nat>)
    requires BuddyRuns.Good(pages, node) && b in pages.live
    ensures BuddyRuns.Legal(pages, BuddyRuns.DoFree(b))
    ensures BuddyRuns.Step(pages, BuddyRuns.DoFree(b)).live == pages.live - {b}
  {
    BuddySteps.FreeLowerKeeps(pages.s, pages.live, b, node);
    hide BuddyInvariant.Inv;
  }

  /** What the page allocator returns is an aligned block that no slab occupies. */
  lemma BlockIsNew(pages: BuddyRuns.System, order: nat, node: set<nat>)
    requires BuddyRuns.Good(pages, node)
    ensures var r := Buddy.Alloc(pages.s, order).1;
            r.Some? ==> && Aligned(r.value, order)
                        && Buddy.Block(r.value, order) !in pages.live
                        && BuddyRuns.Step(pages, BuddyRuns.DoAlloc(order)).live == pages.live + {Buddy.Block(r.value, order)}
  {
    BuddySteps.AllocKeeps(pages.s, pages.live, node, order);
    var (t, r) := Buddy.Alloc(pages.s, order);
    if r.Some? {
      var b := Buddy.Block(r.value, order);
      assert b in Buddy.FreeSet(t) + (pages.live + {b}) + {};
      assert b.WellPlaced();
    }
  }

  /** The first frame of a block that is out may be tagged for the slab allocator. */
  lemma TagIsLegal(pages: BuddyRuns.System, b: Buddy.Block)
    requires b in pages.live
    ensures BuddyRuns.Legal(pages, BuddyRuns.Overwrite(b.pfn, Buddy.Page(Buddy.InSlabAllocator, 0)))
    ensures BuddyRuns.Step(pages, BuddyRuns.Overwrite(b.pfn, Buddy.Page(Buddy.InSlabAllocator, 0))).live == pages.live
  {
    assert b.Covers(b.pfn);
  }

  /** The page allocator's side of growing a cache. */
  lemma BlockTaken(pages: BuddyRuns.System, order: nat, node: set<nat>)
    requires BuddyRuns.Good(pages, node) && Buddy.Alloc(pages.s, order).1.Some?
    ensures var pfn := Buddy.Alloc(pages.s, order).1.value;
            var after := BuddyRuns.Step(BuddyRuns.Step(pages, BuddyRuns.DoAlloc(order)),
                                        BuddyRuns.Overwrite(pfn, Buddy.Page(Buddy.InSlabAllocator, 0)));
            && BuddyRuns.Good(after, node)
            && after.live == pages.live + {Buddy.Block(pfn, order)}
            && Aligned(pfn, order) && Buddy.Block(pfn, order) !in pages.live
  {
    BlockIsNew(pages, order, node);
    hide BuddyRuns.Good, BuddyRuns.Step, BuddyRuns.Legal, Buddy.Alloc;
    AllocIsLegal(pages, order);
    BuddyRuns.StepKeeps(pages, BuddyRuns.DoAlloc(order), node);
    var pfn := Buddy.Alloc(pages.s, order).1.value;
    var after := BuddyRuns.Step(pages, BuddyRuns.DoAlloc(order));
    TagIsLegal(after, Buddy.Block(pfn, order));
    BuddyRuns.StepKeeps(after, BuddyRuns.Overwrite(pfn, Buddy.Page(Buddy.InSlabAllocator, 0)), node);
  }

  lemma AllocIsLegal(pages: BuddyRuns.System, order: nat)
    ensures BuddyRuns.Legal(pages, BuddyRuns.DoAlloc(order))
  {
  }

  /** The slab allocator's side. */
  lemma SlabAdded(root: Slab.Root, slab: SlabRuns.System, c: nat, p: nat)
    requires root.Ok() && SlabRuns.Good(root, slab) && c in slab.h.caches && Aligned(p, root.order)
    requires p !in slab.h.slabs
    ensures var g := Slab.AddSlab(root, slab.h, c, p);
            && SlabRuns.Good(root, SlabRuns.System(g, slab.clients))
            && SlabBlocks(root, g) == SlabBlocks(root, slab.h) + {Buddy.Block(p, root.order)}
  {
    hide SlabRuns.Good, Slab.AddSlab;
    SlabRuns.StepKeeps(root, slab, SlabRuns.NewSlab(c, p));
    AddedSlabs(root, slab.h, c, p);
  }

  lemma AddedSlabs(root: Slab.Root, h: Slab.Heap, c: nat, p: nat)
    requires root.size > 0 && c in h.caches
    ensures Slab.AddSlab(root, h, c, p).slabs.Keys == h.slabs.Keys + {p}
  {
  }

  lemma GrowKeeps(root: Slab.Root, sys: System, c: nat, node: set<nat>)
    requires Good(root, sys, node) && c in sys.slab.h.caches
    ensures Good(root, Grow(root, sys, c), node)
  {
    hide BuddyRuns.Good, SlabRuns.Good, BuddyRuns.Step, Slab.AddSlab, Buddy.Alloc;
    var r := Buddy.Alloc(sys.pages.s, root.order).1;
    if r.Some? {
      BlockTaken(sys.pages, root.order, node);
      var p := r.value;
      assert p in sys.slab.h.slabs ==> Buddy.Block(p, root.order) in SlabBlocks(root, sys.slab.h);
      SlabAdded(root, sys.slab, c, p);
    } else {
      AllocIsLegal(sys.pages, root.order);
      BuddyRuns.StepKeeps(sys.pages, BuddyRuns.DoAlloc(root.order), node);
      NoBlock(sys.pages, root.order);
    }
  }

  lemma NoBlock(pages: BuddyRuns.System, order: nat)
    ensures Buddy.Alloc(pages.s, order).1.None? ==> BuddyRuns.Step(pages, BuddyRuns.DoAlloc(order)).live == pages.live
  {
  }

  lemma SlabSide(root: Slab.Root, slab: SlabRuns.System, o: SlabRuns.Op)
    requires root.Ok() && SlabRuns.Good(root, slab) && SlabRuns.Enabled(root, slab, o) && !o.NewSlab?
    ensures var t := SlabRuns.Step(root, slab, o);
            var gone := SlabBlocks(root, slab.h) - SlabBlocks(root, t.h);
            && SlabRuns.Good(root, t)
            && SlabBlocks(root, t.h) <= SlabBlocks(root, slab.h)
            && forall b, d :: b in gone && d in gone ==> b == d
  {
    SlabsAfter(root, slab, o);
    SlabRuns.StepKeeps(root, slab, o);
    var t := SlabRuns.Step(root, slab, o);
    hide SlabRuns.Step, SlabRuns.Good, SlabRuns.Enabled;
    GoneBlocks(root, slab.h, t.h);
  }

  /** A slab that a slab step gives up is a block that the slab allocator obtained and still holds; it goes
      back, and nothing else does. */
  lemma SlabStepKeeps(root: Slab.Root, sys: System, o: SlabRuns.Op, node: set<nat>)
    requires root.size > 0 && Good(root, sys, node) && Enabled(root, sys, SlabStep(o))
    ensures var t := Step(root, sys, SlabStep(o));
            var gone := SlabBlocks(root, sys.slab.h) - SlabBlocks(root, t.slab.h);
            && Good(root, t, node)
            && gone <= sys.pages.live && t.pages.live == sys.pages.live - gone
            && SlabBlocks(root, t.slab.h) == SlabBlocks(root, sys.slab.h) - gone
            && forall b, d :: b in gone && d in gone ==> b == d
  {
    hide SlabRuns.Step, SlabRuns.Good, SlabRuns.Enabled, BuddyRuns.Good, GiveBack, SlabBlocks;
    SlabSide(root, sys.slab, o);
    var slab := SlabRuns.Step(root, sys.slab, o);
    GiveBackKeeps(sys.pages, SlabBlocks(root, sys.slab.h) - SlabBlocks(root, slab.h), node);
  }

  lemma StepKeeps(root: Slab.Root, sys: System, op: Op, node: set<nat>)
    requires root.size > 0 && Good(root, sys, node) && Enabled(root, sys, op)
    ensures Good(root, Step(root, sys, op), node)
  {
    match op
    case SlabStep(o) => SlabStepKeeps(root, sys, o, node);
    case GrowCache(c) => GrowKeeps(root, sys, c, node);
    case AllocBlock(order) =>
      BlockIsNew(sys.pages, order, node);
      NoBlock(sys.pages, order);
      BuddyRuns.StepKeeps(sys.pages, BuddyRuns.DoAlloc(order), node);
      hide BuddyRuns.Good, SlabRuns.Good, BuddyRuns.Step, Buddy.Alloc;
    case FreeBlock(b) =>
      FreeIsLegal(sys.pages, b, node);
      BuddyRuns.StepKeeps(sys.pages, BuddyRuns.DoFree(b), node);
      hide BuddyRuns.Good, SlabRuns.Good, BuddyRuns.Step;
  }

  ghost predicate EnabledRun(root: Slab.Root, sys: System, ops: seq<Op>)
    requires root.size > 0
    decreases |ops|
  {
    ops == [] || (Enabled(root, sys, ops[0]) && EnabledRun(root, Step(root, sys, ops[0]), ops[1..]))
  }

  ghost function Run(root: Slab.Root, sys: System, ops: seq<Op>): System
    requires root.size > 0 && EnabledRun(root, sys, ops)
    decreases |ops|
  {
    if ops == [] then sys else Run(root, Step(root, sys, ops[0]), ops[1..])
  }

  lemma {:induction false} RunKeeps(root: Slab.Root, sys: System, ops: seq<Op>, node: set<nat>)
    requires root.size > 0 && Good(root, sys, node) && EnabledRun(root, sys, ops)
    ensures Good(root, Run(root, sys, ops), node)
    decreases |ops|
  {
    hide Good, Enabled, Step;
    if ops != [] {
      StepKeeps(root, sys, ops[0], node);
      RunKeeps(root, Step(root, sys, ops[0]), ops[1..], node);
    }
  }

  /** An object that a client holds lies in a block that is out, so none of its frames is free. */
  lemma ObjectsLieInBlocks(root: Slab.Root, sys: System, node: set<nat>, o: nat)
    requires Good(root, sys, node) && o in sys.slab.clients
    ensures var b := Buddy.Block(root.HeadOf(o), root.order);
            && b in sys.pages.live && b.Covers(o / PAGE)
            && !Buddy.Covered(Buddy.FreeSet(sys.pages.s), o / PAGE)
  {
    ObjectInSlab(root, sys.slab, o);
    var b := Buddy.Block(root.HeadOf(o), root.order);
    hide BuddyRuns.Good, SlabRuns.Good, Buddy.FreeSet, Buddy.Covered;
    assert b in SlabBlocks(root, sys.slab.h);
    NotFree(sys.pages, node, b, o / PAGE);
  }

  lemma ObjectInSlab(root: Slab.Root, slab: SlabRuns.System, o: nat)
    requires root.Ok() && SlabRuns.Good(root, slab) && o in slab.clients
    ensures root.HeadOf(o) in slab.h.slabs && Buddy.Block(root.HeadOf(o), root.order).Covers(o / PAGE)
  {
    hide SlabInvariant.Inv, SlabRuns.Clients;
    var place :| SlabInvariant.Inv(root, slab.h, place) && SlabRuns.Clients(place) == slab.clients;
    SlabRuns.ClientHas(place, o);
    PlacedInSlab(root, slab.h, place, o);
  }

  lemma PlacedInSlab(root: Slab.Root, h: Slab.Heap, place: map<nat, SlabInvariant.Place>, o: nat)
    requires SlabInvariant.Inv(root, h, place) && o in place
    ensures root.HeadOf(o) in h.slabs && Buddy.Block(root.HeadOf(o), root.order).Covers(o / PAGE)
  {
    hide SlabInvariant.Inv, Aligned, AlignDown;
    SlabSteps.InvParts(root, h, place, o);
    var p := root.HeadOf(o);
    SlabSteps.SlabParts(root, h, place, p);
    var i: nat :| i < root.PerSlab() && o == root.ObjectAt(p, i);
    SlabInvariant.ObjectFrame(root, p, i);
  }

  lemma NotFree(pages: BuddyRuns.System, node: set<nat>, b: Buddy.Block, f: nat)
    requires BuddyRuns.Good(pages, node) && b in pages.live && b.Covers(f)
    ensures !Buddy.Covered(Buddy.FreeSet(pages.s), f)
  {
    BuddyRuns.InvPartition(pages, node);
    hide BuddyInvariant.Inv;
    var blocks := Buddy.FreeSet(pages.s) + pages.live;
    forall d | d in Buddy.FreeSet(pages.s) ensures !d.Covers(f) {
      assert d in blocks && b in blocks && d != b;
      assert Buddy.Disjoint(d, b);
    }
  }

  /** Over every run of both allocators and of other clients of the page allocator, from its Init and from
      empty caches: free and outstanding blocks partition the node's frames, every slab is one outstanding
      block, and an object in use lies in such a block, so that none of its frames is free. */
  lemma EveryRun(root: Slab.Root, frames: map<nat, Buddy.Page>, ranges: seq<BuddyRuns.Range>, start: Slab.Heap,
                 ops: seq<Op>)
    requires root.Ok() && SlabRuns.Empty(start)
    requires forall f :: f in frames ==> frames[f].usage == Buddy.Reserved
    requires BuddyRuns.RangesOk(ranges) && BuddyRuns.Frames(ranges) <= frames.Keys
    requires EnabledRun(root, Start(frames, ranges, start), ops)
    ensures var end := Run(root, Start(frames, ranges, start), ops);
            && Buddy.Partition(Buddy.FreeSet(end.pages.s) + end.pages.live, BuddyRuns.Frames(ranges))
            && (forall p :: p in end.slab.h.slabs ==> Buddy.Block(p, root.order) in end.pages.live)
            && (forall o :: o in end.slab.clients ==>
                  && Buddy.Block(root.HeadOf(o), root.order) in end.pages.live
                  && Buddy.Block(root.HeadOf(o), root.order).Covers(o / PAGE)
                  && !Buddy.Covered(Buddy.FreeSet(end.pages.s), o / PAGE))
  {
    BuddyRuns.InitKeeps(frames, ranges);
    SlabRuns.EmptyGood(root, start);
    var begin := Start(frames, ranges, start);
    assert SlabBlocks(root, begin.slab.h) == {};
    RunKeeps(root, begin, ops, BuddyRuns.Frames(ranges));
    var end := Run(root, begin, ops);
    BuddyRuns.InvPartition(end.pages, BuddyRuns.Frames(ranges));
    hide Run, EnabledRun, Start, BuddyRuns.Init, BuddyRuns.Frames, SlabRuns.Good, BuddyRuns.Good, Buddy.Partition,
      Buddy.Covered, Buddy.FreeSet;
    forall p | p in end.slab.h.slabs ensures Buddy.Block(p, root.order) in end.pages.live {
      assert Buddy.Block(p, root.order) in SlabBlocks(root, end.slab.h);
    }
    forall o | o in end.slab.clients
      ensures Buddy.Block(root.HeadOf(o), root.order) in end.pages.live
      ensures Buddy.Block(root.HeadOf(o), root.order).Covers(o / PAGE)
      ensures !Buddy.Covered(Buddy.FreeSet(end.pages.s), o / PAGE)
    {
      ObjectsLieInBlocks(root, end, BuddyRuns.Frames(ranges), o);
    }
  }

  ghost function Start(frames: map<nat, Buddy.Page>, ranges: seq<BuddyRuns.Range>, start: Slab.Heap): System
    requires forall i :: 0 <= i < |ranges| ==> ranges[i].start < ranges[i].end
  {
    System(BuddyRuns.System(BuddyRuns.Init(BuddyRuns.Empty(frames), ranges), {}), SlabRuns.System(start, {}))
  }
}
