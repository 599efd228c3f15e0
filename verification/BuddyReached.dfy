/** The state in which `Free` as written goes wrong is one that calls reach: `Init`, two allocations and a free
    (sys/page_allocator.cpp). */
module BuddyReached {
  import opened Bits
  import opened Wrappers
  import opened BuddyModel
  import opened BuddyInit
  import opened BuddyFree
  import opened BuddyRuns

  /** Four frames, with free lists for the orders 0 to 2. */
  function Stage(l0: seq<nat>, l1: seq<nat>, l2: seq<nat>, p0: Page, p1: Page, p2: Page): State {
    State([l0, l1, l2, [], [], [], [], [], [], [], [], []], map[0 := p0, 1 := p1, 2 := p2, 3 := Page(Reserved, 0)])
  }

  const NEW: Page := Page(Reserved, 0)

  const FRAMES: map<nat, Page> := map[0 := NEW, 1 := NEW, 2 := NEW, 3 := NEW]

  const OPS: seq<Op> := [DoAlloc(0), DoAlloc(0), DoFreeAsWritten(Block(0, 0))]

  function Started(): State { Stage([], [], [0], Page(InPageAllocator, 2), NEW, NEW) }

  function OneOut(): State {
    Stage([1], [2], [], Page(InUse, 2), Page(InPageAllocator, 0), Page(InPageAllocator, 1))
  }

  function TwoOut(): State {
    Stage([], [2], [], Page(InUse, 2), Page(InUse, 0), Page(InPageAllocator, 1))
  }

  lemma Powers()
    ensures Pow2(0) == 1 && Pow2(1) == 2 && Pow2(2) == 4
    ensures FlipBit(0, 0) == 1 && FlipBit(0, 1) == 2
  {
    assert Pow2(1) == 2;
  }

  lemma FlsFour()
    ensures Fls(4) == 2
  {
    assert Fls(2) == 1 + Fls(1);
  }

  lemma DecomposeIs(start: nat, end: nat)
    requires start < end && Divide(start, end) == 0
    ensures Decompose(start, end) == Back(0, end)
  {
    hide Divide, Back;
    assert start == 0 by { DivideBounds(start, end); }
    assert Front(0, 0) == [];
  }

  lemma OneBlock()
    ensures Decompose(0, 4) == [Block(0, 2)]
  {
    hide Divide, Fls, Pow2, Decompose, Aligned, Front;
    Powers();
    FlsFour();
    DivideBounds(0, 4);
    DecomposeIs(0, 4);
    assert Back(4, 4) == [];
  }

  lemma StartedIs()
    ensures RangesOk([Range(0, 4)]) && Init(Empty(FRAMES), [Range(0, 4)]) == Started()
  {
    hide Decompose, Release;
    OneBlock();
    var ranges := [Range(0, 4)];
    var s := Empty(FRAMES);
    assert ranges[..0] == [];
    assert Init(s, []) == s;
    ReleaseOneBlock(s, Block(0, 2));
    assert [0] + [] == [0];
    assert Push(s, Block(0, 2)).lists == Started().lists;
    assert Push(s, Block(0, 2)).pages == Started().pages;
  }

  lemma ReleaseOneBlock(s: State, b: Block)
    requires |s.lists| == MAX_ORDER + 1 && b.order <= MAX_ORDER
    ensures Release(s, [b]) == Push(s, b)
  {
    assert [b][1..] == [];
    assert Release(Push(s, b), []) == Push(s, b);
  }

  lemma FirstAlloc()
    ensures Alloc(Started(), 0) == (OneOut(), Some(0))
  {
    Powers();
    hide Pow2, FlipBit, SplitDown, Push, MarkInUse, Stage, Started, OneOut;
    HalfSplit();
    Split();
    FirstPopped();
    SplitDownDone(WasSplit());
    SplitDownNext(WasHalfSplit(), 0, 1, 0);
    SplitDownNext(PopFront(Started(), 2), 0, 2, 0);
    AllocUnfolds(Started(), 0);
  }

  function WasHalfSplit(): (s: State)
    ensures |s.lists| == MAX_ORDER + 1
  {
    Stage([], [2], [], Page(InPageAllocator, 2), NEW, Page(InPageAllocator, 1))
  }

  function WasSplit(): (s: State)
    ensures |s.lists| == MAX_ORDER + 1
  {
    Stage([1], [2], [], Page(InPageAllocator, 2), Page(InPageAllocator, 0), Page(InPageAllocator, 1))
  }

  lemma FirstPopped()
    ensures |Started().lists| == MAX_ORDER + 1 && FindOrder(Started().lists, 0) == 2 && Started().lists[2] == [0]
    ensures MarkInUse(WasSplit(), 0) == OneOut()
  {
    assert MarkInUse(WasSplit(), 0).pages == OneOut().pages;
  }

  lemma HalfSplit()
    ensures |Started().lists| == MAX_ORDER + 1 && Started().lists[2] != []
    ensures |PopFront(Started(), 2).lists| == MAX_ORDER + 1
    ensures Push(PopFront(Started(), 2), Block(2, 1)) == WasHalfSplit()
  {
    assert [0][1..] == [] && [2] + [] == [2];
    var t := Push(PopFront(Started(), 2), Block(2, 1));
    assert t.lists == WasHalfSplit().lists;
    assert t.pages == WasHalfSplit().pages;
  }

  lemma Split()
    ensures Push(WasHalfSplit(), Block(1, 0)) == WasSplit()
  {
    assert [1] + [] == [1];
    var u := Push(WasHalfSplit(), Block(1, 0));
    assert u.lists == WasSplit().lists;
    assert u.pages == WasSplit().pages;
  }

  lemma SplitDownDone(s: State)
    requires |s.lists| == MAX_ORDER + 1
    ensures SplitDown(s, 0, 0, 0) == s
  {
  }

  lemma SecondAlloc()
    ensures Alloc(OneOut(), 0) == (TwoOut(), Some(1))
  {
    assert [1][1..] == [];
    var s := PopFront(OneOut(), 0);
    assert s.lists == TwoOut().lists;
    assert SplitDown(s, 1, 0, 0) == s;
    assert MarkInUse(s, 1).pages == TwoOut().pages;
  }

  lemma FirstFree()
    ensures FreeAsWritten(TwoOut(), Block(0, 0)) == FourFrames() && !MeetsLowerBuddy(TwoOut(), 0, 0)
  {
    Powers();
    hide Pow2, FlipBit;
    assert [0] + [] == [0];
    var s := TwoOut();
    assert MergeAsWritten(s, 0, 0) == (s, 0);
    assert Push(s, Block(0, 0)).lists == FourFrames().lists;
    assert Push(s, Block(0, 0)).pages == FourFrames().pages;
  }

  lemma RunNext(sys: System, ops: seq<Op>)
    requires ops != [] && Legal(sys, ops[0]) && LegalRun(Step(sys, ops[0]), ops[1..])
    ensures LegalRun(sys, ops) && Run(sys, ops) == Run(Step(sys, ops[0]), ops[1..])
  {
    hide Legal, Step;
  }

  lemma StepsAre()
    ensures Legal(System(Started(), {}), DoAlloc(0))
    ensures Step(System(Started(), {}), DoAlloc(0)) == System(OneOut(), {Block(0, 0)})
    ensures Legal(System(OneOut(), {Block(0, 0)}), DoAlloc(0))
    ensures Step(System(OneOut(), {Block(0, 0)}), DoAlloc(0)) == System(TwoOut(), {Block(0, 0), Block(1, 0)})
    ensures Legal(System(TwoOut(), {Block(0, 0), Block(1, 0)}), DoFreeAsWritten(Block(0, 0)))
    ensures Step(System(TwoOut(), {Block(0, 0), Block(1, 0)}), DoFreeAsWritten(Block(0, 0)))
         == System(FourFrames(), {Block(1, 0)})
  {
    hide Alloc, FreeAsWritten, MeetsLowerBuddy;
    FirstAlloc();
    SecondAlloc();
    FirstFree();
    assert {Block(0, 0), Block(1, 0)} - {Block(0, 0)} == {Block(1, 0)};
    assert {Block(0, 0)} + {Block(1, 0)} == {Block(0, 0), Block(1, 0)};
  }

  /** A legal run from `Init` on frames 0 to 3 ends in that state; to free frame 1 then is what `Free` as written
      gets wrong. */
  lemma FourFramesReached()
    ensures RangesOk([Range(0, 4)])
    ensures var start := System(Init(Empty(FRAMES), [Range(0, 4)]), {});
            LegalRun(start, OPS) && Run(start, OPS) == System(FourFrames(), {Block(1, 0)})
    ensures MeetsLowerBuddy(FourFrames(), 1, 0)
  {
    StartedIs();
    StepsAre();
    LowerMet();
    hide Legal, Step, LegalRun, Run, Init, Started, OneOut, TwoOut, FourFrames;
    var last := System(FourFrames(), {Block(1, 0)});
    assert OPS[1..][0] == DoAlloc(0) && OPS[1..][1..][0] == DoFreeAsWritten(Block(0, 0)) && OPS[1..][1..][1..] == [];
    NoSteps(last);
    RunNext(System(TwoOut(), {Block(0, 0), Block(1, 0)}), OPS[1..][1..]);
    RunNext(System(OneOut(), {Block(0, 0)}), OPS[1..]);
    RunNext(System(Started(), {}), OPS);
  }

  lemma NoSteps(sys: System)
    ensures LegalRun(sys, []) && Run(sys, []) == sys
  {
  }

  lemma LowerMet()
    ensures MeetsLowerBuddy(FourFrames(), 1, 0)
  {
    FourFramesFree();
    hide FreeSet, FourFrames;
    assert FlipBit(1, 0) == 0 && Pow2(1) == 2;
    assert MeetsLowerAt(FourFrames(), 1, 0, 0);
  }
}
