/** The page allocator's state and its operations as functions (sys/page_allocator.cpp,
    sys/page_allocator.hpp), with the notion of a partition of a node's frames into blocks. */
module BuddyModel {
  import opened Bits
  import opened Sequences
  import opened Wrappers

  const MAX_ORDER: nat := 11

  datatype Usage = Reserved | InPageAllocator | InSlabAllocator | InUse

  /** The part of `struct page` the allocator reads: one usage byte and one order byte. */
  datatype Page = Page(usage: Usage, order: nat)

  datatype Block = Block(pfn: nat, order: nat) {
    function End(): nat { pfn + Pow2(order) }

    ghost predicate Covers(f: nat) { pfn <= f < End() }

    ghost predicate WellPlaced() { order <= MAX_ORDER && Aligned(pfn, order) }

    function Buddy(): Block { Block(FlipBit(pfn, order), order) }

    /** The block that this one and its buddy make together. */
    function Parent(): Block {
      Block(if Buddy().pfn < pfn then Buddy().pfn else pfn, order + 1)
    }

    function UpperHalf(): Block
      requires order > 0
    {
      Block(pfn + Pow2(order - 1), order - 1)
    }
  }

  ghost predicate Disjoint(b: Block, c: Block) {
    b.End() <= c.pfn || c.End() <= b.pfn
  }

  ghost predicate Covered(blocks: set<Block>, f: nat) {
    exists b :: b in blocks && b.Covers(f)
  }

  /** The blocks are aligned, apart from each other, and hold exactly the frames of the node. */
  ghost predicate Partition(blocks: set<Block>, node: set<nat>) {
    && (forall b :: b in blocks ==> b.WellPlaced())
    && (forall b, c :: b in blocks && c in blocks && b != c ==> Disjoint(b, c))
    && (forall f: nat :: f in node <==> Covered(blocks, f))
  }

  ghost predicate NoBuddies(blocks: set<Block>) {
    forall b :: b in blocks && b.order < MAX_ORDER ==> b.Buddy() !in blocks
  }

  /** The free lists, one per order, and the frame table. */
  datatype State = State(lists: seq<seq<nat>>, pages: map<nat, Page>)

  ghost function FreeSet(s: State): set<Block> {
    set k: nat, i: nat | k < |s.lists| && i < |s.lists[k]| :: Block(s.lists[k][i], k)
  }

  /** A list with its first entry for `x` unlinked. */
  function Remove(l: seq<nat>, x: nat): seq<nat> {
    if l == [] then []
    else if l[0] == x then l[1..]
    else [l[0]] + Remove(l[1..], x)
  }

  function Push(s: State, b: Block): State
    requires b.order < |s.lists|
  {
    State(s.lists[b.order := [b.pfn] + s.lists[b.order]],
          s.pages[b.pfn := Page(InPageAllocator, b.order)])
  }

  function Unlink(s: State, b: Block): State
    requires b.order < |s.lists|
  {
    s.(lists := s.lists[b.order := Remove(s.lists[b.order], b.pfn)])
  }

  /** The constant-time test of `Free`: does the frame's tag say "heads a free block of this order"? */
  predicate TagTest(s: State, b: Block) {
    b.pfn in s.pages && s.pages[b.pfn] == Page(InPageAllocator, b.order)
  }

  /** The least order from k on whose list is not empty; |lists| when there is none. */
  function FindOrder(lists: seq<seq<nat>>, k: nat): (r: nat)
    ensures k <= r && (r < |lists| ==> lists[r] != [])
    ensures forall j :: k <= j < r && j < |lists| ==> lists[j] == []
    decreases |lists| - k
  {
    if k < |lists| && lists[k] == [] then FindOrder(lists, k + 1) else k
  }

  /** Splits the block of order `cur` at `pfn` down to `target`, freeing the upper part each time. */
  function SplitDown(s: State, pfn: nat, cur: nat, target: nat): State
    requires target <= cur <= |s.lists|
    decreases cur
  {
    if cur == target then s
    else SplitDown(Push(s, Block(FlipBit(pfn, cur - 1), cur - 1)), pfn, cur - 1, target)
  }

  function MarkInUse(s: State, pfn: nat): State {
    if pfn in s.pages then s.(pages := s.pages[pfn := s.pages[pfn].(usage := InUse)]) else s
  }

  function PopFront(s: State, k: nat): State
    requires k < |s.lists| && s.lists[k] != []
  {
    s.(lists := s.lists[k := s.lists[k][1..]])
  }

  function Alloc(s: State, order: nat): (State, Option<nat>) {
    var k := FindOrder(s.lists, order);
    if k < |s.lists| then
      var pfn := s.lists[k][0];
      (MarkInUse(SplitDown(PopFront(s, k), pfn, k, order), pfn), Some(pfn))
    else
      (s, None)
  }

  /** The merge loop of `Free` as written: the order grows, the frame number stays. */
  function MergeAsWritten(s: State, pfn: nat, order: nat): (r: (State, nat))
    requires order <= MAX_ORDER && |s.lists| == MAX_ORDER + 1
    ensures order <= r.1 <= MAX_ORDER && |r.0.lists| == MAX_ORDER + 1
    decreases MAX_ORDER - order
  {
    var buddy := Block(FlipBit(pfn, order), order);
    if order < MAX_ORDER && TagTest(s, buddy)
    then MergeAsWritten(Unlink(s, buddy), pfn, order + 1)
    else (s, order)
  }

  function FreeAsWritten(s: State, b: Block): State
    requires b.order <= MAX_ORDER && |s.lists| == MAX_ORDER + 1
  {
    var (s1, order) := MergeAsWritten(s, b.pfn, b.order);
    Push(s1, Block(b.pfn, order))
  }

  /** The merge loop as intended: a merged block starts at the lower of the two buddies. */
  function MergeLower(s: State, b: Block): (r: (State, Block))
    requires b.order <= MAX_ORDER && |s.lists| == MAX_ORDER + 1
    ensures b.order <= r.1.order <= MAX_ORDER && |r.0.lists| == MAX_ORDER + 1
    decreases MAX_ORDER - b.order
  {
    if b.order < MAX_ORDER && TagTest(s, b.Buddy())
    then MergeLower(Unlink(s, b.Buddy()), b.Parent())
    else (s, b)
  }

  function FreeLower(s: State, b: Block): State
    requires b.order <= MAX_ORDER && |s.lists| == MAX_ORDER + 1
  {
    var (s1, merged) := MergeLower(s, b);
    Push(s1, merged)
  }

  // ---- one round of each loop ----

  lemma AllocUnfolds(s: State, order: nat)
    ensures var k := FindOrder(s.lists, order);
            && (k >= |s.lists| ==> Alloc(s, order) == (s, None))
            && (k < |s.lists| ==>
                  Alloc(s, order) == (MarkInUse(SplitDown(PopFront(s, k), s.lists[k][0], k, order), s.lists[k][0]),
                                      Some(s.lists[k][0])))
  {
  }

  lemma SplitDownNext(s: State, pfn: nat, cur: nat, target: nat)
    requires target < cur <= |s.lists|
    ensures SplitDown(s, pfn, cur, target)
         == SplitDown(Push(s, Block(FlipBit(pfn, cur - 1), cur - 1)), pfn, cur - 1, target)
  {
  }

  lemma MergeAsWrittenNext(s: State, pfn: nat, order: nat)
    requires order <= MAX_ORDER && |s.lists| == MAX_ORDER + 1
    ensures var buddy := Block(FlipBit(pfn, order), order);
            MergeAsWritten(s, pfn, order)
            == if order < MAX_ORDER && TagTest(s, buddy)
               then MergeAsWritten(Unlink(s, buddy), pfn, order + 1) else (s, order)
  {
  }

  lemma MergeLowerNext(s: State, b: Block)
    requires b.order <= MAX_ORDER && |s.lists| == MAX_ORDER + 1
    ensures MergeLower(s, b)
         == if b.order < MAX_ORDER && TagTest(s, b.Buddy())
            then MergeLower(Unlink(s, b.Buddy()), b.Parent()) else (s, b)
  {
  }
}
