/** The table of frame records in sections, reached through an offset-encoded word per section
    (sys/mem_map.hpp, sys/mem_map.cpp). */
module FrameTable {
  import opened Bits
  import opened Wrappers
  import opened EarlyPages
  import opened EarlySteps
  import opened EarlyAllocator

  const PAGES_PER_SECTION: nat := 0x8000
  const NUM_SECTIONS: nat := 0x8_0000
  /** sizeof(page): the usage, the node and forty packed bytes of slab data. */
  const RECORD: nat := 42
  /** Bytes and pages of the records of a section. */
  const MAP_BYTES: nat := 0x15_0000
  const MAP_PAGES: nat := 336

  /** The least number of pages that hold the records of a section. */
  lemma MapSize(n: nat)
    ensures MAP_BYTES == PAGES_PER_SECTION * RECORD
    ensures n >= MAP_PAGES <==> n * PAGE >= MAP_BYTES
  {
  }

  // ---- one word ----

  const PRESENT: nat := 1

  predicate Present(word: nat) { word % 2 == 1 }

  /** `mem_map & MAP_MASK`. */
  function Masked(word: nat): nat { word - word % 4 }

  /** set_early_nid */
  function EarlyWord(nid: nat): nat { nid * 4 + PRESENT }

  /** present() and early_get_nid() give back what set_early_nid stored. */
  lemma EarlyWordNode(nid: nat)
    ensures Present(EarlyWord(nid)) && EarlyWord(nid) / 4 == nid && EarlyWord(nid) % 4 == PRESENT
  {
    DivModUnique(EarlyWord(nid), nid * 2, 2);
    DivModUnique(EarlyWord(nid), nid, 4);
  }

  /** set_map: the address of the records moved down by the section's first frame, in 64 bits, with both
      flags. */
  function MapWord(mapAddr: nat, i: nat): nat
    requires i < NUM_SECTIONS
  {
    (mapAddr + U64 - i * MAP_BYTES) % U64 + 3
  }

  /** pfn_to_page: the address of a frame's record; None is the null pointer. */
  function PfnToPage(sections: seq<nat>, pfn: nat): Option<nat>
    requires pfn / PAGES_PER_SECTION < |sections|
  {
    var word := sections[pfn / PAGES_PER_SECTION];
    if Masked(word) == 0 || !Present(word) then None else Some((Masked(word) + pfn * RECORD) % U64)
  }

  /** The simple table: the records of section i start at mapAddr. */
  function Simple(mapAddr: nat, i: nat, pfn: nat): nat
    requires pfn / PAGES_PER_SECTION == i
  {
    mapAddr + pfn % PAGES_PER_SECTION * RECORD
  }

  lemma WordParts(mapAddr: nat, i: nat)
    requires mapAddr % PAGE == 0 && i < NUM_SECTIONS && mapAddr < U64
    ensures MapWord(mapAddr, i) % 4 == 3 && Masked(MapWord(mapAddr, i)) == (mapAddr + U64 - i * MAP_BYTES) % U64
    ensures Masked(MapWord(mapAddr, i)) == if mapAddr >= i * MAP_BYTES then mapAddr - i * MAP_BYTES else mapAddr + U64 - i * MAP_BYTES
  {
    var sum := mapAddr + U64 - i * MAP_BYTES;
    assert sum % 4 == 0 by { FourDivides(mapAddr, i); }
    assert 0 < sum < 2 * U64;
    var low := if sum < U64 then sum else sum - U64;
    hide PAGE;
    Reduced(sum);
    assert low % 4 == 0 by { FourBelow(sum); }
    assert MapWord(mapAddr, i) == low + 3;
  }

  lemma FourDivides(mapAddr: nat, i: nat)
    requires mapAddr % PAGE == 0 && i < NUM_SECTIONS
    ensures (mapAddr + U64 - i * MAP_BYTES) % 4 == 0
  {
    MulDiv(mapAddr, PAGE);
    FourTimes(mapAddr / PAGE, i);
  }

  /** The sum is four times a natural number. */
  lemma FourTimes(pages: nat, i: nat)
    requires i < NUM_SECTIONS
    ensures (pages * PAGE + U64 - i * MAP_BYTES) % 4 == 0
  {
    var quarter: nat := pages * 0x400 + 0x4000_0000_0000_0000 - i * 0x5_4000;
    ModOfMultiple(quarter, 4);
    assert quarter * 4 == pages * PAGE + U64 - i * MAP_BYTES;
  }

  lemma Reduced(sum: nat)
    requires sum < 2 * U64
    ensures sum % U64 == if sum < U64 then sum else sum - U64
  {
  }

  lemma FourBelow(sum: nat)
    requires sum % 4 == 0
    ensures sum >= U64 ==> (sum - U64) % 4 == 0
  {
  }

  lemma OffsetInSection(i: nat, pfn: nat)
    requires pfn / PAGES_PER_SECTION == i
    ensures pfn * RECORD == i * MAP_BYTES + pfn % PAGES_PER_SECTION * RECORD
    ensures pfn % PAGES_PER_SECTION * RECORD + RECORD <= MAP_BYTES
  {
    assert pfn == i * PAGES_PER_SECTION + pfn % PAGES_PER_SECTION;
  }

  /** Looking a frame up in the encoded table gives its record in the simple table, unless the records are
      placed exactly at the offset that is subtracted; then the section looks empty. */
  lemma LookupExact(sections: seq<nat>, mapAddr: nat, i: nat, pfn: nat)
    requires |sections| == NUM_SECTIONS && i < NUM_SECTIONS && pfn / PAGES_PER_SECTION == i
    requires mapAddr % PAGE == 0 && mapAddr + MAP_BYTES <= U64 && sections[i] == MapWord(mapAddr, i)
    ensures PfnToPage(sections, pfn) == if mapAddr == i * MAP_BYTES then None else Some(Simple(mapAddr, i, pfn))
  {
    WordParts(mapAddr, i);
    OffsetInSection(i, pfn);
    OddWord(MapWord(mapAddr, i));
    var off, r := i * MAP_BYTES, pfn % PAGES_PER_SECTION * RECORD;
    assert off < U64;
    hide MapWord, Masked, Present;
    var low := if mapAddr >= off then mapAddr - off else mapAddr + U64 - off;
    Reduced(low + (off + r));
  }

  /** Records of section 1 placed at 0x150000: the word is that of an empty section. */
  lemma LookupHides(sections: seq<nat>)
    requires |sections| == NUM_SECTIONS && sections[1] == MapWord(MAP_BYTES, 1)
    ensures PfnToPage(sections, PAGES_PER_SECTION) == None
  {
    hide PfnToPage, MapWord;
    LookupExact(sections, MAP_BYTES, 1, PAGES_PER_SECTION);
  }

  lemma OddWord(word: nat)
    requires word % 4 == 3
    ensures Present(word)
  {
  }

  // ---- which sections are marked ----

  datatype MemBlock = MemBlock(start: nat, end: nat, nid: nat)

  /** The loop over a block's sections goes from the section of its start while the section starts below
      its end. */
  predicate Visits(b: MemBlock, i: nat) {
    b.start / PAGES_PER_SECTION <= i && i * PAGES_PER_SECTION < b.end
  }

  predicate InBlock(b: MemBlock, p: nat) { b.start <= p < b.end }

  /** The block has a frame in the section. */
  ghost predicate Meets(b: MemBlock, i: nat) {
    exists p: nat :: InBlock(b, p) && p / PAGES_PER_SECTION == i
  }

  /** The loop marks exactly the sections that the block meets, unless the block is empty and starts inside
      a section. */
  lemma VisitsExact(b: MemBlock)
    ensures (forall i: nat :: Visits(b, i) <==> Meets(b, i))
       <==> b.start < b.end || b.end <= b.start / PAGES_PER_SECTION * PAGES_PER_SECTION
  {
    var first := b.start / PAGES_PER_SECTION;
    if b.start < b.end {
      forall i: nat ensures Visits(b, i) <==> Meets(b, i) {
        if Visits(b, i) {
          var p := if b.start < i * PAGES_PER_SECTION then i * PAGES_PER_SECTION else b.start;
          assert InBlock(b, p) && p / PAGES_PER_SECTION == i;
        }
        if p: nat :| InBlock(b, p) && p / PAGES_PER_SECTION == i {
          assert i * PAGES_PER_SECTION <= p;
        }
      }
    } else if b.end <= first * PAGES_PER_SECTION {
      forall i: nat ensures !Visits(b, i) {
        if first <= i { assert first * PAGES_PER_SECTION <= i * PAGES_PER_SECTION; }
      }
    } else {
      assert Visits(b, first) && !Meets(b, first);
    }
  }

  /** The node of the first block that visits a section. */
  function NodeOf(blocks: seq<MemBlock>, i: nat): Option<nat> {
    if blocks == [] then None
    else if Visits(blocks[0], i) then Some(blocks[0].nid)
    else NodeOf(blocks[1..], i)
  }

  /** Block k visits the section, and no earlier one does. */
  predicate FirstVisit(blocks: seq<MemBlock>, i: nat, k: nat) {
    k < |blocks| && Visits(blocks[k], i) && forall j :: 0 <= j < k ==> !Visits(blocks[j], i)
  }

  lemma {:induction false} NodeIsFirst(blocks: seq<MemBlock>, i: nat)
    ensures NodeOf(blocks, i).None? <==> forall k :: 0 <= k < |blocks| ==> !Visits(blocks[k], i)
    ensures forall k: nat :: FirstVisit(blocks, i, k) ==> NodeOf(blocks, i) == Some(blocks[k].nid)
    decreases |blocks|
  {
    hide Visits;
    if blocks != [] {
      NodeIsFirst(blocks[1..], i);
      forall k: nat | FirstVisit(blocks, i, k) ensures NodeOf(blocks, i) == Some(blocks[k].nid) {
        if k > 0 { assert FirstVisit(blocks[1..], i, k - 1); }
      }
    }
  }

  lemma {:induction false} NodeAppend(a: seq<MemBlock>, b: MemBlock, i: nat)
    ensures NodeOf(a + [b], i) == if NodeOf(a, i).Some? then NodeOf(a, i) else if Visits(b, i) then Some(b.nid) else None
    decreases |a|
  {
    if a == [] {
      assert a + [b] == [b];
    } else {
      assert (a + [b])[1..] == a[1..] + [b];
      NodeAppend(a[1..], b, i);
    }
  }

  function MarkedWord(node: Option<nat>): nat {
    match node case None => 0 case Some(nid) => EarlyWord(nid)
  }

  lemma NodePresent(node: Option<nat>)
    ensures Present(MarkedWord(node)) <==> node.Some?
  {
    if node.Some? { EarlyWordNode(node.value); }
  }

  /** Section i is marked once all blocks are dealt with. */
  predicate Marked(blocks: seq<MemBlock>, i: nat) { Present(MarkedWord(NodeOf(blocks, i))) }

  ghost predicate SomeVisits(blocks: seq<MemBlock>, i: nat) {
    exists k :: 0 <= k < |blocks| && Visits(blocks[k], i)
  }

  ghost predicate SomeMeets(blocks: seq<MemBlock>, i: nat) {
    exists k :: 0 <= k < |blocks| && Meets(blocks[k], i)
  }

  lemma {:induction false} MarkedIsVisited(blocks: seq<MemBlock>, i: nat)
    ensures Marked(blocks, i) <==> SomeVisits(blocks, i)
    decreases |blocks|
  {
    hide Present, MarkedWord, Visits;
    NodePresent(NodeOf(blocks, i));
    if blocks != [] {
      var rest := blocks[1..];
      NodePresent(NodeOf(rest, i));
      MarkedIsVisited(rest, i);
      if Visits(blocks[0], i) {
      } else if k :| 0 <= k < |blocks| && Visits(blocks[k], i) {
        assert Visits(rest[k - 1], i);
      } else {
        assert forall k :: 0 <= k < |rest| ==> rest[k] == blocks[k + 1];
      }
    }
  }

  /** An empty block that starts inside a section. */
  predicate Stray(b: MemBlock) {
    b.end <= b.start && b.start / PAGES_PER_SECTION * PAGES_PER_SECTION < b.end
  }

  /** A stray block visits the section it starts in, and no other. */
  lemma StrayVisits(b: MemBlock, i: nat)
    ensures Visits(b, i) <==> Meets(b, i) || (Stray(b) && i == b.start / PAGES_PER_SECTION)
  {
    VisitsExact(b);
    var first := b.start / PAGES_PER_SECTION;
    if Stray(b) {
      assert Meets(b, i) ==> false;
      if first < i { assert first * PAGES_PER_SECTION + PAGES_PER_SECTION <= i * PAGES_PER_SECTION; }
    }
  }

  /** For every list of blocks: exactly the sections that some block meets are marked, if and only if each stray
      block starts in a section that some block meets. */
  lemma MarkedExact(blocks: seq<MemBlock>)
    ensures (forall i: nat :: Marked(blocks, i) <==> SomeMeets(blocks, i))
       <==> forall k :: 0 <= k < |blocks| && Stray(blocks[k]) ==> SomeMeets(blocks, blocks[k].start / PAGES_PER_SECTION)
  {
    hide Marked, Visits, Meets, Stray;
    forall i: nat
      ensures Marked(blocks, i) <==>
                SomeMeets(blocks, i)
                || exists k :: 0 <= k < |blocks| && Stray(blocks[k]) && i == blocks[k].start / PAGES_PER_SECTION
    {
      MarkedIsVisited(blocks, i);
      forall k | 0 <= k < |blocks|
        ensures Visits(blocks[k], i)
           <==> Meets(blocks[k], i) || (Stray(blocks[k]) && i == blocks[k].start / PAGES_PER_SECTION)
      {
        StrayVisits(blocks[k], i);
      }
    }
    forall k | 0 <= k < |blocks| && Stray(blocks[k]) ensures Marked(blocks, blocks[k].start / PAGES_PER_SECTION) {}
  }

  /** A block of no frames that starts at frame 1 marks section 0, which it does not meet. */
  lemma StrayMarks()
    ensures var blocks := [MemBlock(1, 1, 0)]; Marked(blocks, 0) && !SomeMeets(blocks, 0)
  {
    var blocks := [MemBlock(1, 1, 0)];
    assert Visits(blocks[0], 0);
    MarkedIsVisited(blocks, 0);
  }

  /** What a visit makes of a word. */
  function AfterVisit(word: nat, visited: bool, nid: nat): nat {
    if Present(word) || !visited then word else EarlyWord(nid)
  }

  lemma MarkStep(before: seq<MemBlock>, b: MemBlock, i: nat)
    ensures MarkedWord(NodeOf(before + [b], i)) == AfterVisit(MarkedWord(NodeOf(before, i)), Visits(b, i), b.nid)
  {
    NodeAppend(before, b, i);
    hide NodeOf, Visits;
    NodePresent(NodeOf(before, i));
  }

  /** The first loop of mem_map_init, on the static, zeroed table. */
  method MarkSections(sections: array<nat>, blocks: seq<MemBlock>)
    requires sections.Length == NUM_SECTIONS && forall i :: 0 <= i < NUM_SECTIONS ==> sections[i] == 0
    requires forall k :: 0 <= k < |blocks| ==> blocks[k].end <= NUM_SECTIONS * PAGES_PER_SECTION
    modifies sections
    ensures forall i :: 0 <= i < NUM_SECTIONS ==> sections[i] == MarkedWord(NodeOf(blocks, i))
  {
    for k := 0 to |blocks|
      invariant forall i :: 0 <= i < NUM_SECTIONS ==> sections[i] == MarkedWord(NodeOf(blocks[..k], i))
    {
      ghost var words := sections[..];
      MarkBlock(sections, blocks[k]);
      assert blocks[..k] + [blocks[k]] == blocks[..k + 1];
      forall i | 0 <= i < NUM_SECTIONS ensures sections[i] == MarkedWord(NodeOf(blocks[..k + 1], i)) {
        MarkStep(blocks[..k], blocks[k], i);
        assert words[i] == MarkedWord(NodeOf(blocks[..k], i));
      }
    }
    assert blocks[..|blocks|] == blocks;
  }

  /** The loop over the sections of one block. */
  method MarkBlock(sections: array<nat>, block: MemBlock)
    requires sections.Length == NUM_SECTIONS && block.end <= NUM_SECTIONS * PAGES_PER_SECTION
    modifies sections
    ensures forall i :: 0 <= i < NUM_SECTIONS ==> sections[i] == AfterVisit(old(sections[i]), Visits(block, i), block.nid)
  {
    ghost var first := block.start / PAGES_PER_SECTION;
    ghost var n := first;
    var pfn := block.start - block.start % PAGES_PER_SECTION;
    hide AfterVisit;
    NotVisited(block.nid);
    while pfn < block.end
      invariant pfn == n * PAGES_PER_SECTION && first <= n
      invariant n > first ==> (n - 1) * PAGES_PER_SECTION < block.end
      invariant forall i :: 0 <= i < NUM_SECTIONS ==> sections[i] == AfterVisit(old(sections[i]), first <= i < n, block.nid)
      decreases block.end - pfn
    {
      var index := pfn / PAGES_PER_SECTION;
      assert index == n < NUM_SECTIONS;
      Visited(sections[index], block.nid);
      if !Present(sections[index]) {
        sections[index] := EarlyWord(block.nid);
      }
      pfn := pfn + PAGES_PER_SECTION;
      n := n + 1;
    }
    forall i | 0 <= i < NUM_SECTIONS ensures first <= i < n <==> Visits(block, i) {}
  }

  lemma NotVisited(nid: nat)
    ensures forall word: nat :: AfterVisit(word, false, nid) == word
  {
  }

  lemma Visited(word: nat, nid: nat)
    ensures AfterVisit(word, true, nid) == if Present(word) then word else EarlyWord(nid)
  {
  }

  // ---- where the records are placed ----

  /** The pages of the records of section i, from the early allocator: free before and of the section's
      node, and free no more. */
  ghost predicate TakenFor(nid: int, ret: nat, was: seq<PageRange>, now: seq<PageRange>) {
    forall p: nat :: ret <= p < ret + MAP_PAGES ==>
      Label(was, p).Some? && (nid == ANY_NID || Label(was, p) == Some(nid)) && Label(now, p).None?
  }

  predicate PagesApart(a: nat, b: nat) { a + MAP_PAGES <= b || b + MAP_PAGES <= a }

  /** Every present section below `upto` has its own pages. */
  ghost predicate Placed(place: map<nat, nat>, words: seq<nat>, upto: nat, was: seq<PageRange>, now: seq<PageRange>) {
    && upto <= |words|
    && (forall i: nat :: i in place <==> i < upto && Present(words[i]))
    && (forall i :: i in place ==> TakenFor(words[i] / 4, place[i], was, now))
    && (forall i, j :: i in place && j in place && i != j ==> PagesApart(place[i], place[j]))
    && (forall p: nat :: Label(now, p).Some? ==> Label(now, p) == Label(was, p))
  }

  /** An allocation for the next section. */
  lemma PlaceNext(place: map<nat, nat>, words: seq<nat>, i: nat, was: seq<PageRange>, now: seq<PageRange>, ret: nat,
                  t: seq<PageRange>)
    requires Placed(place, words, i, was, now) && i < |words| && Present(words[i])
    requires forall p: nat :: Label(t, p) == if ret <= p < ret + MAP_PAGES then None else Label(now, p)
    requires forall p: nat :: ret <= p < ret + MAP_PAGES ==>
               Label(now, p).Some? && (words[i] / 4 == ANY_NID || Label(now, p) == Some(words[i] / 4))
    ensures Placed(place[i := ret], words, i + 1, was, t)
  {
    hide Label;
    forall j | j in place ensures PagesApart(place[j], ret) {
      var p := if place[j] < ret then ret else place[j];
      assert TakenFor(words[j] / 4, place[j], was, now);
      assert p < place[j] + MAP_PAGES ==> Label(now, p).None?;
      assert p < ret + MAP_PAGES ==> Label(now, p).Some?;
    }
    forall j | j in place[i := ret] ensures TakenFor(words[j] / 4, place[i := ret][j], was, t) {
      if j != i { assert TakenFor(words[j] / 4, place[j], was, now); }
    }
  }

  /** The allocator's comparison does not wrap for this section (`AllocExact`). */
  predicate NoWrap(rs: seq<PageRange>, nid: int) {
    var k := FirstMatch(rs, nid);
    k < |rs| ==> MAP_PAGES <= rs[k].End()
  }

  /** Nor does it for any section from i on, until the allocator has no pages left. */
  predicate NeverWraps(words: seq<nat>, i: nat, rs: seq<PageRange>)
    decreases |words| - i
  {
    if i >= |words| then true
    else if !Present(words[i]) then NeverWraps(words, i + 1, rs)
    else
      var a := AllocAsWritten(rs, MAP_PAGES, words[i] / 4);
      NoWrap(rs, words[i] / 4) && (a.Some? ==> NeverWraps(words, i + 1, a.value.1))
  }

  /** Taking the top of a range leaves every range within one that was there. */
  lemma TakenInside(rs: seq<PageRange>, i: nat, n: nat, lo: nat)
    requires InMemory(rs) && i < |rs| && n <= rs[i].npages
    ensures InMemory(Taken(rs, i, n)) && (StartAt(rs, lo) ==> StartAt(Taken(rs, i, n), lo))
  {
    var t := Taken(rs, i, n);
    forall j | 0 <= j < |t| ensures (StartAt(rs, lo) ==> t[j].start >= lo) && t[j].End() <= 0x100_0000_0000 {
      if j < i {
        assert t[j] == rs[j];
      } else if |t| == |rs| {
        assert t[j].start == rs[j].start && t[j].End() <= rs[j].End();
      } else {
        assert t[j] == rs[j + 1];
      }
    }
  }

  lemma TakenWhole(rs: seq<PageRange>, n: nat, nid: int, lo: nat)
    requires Sorted(rs) && InMemory(rs) && 0 < n < U32
    requires FirstMatch(rs, nid) < |rs| ==> n <= rs[FirstMatch(rs, nid)].End()
    ensures AllocAsWritten(rs, n, nid) == AllocFit(rs, n, nid)
    ensures AllocFit(rs, n, nid).Some? ==>
              var (ret, t) := AllocFit(rs, n, nid).value;
              InMemory(t) && (StartAt(rs, lo) ==> StartAt(t, lo)) && ret + n <= 0x100_0000_0000
  {
    AllocExact(rs, n, nid);
    var i := FirstFit(rs, n, nid);
    if i < |rs| {
      TakenInside(rs, i, n, lo);
      assert AllocFit(rs, n, nid) == Some((rs[i].End() - n, Taken(rs, i, n)));
      hide Sorted, StartAt, FirstMatch, AllocAsWritten, AllocFit, Taken;
      assert rs[i].End() <= 0x100_0000_0000;
    }
  }

  lemma {:induction false} HighNeverWraps(words: seq<nat>, i: nat, rs: seq<PageRange>)
    requires Sorted(rs) && InMemory(rs) && StartAt(rs, MAP_PAGES)
    ensures NeverWraps(words, i, rs)
    decreases |words| - i
  {
    if i < |words| {
      if !Present(words[i]) {
        HighNeverWraps(words, i + 1, rs);
      } else {
        var nid := words[i] / 4;
        assert NoWrap(rs, nid);
        hide Sorted, InMemory, StartAt, AllocAsWritten, AllocFit, Present;
        TakenWhole(rs, MAP_PAGES, nid, MAP_PAGES);
        AllocKeeps(rs, MAP_PAGES, nid);
        var a := AllocAsWritten(rs, MAP_PAGES, nid);
        if a.Some? { HighNeverWraps(words, i + 1, a.value.1); }
      }
    }
  }

  /** One round of the loop, for a section that is present. */
  lemma PlaceStep(place: map<nat, nat>, words: seq<nat>, i: nat, was: seq<PageRange>, now: seq<PageRange>)
    requires Sorted(now) && InMemory(now) && NeverWraps(words, i, now)
    requires Placed(place, words, i, was, now) && i < |words| && Present(words[i])
    ensures var a := AllocAsWritten(now, MAP_PAGES, words[i] / 4);
            a.Some? ==>
              var (ret, t) := a.value;
              && Sorted(t) && InMemory(t) && NeverWraps(words, i + 1, t) && ret + MAP_PAGES <= 0x100_0000_0000
              && Placed(place[i := ret], words, i + 1, was, t)
  {
    var nid := words[i] / 4;
    assert NoWrap(now, nid);
    hide Sorted, InMemory, StartAt, Label, TakenFor, PagesApart, Placed, AllocAsWritten, AllocFit, Present, Coalesced;
    TakenWhole(now, MAP_PAGES, nid, 0);
    AllocKeeps(now, MAP_PAGES, nid);
    var a := AllocFit(now, MAP_PAGES, nid);
    if a.Some? { PlaceNext(place, words, i, was, now, a.value.0, a.value.1); }
  }

  /** What the loop keeps as long as the comparison does not wrap. */
  ghost predicate PlacedWell(place: map<nat, nat>, words: seq<nat>, upto: nat, was: seq<PageRange>,
                             now: seq<PageRange>) {
    && Sorted(now) && InMemory(now) && NeverWraps(words, upto, now)
    && Placed(place, words, upto, was, now)
    && (forall i :: i in place ==> place[i] + MAP_PAGES <= 0x100_0000_0000)
  }

  lemma PlacedWellNext(place: map<nat, nat>, words: seq<nat>, i: nat, was: seq<PageRange>, now: seq<PageRange>)
    requires PlacedWell(place, words, i, was, now) && i < |words|
    ensures !Present(words[i]) ==> PlacedWell(place, words, i + 1, was, now)
    ensures Present(words[i]) ==>
              var a := AllocAsWritten(now, MAP_PAGES, words[i] / 4);
              a.Some? ==> PlacedWell(place[i := a.value.0], words, i + 1, was, a.value.1)
  {
    if Present(words[i]) { PlaceStep(place, words, i, was, now); } else { NotPresent(place, words, i, was, now); }
    hide Sorted, InMemory, Placed, AllocAsWritten, Present;
  }

  /** No free range of the node has the pages that the records of a section need. */
  ghost predicate NoneFits(rs: seq<PageRange>, nid: int) {
    forall k :: 0 <= k < |rs| ==> !IsFit(rs[k], MAP_PAGES, nid)
  }

  lemma PlaceFails(words: seq<nat>, i: nat, now: seq<PageRange>)
    requires Sorted(now) && InMemory(now) && NeverWraps(words, i, now) && i < |words| && Present(words[i])
    ensures AllocAsWritten(now, MAP_PAGES, words[i] / 4).None? ==> NoneFits(now, words[i] / 4)
  {
    var nid := words[i] / 4;
    assert NoWrap(now, nid);
    hide Sorted, InMemory, AllocAsWritten, AllocFit, Present, IsFit;
    TakenWhole(now, MAP_PAGES, nid, 0);
    AllocKeeps(now, MAP_PAGES, nid);
  }

  lemma StopsWell(place: map<nat, nat>, words: seq<nat>, i: nat, was: seq<PageRange>, now: seq<PageRange>)
    requires PlacedWell(place, words, i, was, now) && i < |words| && Present(words[i])
    ensures Placed(place, words, i, was, now)
    ensures AllocAsWritten(now, MAP_PAGES, words[i] / 4).None? ==> NoneFits(now, words[i] / 4)
  {
    hide Sorted, InMemory, Placed, AllocAsWritten, Present, NeverWraps, NoneFits;
    PlaceFails(words, i, now);
  }

  /** The second loop of mem_map_init: pages for the records of every present section, and its final word; it stops
      at the first section for which no range of the node is large enough. All is as it should be if the allocator's
      comparison never wraps on the way. */
  method PlaceMaps(sections: array<nat>, free: FreePages)
    returns (ok: bool, ghost place: map<nat, nat>, ghost stop: nat)
    requires sections.Length == NUM_SECTIONS && Sorted(free.ranges) && InMemory(free.ranges)
    modifies sections, free
    ensures ok ==> stop == NUM_SECTIONS
    ensures NeverWraps(old(sections[..]), 0, old(free.ranges)) ==>
              && Placed(place, old(sections[..]), stop, old(free.ranges), free.ranges)
              && (forall i :: i in place ==> place[i] + MAP_PAGES <= 0x100_0000_0000)
              && (!ok ==> stop < NUM_SECTIONS && Present(old(sections[..])[stop])
                          && NoneFits(free.ranges, old(sections[..])[stop] / 4))
    ensures forall i: nat :: i < NUM_SECTIONS ==>
              sections[i] == if i in place then MapWord(place[i] * PAGE, i) else old(sections[i])
  {
    hide Sorted, InMemory, MapWord, Placed, PlacedWell, AllocAsWritten, Present, NeverWraps, NoneFits;
    ghost var words, was := sections[..], free.ranges;
    place := map[];
    StartPlacing(words, was);
    var i := 0;
    while i < NUM_SECTIONS
      invariant i <= NUM_SECTIONS
      invariant forall k :: 0 <= k < |free.ranges| ==> free.ranges[k].End() < U64
      invariant NeverWraps(words, 0, was) ==> PlacedWell(place, words, i, was, free.ranges)
      invariant forall j: nat :: j < NUM_SECTIONS ==>
                  sections[j] == if j in place then MapWord(place[j] * PAGE, j) else words[j]
      invariant forall j :: j in place ==> j < i
    {
      if NeverWraps(words, 0, was) { PlacedWellNext(place, words, i, was, free.ranges); }
      if Present(sections[i]) {
        var nid := sections[i] / 4;
        StaysBelow(free.ranges, MAP_PAGES, nid);
        if NeverWraps(words, 0, was) {
          StopsWell(place, words, i, was, free.ranges);
          PlacedIn(place, words, i, was, free.ranges);
        }
        var mapPfn := free.EarlyAllocatePage(MAP_PAGES, nid);
        if mapPfn.None? { return false, place, i; }
        sections[i] := MapWord(mapPfn.value * PAGE, i);
        place := place[i := mapPfn.value];
      }
      i := i + 1;
    }
    ok, stop := true, i;
    PlacedIn(place, words, i, was, free.ranges);
  }

  lemma StartPlacing(words: seq<nat>, rs: seq<PageRange>)
    requires Sorted(rs) && InMemory(rs)
    ensures NeverWraps(words, 0, rs) ==> PlacedWell(map[], words, 0, rs, rs)
    ensures forall i :: 0 <= i < |rs| ==> rs[i].End() < U64
  {
    NothingPlaced(words, rs);
    hide NeverWraps, Placed;
  }

  lemma PlacedIn(place: map<nat, nat>, words: seq<nat>, upto: nat, was: seq<PageRange>, now: seq<PageRange>)
    ensures PlacedWell(place, words, upto, was, now) ==>
              && Placed(place, words, upto, was, now)
              && forall i :: i in place ==> place[i] + MAP_PAGES <= 0x100_0000_0000
  {
    hide NeverWraps, Placed;
  }

  /** Even a wrapped allocation leaves 64-bit frame numbers. */
  lemma StaysBelow(rs: seq<PageRange>, n: nat, nid: int)
    requires n < U32 && forall i :: 0 <= i < |rs| ==> rs[i].End() < U64
    ensures var a := AllocAsWritten(rs, n, nid);
            a.Some? ==> forall i :: 0 <= i < |a.value.1| ==> a.value.1[i].End() < U64
  {
    var k := Accepted(rs, n, nid);
    if k < |rs| { CutBelow(rs[k], n); AcceptedAccepts(rs, n, nid); }
    hide Minus, Accepts;
  }

  lemma CutBelow(r: PageRange, n: nat)
    requires n < U32 && r.End() < U64
    ensures Minus(r.End(), n) >= r.start ==> r.start + Minus(r.npages, n) < U64
  {
  }

  lemma {:induction false} AcceptedAccepts(rs: seq<PageRange>, n: nat, nid: int)
    requires n < U32
    ensures var k := Accepted(rs, n, nid); k < |rs| ==> Accepts(rs[k], n, nid) && Minus(rs[k].End(), n) >= rs[k].start
    decreases |rs|
  {
    if rs != [] && !Accepts(rs[0], n, nid) { AcceptedAccepts(rs[1..], n, nid); }
    hide Minus;
  }

  lemma NothingPlaced(words: seq<nat>, rs: seq<PageRange>)
    ensures Placed(map[], words, 0, rs, rs)
  {
  }

  lemma NotPresent(place: map<nat, nat>, words: seq<nat>, i: nat, was: seq<PageRange>, now: seq<PageRange>)
    requires Placed(place, words, i, was, now) && i < |words| && !Present(words[i])
    ensures Placed(place, words, i + 1, was, now)
  {
  }

  // ---- both loops ----

  /** The words are those of the nodes, as the first loop leaves them. */
  ghost predicate Names(words: seq<nat>, blocks: seq<MemBlock>) {
    |words| == NUM_SECTIONS && forall i: nat :: i < NUM_SECTIONS ==> words[i] == MarkedWord(NodeOf(blocks, i))
  }

  /** Every section below `upto` that some block visits has its own pages, which were free pages of the node of the
      first block that does. */
  ghost predicate PlacedFor(place: map<nat, nat>, blocks: seq<MemBlock>, upto: nat, was: seq<PageRange>,
                            now: seq<PageRange>) {
    && (forall i: nat :: i in place <==> i < upto && NodeOf(blocks, i).Some?)
    && (forall i :: i in place && NodeOf(blocks, i).Some? ==> TakenFor(NodeOf(blocks, i).value, place[i], was, now))
    && (forall i, j :: i in place && j in place && i != j ==> PagesApart(place[i], place[j]))
    && (forall p: nat :: Label(now, p).Some? ==> Label(now, p) == Label(was, p))
    && (forall i :: i in place ==> place[i] + MAP_PAGES <= 0x100_0000_0000)
  }

  /** The allocator's comparison does not wrap for any section from i on, until it has no pages left. */
  ghost predicate NeverWrapsFor(blocks: seq<MemBlock>, i: nat, rs: seq<PageRange>)
    decreases NUM_SECTIONS - i
  {
    if i >= NUM_SECTIONS then true
    else if NodeOf(blocks, i).None? then NeverWrapsFor(blocks, i + 1, rs)
    else
      var a := AllocAsWritten(rs, MAP_PAGES, NodeOf(blocks, i).value);
      NoWrap(rs, NodeOf(blocks, i).value) && (a.Some? ==> NeverWrapsFor(blocks, i + 1, a.value.1))
  }

  lemma NamedNode(words: seq<nat>, blocks: seq<MemBlock>, i: nat)
    requires Names(words, blocks) && i < NUM_SECTIONS
    ensures Present(words[i]) <==> NodeOf(blocks, i).Some?
    ensures NodeOf(blocks, i).Some? ==> words[i] / 4 == NodeOf(blocks, i).value
    ensures NodeOf(blocks, i).None? ==> words[i] == 0
  {
    hide Present, NodeOf;
    NodePresent(NodeOf(blocks, i));
    if NodeOf(blocks, i).Some? { EarlyWordNode(NodeOf(blocks, i).value); }
  }

  lemma {:induction false} SameWraps(words: seq<nat>, blocks: seq<MemBlock>, i: nat, rs: seq<PageRange>)
    requires Names(words, blocks)
    ensures NeverWraps(words, i, rs) <==> NeverWrapsFor(blocks, i, rs)
    decreases NUM_SECTIONS - i
  {
    hide Present, NodeOf, NoWrap, AllocAsWritten;
    if i < NUM_SECTIONS {
      NamedNode(words, blocks, i);
      if NodeOf(blocks, i).None? {
        SameWraps(words, blocks, i + 1, rs);
      } else {
        var a := AllocAsWritten(rs, MAP_PAGES, NodeOf(blocks, i).value);
        if a.Some? { SameWraps(words, blocks, i + 1, a.value.1); }
      }
    }
  }

  /** With all free memory above the first 336 frames the comparison never wraps. */
  lemma HighMemory(blocks: seq<MemBlock>, rs: seq<PageRange>)
    requires Sorted(rs) && InMemory(rs) && StartAt(rs, MAP_PAGES)
    ensures NeverWrapsFor(blocks, 0, rs)
  {
    hide Sorted, InMemory, StartAt, NodeOf, NeverWraps, NeverWrapsFor;
    var words := seq(NUM_SECTIONS, i requires 0 <= i < NUM_SECTIONS => MarkedWord(NodeOf(blocks, i)));
    HighNeverWraps(words, 0, rs);
    SameWraps(words, blocks, 0, rs);
  }

  lemma SamePlaced(place: map<nat, nat>, words: seq<nat>, blocks: seq<MemBlock>, upto: nat, was: seq<PageRange>,
                   now: seq<PageRange>)
    requires Names(words, blocks) && Placed(place, words, upto, was, now)
    requires forall i :: i in place ==> place[i] + MAP_PAGES <= 0x100_0000_0000
    ensures PlacedFor(place, blocks, upto, was, now)
  {
    hide Present, NodeOf, Names, TakenFor, PagesApart, Label;
    NamesAll(words, blocks);
    forall i: nat | i < upto
      ensures Present(words[i]) <==> NodeOf(blocks, i).Some?
      ensures NodeOf(blocks, i).Some? ==> words[i] / 4 == NodeOf(blocks, i).value
    {
      NamedNode(words, blocks, i);
    }
  }

  lemma NamesAll(words: seq<nat>, blocks: seq<MemBlock>)
    requires Names(words, blocks)
    ensures |words| == NUM_SECTIONS
  {
  }

  /** Where the record of a frame is: in the pages of its section, unless they lie exactly at the offset that is
      subtracted. */
  function RecordOf(place: map<nat, nat>, pfn: nat): Option<nat> {
    var i := pfn / PAGES_PER_SECTION;
    if i in place && place[i] * PAGE != i * MAP_BYTES then Some(Simple(place[i] * PAGE, i, pfn)) else None
  }

  /** mem_map_init: the sections that the blocks visit get pages for their records, from the node of the first block
      that visits them, and looking up a frame finds its record there. Unless the allocator's comparison wraps, it
      stops only where no free range of that node has the pages. */
  method MemMapInit(sections: array<nat>, blocks: seq<MemBlock>, free: FreePages)
    returns (ok: bool, ghost place: map<nat, nat>, ghost stop: nat)
    requires sections.Length == NUM_SECTIONS && forall i :: 0 <= i < NUM_SECTIONS ==> sections[i] == 0
    requires forall k :: 0 <= k < |blocks| ==> blocks[k].end <= NUM_SECTIONS * PAGES_PER_SECTION
    requires Sorted(free.ranges) && InMemory(free.ranges)
    modifies sections, free
    ensures ok ==> stop == NUM_SECTIONS
    ensures NeverWrapsFor(blocks, 0, old(free.ranges)) ==>
              && PlacedFor(place, blocks, stop, old(free.ranges), free.ranges)
              && (!ok ==> stop < NUM_SECTIONS && NodeOf(blocks, stop).Some?
                          && NoneFits(free.ranges, NodeOf(blocks, stop).value))
              && (ok ==> forall pfn: nat :: pfn / PAGES_PER_SECTION < NUM_SECTIONS ==>
                           PfnToPage(sections[..], pfn) == RecordOf(place, pfn))
  {
    hide Sorted, InMemory, NeverWraps, NeverWrapsFor, Placed, PlacedFor, NoneFits, NodeOf, Present, MapWord,
      PfnToPage, RecordOf, MarkedWord, Visits;
    ghost var was := free.ranges;
    MarkSections(sections, blocks);
    ghost var words := sections[..];
    assert Names(words, blocks);
    SameWraps(words, blocks, 0, was);
    ok, place, stop := PlaceMaps(sections, free);
    if NeverWrapsFor(blocks, 0, was) {
      SamePlaced(place, words, blocks, stop, was, free.ranges);
      if ok {
        Found(place, words, blocks, was, free.ranges, sections[..]);
      } else {
        NamedNode(words, blocks, stop);
      }
    }
  }

  lemma Found(place: map<nat, nat>, words: seq<nat>, blocks: seq<MemBlock>, was: seq<PageRange>, now: seq<PageRange>,
              sections: seq<nat>)
    requires Names(words, blocks) && PlacedFor(place, blocks, NUM_SECTIONS, was, now) && |sections| == NUM_SECTIONS
    requires forall i: nat :: i < NUM_SECTIONS ==>
               sections[i] == if i in place then MapWord(place[i] * PAGE, i) else words[i]
    ensures forall pfn: nat :: pfn / PAGES_PER_SECTION < NUM_SECTIONS ==>
              PfnToPage(sections, pfn) == RecordOf(place, pfn)
  {
    hide NodeOf, MapWord, PfnToPage, Names, TakenFor, PagesApart, Label, Simple;
    NamesAll(words, blocks);
    forall pfn: nat | pfn / PAGES_PER_SECTION < NUM_SECTIONS ensures PfnToPage(sections, pfn) == RecordOf(place, pfn) {
      var i := pfn / PAGES_PER_SECTION;
      if i in place {
        ModOfMultiple(place[i], PAGE);
        BytesBelow(place[i]);
        LookupExact(sections, place[i] * PAGE, i, pfn);
      } else {
        NamedNode(words, blocks, i);
        EmptyWord(sections, pfn);
      }
    }
  }

  lemma BytesBelow(place: nat)
    requires place + MAP_PAGES <= 0x100_0000_0000
    ensures place * PAGE + MAP_BYTES <= U64
  {
  }

  lemma EmptyWord(sections: seq<nat>, pfn: nat)
    requires pfn / PAGES_PER_SECTION < |sections| && sections[pfn / PAGES_PER_SECTION] == 0
    ensures PfnToPage(sections, pfn).None?
  {
  }

  /** Two frames never share a byte of their records. */
  lemma RecordsDisjoint(place: map<nat, nat>, words: seq<nat>, was: seq<PageRange>, now: seq<PageRange>,
                        sections: seq<nat>, p: nat, q: nat)
    requires Placed(place, words, NUM_SECTIONS, was, now) && |sections| == NUM_SECTIONS
    requires forall i: nat :: i < NUM_SECTIONS ==>
               sections[i] == if i in place then MapWord(place[i] * PAGE, i) else words[i]
    requires forall i :: i in place ==> place[i] + MAP_PAGES <= 0x100_0000_0000
    requires p != q && p / PAGES_PER_SECTION in place && q / PAGES_PER_SECTION in place
    requires PfnToPage(sections, p).Some? && PfnToPage(sections, q).Some?
    ensures var a, b := PfnToPage(sections, p).value, PfnToPage(sections, q).value;
            a + RECORD <= b || b + RECORD <= a
  {
    var i, j := p / PAGES_PER_SECTION, q / PAGES_PER_SECTION;
    assert i != j ==> PagesApart(place[i], place[j]);
    hide Placed, MapWord;
    RecordAt(place[i], sections, i, p);
    RecordAt(place[j], sections, j, q);
    hide PfnToPage;
    var r, s := p % PAGES_PER_SECTION, q % PAGES_PER_SECTION;
    if i == j {
      SameSection(p, q);
    } else {
      PagesAreBytes(place[i], place[j]);
    }
  }

  lemma SameSection(p: nat, q: nat)
    requires p != q && p / PAGES_PER_SECTION == q / PAGES_PER_SECTION
    ensures var r, s := p % PAGES_PER_SECTION, q % PAGES_PER_SECTION;
            r * RECORD + RECORD <= s * RECORD || s * RECORD + RECORD <= r * RECORD
  {
  }

  lemma PagesAreBytes(a: nat, b: nat)
    requires PagesApart(a, b)
    ensures a * PAGE + MAP_BYTES <= b * PAGE || b * PAGE + MAP_BYTES <= a * PAGE
  {
  }

  lemma RecordAt(place: nat, sections: seq<nat>, i: nat, p: nat)
    requires |sections| == NUM_SECTIONS && p / PAGES_PER_SECTION == i < NUM_SECTIONS
    requires sections[i] == MapWord(place * PAGE, i) && place + MAP_PAGES <= 0x100_0000_0000
    requires PfnToPage(sections, p).Some?
    ensures PfnToPage(sections, p).value == place * PAGE + p % PAGES_PER_SECTION * RECORD
    ensures p % PAGES_PER_SECTION * RECORD + RECORD <= MAP_BYTES
  {
    hide PfnToPage, MapWord;
    ModOfMultiple(place, PAGE);
    OffsetInSection(i, p);
    LookupExact(sections, place * PAGE, i, p);
  }
}
