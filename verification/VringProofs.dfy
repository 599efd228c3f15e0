/** Posting and reclaiming chains keep the descriptors partitioned, give back what was taken, and hand
    back the very buffers that were posted. */
module VringProofs {
  import opened Bits
  import opened Sequences
  import opened VringModel

  /** The descriptors of l become part of the chain at `at`. */
  ghost function Assign(whereIs: seq<Where>, l: seq<nat>, at: Where): seq<Where> {
    seq(|whereIs|, d requires 0 <= d < |whereIs| => if d in l then at else whereIs[d])
  }

  lemma NextInRing(i: nat, n: nat)
    requires i < n
    ensures (i + 1) % n == if i == n - 1 then 0 else i + 1
  {
    if i == n - 1 { ModOfMultiple(1, n); } else { DivModUnique(i + 1, 0, n); }
  }

  /** All descriptors are free at first, zero but for their links, which go round. */
  lemma InitialInv(qsize: nat)
    requires qsize > 0
    ensures Inv(Initial(qsize), seq(qsize, i => i), map[], seq(qsize, i => Free))
    ensures var desc := Initial(qsize).desc;
            forall i :: 0 <= i < |desc| ==> desc[i] == Desc(0, 0, false, false, (i + 1) % qsize)
  {
    var t := Initial(qsize);
    var free := seq(qsize, i => i);
    forall i | 0 <= i < qsize ensures t.desc[i].next == (i + 1) % qsize { NextInRing(i, qsize); }
    assert InBounds(t.desc, free);
    forall d: nat ensures d in free <==> d < qsize {
      if d < qsize { assert free[d] == d; }
    }
  }

  function Filled(d: Desc, b: Buffer, write: bool): Desc {
    d.(addr := b.addr, len := b.size % U32, isNext := true, isWrite := d.isWrite || write)
  }

  /** The first |bufs| descriptors of l hold the buffers, all others are as before. */
  ghost predicate Written(desc: seq<Desc>, d: seq<Desc>, l: seq<nat>, bufs: seq<Buffer>, write: bool)
    requires InBounds(desc, l) && |bufs| <= |l|
  {
    && |d| == |desc|
    && (forall i: nat :: i < |desc| && i !in l[..|bufs|] ==> d[i] == desc[i])
    && (forall k :: 0 <= k < |bufs| ==> d[l[k]] == Filled(desc[l[k]], bufs[k], write))
  }

  lemma WrittenCons(desc: seq<Desc>, d: seq<Desc>, l: seq<nat>, bufs: seq<Buffer>, write: bool)
    requires InBounds(desc, l) && NoDup(l) && 0 < |bufs| <= |l|
    requires var desc1 := desc[l[0] := Filled(desc[l[0]], bufs[0], write)];
             InBounds(desc1, l[1..]) && Written(desc1, d, l[1..], bufs[1..], write)
    ensures Written(desc, d, l, bufs, write)
  {
    var n := |bufs|;
    var rest := l[1..];
    assert l[..n] == [l[0]] + rest[..n - 1];
    assert l[0] !in rest[..n - 1];
    forall k | 0 <= k < n ensures d[l[k]] == Filled(desc[l[k]], bufs[k], write) {
      if k > 0 { assert l[k] == rest[k - 1] && bufs[k] == bufs[1..][k - 1]; }
    }
  }

  /** What Fill does along a linked list of descriptors: it writes the first |bufs| of them and moves
      on along the links, which it does not change. */
  lemma {:induction false} FillAlong(desc: seq<Desc>, last: nat, bufs: seq<Buffer>, write: bool, l: seq<nat>)
    requires InBounds(desc, l) && Linked(desc, l) && NoDup(l) && |bufs| <= |l| && l != []
    requires desc[l[|l| - 1]].next < |desc|
    ensures var (d, head, end) := Fill(desc, l[0], last, bufs, write);
            && Written(desc, d, l, bufs, write)
            && head == (if |bufs| < |l| then l[|bufs|] else desc[l[|l| - 1]].next)
            && end == (if bufs == [] then last else l[|bufs| - 1])
    decreases |bufs|
  {
    if bufs != [] {
      var desc1 := desc[l[0] := Filled(desc[l[0]], bufs[0], write)];
      var rest := l[1..];
      if |l| > 1 {
        assert forall k :: 0 <= k < |rest| ==> rest[k] == l[k + 1];
        hide Written;
        FillAlong(desc1, l[0], bufs[1..], write, rest);
        WrittenCons(desc, Fill(desc1, rest[0], l[0], bufs[1..], write).0, l, bufs, write);
      } else {
        assert bufs[1..] == [];
        WrittenCons(desc, desc1, l, bufs, write);
      }
    }
  }

  // ---- posting ----

  /** The free chain is what Fill walks along. */
  lemma AddFields(t: Table, free: seq<nat>, bufs: seq<Buffer>, write: bool)
    requires LinksInBounds(t) && FreeOk(t, free) && NoDup(free) && 0 < |bufs| <= t.freeCount
    ensures var g := Add(t, bufs, write);
            var n := |bufs|;
            && |g.desc| == |t.desc| && free[0] == t.freeHead
            && g.freeCount == t.freeCount - n
            && g.freeHead == (if n < |free| then free[n] else t.desc[free[n - 1]].next)
            && (forall i: nat :: i < |t.desc| && i !in free[..n] ==> g.desc[i] == t.desc[i])
            && (forall k :: 0 <= k < n ==>
                  g.desc[free[k]] == Desc(bufs[k].addr, bufs[k].size % U32, k < n - 1,
                                          t.desc[free[k]].isWrite || write, t.desc[free[k]].next))
  {
    var n := |bufs|;
    FillAlong(t.desc, t.freeHead, bufs, write, free);
    var (d, head, last) := Fill(t.desc, t.freeHead, t.freeHead, bufs, write);
    var g := Add(t, bufs, write);
    assert last == free[n - 1] && g.desc == d[last := d[last].(isNext := false)];
    assert free[..n][n - 1] == last;
    forall k | 0 <= k < n
      ensures g.desc[free[k]] == Desc(bufs[k].addr, bufs[k].size % U32, k < n - 1,
                                      t.desc[free[k]].isWrite || write, t.desc[free[k]].next)
    {
      if k < n - 1 { assert free[k] != free[n - 1]; }
    }
  }

  lemma SplitNoDup(l: seq<nat>, n: nat)
    requires NoDup(l) && n <= |l|
    ensures NoDup(l[..n]) && NoDup(l[n..])
    ensures forall d :: d in l[n..] <==> d in l && d !in l[..n]
  {
    assert l == l[..n] + l[n..];
    forall d | d in l[n..] ensures d !in l[..n] {
      var j :| n <= j < |l| && l[j] == d;
      assert forall i :: 0 <= i < n ==> l[i] != l[j];
    }
  }

  /** Reassigning a part of what is held at one place leaves every other place as it was. */
  lemma AssignHolds(whereIs: seq<Where>, l: seq<nat>, from: Where, n: nat, to: Where)
    requires Holds(l, whereIs, from) && n <= |l| && to != from && forall d: nat :: d < |whereIs| ==> whereIs[d] != to
    ensures Holds(l[n..], Assign(whereIs, l[..n], to), from)
    ensures Holds(l[..n], Assign(whereIs, l[..n], to), to)
    ensures forall m, at :: at != from && at != to && Holds(m, whereIs, at) ==> Holds(m, Assign(whereIs, l[..n], to), at)
  {
    SplitNoDup(l, n);
    var after := Assign(whereIs, l[..n], to);
    forall d | d in l[..n] ensures d in l {}
    forall m, at | at != from && at != to && Holds(m, whereIs, at) ensures Holds(m, after, at) {
    }
  }

  lemma ChainsUntouched(t: Table, g: Table, free: seq<nat>, posted: map<nat, Posted>, whereIs: seq<Where>, n: nat)
    requires Inv(t, free, posted, whereIs) && n <= |free| && |g.desc| == |t.desc|
    requires forall i: nat :: i < |t.desc| && i !in free[..n] ==> g.desc[i] == t.desc[i]
    ensures forall h :: h in posted ==> ChainOk(g.desc, posted[h].chain, posted[h].bufs)
  {
    assert forall d :: d in free[..n] ==> d in free;
    forall h | h in posted ensures ChainOk(g.desc, posted[h].chain, posted[h].bufs) {
      var c := posted[h].chain;
      forall i | 0 <= i < |c| ensures g.desc[c[i]] == t.desc[c[i]] {
        assert c[i] in c;
      }
    }
  }

  lemma AddLinks(t: Table, free: seq<nat>, bufs: seq<Buffer>, write: bool)
    requires LinksInBounds(t) && FreeOk(t, free) && NoDup(free) && 0 < |bufs| <= t.freeCount
    ensures LinksInBounds(Add(t, bufs, write))
  {
    var n, g := |bufs|, Add(t, bufs, write);
    AddFields(t, free, bufs, write);
    hide Add;
    forall i | 0 <= i < |g.desc| ensures g.desc[i].next < |g.desc| {
      if i in free[..n] {
        var k :| 0 <= k < n && free[k] == i;
      }
    }
  }

  lemma AddRest(t: Table, free: seq<nat>, bufs: seq<Buffer>, write: bool)
    requires LinksInBounds(t) && FreeOk(t, free) && NoDup(free) && 0 < |bufs| <= t.freeCount
    ensures FreeOk(Add(t, bufs, write), free[|bufs|..])
  {
    var n, g := |bufs|, Add(t, bufs, write);
    AddFields(t, free, bufs, write);
    SplitNoDup(free, n);
    hide Add, NoDup;
    var rest := free[n..];
    forall i | 0 <= i < |rest| ensures g.desc[rest[i]] == t.desc[rest[i]] {
      assert rest[i] in rest;
    }
    forall i | 0 <= i < |rest| - 1 ensures g.desc[rest[i]].next == rest[i + 1] {
      assert t.desc[free[n + i]].next == free[n + i + 1];
    }
  }

  lemma AddChain(t: Table, free: seq<nat>, bufs: seq<Buffer>, write: bool)
    requires LinksInBounds(t) && FreeOk(t, free) && NoDup(free) && 0 < |bufs| <= t.freeCount
    ensures ChainOk(Add(t, bufs, write).desc, free[..|bufs|], bufs)
  {
    AddFields(t, free, bufs, write);
    hide Add, NoDup;
  }

  lemma AddFree(t: Table, free: seq<nat>, bufs: seq<Buffer>, write: bool)
    requires LinksInBounds(t) && FreeOk(t, free) && NoDup(free) && 0 < |bufs| <= t.freeCount
    ensures LinksInBounds(Add(t, bufs, write)) && FreeOk(Add(t, bufs, write), free[|bufs|..])
    ensures ChainOk(Add(t, bufs, write).desc, free[..|bufs|], bufs)
  {
    hide Add, LinksInBounds, NoDup, ChainOk;
    AddLinks(t, free, bufs, write);
    AddRest(t, free, bufs, write);
    AddChain(t, free, bufs, write);
  }

  /** Posting takes the first |bufs| free descriptors as a new chain that starts at the old free head,
      ends at its only descriptor without F_NEXT and holds the buffers in order. */
  lemma AddKeeps(t: Table, free: seq<nat>, posted: map<nat, Posted>, whereIs: seq<Where>, bufs: seq<Buffer>,
                 write: bool)
    requires Inv(t, free, posted, whereIs) && 0 < |bufs| <= t.freeCount
    ensures t.freeHead !in posted && |free| >= |bufs|
    ensures Inv(Add(t, bufs, write), free[|bufs|..], posted[t.freeHead := Posted(free[..|bufs|], bufs)],
                Assign(whereIs, free[..|bufs|], InChain(t.freeHead)))
  {
    var n, g, h := |bufs|, Add(t, bufs, write), t.freeHead;
    FreshHead(t, free, posted, whereIs);
    AddFields(t, free, bufs, write);
    AddFree(t, free, bufs, write);
    ChainsUntouched(t, g, free, posted, whereIs, n);
    AssignHolds(whereIs, free, Free, n, InChain(h));
    hide Add, ChainOk, FreeOk, LinksInBounds, Holds;
    var after := Assign(whereIs, free[..n], InChain(h));
    assert free[..n][0] == h;
  }

  lemma FreshHead(t: Table, free: seq<nat>, posted: map<nat, Posted>, whereIs: seq<Where>)
    requires Inv(t, free, posted, whereIs) && t.freeCount > 0
    ensures t.freeHead !in posted && forall d: nat :: d < |whereIs| ==> whereIs[d] != InChain(t.freeHead)
  {
    assert free[0] in free;
    assert forall h :: h in posted ==> posted[h].chain[0] in posted[h].chain;
  }

  // ---- reclaiming ----

  lemma ReclaimFree(t: Table, free: seq<nat>, posted: map<nat, Posted>, whereIs: seq<Where>, id: nat)
    requires Inv(t, free, posted, whereIs) && id in posted
    ensures var c := posted[id].chain;
            var g := Reclaim(t, id, c[|c| - 1], |c|);
            LinksInBounds(g) && FreeOk(g, c + free)
  {
    var c := posted[id].chain;
    var last := c[|c| - 1];
    var g := Reclaim(t, id, last, |c|);
    var all := c + free;
    assert last in c;
    forall i | 0 <= i < |all| - 1 ensures g.desc[all[i]].next == all[i + 1] {
      if i < |c| - 1 {
        assert all[i] == c[i] != last;
      } else if i >= |c| {
        assert all[i] == free[i - |c|] && all[i + 1] == free[i - |c| + 1];
        assert free[i - |c|] in free;
      }
    }
  }

  lemma ReclaimChains(t: Table, free: seq<nat>, posted: map<nat, Posted>, whereIs: seq<Where>, id: nat)
    requires Inv(t, free, posted, whereIs) && id in posted
    ensures var c := posted[id].chain;
            var g := Reclaim(t, id, c[|c| - 1], |c|);
            forall h :: h in posted && h != id ==> ChainOk(g.desc, posted[h].chain, posted[h].bufs)
  {
    var c := posted[id].chain;
    var g := Reclaim(t, id, c[|c| - 1], |c|);
    forall h | h in posted && h != id ensures ChainOk(g.desc, posted[h].chain, posted[h].bufs) {
      var m := posted[h].chain;
      assert c[|c| - 1] in c;
      forall i | 0 <= i < |m| ensures g.desc[m[i]] == t.desc[m[i]] { assert m[i] in m; }
    }
  }

  lemma JoinHolds(whereIs: seq<Where>, c: seq<nat>, id: nat, free: seq<nat>)
    requires Holds(c, whereIs, InChain(id)) && Holds(free, whereIs, Free)
    ensures Holds(c + free, Assign(whereIs, c, Free), Free)
    ensures forall m, at :: at != Free && at != InChain(id) && Holds(m, whereIs, at) ==> Holds(m, Assign(whereIs, c, Free), at)
    ensures forall d: nat :: d < |whereIs| ==> Assign(whereIs, c, Free)[d] != InChain(id)
  {
    var all := c + free;
    forall i, j | 0 <= i < j < |all| ensures all[i] != all[j] {
      if i < |c| <= j {
        assert c[i] in c && free[j - |c|] in free;
      } else if |c| <= i {
        assert free[i - |c|] != free[j - |c|];
      }
    }
  }

  /** Reclaiming a chain puts exactly its descriptors back at the front of the free chain. */
  lemma ReclaimKeeps(t: Table, free: seq<nat>, posted: map<nat, Posted>, whereIs: seq<Where>, id: nat)
    requires Inv(t, free, posted, whereIs) && id in posted
    ensures var c := posted[id].chain;
            Inv(Reclaim(t, id, c[|c| - 1], |c|), c + free, posted - {id}, Assign(whereIs, c, Free))
  {
    var c := posted[id].chain;
    ReclaimFree(t, free, posted, whereIs, id);
    ReclaimChains(t, free, posted, whereIs, id);
    JoinHolds(whereIs, c, id, free);
    hide Reclaim, ChainOk, FreeOk, LinksInBounds, Holds;
    var g := Reclaim(t, id, c[|c| - 1], |c|);
    assert |g.desc| == |t.desc| by { ReclaimLength(t, id, c[|c| - 1], |c|); }
  }

  lemma ReclaimLength(t: Table, id: nat, last: nat, len: nat)
    ensures |Reclaim(t, id, last, len).desc| == |t.desc|
  {
  }

  /** Posting a list and reclaiming it at once restores the free chain link by link: the head, the
      count and every link are as before. */
  lemma PostThenReclaim(t: Table, free: seq<nat>, posted: map<nat, Posted>, whereIs: seq<Where>, bufs: seq<Buffer>,
                        write: bool)
    requires Inv(t, free, posted, whereIs) && 0 < |bufs| <= t.freeCount
    ensures |free| >= |bufs| > 0
    ensures var g := Reclaim(Add(t, bufs, write), free[0], free[|bufs| - 1], |bufs|);
            && g.freeHead == t.freeHead && g.freeCount == t.freeCount && |g.desc| == |t.desc|
            && forall k :: 0 <= k < |free| - 1 ==> g.desc[free[k]].next == t.desc[free[k]].next
  {
    AddFields(t, free, bufs, write);
    var n, a := |bufs|, Add(t, bufs, write);
    hide Add;
    var g := Reclaim(a, free[0], free[n - 1], n);
    forall k | 0 <= k < |free| - 1 ensures g.desc[free[k]].next == t.desc[free[k]].next {
      if k >= n {
        SplitNoDup(free, n);
        assert free[n..][k - n] in free[n..];
      } else if k == n - 1 {
        assert t.desc[free[n - 1]].next == free[n];
      } else {
        assert free[k] != free[n - 1];
      }
    }
  }

  /** The walk of process_used_buffers and clean_used_buffers: the descriptors reached from id along
      F_NEXT, at most n of them. */
  function Walk(desc: seq<Desc>, id: nat, n: nat): seq<nat>
    decreases n
  {
    if n == 0 || id >= |desc| then []
    else if desc[id].isNext then [id] + Walk(desc, desc[id].next, n - 1)
    else [id]
  }

  /** The walk visits exactly the chain, in order. */
  lemma {:induction false} WalkIsChain(desc: seq<Desc>, chain: seq<nat>, n: nat)
    requires chain != [] && InBounds(desc, chain) && Linked(desc, chain) && n >= |chain|
    requires forall i :: 0 <= i < |chain| ==> (desc[chain[i]].isNext <==> i < |chain| - 1)
    ensures Walk(desc, chain[0], n) == chain
    decreases |chain|
  {
    if |chain| > 1 {
      var rest := chain[1..];
      assert forall i :: 0 <= i < |rest| ==> rest[i] == chain[i + 1];
      WalkIsChain(desc, rest, n - 1);
    }
  }

  /** What the device is shown: the buffer of a descriptor. */
  function BufferAt(d: Desc): Buffer { Buffer(d.addr, d.len) }

  /** The callback gets the buffers that were posted, in order; sizes are kept modulo 2^32. */
  lemma ReceivedArePosted(t: Table, free: seq<nat>, posted: map<nat, Posted>, whereIs: seq<Where>, id: nat)
    requires Inv(t, free, posted, whereIs) && id in posted
    ensures var w := Walk(t.desc, id, |t.desc|);
            && w == posted[id].chain && |w| == |posted[id].bufs|
            && forall i :: 0 <= i < |w| ==>
                 w[i] < |t.desc| && BufferAt(t.desc[w[i]]) == Buffer(posted[id].bufs[i].addr, posted[id].bufs[i].size % U32)
  {
    var c := posted[id].chain;
    ChainFits(t, free, posted, whereIs, id);
    WalkIsChain(t.desc, c, |t.desc|);
  }

  lemma ChainFits(t: Table, free: seq<nat>, posted: map<nat, Posted>, whereIs: seq<Where>, id: nat)
    requires Inv(t, free, posted, whereIs) && id in posted
    ensures |posted[id].chain| <= |t.desc|
  {
    DistinctBelow(posted[id].chain, |t.desc|);
  }

  lemma {:induction false} DistinctBelow(l: seq<nat>, n: nat)
    requires NoDup(l) && forall i :: 0 <= i < |l| ==> l[i] < n
    ensures |l| <= n
    decreases n
  {
    if l != [] {
      assert l[0] < n;
      if i :| 0 <= i < |l| && l[i] == n - 1 {
        var rest := l[..i] + l[i + 1..];
        forall a, b | 0 <= a < b < |rest| ensures rest[a] != rest[b] {
          assert rest[a] == l[if a < i then a else a + 1] && rest[b] == l[if b < i then b else b + 1];
        }
        forall a | 0 <= a < |rest| ensures rest[a] < n - 1 {
          assert rest[a] == l[if a < i then a else a + 1];
        }
        DistinctBelow(rest, n - 1);
      } else {
        forall i | 0 <= i < |l| ensures l[i] < n - 1 { assert l[i] != n - 1; }
        DistinctBelow(l, n - 1);
      }
    }
  }

  // ---- where the code depends on how it is called ----

  /** A chain posted for reading is free of F_WRITE exactly when none of its descriptors was used for
      writing before: the flag is only ever set. */
  lemma ReadableIsClean(t: Table, free: seq<nat>, bufs: seq<Buffer>)
    requires LinksInBounds(t) && FreeOk(t, free) && NoDup(free) && 0 < |bufs| <= t.freeCount
    ensures |Add(t, bufs, false).desc| == |t.desc|
    ensures (forall k :: 0 <= k < |bufs| ==> !Add(t, bufs, false).desc[free[k]].isWrite)
       <==> (forall k :: 0 <= k < |bufs| ==> !t.desc[free[k]].isWrite)
  {
    AddFields(t, free, bufs, false);
  }

  /** The head that add_readable_buffer publishes is the head of the chain it posted exactly when there
      is a buffer; with none it publishes a descriptor that is still free. */
  lemma PublishedHead(t: Table, free: seq<nat>, posted: map<nat, Posted>, whereIs: seq<Where>, bufs: seq<Buffer>)
    requires Inv(t, free, posted, whereIs) && |bufs| <= t.freeCount && t.freeCount > 0
    ensures bufs == [] ==> t.freeHead < |whereIs| && whereIs[t.freeHead] == Free
                           && Add(t, bufs, false).freeHead == t.freeHead && Add(t, bufs, false).freeCount == t.freeCount
    ensures bufs != [] ==> Add(t, bufs, false).freeHead != t.freeHead || Add(t, bufs, false).freeCount == 0
  {
    assert free[0] in free;
    if bufs != [] {
      AddFields(t, free, bufs, false);
      hide Add;
      if |bufs| < |free| { assert free[|bufs|] != free[0]; }
    }
  }

  // ---- batches ----

  lemma {:induction false} FittingIsExact(batch: seq<seq<Buffer>>, room: nat, k: nat)
    requires k <= |batch|
    ensures k <= Fitting(batch, room) <==> Total(batch[..k]) <= room
    decreases |batch|
  {
    if k > 0 {
      assert batch[..k][0] == batch[0] && batch[..k][1..] == batch[1..][..k - 1];
      if |batch[0]| <= room {
        FittingIsExact(batch[1..], room - |batch[0]|, k - 1);
      }
    }
  }

  lemma {:induction false} TotalNext(batch: seq<seq<Buffer>>, k: nat)
    requires k < |batch|
    ensures Total(batch[..k + 1]) == Total(batch[..k]) + |batch[k]|
    ensures Lists(batch[..k + 1]) == Lists(batch[..k]) + if batch[k] == [] then 0 else 1
    decreases k
  {
    assert batch[..k + 1][0] == batch[0] && batch[..k + 1][1..] == batch[1..][..k];
    if k > 0 {
      assert batch[..k][0] == batch[0] && batch[..k][1..] == batch[1..][..k - 1];
      TotalNext(batch[1..], k - 1);
    } else {
      assert batch[..0] == [] && batch[1..][..0] == [];
    }
  }

  /** Every chain that add_writable_buffers takes is published exactly when the whole batch fits, or
      already its first list that is not empty does not: otherwise the early return leaves the chains
      taken so far unpublished. Both conditions can be checked before the call. */
  lemma {:induction false} NoChainLost(batch: seq<seq<Buffer>>, room: nat)
    ensures var k := Fitting(batch, room);
            k == |batch| || Lists(batch[..k]) == 0 <==> Total(batch) <= room || FirstList(batch) > room
    decreases |batch|
  {
    var k := Fitting(batch, room);
    FittingIsExact(batch, room, |batch|);
    assert batch[..|batch|] == batch;
    if batch != [] && batch[0] == [] {
      var rest := batch[1..];
      NoChainLost(rest, room);
      assert batch[..k][0] == [] && batch[..k][1..] == rest[..k - 1];
    } else if batch != [] && k > 0 {
      assert batch[..k][0] == batch[0];
    }
  }
}
