/** A virtqueue's driver side (class vring in sys/virtio.hpp). */
module Vring {
  import opened Bits
  import opened Sequences
  import opened VringModel
  import opened VringProofs

  /** The chains posted so far, and a new one for each head, which holds the list of buffers in the same place. */
  ghost predicate Grown(before: map<nat, Posted>, after: map<nat, Posted>, heads: seq<nat>, lists: seq<seq<Buffer>>) {
    && after.Keys == before.Keys + SetOf(heads) && before.Keys !! SetOf(heads)
    && NoDup(heads) && |heads| == |lists|
    && (forall h :: h in before ==> h in after && after[h] == before[h])
    && (forall i :: 0 <= i < |heads| ==> heads[i] in after && after[heads[i]].bufs == lists[i])
  }

  lemma GrownOne(before: map<nat, Posted>, head: nat, p: Posted)
    requires head !in before
    ensures Grown(before, before[head := p], [head], [p.bufs])
  {
    assert SetOf([head]) == {head};
  }

  lemma GrownNone(posted: map<nat, Posted>)
    ensures Grown(posted, posted, [], [])
  {
  }

  lemma Unchanged(a: map<nat, Posted>, b: map<nat, Posted>)
    requires Grown(a, b, [], [])
    ensures a == b
  {
  }

  lemma GrownJoin(a: map<nat, Posted>, b: map<nat, Posted>, c: map<nat, Posted>, x: seq<nat>, y: seq<nat>,
                  v: seq<seq<Buffer>>, w: seq<seq<Buffer>>)
    requires Grown(a, b, x, v) && Grown(b, c, y, w)
    ensures Grown(a, c, x + y, v + w)
  {
    hide NoDup, SetOf;
    var heads, lists := x + y, v + w;
    SetOfJoin(x, y);
    NoDupJoin(x, y);
    forall i | 0 <= i < |heads| ensures heads[i] in c && c[heads[i]].bufs == lists[i] {
      if i < |x| { assert heads[i] in b && c[heads[i]] == b[heads[i]]; }
    }
  }

  lemma SetOfJoin(x: seq<nat>, y: seq<nat>)
    ensures SetOf(x + y) == SetOf(x) + SetOf(y)
  {
  }

  lemma NoDupJoin(x: seq<nat>, y: seq<nat>)
    requires NoDup(x) && NoDup(y)
    ensures SetOf(x) !! SetOf(y) ==> NoDup(x + y)
  {
    if SetOf(x) !! SetOf(y) {
      forall i, j | 0 <= i < |x| && 0 <= j < |y| ensures x[i] != y[j] { assert x[i] in SetOf(x) && y[j] in SetOf(y); }
    }
  }

  lemma GrownNext(a: map<nat, Posted>, b: map<nat, Posted>, c: map<nat, Posted>, heads: seq<nat>, more: seq<nat>,
                  lists: seq<seq<Buffer>>, bufs: seq<Buffer>)
    requires Grown(a, b, heads, lists) && Grown(b, c, more, if more == [] then [] else [bufs])
    ensures more == [] ==> Grown(a, c, heads, lists)
    ensures more != [] ==> Grown(a, c, heads + more, lists + [bufs])
  {
    GrownJoin(a, b, c, heads, more, lists, if more == [] then [] else [bufs]);
    assert more == [] ==> heads + more == heads && lists + [] == lists;
  }

  /** The lists of a batch that are not empty, in order. */
  function Listed(batch: seq<seq<Buffer>>): seq<seq<Buffer>>
    decreases |batch|
  {
    if batch == [] then []
    else Listed(batch[..|batch| - 1]) + (if batch[|batch| - 1] == [] then [] else [batch[|batch| - 1]])
  }

  lemma ListedNext(batch: seq<seq<Buffer>>, k: nat)
    requires k < |batch|
    ensures Listed(batch[..k + 1]) == Listed(batch[..k]) + (if batch[k] == [] then [] else [batch[k]])
  {
    assert batch[..k + 1][..k] == batch[..k];
  }

  /** Where the loop over a batch stops. */
  lemma Stops(batch: seq<seq<Buffer>>, room: nat, k: nat)
    requires k <= |batch| && Total(batch[..k]) <= room
    requires k < |batch| ==> Total(batch[..k]) + |batch[k]| > room
    ensures Fitting(batch, room) == k
  {
    FittingIsExact(batch, room, k);
    if k < |batch| {
      TotalNext(batch, k);
      FittingIsExact(batch, room, k + 1);
    }
  }

  /** A 16-bit index n places after `from`. */
  function After(from: nat, n: nat): nat { (from + n) % U16 }

  function NextIndex(i: nat): nat { (i + 1) % U16 }

  lemma NextIdx(from: nat, n: nat)
    requires from < U16
    ensures After(from, 0) == from && After(from, n) < U16
  {
  }

  lemma AfterAfter(from: nat, m: nat, n: nat)
    ensures After(After(from, m), n) == After(from, m + n)
    ensures After(from, m + n) < U16
  {
  }

  /** The ring entry of a 16-bit index. */
  function Slot(ring: seq<nat>, idx: nat): nat
    requires ring != []
  {
    ring[idx % |ring|]
  }

  /** The available ring after heads were put on it from index `from` on, one after the other. */
  function Publish(ring: seq<nat>, from: nat, heads: seq<nat>): (r: seq<nat>)
    requires ring != []
    ensures |r| == |ring|
    decreases |heads|
  {
    if heads == [] then ring
    else
      var last := |heads| - 1;
      Publish(ring, from, heads[..last])[After(from, last) % |ring| := heads[last]]
  }

  lemma PublishNext(ring: seq<nat>, from: nat, heads: seq<nat>, head: nat)
    requires ring != []
    ensures Publish(ring, from, heads + [head])
         == Publish(ring, from, heads)[After(from, |heads|) % |ring| := head]
  {
    assert (heads + [head])[..|heads|] == heads;
  }

  /** Different indices have different ring entries, so that the device finds each head at its own. */
  ghost predicate EntriesApart(from: nat, n: nat, count: nat)
    requires n > 0
  {
    forall i, j :: 0 <= i < j < count ==> After(from, i) % n != After(from, j) % n
  }

  /** Each head is at the entry of its own index. */
  ghost predicate AllAt(ring: seq<nat>, from: nat, heads: seq<nat>)
    requires ring != []
  {
    forall i :: 0 <= i < |heads| ==> Slot(ring, After(from, i)) == heads[i]
  }

  lemma {:induction false} PublishAt(ring: seq<nat>, from: nat, heads: seq<nat>)
    requires ring != [] && EntriesApart(from, |ring|, |heads|)
    ensures AllAt(Publish(ring, from, heads), from, heads)
    decreases |heads|
  {
    if heads != [] {
      PublishAt(ring, from, heads[..|heads| - 1]);
    }
  }

  /** Below 2^16 indices count on; from there on they begin again at 0. */
  lemma AfterIs(from: nat, i: nat)
    requires from < U16 && i < U16
    ensures After(from, i) == if from + i < U16 then from + i else from + i - U16
  {
  }

  lemma SameRemainder(a: nat, b: nat, n: nat) returns (k: nat)
    requires n > 0 && a <= b && a % n == b % n
    ensures b == a + k * n
  {
    MulDiv(a, n);
    MulDiv(b, n);
    if b / n < a / n { MulLe(b / n + 1, a / n, n); }
    k := b / n - a / n;
    Distribute(b / n, a / n, n);
  }

  /** Two indices fewer than n apart, one below and one above the wrap, share an entry exactly if they are
      2^16 modulo n apart. */
  lemma WrappedClash(a: nat, b: nat, n: nat)
    requires 0 < n < U16 && a < U16 <= b < a + n
    ensures a % n == (b - U16) % n <==> b - a == U16 % n
  {
    var q := U16 / n;
    MulDiv(U16, n);
    var low: nat := b - U16;
    if a % n == low % n {
      assert low < a;
      var k := SameRemainder(low, a, n);
      ClashFar(q, k, n, b - a);
    }
    if b - a == U16 % n {
      assert a == low + q * n;
      ShiftedRemainder(low, q, n);
    }
  }

  lemma ClashFar(q: nat, k: nat, n: nat, gap: nat)
    requires n > 0 && 0 < gap < n && U16 == k * n + gap
    ensures gap == U16 % n
  {
    DivModUnique(U16, k, n);
  }

  lemma ShiftedRemainder(low: nat, q: nat, n: nat)
    requires n > 0
    ensures (low + q * n) % n == low % n
  {
    MulDiv(low, n);
    Distribute(low / n + q, q, n);
    DivModUnique(low + q * n, low / n + q, n);
  }

  lemma NearEntries(a: nat, b: nat, n: nat)
    requires a < b < a + n
    ensures a % n != b % n
  {
    if a % n == b % n {
      var k := SameRemainder(a, b, n);
      if k > 0 { MulLe(1, k, n); }
    }
  }

  lemma EntriesDiffer(from: nat, n: nat, i: nat, j: nat)
    requires from < U16 && 0 < n < U16 && i < j < i + n && j < U16
    ensures After(from, i) % n == After(from, j) % n <==> from + i < U16 <= from + j && j - i == U16 % n
  {
    AfterIs(from, i);
    AfterIs(from, j);
    hide After;
    if from + i < U16 <= from + j {
      WrappedClash(from + i, from + j, n);
    } else {
      NearEntries(After(from, i), After(from, j), n);
    }
  }

  /** For a batch no larger than the ring: always, if the ring's size divides 2^16, as a power of two does;
      otherwise exactly if the index does not wrap within the batch, or the batch is no longer than 2^16 modulo
      the size. */
  lemma EntriesApartExact(from: nat, n: nat, count: nat)
    requires from < U16 && 0 < n < U16 && count <= n
    ensures EntriesApart(from, n, count) <==> U16 % n == 0 || count <= U16 % n || from + count <= U16
  {
    var c := U16 % n;
    forall i, j | 0 <= i < j < count
      ensures After(from, i) % n == After(from, j) % n <==> from + i < U16 <= from + j && j - i == c
    {
      EntriesDiffer(from, n, i, j);
    }
    if c != 0 && count > c && from + count > U16 {
      var i: nat := if U16 - from >= c then U16 - from - c else 0;
      assert After(from, i) % n == After(from, i + c) % n;
    }
    hide After;
  }

  /** The condition, on the index before the call. */
  predicate EntriesRight(from: nat, n: nat, count: nat)
    requires n > 0
  {
    U16 % n == 0 || count <= U16 % n || from + count <= U16
  }

  lemma PublishedExact(ring: seq<nat>, from: nat, heads: seq<nat>)
    requires 0 < |ring| < U16 && from < U16 && NoDup(heads) && |heads| <= |ring|
    ensures AllAt(Publish(ring, from, heads), from, heads) <==> EntriesRight(from, |ring|, |heads|)
  {
    EntriesApartExact(from, |ring|, |heads|);
    hide Publish, After, EntriesRight;
    if EntriesApart(from, |ring|, |heads|) { PublishAt(ring, from, heads); }
  }

  /** The entries of the used ring from index `from` on. */
  function UsedIds(ring: seq<nat>, from: nat, n: nat): seq<nat>
    requires ring != []
  {
    if n == 0 then [] else UsedIds(ring, from, n - 1) + [Slot(ring, After(from, n - 1))]
  }

  lemma {:induction false} UsedIdsAt(ring: seq<nat>, from: nat, n: nat, i: nat)
    requires ring != [] && i < n
    ensures |UsedIds(ring, from, n)| == n && UsedIds(ring, from, n)[i] == Slot(ring, After(from, i))
    ensures UsedIds(ring, from, n)[..i] == UsedIds(ring, from, i)
  {
    if i < n - 1 {
      UsedIdsAt(ring, from, n - 1, i);
    } else if n > 1 {
      UsedIdsAt(ring, from, n - 1, 0);
    }
  }

  /** The buffers that come back for a posted list: the same addresses, sizes modulo 2^32. */
  function Received(bufs: seq<Buffer>): (r: seq<Buffer>)
    ensures |r| == |bufs|
  {
    seq(|bufs|, i requires 0 <= i < |bufs| => Buffer(bufs[i].addr, bufs[i].size % U32))
  }

  lemma AddAllNext(t: Table, batch: seq<seq<Buffer>>, k: nat)
    requires k < |batch|
    ensures AddAll(t, batch[..k + 1])
         == if batch[k] == [] || |batch[k]| > AddAll(t, batch[..k]).freeCount then AddAll(t, batch[..k])
            else Add(AddAll(t, batch[..k]), batch[k], true)
  {
    assert batch[..k + 1][..k] == batch[..k];
  }

  /** The table, the chains and the ring after the lists were taken one after the other. */
  ghost predicate Batched(lists: seq<seq<Buffer>>, t: Table, g: Table, was: map<nat, Posted>, now: map<nat, Posted>,
                          ring: seq<nat>, after: seq<nat>, from: nat, idx: nat, heads: seq<nat>) {
    && g == AddAll(t, lists) && g.freeCount == t.freeCount - Total(lists)
    && |heads| == Lists(lists) && Grown(was, now, heads, Listed(lists))
    && ring != [] && after == Publish(ring, from, heads)
    && idx < U16 && idx == After(from, |heads|)
  }

  lemma BatchedNone(t: Table, now: map<nat, Posted>, ring: seq<nat>, from: nat)
    requires ring != [] && from < U16
    ensures Batched([], t, t, now, now, ring, ring, from, from, [])
  {
    NextIdx(from, 0);
    GrownNone(now);
    hide After;
  }

  /** One list more, as PostList takes it. */
  lemma BatchedNext(batch: seq<seq<Buffer>>, k: nat, t: Table, g: Table, was: map<nat, Posted>, now: map<nat, Posted>,
                    ring: seq<nat>, after: seq<nat>, from: nat, idx: nat, heads: seq<nat>, last: Table,
                    later: map<nat, Posted>, more: seq<nat>)
    requires k < |batch| && Batched(batch[..k], t, g, was, now, ring, after, from, idx, heads)
    requires |batch[k]| <= g.freeCount && more == (if batch[k] == [] then [] else [g.freeHead])
    requires last == (if batch[k] == [] then g else Add(g, batch[k], true))
    requires last.freeCount == g.freeCount - |batch[k]|
    requires Grown(now, later, more, if more == [] then [] else [batch[k]])
    ensures var entries := if more == [] then after else after[idx % |ring| := g.freeHead];
            Batched(batch[..k + 1], t, last, was, later, ring, entries, from, After(idx, |more|), heads + more)
  {
    hide Add, AddAll, Total, Lists, Listed, Grown, After, Publish;
    TotalNext(batch, k);
    ListedNext(batch, k);
    AddAllNext(t, batch, k);
    AfterAfter(from, |heads|, |more|);
    if batch[k] == [] {
      Unchanged(now, later);
      assert heads + [] == heads && Listed(batch[..k]) + [] == Listed(batch[..k]);
    } else {
      GrownNext(was, now, later, heads, more, Listed(batch[..k]), batch[k]);
      PublishNext(ring, from, heads, g.freeHead);
    }
  }

  lemma {:induction false} ListsAtMost(batch: seq<seq<Buffer>>)
    ensures Lists(batch) <= Total(batch)
  {
    if batch != [] { ListsAtMost(batch[1..]); }
  }

  lemma AddCount(t: Table, bufs: seq<Buffer>, write: bool)
    requires |bufs| <= t.freeCount
    ensures Add(t, bufs, write).freeCount == t.freeCount - |bufs|
  {
    hide Fill, ClearNext;
  }

  lemma HeadIsFree(t: Table, free: seq<nat>, posted: map<nat, Posted>, whereIs: seq<Where>)
    requires Inv(t, free, posted, whereIs)
    ensures t.freeCount > 0 ==> t.freeHead !in posted
    ensures t.freeCount <= |free|
  {
    if t.freeCount > 0 { FreshHead(t, free, posted, whereIs); }
  }

  lemma CountBounded(t: Table, free: seq<nat>, posted: map<nat, Posted>, whereIs: seq<Where>)
    requires Inv(t, free, posted, whereIs)
    ensures t.freeCount <= |t.desc|
  {
    DistinctBelow(free, |t.desc|);
  }

  lemma BatchedIndex(lists: seq<seq<Buffer>>, t: Table, g: Table, was: map<nat, Posted>, now: map<nat, Posted>,
                     ring: seq<nat>, after: seq<nat>, from: nat, idx: nat, heads: seq<nat>)
    requires Batched(lists, t, g, was, now, ring, after, from, idx, heads)
    ensures idx < U16
  {
  }

  lemma BatchStops(batch: seq<seq<Buffer>>, k: nat, t: Table, g: Table, was: map<nat, Posted>, now: map<nat, Posted>,
                   ring: seq<nat>, after: seq<nat>, from: nat, idx: nat, heads: seq<nat>)
    requires k <= |batch| && Batched(batch[..k], t, g, was, now, ring, after, from, idx, heads)
    requires k < |batch| ==> |batch[k]| > g.freeCount
    ensures k == Fitting(batch, t.freeCount)
  {
    hide AddAll, Total, Lists, Listed, Grown, Fitting, After, Publish;
    Stops(batch, t.freeCount, k);
  }

  class Queue {
    const desc: array<Desc>
    const availRing: array<nat>
    var availIdx: nat
    var freeHead: nat
    var freeCount: nat
    var usedEvent: nat
    var references: map<nat, seq<Buffer>>
    ghost var free: seq<nat>
    ghost var posted: map<nat, Posted>
    ghost var whereIs: seq<Where>

    function Now(): Table
      reads this, desc
    {
      Table(desc[..], freeHead, freeCount)
    }

    ghost predicate Valid()
      reads this, desc
    {
      && 0 < desc.Length == availRing.Length < U16
      && availIdx < U16 && usedEvent < U16
      && Inv(Now(), free, posted, whereIs)
    }

    /** The driver keeps references only for chains that are posted. */
    ghost predicate Referenced()
      reads this
    {
      references.Keys <= posted.Keys
    }

    constructor (qsize: nat)
      requires 0 < qsize < U16
      ensures Valid() && fresh(desc) && fresh(availRing)
      ensures Now() == Initial(qsize) && posted == map[] && references == map[] && availIdx == 0 && usedEvent == 0
    {
      var d := new Desc[qsize](i => Desc(0, 0, false, false, 0));
      desc := d;
      availRing := new nat[qsize](i => 0);
      availIdx, freeHead, freeCount, usedEvent := 0, 0, qsize, 0;
      references := map[];
      free := seq(qsize, i => i);
      posted := map[];
      whereIs := seq(qsize, i => Free);
      new;
      for i := 0 to qsize
        invariant desc == d && fresh(desc) && desc.Length == qsize
        invariant forall j :: 0 <= j < i ==> desc[j] == Desc(0, 0, false, false, j + 1)
        invariant forall j :: i <= j < qsize ==> desc[j] == Desc(0, 0, false, false, 0)
        invariant freeHead == 0 && freeCount == qsize && availIdx == 0 && usedEvent == 0
        invariant references == map[] && posted == map[] && fresh(availRing) && availRing.Length == qsize
        invariant free == seq(qsize, i => i) && whereIs == seq(qsize, i => Free)
      {
        desc[i] := desc[i].(next := i + 1);
      }
      desc[qsize - 1] := desc[qsize - 1].(next := 0);
      assert desc[..] == Initial(qsize).desc;
      InitialInv(qsize);
    }

    /** Writes one list of buffers into free descriptors, as both add methods do. */
    method TakeChain(bufs: seq<Buffer>, write: bool) returns (head: nat)
      requires |bufs| <= freeCount && freeHead < desc.Length
      requires forall i :: 0 <= i < desc.Length ==> desc[i].next < desc.Length
      modifies this`freeHead, this`freeCount, desc
      ensures Now() == Add(old(Now()), bufs, write) && head == old(freeHead)
    {
      freeCount := freeCount - |bufs|;
      var lastDesc: nat := freeHead;
      head := freeHead;
      var i := 0;
      while i < |bufs|
        invariant 0 <= i <= |bufs| && freeHead < desc.Length && lastDesc < desc.Length
        invariant freeCount == old(freeCount) - |bufs|
        invariant forall j :: 0 <= j < desc.Length ==> desc[j].next < desc.Length
        invariant Fill(desc[..], freeHead, lastDesc, bufs[i..], write) == Fill(old(desc[..]), head, head, bufs, write)
      {
        var d := desc[freeHead];
        assert bufs[i..][0] == bufs[i] && bufs[i..][1..] == bufs[i + 1..];
        desc[freeHead] := d.(addr := bufs[i].addr, len := bufs[i].size % U32, isNext := true, isWrite := d.isWrite || write);
        lastDesc := freeHead;
        freeHead := d.next;
        i := i + 1;
      }
      desc[lastDesc] := desc[lastDesc].(isNext := false);
    }

    /** Takes a chain for a list that is not empty and puts its head on the available ring. */
    method PostChain(bufs: seq<Buffer>, write: bool, idx: nat) returns (head: nat)
      requires Valid() && 0 < |bufs| <= freeCount
      modifies this`freeHead, this`freeCount, this`free, this`posted, this`whereIs, desc, availRing
      ensures Valid() && Now() == Add(old(Now()), bufs, write) && freeCount == old(freeCount) - |bufs|
      ensures head == old(freeHead) && head !in old(posted) && |old(free)| >= |bufs|
      ensures posted == old(posted)[head := Posted(old(free)[..|bufs|], bufs)] && free == old(free)[|bufs|..]
      ensures availRing[..] == old(availRing[..])[idx % availRing.Length := head]
    {
      hide Inv, Add;
      AddKeeps(Now(), free, posted, whereIs, bufs, write);
      AddCount(Now(), bufs, write);
      Bounds();
      ghost var chain := free[..|bufs|];
      head := TakeChain(bufs, write);
      whereIs := Assign(whereIs, chain, InChain(head));
      posted := posted[head := Posted(chain, bufs)];
      free := free[|bufs|..];
      availRing[idx % availRing.Length] := head;
    }

    /** add_readable_buffer; `event` is the device's event index as read after the new index is stored. It does
        not look whether the list is empty: then the head it publishes, and keeps a reference for, is that of
        no chain. */
    method AddReadable(bufs: seq<Buffer>, event: nat) returns (kick: bool)
      requires Valid() && |bufs| <= freeCount && event < U16
      modifies this, desc, availRing
      ensures Now() == Add(old(Now()), bufs, false)
      ensures availRing[..] == old(availRing[..])[old(availIdx) % availRing.Length := old(freeHead)]
      ensures availIdx == (old(availIdx) + 1) % U16 && kick == CrossesEvent(availIdx, event, old(availIdx))
      ensures references == if old(freeHead) in old(references) then old(references)
                            else old(references)[old(freeHead) := bufs]
      ensures usedEvent == old(usedEvent)
      ensures bufs != [] ==> |old(free)| >= |bufs| && old(freeHead) !in old(posted)
      ensures posted == if bufs == [] then old(posted)
                        else old(posted)[old(freeHead) := Posted(old(free)[..|bufs|], bufs)]
      ensures free == if bufs == [] then old(free) else old(free)[|bufs|..]
      ensures bufs != [] ==> Valid() && (old(Referenced()) ==> Referenced())
      ensures bufs == [] && old(freeCount) > 0 ==> !Referenced()
    {
      hide Inv, Add, CrossesEvent;
      Bounds();
      HeadIsFree(Now(), free, posted, whereIs);
      if bufs != [] { AddKeeps(Now(), free, posted, whereIs, bufs, false); }
      ghost var chain := if bufs == [] then [] else free[..|bufs|];
      var head := TakeChain(bufs, false);
      if bufs != [] {
        whereIs := Assign(whereIs, chain, InChain(head));
        posted := posted[head := Posted(chain, bufs)];
        free := free[|bufs|..];
      }
      var origIdx := availIdx;
      availRing[availIdx % availRing.Length] := head;
      availIdx := (availIdx + 1) % U16;
      kick := CrossesEvent(availIdx, event, origIdx);
      if head !in references {
        references := references[head := bufs];
      }
    }

    /** The body of the loop of add_writable_buffers, for one list; it does not fit when there are too
        few free descriptors. */
    method PostList(bufs: seq<Buffer>, idx: nat) returns (fits: bool, next: nat, ghost heads: seq<nat>)
      requires Valid() && idx < U16
      modifies this`freeHead, this`freeCount, this`free, this`posted, this`whereIs, desc, availRing
      ensures Valid() && fits == (|bufs| <= old(freeCount)) && next == After(idx, |heads|)
      ensures Now() == (if bufs == [] || !fits then old(Now()) else Add(old(Now()), bufs, true))
      ensures freeCount == old(freeCount) - if fits then |bufs| else 0
      ensures heads == (if bufs == [] || !fits then [] else [old(freeHead)])
      ensures Grown(old(posted), posted, heads, if heads == [] then [] else [bufs])
      ensures availRing[..] == if heads == [] then old(availRing[..])
                               else old(availRing[..])[idx % availRing.Length := old(freeHead)]
    {
      fits, next, heads := true, idx, [];
      NextIdx(idx, 0);
      GrownNone(posted);
      if bufs == [] {
        return;
      }
      if |bufs| > freeCount {
        fits := false;
        return;
      }
      hide Inv, Add, Grown;
      var head := PostChain(bufs, true, idx);
      GrownOne(old(posted), head, posted[head]);
      heads := [head];
      next := NextIndex(idx);
    }

    /** The loop of add_writable_buffers: each list before `done` is in a chain of its own, `heads` in
        order; it stops at the first list that does not fit. */
    method TakeBatch(batch: seq<seq<Buffer>>) returns (done: nat, idx: nat, ghost heads: seq<nat>)
      requires Valid()
      modifies this`freeHead, this`freeCount, this`free, this`posted, this`whereIs, desc, availRing
      ensures Valid() && done == Fitting(batch, old(freeCount))
      ensures Batched(batch[..done], old(Now()), Now(), old(posted), posted, old(availRing[..]), availRing[..],
                      availIdx, idx, heads)
    {
      hide Inv, Add, Fitting, After, Batched, Grown;
      done, idx, heads := 0, availIdx, [];
      ghost var t, was, ring := Now(), posted, availRing[..];
      assert batch[..0] == [];
      BatchedNone(t, was, ring, availIdx);
      while done < |batch|
        invariant 0 <= done <= |batch| && Valid() && availRing.Length == |ring|
        invariant Batched(batch[..done], t, Now(), was, posted, ring, availRing[..], availIdx, idx, heads)
      {
        BatchedIndex(batch[..done], t, Now(), was, posted, ring, availRing[..], availIdx, idx, heads);
        ghost var g, now, after := Now(), posted, availRing[..];
        var fits, next;
        ghost var more;
        fits, next, more := PostList(batch[done], idx);
        if !fits {
          Unchanged(now, posted);
          break;
        }
        BatchedNext(batch, done, t, g, was, now, ring, after, availIdx, idx, heads, Now(), posted, more);
        idx, heads := next, heads + more;
        done := done + 1;
      }
      BatchStops(batch, done, t, Now(), was, posted, ring, availRing[..], availIdx, idx, heads);
    }

    /** add_writable_buffers: `done` is the index of the iterator it returns; when it stops early the
        new index is not stored. Each list that is not empty is in a chain of its own, whose head is the
        next entry of the available ring; the device finds every head at the entry of its index exactly if
        the ring's size divides 2^16 or the batch is short enough or ends before the index wraps. */
    method AddWritable(batch: seq<seq<Buffer>>, event: nat) returns (done: nat, kick: bool, ghost heads: seq<nat>)
      requires Valid() && event < U16
      modifies this, desc, availRing
      ensures Valid() && usedEvent == old(usedEvent) && references == old(references)
      ensures done == Fitting(batch, old(freeCount))
      ensures Now() == AddAll(old(Now()), batch[..done]) && freeCount == old(freeCount) - Total(batch[..done])
      ensures |heads| == Lists(batch[..done]) && Grown(old(posted), posted, heads, Listed(batch[..done]))
      ensures availRing[..] == Publish(old(availRing[..]), old(availIdx), heads)
      ensures AllAt(availRing[..], old(availIdx), heads) <==> EntriesRight(old(availIdx), availRing.Length, |heads|)
      ensures availIdx == if done == |batch| then After(old(availIdx), |heads|) else old(availIdx)
      ensures kick <==> done == |batch| && CrossesEvent(availIdx, event, old(availIdx))
    {
      hide Inv, AddAll, Total, Fitting, Lists, Listed, Publish, AllAt, EntriesRight, After;
      CountBounded(Now(), free, posted, whereIs);
      ghost var room := freeCount;
      var idx: nat;
      done, idx, heads := TakeBatch(batch);
      ListsAtMost(batch[..done]);
      PublishedExact(old(availRing[..]), availIdx, heads);
      if done < |batch| {
        return done, false, heads;
      }
      var origIdx := availIdx;
      availIdx := idx;
      kick := CrossesEvent(idx, event, origIdx);
    }

    lemma Bounds()
      requires Valid()
      ensures freeHead < desc.Length && forall i :: 0 <= i < desc.Length ==> desc[i].next < desc.Length
    {
      assert LinksInBounds(Now());
      forall i | 0 <= i < desc.Length ensures desc[i].next < desc.Length { assert desc[..][i] == desc[i]; }
    }

    lemma Start(ring: seq<nat>, looks: seq<nat>, counts: seq<nat>)
      requires Valid() && Served(ring, looks, counts, usedEvent, posted)
      ensures forall refs ::
                Draining(Watch(ring, looks, counts, usedEvent, posted, refs), posted, refs, [], usedEvent, 0)
    {
      hide Inv, After, Handed, Dropped;
      FewPosted(Now(), free, posted, whereIs, Used(ring, usedEvent, counts));
      NextIdx(usedEvent, 0);
      HandedNone(posted, Used(ring, usedEvent, counts));
      forall refs: map<nat, seq<Buffer>> ensures Dropped(refs, refs, Used(ring, usedEvent, counts), 0) {
        DroppedNone(refs, Used(ring, usedEvent, counts));
      }
    }

    /** The walk along a chain, collecting its buffers. */
    method Collect(id: nat, ghost c: seq<nat>, ghost bufs: seq<Buffer>) returns (list: seq<Buffer>, last: nat, len: nat)
      requires ChainOk(desc[..], c, bufs) && c[0] == id
      ensures list == Received(bufs) && last == c[|c| - 1] && len == |c|
    {
      last := id;
      list := [Buffer(desc[id].addr, desc[id].len)];
      len := 1;
      while desc[last].isNext
        invariant 1 <= len <= |c| && |list| == len && last == c[len - 1]
        invariant forall i :: 0 <= i < len ==> list[i] == Buffer(bufs[i].addr, bufs[i].size % U32)
        decreases |c| - len
      {
        assert desc[..][c[len - 1]].next == c[len];
        last := desc[last].next;
        list := list + [Buffer(desc[last].addr, desc[last].len)];
        len := len + 1;
      }
    }

    method LinkBack(id: nat, last: nat, len: nat)
      requires last < desc.Length
      modifies this`freeHead, this`freeCount, desc
      ensures Now() == Reclaim(old(Now()), id, last, len)
    {
      desc[last] := desc[last].(next := freeHead);
      freeHead := id;
      freeCount := freeCount + len;
    }

    /** The body of the loops of process_used_buffers and clean_used_buffers: the buffers of the chain
        from id are collected and the chain goes to the front of the free chain. */
    method GiveBack(id: nat) returns (list: seq<Buffer>)
      requires Valid() && id in posted
      modifies this`freeHead, this`freeCount, this`free, this`posted, this`whereIs, desc
      ensures Valid() && list == Received(old(posted)[id].bufs)
      ensures posted == old(posted) - {id} && free == old(posted)[id].chain + old(free)
      ensures Now() == Reclaim(old(Now()), id, old(posted)[id].chain[|old(posted)[id].chain| - 1], |old(posted)[id].chain|)
    {
      hide Inv, Reclaim, Received, ChainOk;
      ghost var c, bufs := posted[id].chain, posted[id].bufs;
      ReclaimKeeps(Now(), free, posted, whereIs, id);
      PostedChain(Now(), free, posted, whereIs, id);
      var descriptor, len;
      list, descriptor, len := Collect(id, c, bufs);
      LinkBack(id, descriptor, len);
      whereIs := Assign(whereIs, c, Free);
      free := c + free;
      posted := posted - {id};
    }

    /** The start of each round of both loops: once the driver has seen everything it stores the event index
        and looks again. */
    method Look(ghost w: Watch, ghost refs: map<nat, seq<Buffer>>, looks: seq<nat>, ghost lists: seq<seq<Buffer>>,
                usedIndex: nat, i: nat)
      returns (stop: bool, next: nat)
      requires Valid() && looks == w.looks && i <= 2 * |lists|
      requires Draining(w, posted, refs, lists, usedIndex, i)
      modifies this`usedEvent
      ensures Valid() && Draining(w, posted, refs, lists, usedIndex, next)
      ensures next < |looks| == |w.counts| && next <= i + 1
      ensures stop ==> 0 < next && usedEvent == looks[next - 1] == looks[next] == usedIndex
      ensures stop ==> w.counts[next - 1] == w.counts[next] == |lists|
      ensures !stop ==> looks[next] != usedIndex
    {
      hide Inv, Draining;
      stop, next := false, i;
      DrainLook(w, posted, refs, lists, usedIndex, i);
      if usedIndex == looks[i] {
        usedEvent := usedIndex;
        next := i + 1;
        DrainLook(w, posted, refs, lists, usedIndex, next);
        stop := usedIndex == looks[next];
      }
    }

    /** One round of process_used_buffers: the next list is handed over. */
    method TakeUsed(ghost w: Watch, ring: seq<nat>, lists: seq<seq<Buffer>>, usedIndex: nat, ghost i: nat)
      returns (more: seq<seq<Buffer>>)
      requires Valid() && ring == w.ring != []
      requires Draining(w, posted, map[], lists, usedIndex, i) && i < |w.looks| && w.looks[i] != usedIndex
      modifies this`freeHead, this`freeCount, this`free, this`posted, this`whereIs, desc
      ensures Valid() && |more| == |lists| + 1 && |lists| < U16
      ensures Draining(w, posted, map[], more, NextIndex(usedIndex), i + 1)
    {
      hide Inv, Received, Draining, Slot, NextIndex;
      var id := Slot(ring, usedIndex);
      ghost var now, none := posted, map[];
      DrainNext(w, posted, none, lists, usedIndex, i);
      var list := GiveBack(id);
      more := lists + [list];
      DrainTook(w, now, none, lists, usedIndex, i, list);
      assert none - {id} == none;
    }

    /** process_used_buffers (the ring is indexed modulo its size): each list that was posted is handed over
        once, with its buffers, in the order of the ring; references stay, also those to lists handed over.
        `looks` are the values of the device's index at the driver's successive looks; the method returns after
        one that it took after it had stored the event index, and that showed nothing new. */
    method ProcessUsed(ring: seq<nat>, looks: seq<nat>, ghost counts: seq<nat>)
      returns (lists: seq<seq<Buffer>>, ghost last: nat)
      requires Valid() && |ring| == desc.Length && Served(ring, looks, counts, usedEvent, posted)
      modifies this`freeHead, this`freeCount, this`free, this`posted, this`whereIs, this`usedEvent, desc
      ensures Valid() && 0 < last < |looks| && counts[last - 1] == counts[last] == |lists|
      ensures usedEvent == looks[last - 1] == looks[last]
      ensures Handed(old(posted), posted, Used(ring, old(usedEvent), counts), lists)
      ensures old(Referenced()) ==>
                (Referenced() <==> NoneReferenced(Used(ring, old(usedEvent), counts), |lists|, references))
    {
      hide Inv, Received, Handed, NextIndex, Served, Draining, Used;
      ghost var w := Watch(ring, looks, counts, usedEvent, posted, map[]);
      Start(ring, looks, counts);
      lists := [];
      var usedIndex: nat, i: nat := usedEvent, 0;
      while true
        invariant Valid() && i <= 2 * |lists|
        invariant Draining(w, posted, map[], lists, usedIndex, i)
        decreases U16 - |lists|
      {
        var stop;
        stop, i := Look(w, map[], looks, lists, usedIndex, i);
        DrainNext(w, posted, map[], lists, usedIndex, i);
        if stop {
          StaleReferences(w.posted, posted, Used(w.ring, w.from, w.counts), lists, references);
          return lists, i;
        }
        lists := TakeUsed(w, ring, lists, usedIndex, i);
        usedIndex, i := NextIndex(usedIndex), i + 1;
      }
    }

    /** One round of clean_used_buffers: the driver's references to the buffers go, and so does the chain. */
    method CleanOne(ghost w: Watch, ring: seq<nat>, ghost lists: seq<seq<Buffer>>, usedIndex: nat, ghost i: nat)
      returns (ghost more: seq<seq<Buffer>>)
      requires Valid() && ring == w.ring != []
      requires Draining(w, posted, references, lists, usedIndex, i) && i < |w.looks| && w.looks[i] != usedIndex
      modifies this`freeHead, this`freeCount, this`free, this`posted, this`whereIs, this`references, desc
      ensures Valid() && |more| == |lists| + 1 && |lists| < U16
      ensures Draining(w, posted, references, more, NextIndex(usedIndex), i + 1)
    {
      hide Inv, Received, Draining, Slot, NextIndex;
      var id := Slot(ring, usedIndex);
      ghost var now, refs := posted, references;
      DrainNext(w, posted, references, lists, usedIndex, i);
      references := references - {id};
      var list := GiveBack(id);
      more := lists + [list];
      DrainTook(w, now, refs, lists, usedIndex, i, list);
    }

    /** clean_used_buffers, with the looks as in ProcessUsed: each chain used goes back to the free chain, with
        the references to its buffers. */
    method CleanUsed(ring: seq<nat>, looks: seq<nat>, ghost counts: seq<nat>) returns (ghost last: nat)
      requires Valid() && |ring| == desc.Length && Served(ring, looks, counts, usedEvent, posted)
      modifies this`freeHead, this`freeCount, this`free, this`posted, this`whereIs, this`references, this`usedEvent, desc
      ensures Valid() && 0 < last < |looks| && counts[last - 1] == counts[last] <= counts[|counts| - 1]
      ensures usedEvent == looks[last - 1] == looks[last]
      ensures var ids := Used(ring, old(usedEvent), counts)[..counts[last]];
              posted == old(posted) - SetOf(ids) && references == old(references) - SetOf(ids)
    {
      hide Inv, Received, Handed, NextIndex, Served, Draining, Used, SetOf;
      ghost var w := Watch(ring, looks, counts, usedEvent, posted, references);
      Start(ring, looks, counts);
      ghost var lists: seq<seq<Buffer>> := [];
      var usedIndex: nat, i: nat := usedEvent, 0;
      while true
        invariant Valid() && i <= 2 * |lists|
        invariant Draining(w, posted, references, lists, usedIndex, i)
        decreases U16 - |lists|
      {
        var stop;
        stop, i := Look(w, references, looks, lists, usedIndex, i);
        DrainNext(w, posted, references, lists, usedIndex, i);
        if stop {
          CleanedAre(w, posted, references, lists, usedIndex, i);
          return i;
        }
        lists := CleanOne(w, ring, lists, usedIndex, i);
        usedIndex, i := NextIndex(usedIndex), i + 1;
      }
    }
  }

  /** The references to the first n used chains are gone. */
  ghost predicate Dropped(before: map<nat, seq<Buffer>>, now: map<nat, seq<Buffer>>, ids: seq<nat>, n: nat) {
    n <= |ids| && now == before - SetOf(ids[..n])
  }

  lemma DroppedNone(references: map<nat, seq<Buffer>>, ids: seq<nat>)
    ensures Dropped(references, references, ids, 0)
  {
  }

  lemma DroppedNext(before: map<nat, seq<Buffer>>, now: map<nat, seq<Buffer>>, ids: seq<nat>, n: nat)
    requires Dropped(before, now, ids, n) && n < |ids|
    ensures Dropped(before, now - {ids[n]}, ids, n + 1)
  {
    assert SetOf(ids[..n + 1]) == SetOf(ids[..n]) + {ids[n]};
  }

  /** Looks at the device's index of the used ring, one after the other: each shows the number of entries
      that the device has put there since index `from`, which never falls. */
  ghost predicate Looks(looks: seq<nat>, counts: seq<nat>, from: nat) {
    && |looks| == |counts| > 0
    && (forall i :: 0 <= i < |looks| ==> looks[i] == After(from, counts[i]))
    && (forall i, j :: 0 <= i < j < |counts| ==> counts[i] <= counts[j])
  }

  /** What the device puts on the used ring as long as the driver looks. */
  ghost function Used(ring: seq<nat>, from: nat, counts: seq<nat>): (ids: seq<nat>)
    requires ring != [] && counts != []
    ensures |ids| == counts[|counts| - 1]
  {
    UsedIdsLength(ring, from, counts[|counts| - 1]);
    UsedIds(ring, from, counts[|counts| - 1])
  }

  /** The device puts chains on the used ring that are posted, each once, and the driver looks often enough to
      see that there are no more. */
  ghost predicate Served(ring: seq<nat>, looks: seq<nat>, counts: seq<nat>, from: nat, posted: map<nat, Posted>) {
    && ring != [] && Looks(looks, counts, from) && from < U16
    && |looks| >= 2 * counts[|counts| - 1] + 2
    && AllPosted(Used(ring, from, counts), posted)
  }

  ghost predicate AllPosted(ids: seq<nat>, posted: map<nat, Posted>) {
    NoDup(ids) && forall id :: id in ids ==> id in posted
  }

  /** There are no more used chains than descriptors. */
  lemma FewPosted(t: Table, free: seq<nat>, posted: map<nat, Posted>, whereIs: seq<Where>, ids: seq<nat>)
    requires Inv(t, free, posted, whereIs) && AllPosted(ids, posted)
    ensures |ids| <= |t.desc|
  {
    forall i | 0 <= i < |ids| ensures ids[i] < |t.desc| {
      assert posted[ids[i]].chain[0] == ids[i];
    }
    DistinctBelow(ids, |t.desc|);
  }

  /** Where the loop is: it has made i looks and taken the first done entries. */
  ghost predicate At(looks: seq<nat>, counts: seq<nat>, i: nat, done: nat) {
    |looks| == |counts| && i < |looks| && i <= 2 * done + 1 && done <= counts[i]
  }

  /** A look that shows the index after the first done entries shows that there are no more, and any other look
      that there is one more. */
  lemma LookTells(ring: seq<nat>, looks: seq<nat>, counts: seq<nat>, from: nat, posted: map<nat, Posted>, i: nat,
                  done: nat)
    requires Served(ring, looks, counts, from, posted) && At(looks, counts, i, done)
    requires |Used(ring, from, counts)| < U16
    ensures looks[i] == After(from, done) <==> counts[i] == done
    ensures counts[i] <= |Used(ring, from, counts)|
    ensures i <= 2 * done ==> At(looks, counts, i + 1, done)
    ensures counts[i] > done ==>
              && At(looks, counts, i + 1, done + 1) && done < |Used(ring, from, counts)|
              && Used(ring, from, counts)[done] == Slot(ring, After(from, done))
    ensures NextIndex(After(from, done)) == After(from, done + 1) && After(from, done + 1) < U16
  {
    AfterStep(from, done);
    SameAfter(from, done, counts[i]);
    hide After, NextIndex;
    if counts[i] > done { UsedIdsAt(ring, from, counts[|counts| - 1], done); }
  }

  lemma SameAfter(from: nat, m: nat, n: nat)
    requires from < U16 && m <= n < U16
    ensures After(from, m) == After(from, n) <==> m == n
  {
  }

  lemma AfterStep(from: nat, i: nat)
    ensures (After(from, i) + 1) % U16 == After(from, i + 1) && After(from, i + 1) < U16
  {
  }

  lemma PostedChain(t: Table, free: seq<nat>, posted: map<nat, Posted>, whereIs: seq<Where>, id: nat)
    requires Inv(t, free, posted, whereIs) && id in posted
    ensures ChainOk(t.desc, posted[id].chain, posted[id].bufs)
    ensures posted[id].chain != [] && posted[id].chain[0] == id && posted[id].chain[|posted[id].chain| - 1] < |t.desc|
  {
  }

  /** The first |lists| ids have been handed over. */
  ghost predicate Handed(before: map<nat, Posted>, now: map<nat, Posted>, ids: seq<nat>, lists: seq<seq<Buffer>>) {
    && |lists| <= |ids|
    && now == before - SetOf(ids[..|lists|])
    && forall i :: 0 <= i < |lists| ==> ids[i] in before && lists[i] == Received(before[ids[i]].bufs)
  }

  lemma HandedNone(before: map<nat, Posted>, ids: seq<nat>)
    ensures Handed(before, before, ids, [])
  {
    assert SetOf(ids[..0]) == {};
  }

  /** None of the first n used chains has a reference. */
  ghost predicate NoneReferenced(ids: seq<nat>, n: nat, references: map<nat, seq<Buffer>>) {
    n <= |ids| && forall i :: 0 <= i < n ==> ids[i] !in references
  }

  lemma StaleReferences(before: map<nat, Posted>, now: map<nat, Posted>, ids: seq<nat>, lists: seq<seq<Buffer>>,
                        references: map<nat, seq<Buffer>>)
    requires Handed(before, now, ids, lists)
    ensures references.Keys <= before.Keys ==>
              (references.Keys <= now.Keys <==> NoneReferenced(ids, |lists|, references))
  {
    hide Received;
    forall i | 0 <= i < |lists| ensures ids[i] !in now {
      assert ids[..|lists|][i] == ids[i];
    }
  }

  lemma StillPosted(before: map<nat, Posted>, now: map<nat, Posted>, ids: seq<nat>, lists: seq<seq<Buffer>>)
    requires Handed(before, now, ids, lists) && AllPosted(ids, before) && |lists| < |ids|
    ensures ids[|lists|] in before && ids[|lists|] in now && now[ids[|lists|]] == before[ids[|lists|]]
  {
  }

  lemma HandedNext(before: map<nat, Posted>, now: map<nat, Posted>, ids: seq<nat>, lists: seq<seq<Buffer>>,
                   list: seq<Buffer>)
    requires Handed(before, now, ids, lists) && |lists| < |ids| && ids[|lists|] in before
    requires list == Received(before[ids[|lists|]].bufs)
    ensures Handed(before, now - {ids[|lists|]}, ids, lists + [list])
  {
    var i := |lists|;
    assert SetOf(ids[..i + 1]) == SetOf(ids[..i]) + {ids[i]};
    hide Received;
  }

  /** What the driver watches in one call, and what it had when it began. */
  datatype Watch = Watch(ring: seq<nat>, looks: seq<nat>, counts: seq<nat>, from: nat, posted: map<nat, Posted>,
                         references: map<nat, seq<Buffer>>)

  /** The state of the loops of process_used_buffers and clean_used_buffers, after i looks. */
  ghost predicate Draining(w: Watch, now: map<nat, Posted>, refs: map<nat, seq<Buffer>>, lists: seq<seq<Buffer>>,
                           usedIndex: nat, i: nat) {
    && Served(w.ring, w.looks, w.counts, w.from, w.posted) && |Used(w.ring, w.from, w.counts)| < U16
    && At(w.looks, w.counts, i, |lists|)
    && usedIndex == After(w.from, |lists|) && usedIndex < U16
    && Handed(w.posted, now, Used(w.ring, w.from, w.counts), lists)
    && Dropped(w.references, refs, Used(w.ring, w.from, w.counts), |lists|)
  }

  lemma DrainLook(w: Watch, now: map<nat, Posted>, refs: map<nat, seq<Buffer>>, lists: seq<seq<Buffer>>,
                  usedIndex: nat, i: nat)
    requires Draining(w, now, refs, lists, usedIndex, i)
    ensures i < |w.looks| == |w.counts| && usedIndex < U16
    ensures w.looks[i] == usedIndex <==> w.counts[i] == |lists|
    ensures i <= 2 * |lists| ==> Draining(w, now, refs, lists, usedIndex, i + 1)
  {
    LookTells(w.ring, w.looks, w.counts, w.from, w.posted, i, |lists|);
    hide Used, Slot, NextIndex, After, SetOf, Received, AllPosted, Looks, Dropped;
  }

  /** If there is one more entry, the chain it names is still posted. */
  lemma DrainNext(w: Watch, now: map<nat, Posted>, refs: map<nat, seq<Buffer>>, lists: seq<seq<Buffer>>,
                  usedIndex: nat, i: nat)
    requires Draining(w, now, refs, lists, usedIndex, i)
    ensures i < |w.looks| && w.ring != [] && w.counts != [] && |lists| < U16
    ensures Handed(w.posted, now, Used(w.ring, w.from, w.counts), lists)
    ensures w.looks[i] != usedIndex ==> Slot(w.ring, usedIndex) in now
  {
    LookTells(w.ring, w.looks, w.counts, w.from, w.posted, i, |lists|);
    if w.looks[i] != usedIndex { StillPosted(w.posted, now, Used(w.ring, w.from, w.counts), lists); }
    hide Used, Slot, NextIndex, After, SetOf, Received, AllPosted, Looks, Dropped, Handed;
  }

  lemma DrainTook(w: Watch, now: map<nat, Posted>, refs: map<nat, seq<Buffer>>, lists: seq<seq<Buffer>>,
                  usedIndex: nat, i: nat, list: seq<Buffer>)
    requires Draining(w, now, refs, lists, usedIndex, i) && i < |w.looks| && w.looks[i] != usedIndex && w.ring != []
    requires Slot(w.ring, usedIndex) in now && list == Received(now[Slot(w.ring, usedIndex)].bufs)
    ensures var id := Slot(w.ring, usedIndex);
            Draining(w, now - {id}, refs - {id}, lists + [list], NextIndex(usedIndex), i + 1)
  {
    var ids := Used(w.ring, w.from, w.counts);
    LookTells(w.ring, w.looks, w.counts, w.from, w.posted, i, |lists|);
    StillPosted(w.posted, now, ids, lists);
    HandedNext(w.posted, now, ids, lists, list);
    DroppedNext(w.references, refs, ids, |lists|);
    hide Used, Slot, NextIndex, After, Received, Handed, Served, Dropped;
  }

  lemma CleanedAre(w: Watch, now: map<nat, Posted>, refs: map<nat, seq<Buffer>>, lists: seq<seq<Buffer>>,
                   usedIndex: nat, i: nat)
    requires Draining(w, now, refs, lists, usedIndex, i) && i < |w.counts| && w.counts[i] == |lists|
    ensures w.ring != [] && w.counts != [] && w.counts[i] <= w.counts[|w.counts| - 1]
    ensures var ids := Used(w.ring, w.from, w.counts)[..w.counts[i]];
            now == w.posted - SetOf(ids) && refs == w.references - SetOf(ids)
  {
    hide Used, SetOf, Received, Looks, AllPosted;
  }

  lemma {:induction false} UsedIdsLength(ring: seq<nat>, from: nat, n: nat)
    requires ring != []
    ensures |UsedIds(ring, from, n)| == n
  {
    if n > 0 { UsedIdsLength(ring, from, n - 1); }
  }
}
