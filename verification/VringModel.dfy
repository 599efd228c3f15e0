/** The descriptor table of a virtqueue as the driver keeps it (class vring in sys/virtio.hpp): the
    chain of free descriptors, and the chains that are with the device. */
module VringModel {
  import opened Bits
  import opened Sequences

  datatype Buffer = Buffer(addr: nat, size: nat)

  datatype Desc = Desc(addr: nat, len: nat, isNext: bool, isWrite: bool, next: nat)

  datatype Table = Table(desc: seq<Desc>, freeHead: nat, freeCount: nat)

  /** Descriptors in bounds link to descriptors in bounds. */
  ghost predicate LinksInBounds(t: Table) {
    && t.freeHead < |t.desc|
    && forall i :: 0 <= i < |t.desc| ==> t.desc[i].next < |t.desc|
  }

  /** vring's constructor: all descriptors are free, each linked to the next, the last to the first. */
  function Initial(qsize: nat): Table
    requires qsize > 0
  {
    Table(seq(qsize, (i: nat) => Desc(0, 0, false, false, if i == qsize - 1 then 0 else i + 1)), 0, qsize)
  }

  /** The loop that writes buffers into free descriptors: the table, the new head and the last
      descriptor written. */
  function Fill(desc: seq<Desc>, head: nat, last: nat, bufs: seq<Buffer>, write: bool): (seq<Desc>, nat, nat)
    decreases |bufs|
  {
    if bufs == [] || head >= |desc| then (desc, head, last)
    else
      var d := desc[head].(addr := bufs[0].addr, len := bufs[0].size % U32, isNext := true,
                           isWrite := desc[head].isWrite || write);
      Fill(desc[head := d], d.next, head, bufs[1..], write)
  }

  function ClearNext(desc: seq<Desc>, i: nat): seq<Desc> {
    if i < |desc| then desc[i := desc[i].(isNext := false)] else desc
  }

  /** Taking descriptors for one list of buffers; the chain starts at the old free head. */
  function Add(t: Table, bufs: seq<Buffer>, write: bool): Table
    requires |bufs| <= t.freeCount
  {
    var (desc, head, last) := Fill(t.desc, t.freeHead, t.freeHead, bufs, write);
    Table(ClearNext(desc, last), head, t.freeCount - |bufs|)
  }

  /** Giving a chain back: its last descriptor is linked to the old free head. */
  function Reclaim(t: Table, id: nat, last: nat, len: nat): Table {
    Table(if last < |t.desc| then t.desc[last := t.desc[last].(next := t.freeHead)] else t.desc,
          id, t.freeCount + len)
  }

  // ---- a batch of lists, as add_writable_buffers takes it ----

  function AddAll(t: Table, batch: seq<seq<Buffer>>): Table
    decreases |batch|
  {
    if batch == [] then t
    else
      var n := |batch| - 1;
      var g := AddAll(t, batch[..n]);
      if batch[n] == [] || |batch[n]| > g.freeCount then g else Add(g, batch[n], true)
  }

  function Total(batch: seq<seq<Buffer>>): nat {
    if batch == [] then 0 else |batch[0]| + Total(batch[1..])
  }

  /** How many lists are not empty. */
  function Lists(batch: seq<seq<Buffer>>): nat {
    if batch == [] then 0 else (if batch[0] == [] then 0 else 1) + Lists(batch[1..])
  }

  /** How many lists fit one after the other into `room` descriptors. */
  function Fitting(batch: seq<seq<Buffer>>, room: nat): (k: nat)
    ensures k <= |batch|
  {
    if batch == [] || |batch[0]| > room then 0 else 1 + Fitting(batch[1..], room - |batch[0]|)
  }

  function FirstList(batch: seq<seq<Buffer>>): nat {
    if batch == [] then 0 else if batch[0] != [] then |batch[0]| else FirstList(batch[1..])
  }

  // ---- the event index ----

  /** The driver notifies when the device's event index lies in the window it has just published. */
  predicate CrossesEvent(idx: nat, event: nat, oldIdx: nat)
    requires idx < U16 && event < U16 && oldIdx < U16
  {
    (idx + U16 + U16 - event - 1) % U16 < (idx + U16 - oldIdx) % U16
  }

  // ---- chains ----

  ghost predicate InBounds(desc: seq<Desc>, l: seq<nat>) {
    forall i :: 0 <= i < |l| ==> l[i] < |desc|
  }

  ghost predicate Linked(desc: seq<Desc>, l: seq<nat>)
    requires InBounds(desc, l)
  {
    forall i :: 0 <= i < |l| - 1 ==> desc[l[i]].next == l[i + 1]
  }

  /** A chain with the device: F_NEXT on all descriptors but the last, and the buffers that were posted. */
  ghost predicate ChainOk(desc: seq<Desc>, chain: seq<nat>, bufs: seq<Buffer>) {
    && chain != [] && |bufs| == |chain|
    && InBounds(desc, chain) && Linked(desc, chain)
    && (forall i :: 0 <= i < |chain| ==> (desc[chain[i]].isNext <==> i < |chain| - 1))
    && (forall i :: 0 <= i < |chain| ==> desc[chain[i]].addr == bufs[i].addr && desc[chain[i]].len == bufs[i].size % U32)
  }

  ghost predicate FreeOk(t: Table, free: seq<nat>) {
    && |free| == t.freeCount
    && InBounds(t.desc, free) && Linked(t.desc, free)
    && (free != [] ==> free[0] == t.freeHead)
  }

  /** A list of buffers posted to the device and the descriptors that hold it. */
  datatype Posted = Posted(chain: seq<nat>, bufs: seq<Buffer>)

  /** Where each descriptor is. */
  datatype Where = Free | InChain(head: nat)

  ghost predicate Holds(l: seq<nat>, whereIs: seq<Where>, at: Where) {
    && NoDup(l)
    && forall d: nat :: d in l <==> d < |whereIs| && whereIs[d] == at
  }

  /** The free chain and the chains with the device partition the descriptors. */
  ghost predicate Inv(t: Table, free: seq<nat>, posted: map<nat, Posted>, whereIs: seq<Where>) {
    && LinksInBounds(t) && |whereIs| == |t.desc|
    && FreeOk(t, free) && Holds(free, whereIs, Free)
    && (forall h :: h in posted ==>
          && ChainOk(t.desc, posted[h].chain, posted[h].bufs) && posted[h].chain[0] == h
          && Holds(posted[h].chain, whereIs, InChain(h)))
    && (forall d: nat :: d < |whereIs| && whereIs[d].InChain? ==> whereIs[d].head in posted)
  }
}
