/** The slab allocator's state and operations as functions (sys/slab_allocator.cpp). One heap holds
    the caches, the per-CPU allocators and the slabs of one SlabAllocatorRoot. */
module SlabModel {
  import opened Bits
  import opened Wrappers

  /** The sizing numbers of a root (sys/slab_allocator.cpp:408-412). */
  datatype Root = Root(size: nat, order: nat, freeBatch: nat, hiwater: nat) {
    ghost predicate Ok() {
      size > 0 && PerSlab() > 0 && hiwater == freeBatch * 4
    }

    /** num_objects_per_slab */
    function PerSlab(): nat
      requires size > 0
    {
      (PAGE * Pow2(order)) / size
    }

    function ObjectAt(p: nat, i: nat): nat { p * PAGE + i * size }

    /** addr_to_slab_pfn: the first frame of the slab that an address lies in. */
    function HeadOf(addr: nat): nat { AlignDown(addr / PAGE, order) }
  }

  /** A SlabCache: its object list, its partial slabs, and the list other CPUs free into. */
  datatype Cache = Cache(objects: seq<nat>, partial: seq<nat>, incoming: seq<nat>, remoteCheck: bool)

  /** A SlabAllocator's remote list and the cache that list is for. */
  datatype Cpu = Cpu(remote: seq<nat>, target: Option<nat>)

  /** The slab data kept in the page record of a slab's first frame. */
  datatype Slab = Slab(cache: nat, used: nat, free: seq<nat>)

  /** `owner` is the cache field that AddSlab writes into the record of every frame in which an
      object starts; it stays behind when a slab is gone. */
  datatype Heap = Heap(caches: map<nat, Cache>, cpus: map<nat, Cpu>, slabs: map<nat, Slab>, owner: map<nat, nat>)

  function Owner(h: Heap, frame: nat): Option<nat> {
    if frame in h.owner then Some(h.owner[frame]) else None
  }

  // ---- AddSlab ----

  /** The first n objects of a slab, each pushed on the front of the list. */
  function Carve(root: Root, p: nat, n: nat): seq<nat> {
    if n == 0 then [] else [root.ObjectAt(p, n - 1)] + Carve(root, p, n - 1)
  }

  function TagOwner(root: Root, owner: map<nat, nat>, p: nat, n: nat, c: nat): map<nat, nat> {
    if n == 0 then owner
    else TagOwner(root, owner, p, n - 1, c)[root.ObjectAt(p, n - 1) / PAGE := c]
  }

  function AddSlab(root: Root, h: Heap, c: nat, p: nat): Heap
    requires root.size > 0 && c in h.caches
  {
    var cache := h.caches[c];
    Heap(h.caches[c := cache.(partial := [p] + cache.partial)], h.cpus,
         h.slabs[p := Slab(c, 0, Carve(root, p, root.PerSlab()))],
         TagOwner(root, h.owner, p, root.PerSlab(), c))
  }

  // ---- freeing to another cache ----

  /** Boost's splice_after(begin): the new elements follow the first one. */
  function SpliceAfterFirst(list: seq<nat>, more: seq<nat>): seq<nat> {
    if list == [] then more else [list[0]] + more + list[1..]
  }

  function FlushRemoteList(root: Root, h: Heap, k: nat): Heap
    requires k in h.cpus
  {
    match h.cpus[k].target
    case None => h
    case Some(t) =>
      if t !in h.caches then h
      else
        var cache := h.caches[t];
        var list := SpliceAfterFirst(cache.incoming, h.cpus[k].remote);
        var crossed := |cache.incoming| < root.freeBatch <= |list|;
        h.(caches := h.caches[t := cache.(incoming := list, remoteCheck := cache.remoteCheck || crossed)],
           cpus := h.cpus[k := h.cpus[k].(remote := [])])
  }

  /** Makes cache `target` the one this CPU's remote list is for. */
  function Retarget(root: Root, h: Heap, k: nat, target: Option<nat>): Heap
    requires k in h.cpus
  {
    if h.cpus[k].target == target then h
    else
      var g := FlushRemoteList(root, h, k);
      g.(cpus := g.cpus[k := g.cpus[k].(target := target)])
  }

  function PushRemote(h: Heap, k: nat, o: nat): Heap
    requires k in h.cpus
  {
    h.(cpus := h.cpus[k := h.cpus[k].(remote := [o] + h.cpus[k].remote)])
  }

  function FreeRemote(root: Root, h: Heap, k: nat, o: nat): Heap
    requires k in h.cpus
  {
    var g := PushRemote(Retarget(root, h, k, Owner(h, o / PAGE)), k, o);
    if |g.cpus[k].remote| > root.freeBatch then FlushRemoteList(root, g, k) else g
  }

  // ---- freeing to the slab ----

  function Without(l: seq<nat>, x: nat): seq<nat> {
    if l == [] then []
    else if l[0] == x then l[1..]
    else [l[0]] + Without(l[1..], x)
  }

  /** The branch of FlushFreeList for an object of cache c's own slab p. */
  function ReturnObject(root: Root, h: Heap, c: nat, p: nat, o: nat): Heap
    requires root.size > 0 && c in h.caches && p in h.slabs && h.slabs[p].used > 0
  {
    var cache := h.caches[c];
    var slab := h.slabs[p].(free := [o] + h.slabs[p].free, used := h.slabs[p].used - 1);
    if slab.used == 0 then
      h.(caches := h.caches[c := if root.PerSlab() > 1 then cache.(partial := Without(cache.partial, p)) else cache],
         slabs := h.slabs - {p})
    else
      h.(caches := h.caches[c := if slab.used + 1 == root.PerSlab()
                                 then cache.(partial := [p] + cache.partial) else cache],
         slabs := h.slabs[p := slab])
  }

  function PopObject(h: Heap, c: nat): Heap
    requires c in h.caches && h.caches[c].objects != []
  {
    h.(caches := h.caches[c := h.caches[c].(objects := h.caches[c].objects[1..])])
  }

  /** One round of FlushFreeList: the front object leaves cache c's object list. */
  function FlushOne(root: Root, h: Heap, k: nat, c: nat): Heap
    requires root.size > 0 && k in h.cpus && c in h.caches && h.caches[c].objects != []
  {
    var o := h.caches[c].objects[0];
    var p := root.HeadOf(o);
    var g := PopObject(h, c);
    if Owner(h, p) != Some(c) then FreeRemote(root, g, k, o)
    else if p in g.slabs && g.slabs[p].used > 0 then ReturnObject(root, g, c, p, o)
    else g
  }

  /** No operation adds or removes a cache or a CPU, and only cache c's object list may differ. */
  ghost predicate OnlyObjects(h: Heap, g: Heap, c: nat) {
    && g.caches.Keys == h.caches.Keys && g.cpus.Keys == h.cpus.Keys
    && forall d :: d in h.caches && d != c ==> g.caches[d].objects == h.caches[d].objects
  }

  lemma ReturnObjectShape(root: Root, h: Heap, c: nat, p: nat, o: nat)
    requires root.size > 0 && c in h.caches && p in h.slabs && h.slabs[p].used > 0
    ensures OnlyObjects(h, ReturnObject(root, h, c, p, o), c)
    ensures ReturnObject(root, h, c, p, o).caches[c].objects == h.caches[c].objects
  {
  }

  lemma FreeRemoteShape(root: Root, h: Heap, k: nat, o: nat, c: nat)
    requires k in h.cpus
    ensures OnlyObjects(h, FreeRemote(root, h, k, o), c)
    ensures c in h.caches ==> FreeRemote(root, h, k, o).caches[c].objects == h.caches[c].objects
  {
    hide FlushRemoteList;
    FlushRemoteObjects(root, h, k);
    FlushRemoteObjects(root, PushRemote(Retarget(root, h, k, Owner(h, o / PAGE)), k, o), k);
  }

  lemma FlushRemoteObjects(root: Root, h: Heap, k: nat)
    requires k in h.cpus
    ensures var g := FlushRemoteList(root, h, k);
            && g.caches.Keys == h.caches.Keys && g.cpus.Keys == h.cpus.Keys
            && forall d :: d in h.caches ==> g.caches[d].objects == h.caches[d].objects
  {
    hide SpliceAfterFirst;
  }

  lemma FlushOneShape(root: Root, h: Heap, k: nat, c: nat)
    requires root.size > 0 && k in h.cpus && c in h.caches && h.caches[c].objects != []
    ensures OnlyObjects(h, FlushOne(root, h, k, c), c)
    ensures FlushOne(root, h, k, c).caches[c].objects == h.caches[c].objects[1..]
  {
    var g := PopObject(h, c);
    var p := root.HeadOf(h.caches[c].objects[0]);
    FreeRemoteShape(root, g, k, h.caches[c].objects[0], c);
    if p in g.slabs && g.slabs[p].used > 0 { ReturnObjectShape(root, g, c, p, h.caches[c].objects[0]); }
    hide FreeRemote, ReturnObject;
  }

  function FlushFreeList(root: Root, h: Heap, k: nat, c: nat, amount: nat): (g: Heap)
    requires root.size > 0 && k in h.cpus && c in h.caches
    ensures k in g.cpus && c in g.caches
    ensures OnlyObjects(h, g, c)
    ensures |g.caches[c].objects| == if amount < |h.caches[c].objects| then |h.caches[c].objects| - amount else 0
    decreases amount
  {
    if amount == 0 || h.caches[c].objects == [] then h
    else
      FlushOneShape(root, h, k, c);
      FlushFreeList(root, FlushOne(root, h, k, c), k, c, amount - 1)
  }

  function CacheFree(root: Root, h: Heap, k: nat, c: nat, o: nat): Heap
    requires root.size > 0 && k in h.cpus && c in h.caches
  {
    var g := h.(caches := h.caches[c := h.caches[c].(objects := [o] + h.caches[c].objects)]);
    if |g.caches[c].objects| > root.hiwater then FlushFreeList(root, g, k, c, root.freeBatch) else g
  }

  // ---- allocating ----

  /** ClaimRemoteFreeList. As written it leaves remote_check set; `clear` is the evident intent. */
  function Claim(h: Heap, c: nat, clear: bool): Heap
    requires c in h.caches
  {
    var cache := h.caches[c];
    h.(caches := h.caches[c := cache.(objects := cache.objects + cache.incoming, incoming := [],
                                      remoteCheck := cache.remoteCheck && !clear)])
  }

  /** The loop that flushes down to hiwater after a claim. */
  function FlushDown(root: Root, h: Heap, k: nat, c: nat): (g: Heap)
    requires root.size > 0 && k in h.cpus && c in h.caches
    requires root.freeBatch > 0 || |h.caches[c].objects| <= root.hiwater
    ensures k in g.cpus && c in g.caches && OnlyObjects(h, g, c)
    ensures |g.caches[c].objects| <= root.hiwater
    decreases |h.caches[c].objects|
  {
    if |h.caches[c].objects| > root.hiwater
    then FlushDown(root, FlushFreeList(root, h, k, c, root.freeBatch), k, c)
    else h
  }

  /** How one pass through SlabCache::Alloc ends: with an object, with nullptr, back at `retry`, or
      in a flush loop that makes no progress. */
  datatype Pass = Got(h: Heap, o: nat) | Null(h: Heap) | Again(h: Heap) | Stuck

  function TakePartial(root: Root, h: Heap, c: nat): Pass
    requires root.size > 0 && c in h.caches && h.caches[c].partial != []
  {
    var cache := h.caches[c];
    var p := cache.partial[0];
    if p !in h.slabs || h.slabs[p].free == [] then Null(h)
    else
      var slab := h.slabs[p];
      Got(h.(caches := h.caches[c := if slab.used + 1 == root.PerSlab()
                                     then cache.(partial := cache.partial[1..]) else cache],
             slabs := h.slabs[p := slab.(used := slab.used + 1, free := slab.free[1..])]),
          slab.free[0])
  }

  function AllocPass(root: Root, h: Heap, k: nat, c: nat, clear: bool): Pass
    requires root.size > 0 && k in h.cpus && c in h.caches
  {
    var cache := h.caches[c];
    if cache.objects != [] then Got(PopObject(h, c), cache.objects[0])
    else if cache.remoteCheck then
      var g := Claim(h, c, clear);
      if |g.caches[c].objects| <= root.hiwater then Again(g)
      else if root.freeBatch == 0 then Stuck
      else Again(FlushDown(root, g, k, c))
    else if cache.partial != [] then TakePartial(root, h, c)
    else Null(h)
  }
}
