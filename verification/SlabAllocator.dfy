/** The slab allocator of one root: the methods of SlabCache and SlabAllocator over the shared caches,
    per-CPU allocators and slab records (sys/slab_allocator.cpp). */
module SlabAllocator {
  import opened Bits
  import opened Wrappers
  import opened SlabModel
  import opened SlabInvariant
  import opened SlabSteps
  import opened SlabPages
  import opened SlabRuns
  import opened SlabBounds

  class SlabAllocatorRoot {
    const root: Root
    var caches: map<nat, Cache>
    var cpus: map<nat, Cpu>
    var slabs: map<nat, Slab>
    var owner: map<nat, nat>
    ghost var place: map<nat, Place>

    function Now(): Heap
      reads this
    {
      Heap(caches, cpus, slabs, owner)
    }

    ghost predicate Valid()
      reads this
    {
      Inv(root, Now(), place)
    }

    /** A root with empty caches, and CPUs that have freed nothing yet. */
    constructor (r: Root, cacheIds: set<nat>, cpuIds: set<nat>)
      requires r.Ok()
      ensures root == r && Valid() && Clients(place) == {} && Empty(Now())
      ensures caches.Keys == cacheIds && cpus.Keys == cpuIds
    {
      root := r;
      caches := map c | c in cacheIds :: Cache([], [], [], false);
      cpus := map k | k in cpuIds :: Cpu([], None);
      slabs, owner, place := map[], map[], map[];
      new;
      EmptyInv(root, Now());
    }

    // ---- the methods of SlabCache and SlabAllocator, on the lists alone ----

    /** SlabCache::AddSlab */
    method AddSlab(c: nat, pfn: nat)
      requires root.size > 0 && c in caches
      modifies this`caches, this`slabs, this`owner
      ensures Now() == SlabModel.AddSlab(root, old(Now()), c, pfn)
    {
      var list: seq<nat> := [];
      var i := 0;
      while i < root.PerSlab()
        invariant 0 <= i <= root.PerSlab()
        invariant list == Carve(root, pfn, i) && owner == TagOwner(root, old(owner), pfn, i, c)
        invariant caches == old(caches) && slabs == old(slabs)
      {
        var addr := pfn * PAGE + i * root.size;
        list := [addr] + list;
        owner := owner[addr / PAGE := c];
        i := i + 1;
      }
      slabs := slabs[pfn := Slab(c, 0, list)];
      caches := caches[c := caches[c].(partial := [pfn] + caches[c].partial)];
    }

    /** SlabAllocator::FlushRemoteList, under the target cache's lock. */
    method FlushRemoteList(k: nat)
      requires k in cpus
      modifies this`caches, this`cpus
      ensures Now() == SlabModel.FlushRemoteList(root, old(Now()), k)
    {
      if cpus[k].target.None? {
        return;
      }
      var t := cpus[k].target.value;
      if t in caches {
        var size := |caches[t].incoming|;
        var list := SpliceAfterFirst(caches[t].incoming, cpus[k].remote);
        cpus := cpus[k := cpus[k].(remote := [])];
        var check := caches[t].remoteCheck;
        if size < root.freeBatch && |list| >= root.freeBatch {
          check := true;
        }
        caches := caches[t := caches[t].(incoming := list, remoteCheck := check)];
      }
    }

    /** SlabAllocator::FreeRemote */
    method FreeRemote(k: nat, o: nat)
      requires k in cpus
      modifies this`caches, this`cpus
      ensures Now() == SlabModel.FreeRemote(root, old(Now()), k, o)
    {
      hide SlabModel.FlushRemoteList;
      FlushRemoteShape(root, Now(), k);
      var cache := Owner(Now(), o / PAGE);
      if cpus[k].target != cache {
        FlushRemoteList(k);
        cpus := cpus[k := cpus[k].(target := cache)];
      }
      cpus := cpus[k := cpus[k].(remote := [o] + cpus[k].remote)];
      if |cpus[k].remote| > root.freeBatch {
        FlushRemoteList(k);
      }
    }

    /** SlabCache::FlushFreeList, run by CPU k. */
    method FlushFreeList(k: nat, c: nat, amount: nat)
      requires root.size > 0 && k in cpus && c in caches
      modifies this`caches, this`cpus, this`slabs
      ensures Now() == SlabModel.FlushFreeList(root, old(Now()), k, c, amount)
    {
      hide SlabModel.FlushFreeList, FlushOne, OnlyObjects;
      ghost var flushed := SlabModel.FlushFreeList(root, Now(), k, c, amount);
      var freed := 0;
      while caches[c].objects != [] && freed < amount
        invariant 0 <= freed <= amount && k in cpus && c in caches
        invariant SlabModel.FlushFreeList(root, Now(), k, c, amount - freed) == flushed
        decreases amount - freed
      {
        FlushNext(root, Now(), k, c, amount - freed);
        FlushFront(k, c);
        freed := freed + 1;
      }
      FlushNone(root, Now(), k, c, amount - freed);
    }

    /** The body of the loop of FlushFreeList. */
    method FlushFront(k: nat, c: nat)
      requires root.size > 0 && k in cpus && c in caches && caches[c].objects != []
      modifies this`caches, this`cpus, this`slabs
      ensures Now() == FlushOne(root, old(Now()), k, c)
    {
      hide SlabModel.FreeRemote, ReturnObject;
      var obj := caches[c].objects[0];
      caches := caches[c := caches[c].(objects := caches[c].objects[1..])];
      var pfn := root.HeadOf(obj);
      if Owner(Now(), pfn) != Some(c) {
        FreeRemote(k, obj);
      } else if pfn in slabs && slabs[pfn].used > 0 {
        ReturnToSlab(c, pfn, obj);
      }
    }

    /** The branch of FlushFreeList for an object of a slab of this cache. */
    method ReturnToSlab(c: nat, pfn: nat, obj: nat)
      requires root.size > 0 && c in caches && pfn in slabs && slabs[pfn].used > 0
      modifies this`caches, this`slabs
      ensures Now() == ReturnObject(root, old(Now()), c, pfn, obj)
    {
      var slab := slabs[pfn].(free := [obj] + slabs[pfn].free, used := slabs[pfn].used - 1);
      if slab.used == 0 {
        if root.PerSlab() > 1 {
          caches := caches[c := caches[c].(partial := Without(caches[c].partial, pfn))];
        }
        slabs := slabs - {pfn};
      } else {
        if slab.used + 1 == root.PerSlab() {
          caches := caches[c := caches[c].(partial := [pfn] + caches[c].partial)];
        }
        slabs := slabs[pfn := slab];
      }
    }

    /** SlabCache::Free */
    method CacheFree(k: nat, c: nat, o: nat)
      requires root.size > 0 && k in cpus && c in caches
      modifies this`caches, this`cpus, this`slabs
      ensures Now() == SlabModel.CacheFree(root, old(Now()), k, c, o)
    {
      hide SlabModel.FlushFreeList;
      caches := caches[c := caches[c].(objects := [o] + caches[c].objects)];
      if |caches[c].objects| > root.hiwater {
        FlushFreeList(k, c, root.freeBatch);
      }
    }

    /** SlabCache::ClaimRemoteFreeList; `clear` says whether the flag is cleared, which it is not in the
        source. */
    method ClaimRemoteFreeList(c: nat, clear: bool)
      requires c in caches
      modifies this`caches
      ensures Now() == Claim(old(Now()), c, clear)
    {
      var cache := caches[c];
      if cache.objects == [] {
        assert cache.objects + cache.incoming == cache.incoming;
        cache := cache.(objects := cache.incoming, incoming := []);
      } else {
        cache := cache.(objects := cache.objects + cache.incoming, incoming := []);
      }
      if clear {
        cache := cache.(remoteCheck := false);
      }
      caches := caches[c := cache];
    }

    /** The loop of SlabCache::Alloc that flushes what a claim brought beyond hiwater. */
    method FlushToHiwater(k: nat, c: nat)
      requires root.size > 0 && k in cpus && c in caches
      requires root.freeBatch > 0 || |caches[c].objects| <= root.hiwater
      modifies this`caches, this`cpus, this`slabs
      ensures Now() == FlushDown(root, old(Now()), k, c)
    {
      hide SlabModel.FlushFreeList;
      while |caches[c].objects| > root.hiwater
        invariant k in cpus && c in caches
        invariant FlushDown(root, Now(), k, c) == FlushDown(root, old(Now()), k, c)
        decreases |caches[c].objects|
      {
        FlushFreeList(k, c, root.freeBatch);
      }
    }

    /** SlabCache::Alloc with the flag cleared on a claim. */
    method CacheAlloc(k: nat, c: nat) returns (r: Option<nat>)
      requires root.Ok() && k in cpus && c in caches && Returning(root, Now(), c)
      modifies this`caches, this`cpus, this`slabs
      ensures match AllocCleared(root, old(Now()), k, c)
              case Got(g, o) => Now() == g && r == Some(o)
              case Null(g) => Now() == g && r == None
              case Again(g) => false
              case Stuck => false
    {
      hide Claim, FlushDown, TakePartial, PopObject;
      AllocClearedEnds(root, Now(), k, c);
      if caches[c].objects == [] && caches[c].remoteCheck {
        ClaimShape(Now(), c, true);
        ClaimRemoteFreeList(c, true);
        if |caches[c].objects| > root.hiwater && root.freeBatch > 0 { FlushDownNonEmpty(root, Now(), k, c); }
        FlushDownSmall(root, Now(), k, c);
        FlushToHiwater(k, c);
      }
      assert caches[c].objects != [] || !caches[c].remoteCheck;
      if caches[c].objects != [] {
        r := PopFront(c);
      } else if caches[c].partial != [] {
        r := TakeFromPartial(c);
      } else {
        r := None;
      }
    }

    method PopFront(c: nat) returns (r: Option<nat>)
      requires c in caches && caches[c].objects != []
      modifies this`caches
      ensures Now() == PopObject(old(Now()), c) && r == Some(old(caches[c].objects[0]))
    {
      r := Some(caches[c].objects[0]);
      caches := caches[c := caches[c].(objects := caches[c].objects[1..])];
    }

    /** The part of Alloc that takes an object from the first partial slab. */
    method TakeFromPartial(c: nat) returns (r: Option<nat>)
      requires root.size > 0 && c in caches && caches[c].partial != []
      modifies this`caches, this`slabs
      ensures match TakePartial(root, old(Now()), c)
              case Got(g, o) => Now() == g && r == Some(o)
              case Null(g) => Now() == g && r == None
              case Again(g) => false
              case Stuck => false
    {
      var pfn := caches[c].partial[0];
      if pfn !in slabs || slabs[pfn].free == [] {
        return None;
      }
      if slabs[pfn].used + 1 == root.PerSlab() {
        caches := caches[c := caches[c].(partial := caches[c].partial[1..])];
      }
      var obj := slabs[pfn].free[0];
      slabs := slabs[pfn := slabs[pfn].(used := slabs[pfn].used + 1, free := slabs[pfn].free[1..])];
      return Some(obj);
    }

    // ---- what a client of the allocator sees ----

    /** SlabAllocator::Alloc on this CPU's own node; `page` is what the page allocator returns when it
        is asked. The object was with no client, the result is None only if there is no page, and the lists
        stay within their bounds. */
    method Alloc(k: nat, c: nat, page: Option<nat>) returns (r: Option<nat>)
      requires Valid() && k in cpus && c in caches && Returning(root, Now(), c)
      requires page.Some? ==> Aligned(page.value, root.order) && page.value !in slabs
      modifies this
      ensures Valid()
      ensures AllocWhole(root, old(Now()), k, c, page) == if r.Some? then Got(Now(), r.value) else Null(Now())
      ensures r.Some? ==> r.value !in old(Clients(place)) && Clients(place) == old(Clients(place)) + {r.value}
      ensures r.None? ==> page.None? && Clients(place) == old(Clients(place))
      ensures root.freeBatch > 0 && old(Bounded(root, Now())) ==> Bounded(root, Now())
    {
      hide Inv, Clients, AllocWhole, Bounded, Returning, Aligned;
      InvParts(root, Now(), place, 0);
      ghost var after := AllocWholeKeeps(root, Now(), place, k, c, page);
      if root.freeBatch > 0 && Bounded(root, Now()) { AllocWholeBounded(root, Now(), place, k, c, page); }
      r := AllocOrGrow(k, c, page);
      place := after;
    }

    /** The body of SlabAllocator::Alloc, on the lists alone. */
    method AllocOrGrow(k: nat, c: nat, page: Option<nat>) returns (r: Option<nat>)
      requires Valid() && k in cpus && c in caches && Returning(root, Now(), c)
      requires page.Some? ==> Aligned(page.value, root.order) && page.value !in slabs
      modifies this`caches, this`cpus, this`slabs, this`owner
      ensures root.size > 0
      ensures AllocWhole(root, old(Now()), k, c, page) == if r.Some? then Got(Now(), r.value) else Null(Now())
    {
      hide Inv, AllocCleared, SlabModel.AddSlab, Returning, Aligned;
      AllocWholeSteps(root, Now(), place, k, c, page);
      InvParts(root, Now(), place, 0);
      r := CacheAlloc(k, c);
      if r.None? && page.Some? {
        AddSlab(c, page.value);
        r := CacheAlloc(k, c);
      }
    }

    /** SlabAllocator::Free: an object of this CPU's node goes to this CPU's cache c, any other to the
        remote list. */
    method Free(k: nat, c: nat, o: nat, onThisNode: bool)
      requires Valid() && k in cpus && c in caches && o in Clients(place)
      modifies this
      ensures Valid() && Clients(place) == old(Clients(place)) - {o}
      ensures Now() == if onThisNode then SlabModel.CacheFree(root, old(Now()), k, c, o)
                       else SlabModel.FreeRemote(root, old(Now()), k, o)
      ensures root.freeBatch > 0 && old(Bounded(root, Now())) ==> Bounded(root, Now())
    {
      hide Inv, Clients, Bounded, GoesRemote, SlabModel.FreeRemote, SlabModel.CacheFree;
      InvParts(root, Now(), place, 0);
      ClientHas(place, o);
      if onThisNode {
        ghost var after := CacheFreeKeeps(root, Now(), place, k, c, o);
        if root.freeBatch > 0 && Bounded(root, Now()) { CacheFreeBounded(root, Now(), place, k, c, o); }
        CacheFree(k, c, o);
        place := after;
      } else {
        ghost var after := FreeRemoteKeeps(root, Now(), place, k, o);
        GoesRemoteClients(place, after, k, o, slabs[root.HeadOf(o)].cache);
        if Bounded(root, Now()) { FreeRemoteBounded(root, Now(), place, k, o); }
        FreeRemote(k, o);
        place := after;
      }
    }
  }

  lemma FlushRemoteShape(root: Root, h: Heap, k: nat)
    requires k in h.cpus
    ensures var g := SlabModel.FlushRemoteList(root, h, k);
            k in g.cpus && g.cpus[k].target == h.cpus[k].target && g.owner == h.owner && g.slabs == h.slabs
  {
  }

  /** Nothing to flush, nothing done. */
  lemma FlushDownSmall(root: Root, h: Heap, k: nat, c: nat)
    requires root.size > 0 && k in h.cpus && c in h.caches
    requires root.freeBatch > 0 || |h.caches[c].objects| <= root.hiwater
    ensures |h.caches[c].objects| <= root.hiwater ==> FlushDown(root, h, k, c) == h
    ensures k in FlushDown(root, h, k, c).cpus && c in FlushDown(root, h, k, c).caches
  {
  }
}
