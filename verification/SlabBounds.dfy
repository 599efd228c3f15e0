/** How long the slab allocator's lists get, in every reachable state: what hiwater and free_batch are for
    (sys/slab_allocator.cpp). */
module SlabBounds {
  import opened Bits
  import opened Wrappers
  import opened SlabModel
  import opened SlabInvariant
  import opened SlabSteps
  import opened SlabPages
  import opened SlabRuns

  ghost predicate RemotesBounded(root: Root, h: Heap) {
    forall k :: k in h.cpus ==> |h.cpus[k].remote| <= root.freeBatch
  }

  ghost predicate ListsBounded(root: Root, h: Heap) {
    forall c :: c in h.caches ==> |h.caches[c].objects| <= root.hiwater
  }

  /** What holds in the middle of a call, too. */
  ghost predicate Waiting(root: Root, h: Heap) {
    RemotesBounded(root, h) && Watermark(root, h)
  }

  /** Object lists are within hiwater, remote lists within free_batch, and a cache has been told to look at its
      incoming list exactly if that holds free_batch objects or more. */
  ghost predicate Bounded(root: Root, h: Heap) {
    ListsBounded(root, h) && Waiting(root, h)
  }

  // ---- the parts of a call ----

  lemma FlushRemoteOthers(root: Root, h: Heap, k: nat)
    requires k in h.cpus
    ensures FlushRemoteList(root, h, k).cpus.Keys == h.cpus.Keys
    ensures forall j :: j in h.cpus && j != k ==> FlushRemoteList(root, h, k).cpus[j] == h.cpus[j]
  {
    hide SpliceAfterFirst;
  }

  lemma FreeRemoteOthers(root: Root, h: Heap, k: nat, o: nat)
    requires k in h.cpus
    ensures FreeRemote(root, h, k, o).cpus.Keys == h.cpus.Keys
    ensures forall j :: j in h.cpus && j != k ==> FreeRemote(root, h, k, o).cpus[j] == h.cpus[j]
  {
    hide FlushRemoteList;
    FlushRemoteOthers(root, h, k);
    FlushRemoteOthers(root, PushRemote(Retarget(root, h, k, Owner(h, o / PAGE)), k, o), k);
  }

  lemma FreeRemoteWaiting(root: Root, h: Heap, place: map<nat, Place>, k: nat, o: nat)
    requires Inv(root, h, place) && k in h.cpus && o in place && place[o] == Client && Waiting(root, h)
    ensures Waiting(root, FreeRemote(root, h, k, o))
  {
    var after := FreeRemoteKeeps(root, h, place, k, o);
    FreeRemoteOthers(root, h, k, o);
    FreeRemoteWatermark(root, h, k, o);
    hide Inv, FreeRemote, Watermark;
  }

  /** The same remote lists, incoming lists and flags. */
  ghost predicate SameWaiting(h: Heap, g: Heap) {
    && g.cpus == h.cpus && g.caches.Keys == h.caches.Keys
    && (forall c :: c in h.caches ==> g.caches[c].incoming == h.caches[c].incoming)
    && (forall c :: c in h.caches ==> g.caches[c].remoteCheck == h.caches[c].remoteCheck)
  }

  lemma WaitingSame(root: Root, h: Heap, g: Heap)
    requires SameWaiting(h, g) && Waiting(root, h)
    ensures Waiting(root, g)
  {
  }

  lemma ReturnObjectSame(root: Root, h: Heap, c: nat, p: nat, o: nat)
    requires root.size > 0 && c in h.caches && p in h.slabs && h.slabs[p].used > 0
    ensures SameWaiting(h, ReturnObject(root, h, c, p, o))
  {
  }

  lemma PopWaiting(root: Root, h: Heap, c: nat)
    requires c in h.caches && h.caches[c].objects != [] && Waiting(root, h)
    ensures Waiting(root, PopObject(h, c))
  {
    WaitingSame(root, h, PopObject(h, c));
  }

  lemma FlushOneWaiting(root: Root, h: Heap, place: map<nat, Place>, k: nat, c: nat)
    requires Inv(root, h, place) && k in h.cpus && c in h.caches && h.caches[c].objects != [] && Waiting(root, h)
    ensures root.size > 0 && Waiting(root, FlushOne(root, h, k, c))
  {
    assert root.size > 0;
    var o := h.caches[c].objects[0];
    var p := root.HeadOf(o);
    var g, mid := PopObject(h, c), place[o := Client];
    hide Inv, Waiting, SameWaiting, FreeRemote, ReturnObject;
    PopObjectKeeps(root, h, place, c);
    PopWaiting(root, h, c);
    hide PopObject;
    if Owner(h, p) != Some(c) {
      FreeRemoteWaiting(root, g, mid, k, o);
    } else if p in g.slabs && g.slabs[p].used > 0 {
      ReturnObjectSame(root, g, c, p, o);
      WaitingSame(root, g, ReturnObject(root, g, c, p, o));
    }
  }

  lemma {:induction false} FlushWaiting(root: Root, h: Heap, place: map<nat, Place>, k: nat, c: nat, amount: nat)
    requires Inv(root, h, place) && k in h.cpus && c in h.caches && Waiting(root, h)
    ensures root.size > 0 && Waiting(root, FlushFreeList(root, h, k, c, amount))
    decreases amount
  {
    hide *;
    InvParts(root, h, place, 0);
    if amount == 0 || h.caches[c].objects == [] {
      FlushNone(root, h, k, c, amount);
    } else {
      FlushNext(root, h, k, c, amount);
      var mid := FlushOneKeeps(root, h, place, k, c);
      FlushOneWaiting(root, h, place, k, c);
      FlushWaiting(root, FlushOne(root, h, k, c), mid, k, c, amount - 1);
    }
  }

  lemma {:induction false} FlushDownWaiting(root: Root, h: Heap, place: map<nat, Place>, k: nat, c: nat)
    requires Inv(root, h, place) && k in h.cpus && c in h.caches && root.freeBatch > 0 && Waiting(root, h)
    ensures root.size > 0 && Waiting(root, FlushDown(root, h, k, c))
    decreases |h.caches[c].objects|
  {
    assert root.size > 0 && root.hiwater == root.freeBatch * 4 by { InvParts(root, h, place, 0); }
    hide Inv, Waiting, FlushFreeList;
    if |h.caches[c].objects| > root.hiwater {
      var mid := FlushKeeps(root, h, place, k, c, root.freeBatch);
      FlushWaiting(root, h, place, k, c, root.freeBatch);
      FlushDownWaiting(root, FlushFreeList(root, h, k, c, root.freeBatch), mid, k, c);
    }
  }

  // ---- whole calls ----

  lemma CacheFreeIs(root: Root, h: Heap, k: nat, c: nat, o: nat)
    requires root.size > 0 && k in h.cpus && c in h.caches
    ensures var g := PushObject(h, c, o);
            && k in g.cpus && c in g.caches && SameWaiting(h, g)
            && CacheFree(root, h, k, c, o)
               == if |g.caches[c].objects| > root.hiwater then FlushFreeList(root, g, k, c, root.freeBatch) else g
  {
    hide FlushFreeList;
  }

  lemma CacheFreeWaiting(root: Root, h: Heap, place: map<nat, Place>, k: nat, c: nat, o: nat)
    requires Inv(root, h, place) && k in h.cpus && c in h.caches && o in place && place[o] == Client
    requires Waiting(root, h)
    ensures root.size > 0 && Waiting(root, CacheFree(root, h, k, c, o))
  {
    hide Inv, Waiting, PushObject, CacheFree, FlushFreeList, SameWaiting;
    InvParts(root, h, place, 0);
    var g := PushObject(h, c, o);
    CacheFreeIs(root, h, k, c, o);
    WaitingSame(root, h, g);
    PushObjectKeeps(root, h, place, c, o);
    if |g.caches[c].objects| > root.hiwater {
      FlushWaiting(root, g, place[o := OnCache(c)], k, c, root.freeBatch);
    }
  }

  /** Freeing to a cache keeps the bounds. */
  lemma CacheFreeBounded(root: Root, h: Heap, place: map<nat, Place>, k: nat, c: nat, o: nat)
    requires Inv(root, h, place) && k in h.cpus && c in h.caches && o in place && place[o] == Client
    requires Bounded(root, h) && root.freeBatch > 0
    ensures root.size > 0 && Bounded(root, CacheFree(root, h, k, c, o))
  {
    assert root.Ok() by { InvParts(root, h, place, 0); }
    CacheFreeWaiting(root, h, place, k, c, o);
    HiwaterBound(root, h, k, c, o);
    var g := PushObject(h, c, o);
    var t := CacheFree(root, h, k, c, o);
    assert OnlyObjects(g, t, c);
    hide Inv, CacheFree, Waiting;
  }

  /** Freeing to another CPU's cache keeps the bounds. */
  lemma FreeRemoteBounded(root: Root, h: Heap, place: map<nat, Place>, k: nat, o: nat)
    requires Inv(root, h, place) && k in h.cpus && o in place && place[o] == Client && Bounded(root, h)
    ensures Bounded(root, FreeRemote(root, h, k, o))
  {
    FreeRemoteWaiting(root, h, place, k, o);
    forall c | c in h.caches ensures FreeRemote(root, h, k, o).caches[c].objects == h.caches[c].objects {
      FreeRemoteShape(root, h, k, o, c);
    }
    FreeRemoteShape(root, h, k, o, 0);
    hide Inv, FreeRemote, Waiting;
  }

  lemma AddSlabBounded(root: Root, h: Heap, c: nat, p: nat)
    requires root.size > 0 && c in h.caches && Bounded(root, h)
    ensures Bounded(root, AddSlab(root, h, c, p))
  {
    hide Carve, TagOwner;
    assert SameWaiting(h, AddSlab(root, h, c, p));
  }

  lemma PassBounded(root: Root, h: Heap, place: map<nat, Place>, k: nat, c: nat)
    requires Inv(root, h, place) && k in h.cpus && c in h.caches && Bounded(root, h) && root.freeBatch > 0
    ensures root.size > 0
    ensures !AllocPass(root, h, k, c, true).Stuck? && Bounded(root, AllocPass(root, h, k, c, true).h)
  {
    hide Inv, Bounded, Claim, FlushDown, PopObject, TakePartial;
    InvParts(root, h, place, 0);
    var cache := h.caches[c];
    if cache.objects != [] {
      PopBounded(root, h, c);
    } else if cache.remoteCheck {
      ClaimedBounded(root, h, place, k, c);
    } else if cache.partial != [] {
      TakeBounded(root, h, c);
    }
  }

  lemma PopBounded(root: Root, h: Heap, c: nat)
    requires c in h.caches && h.caches[c].objects != [] && Bounded(root, h)
    ensures Bounded(root, PopObject(h, c))
  {
    hide Waiting;
    PopWaiting(root, h, c);
  }

  lemma TakeBounded(root: Root, h: Heap, c: nat)
    requires root.size > 0 && c in h.caches && h.caches[c].partial != [] && Bounded(root, h)
    ensures (TakePartial(root, h, c).Got? || TakePartial(root, h, c).Null?) && Bounded(root, TakePartial(root, h, c).h)
  {
    hide Waiting;
    assert SameWaiting(h, TakePartial(root, h, c).h);
    WaitingSame(root, h, TakePartial(root, h, c).h);
  }

  lemma ClaimOthers(h: Heap, c: nat, clear: bool)
    requires c in h.caches
    ensures forall d :: d in h.caches && d != c ==> Claim(h, c, clear).caches[d].objects == h.caches[d].objects
  {
  }

  lemma ClaimedBounded(root: Root, h: Heap, place: map<nat, Place>, k: nat, c: nat)
    requires Inv(root, h, place) && k in h.cpus && c in h.caches && Bounded(root, h) && root.freeBatch > 0
    requires h.caches[c].objects == [] && h.caches[c].remoteCheck
    ensures root.size > 0
    ensures AllocPass(root, h, k, c, true).Again? && Bounded(root, AllocPass(root, h, k, c, true).h)
  {
    hide Inv, Watermark, Claim, FlushDown, Relocate;
    InvParts(root, h, place, 0);
    var g := Claim(h, c, true);
    ClaimKeeps(root, h, place, c, true);
    ClaimWatermark(root, h, c);
    ClaimShape(h, c, true);
    ClaimOthers(h, c, true);
    FlushDownWaiting(root, g, Relocate(place, Incoming(c), OnCache(c)), k, c);
  }

  /** One call of SlabCache::Alloc keeps the bounds. */
  lemma AllocClearedBounded(root: Root, h: Heap, place: map<nat, Place>, k: nat, c: nat)
    requires Inv(root, h, place) && k in h.cpus && c in h.caches && Bounded(root, h) && root.freeBatch > 0
    ensures root.size > 0
    ensures !AllocCleared(root, h, k, c).Stuck? && Bounded(root, AllocCleared(root, h, k, c).h)
  {
    hide Inv, AllocPass, Bounded;
    PassBounded(root, h, place, k, c);
    var after := AllocPassKeeps(root, h, place, k, c, true);
    var p := AllocPass(root, h, k, c, true);
    if p.Again? {
      AllocPassShape(root, h, k, c, true);
      PassBounded(root, p.h, after, k, c);
    }
  }

  /** SlabAllocator::Alloc on this CPU's own node; `page` is what the page allocator returns if it is asked. */
  function AllocWhole(root: Root, h: Heap, k: nat, c: nat, page: Option<nat>): Pass
    requires root.size > 0 && k in h.cpus && c in h.caches
  {
    var p := AllocCleared(root, h, k, c);
    if p.Null? && page.Some? && k in p.h.cpus && c in p.h.caches
    then AllocCleared(root, AddSlab(root, p.h, c, page.value), k, c)
    else p
  }

  lemma AddSlabShape(root: Root, h: Heap, c: nat, p: nat)
    requires root.size > 0 && c in h.caches
    ensures AddSlab(root, h, c, p).caches.Keys == h.caches.Keys && AddSlab(root, h, c, p).cpus == h.cpus
  {
  }

  lemma ServesAtOnce(root: Root, h: Heap, k: nat, c: nat)
    requires root.size > 0 && k in h.cpus && c in h.caches && AllocPass(root, h, k, c, true).Got?
    ensures AllocCleared(root, h, k, c).Got? && Returning(root, h, c)
  {
    hide Claim, FlushDown, TakePartial;
  }

  /** When the second half of Alloc runs, it has an object to return. */
  lemma AllocWholeSteps(root: Root, h: Heap, place: map<nat, Place>, k: nat, c: nat, page: Option<nat>)
    requires Inv(root, h, place) && k in h.cpus && c in h.caches && Returning(root, h, c)
    requires page.Some? ==> Aligned(page.value, root.order) && page.value !in h.slabs
    ensures root.size > 0
    ensures var p := AllocCleared(root, h, k, c);
            && (p.Got? || p.Null?)
            && (p.Null? && page.Some? ==>
                  && k in p.h.cpus && c in p.h.caches
                  && var g := AddSlab(root, p.h, c, page.value);
                     k in g.cpus && c in g.caches && Returning(root, g, c) && AllocCleared(root, g, k, c).Got?)
  {
    hide Inv, AllocPass, AllocCleared, AddSlab, Clients, NewObjects, Returning;
    var after := AllocClearedKeeps(root, h, place, k, c);
    var p := AllocCleared(root, h, k, c);
    if p.Null? && page.Some? {
      AddSlabShape(root, p.h, c, page.value);
      AddSlabKeeps(root, p.h, after, c, page.value);
      NewSlabServes(root, p.h, after, k, c, page.value, true);
      ServesAtOnce(root, AddSlab(root, p.h, c, page.value), k, c);
    }
  }

  /** Alloc returns an object that no client had, or nullptr if there is no page for a new slab. */
  lemma AllocWholeKeeps(root: Root, h: Heap, place: map<nat, Place>, k: nat, c: nat, page: Option<nat>)
    returns (after: map<nat, Place>)
    requires Inv(root, h, place) && k in h.cpus && c in h.caches && Returning(root, h, c)
    requires page.Some? ==> Aligned(page.value, root.order) && page.value !in h.slabs
    ensures root.size > 0
    ensures match AllocWhole(root, h, k, c, page)
            case Got(g, o) => Inv(root, g, after) && o !in Clients(place) && Clients(after) == Clients(place) + {o}
            case Null(g) => page.None? && Inv(root, g, after) && Clients(after) == Clients(place)
            case Again(g) => false
            case Stuck => false
  {
    hide Inv, AllocPass, AllocCleared, AddSlab, Clients, NewObjects;
    assert root.Ok() by { InvParts(root, h, place, 0); }
    AllocWholeSteps(root, h, place, k, c, page);
    after := AllocClearedKeeps(root, h, place, k, c);
    var p := AllocCleared(root, h, k, c);
    if p.Null? && page.Some? {
      AddSlabKeeps(root, p.h, after, c, page.value);
      NewObjectsClients(root, p.h, after, page.value);
      var g := AddSlab(root, p.h, c, page.value);
      after := AllocClearedKeeps(root, g, after + NewObjects(root, page.value), k, c);
    }
  }

  lemma AllocWholeBounded(root: Root, h: Heap, place: map<nat, Place>, k: nat, c: nat, page: Option<nat>)
    requires Inv(root, h, place) && k in h.cpus && c in h.caches && Bounded(root, h) && root.freeBatch > 0
    requires page.Some? ==> Aligned(page.value, root.order) && page.value !in h.slabs
    ensures root.size > 0
    ensures !AllocWhole(root, h, k, c, page).Stuck? && Bounded(root, AllocWhole(root, h, k, c, page).h)
  {
    hide Inv, AllocPass, AllocCleared, AddSlab, Clients, NewObjects, Bounded;
    assert root.Ok() by { InvParts(root, h, place, 0); }
    AllocClearedBounded(root, h, place, k, c);
    var mid := AllocClearedKeeps(root, h, place, k, c);
    var p := AllocCleared(root, h, k, c);
    if p.Null? && page.Some? {
      AddSlabShape(root, p.h, c, page.value);
      AddSlabKeeps(root, p.h, mid, c, page.value);
      AddSlabBounded(root, p.h, c, page.value);
      AllocClearedBounded(root, AddSlab(root, p.h, c, page.value), mid + NewObjects(root, page.value), k, c);
    }
  }

  // ---- runs of whole calls, by any CPU on any cache ----

  datatype Call =
    | CallAlloc(k: nat, c: nat, page: Option<nat>)
    | CallFree(k: nat, c: nat, o: nat)
    | CallFreeRemote(k: nat, o: nat)

  /** Clients free objects that they hold, and the page allocator hands out aligned blocks that are not slabs. */
  ghost predicate Allowed(root: Root, sys: System, call: Call) {
    match call
    case CallAlloc(k, c, page) =>
      && k in sys.h.cpus && c in sys.h.caches
      && (page.Some? ==> Aligned(page.value, root.order) && page.value !in sys.h.slabs)
    case CallFree(k, c, o) => k in sys.h.cpus && c in sys.h.caches && o in sys.clients
    case CallFreeRemote(k, o) => k in sys.h.cpus && o in sys.clients
  }

  ghost function Made(root: Root, sys: System, call: Call): System
    requires root.size > 0 && Allowed(root, sys, call)
  {
    match call
    case CallAlloc(k, c, page) =>
      (match AllocWhole(root, sys.h, k, c, page)
       case Got(g, o) => System(g, sys.clients + {o})
       case Null(g) => System(g, sys.clients)
       case Again(g) => sys
       case Stuck => sys)
    case CallFree(k, c, o) => System(CacheFree(root, sys.h, k, c, o), sys.clients - {o})
    case CallFreeRemote(k, o) => System(FreeRemote(root, sys.h, k, o), sys.clients - {o})
  }

  /** Every call keeps the bounds, and every object in one place. */
  lemma CallKeeps(root: Root, sys: System, call: Call)
    requires root.size > 0 && root.freeBatch > 0
    requires Good(root, sys) && Bounded(root, sys.h) && Allowed(root, sys, call)
    ensures Good(root, Made(root, sys, call)) && Bounded(root, Made(root, sys, call).h)
  {
    hide Inv, Bounded, CacheFree, FreeRemote, AllocWhole, GoesRemote, Clients;
    var place :| Inv(root, sys.h, place) && Clients(place) == sys.clients;
    match call
    case CallAlloc(k, c, page) =>
      var after := AllocWholeKeeps(root, sys.h, place, k, c, page);
      AllocWholeBounded(root, sys.h, place, k, c, page);
    case CallFree(k, c, o) =>
      ClientHas(place, o);
      var after := CacheFreeKeeps(root, sys.h, place, k, c, o);
      CacheFreeBounded(root, sys.h, place, k, c, o);
    case CallFreeRemote(k, o) =>
      ClientHas(place, o);
      var after := FreeRemoteKeeps(root, sys.h, place, k, o);
      GoesRemoteClients(place, after, k, o, sys.h.slabs[root.HeadOf(o)].cache);
      FreeRemoteBounded(root, sys.h, place, k, o);
  }

  ghost predicate AllowedCalls(root: Root, sys: System, calls: seq<Call>)
    requires root.size > 0
    decreases |calls|
  {
    calls == [] || (Allowed(root, sys, calls[0]) && AllowedCalls(root, Made(root, sys, calls[0]), calls[1..]))
  }

  ghost function AllMade(root: Root, sys: System, calls: seq<Call>): System
    requires root.size > 0 && AllowedCalls(root, sys, calls)
    decreases |calls|
  {
    if calls == [] then sys else AllMade(root, Made(root, sys, calls[0]), calls[1..])
  }

  lemma {:induction false} CallsKeep(root: Root, sys: System, calls: seq<Call>)
    requires root.size > 0 && root.freeBatch > 0
    requires Good(root, sys) && Bounded(root, sys.h) && AllowedCalls(root, sys, calls)
    ensures var end := AllMade(root, sys, calls);
            Good(root, end) && Bounded(root, end.h)
    decreases |calls|
  {
    hide Good, Bounded, Allowed, Made;
    if calls != [] {
      CallKeeps(root, sys, calls[0]);
      CallsKeep(root, Made(root, sys, calls[0]), calls[1..]);
    }
  }

  /** A claim that the watermark asked for brings an object: no page is needed. */
  lemma FullIncomingServes(root: Root, h: Heap, place: map<nat, Place>, k: nat, c: nat)
    requires Inv(root, h, place) && k in h.cpus && c in h.caches && Watermark(root, h) && root.freeBatch > 0
    requires |h.caches[c].incoming| >= root.freeBatch
    ensures root.size > 0 && AllocCleared(root, h, k, c).Got?
  {
    assert root.size > 0 by { InvParts(root, h, place, 0); }
    if h.caches[c].objects == [] {
      SecondPass(root, h, place, k, c, true);
    }
    hide Inv, Claim, FlushDown, TakePartial;
  }

  /** Over every run of whole calls from empty caches, for sizes with a free batch: every object list is within
      hiwater, every remote list within free_batch, remote_check is set exactly where the incoming list has reached
      free_batch, and Alloc returns on every CPU and cache, with an object if so many wait on its incoming list. */
  lemma EveryRunBounded(root: Root, start: Heap, calls: seq<Call>)
    requires root.Ok() && Empty(start) && root.freeBatch > 0
    requires AllowedCalls(root, System(start, {}), calls)
    ensures var end := AllMade(root, System(start, {}), calls);
            && Good(root, end) && Bounded(root, end.h)
            && (forall c :: c in end.h.caches ==>
                  (end.h.caches[c].remoteCheck <==> |end.h.caches[c].incoming| >= root.freeBatch))
            && (forall k, c :: k in end.h.cpus && c in end.h.caches ==>
                  && Returns(root, end.h, k, c, true)
                  && (|end.h.caches[c].incoming| >= root.freeBatch ==> AllocCleared(root, end.h, k, c).Got?))
  {
    EmptyGood(root, start);
    EmptyBounded(root, start);
    CallsKeep(root, System(start, {}), calls);
    var end := AllMade(root, System(start, {}), calls);
    var place :| Inv(root, end.h, place) && Clients(place) == end.clients;
    hide Inv, Returns, AllMade, AllowedCalls, AllocCleared;
    forall k, c | k in end.h.cpus && c in end.h.caches
      ensures Returns(root, end.h, k, c, true)
      ensures |end.h.caches[c].incoming| >= root.freeBatch ==> AllocCleared(root, end.h, k, c).Got?
    {
      AllocClearedReturns(root, end.h, place, k, c);
      if |end.h.caches[c].incoming| >= root.freeBatch { FullIncomingServes(root, end.h, place, k, c); }
    }
  }

  lemma EmptyBounded(root: Root, h: Heap)
    requires Empty(h) && root.freeBatch > 0
    ensures Bounded(root, h)
  {
  }
}
