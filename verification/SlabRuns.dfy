/** The slab allocator's operations put together: conservation of objects, when allocation returns,
    how long the lists get, and every run. */
module SlabRuns {
  import opened Bits
  import opened Wrappers
  import opened SlabModel
  import opened SlabInvariant
  import opened SlabSteps
  import opened SlabPages

  ghost function Clients(place: map<nat, Place>): set<nat> {
    set o | o in place && place[o] == Client
  }

  // ---- freeing ----

  /** How freeing object o through CPU k's remote list may change places. */
  ghost predicate GoesRemote(place: map<nat, Place>, after: map<nat, Place>, k: nat, o: nat, home: nat) {
    && after.Keys == place.Keys && o in place
    && (after[o] == OnCpu(k) || after[o] == Incoming(home))
    && (forall x :: x in place && x != o ==> after[x] == place[x] || (place[x] == OnCpu(k) && after[x].Incoming?))
  }

  lemma GoesRemoteClients(place: map<nat, Place>, after: map<nat, Place>, k: nat, o: nat, home: nat)
    requires GoesRemote(place, after, k, o, home)
    ensures Clients(after) == Clients(place) - {o}
  {
  }

  lemma HomeOf(root: Root, h: Heap, place: map<nat, Place>, o: nat)
    requires Inv(root, h, place) && o in place
    ensures root.HeadOf(o) in h.slabs
    ensures h.slabs[root.HeadOf(o)].cache in h.caches && Owner(h, o / PAGE) == Some(h.slabs[root.HeadOf(o)].cache)
    ensures Owner(h, root.HeadOf(o)) == Some(h.slabs[root.HeadOf(o)].cache)
  {
    InvParts(root, h, place, o);
    assert SlabOk(root, h, place, root.HeadOf(o));
  }

  /** The first half of FreeRemote: the object is on the remote list, which is for its home cache. */
  function Queue(root: Root, h: Heap, k: nat, o: nat, home: nat): Heap
    requires k in h.cpus
  {
    PushRemote(Retarget(root, h, k, Some(home)), k, o)
  }

  function Queued(h: Heap, place: map<nat, Place>, k: nat, o: nat, home: nat): map<nat, Place>
    requires k in h.cpus
  {
    (if h.cpus[k].target == Some(home) then place else Flushed(h, place, k))[o := OnCpu(k)]
  }

  lemma QueueKeeps(root: Root, h: Heap, place: map<nat, Place>, k: nat, o: nat, home: nat)
    requires Inv(root, h, place) && k in h.cpus && o in place && place[o] == Client
    requires home in h.caches && Owner(h, o / PAGE) == Some(home)
    ensures var g := Queue(root, h, k, o, home);
            && k in g.cpus && g.cpus[k].target == Some(home)
            && Inv(root, g, Queued(h, place, k, o, home))
  {
    hide Inv;
    RetargetKeeps(root, h, place, k, home);
    var g := Retarget(root, h, k, Some(home));
    var mid := if h.cpus[k].target == Some(home) then place else Flushed(h, place, k);
    hide Retarget;
    PushRemoteKeeps(root, g, mid, k, o);
  }

  lemma QueuedGoes(h: Heap, place: map<nat, Place>, k: nat, o: nat, home: nat)
    requires k in h.cpus && o in place && place[o] == Client
    ensures var mid := Queued(h, place, k, o, home);
            && GoesRemote(place, mid, k, o, home)
            && GoesRemote(place, Relocate(mid, OnCpu(k), Incoming(home)), k, o, home)
  {
  }

  lemma FreeRemoteUnfolds(root: Root, h: Heap, k: nat, o: nat, home: nat)
    requires k in h.cpus && Owner(h, o / PAGE) == Some(home)
    ensures var g := Queue(root, h, k, o, home);
            FreeRemote(root, h, k, o) == if |g.cpus[k].remote| > root.freeBatch then FlushRemoteList(root, g, k) else g
  {
  }

  /** A freed object waits on this CPU's remote list, or is already on its home cache's incoming list;
      other objects stay, or go from the remote list to an incoming list. The remote list is then no
      longer than free_batch. */
  lemma FreeRemoteKeeps(root: Root, h: Heap, place: map<nat, Place>, k: nat, o: nat) returns (after: map<nat, Place>)
    requires Inv(root, h, place) && k in h.cpus && o in place && place[o] == Client
    ensures root.HeadOf(o) in h.slabs
    ensures Inv(root, FreeRemote(root, h, k, o), after)
    ensures GoesRemote(place, after, k, o, h.slabs[root.HeadOf(o)].cache)
    ensures |FreeRemote(root, h, k, o).cpus[k].remote| <= root.freeBatch
  {
    HomeOf(root, h, place, o);
    var home := h.slabs[root.HeadOf(o)].cache;
    FreeRemoteUnfolds(root, h, k, o, home);
    QueuedGoes(h, place, k, o, home);
    hide Inv, FlushRemoteList, FreeRemote, GoesRemote;
    QueueKeeps(root, h, place, k, o, home);
    hide Queue;
    var g, mid := Queue(root, h, k, o, home), Queued(h, place, k, o, home);
    hide Queued;
    FlushRemoteKeeps(root, g, mid, k);
    after := if |g.cpus[k].remote| > root.freeBatch then Flushed(g, mid, k) else mid;
  }

  /** Flushing one object moves that object off the object list, to its slab or on to its home cache,
      and takes nothing from any client. */
  lemma FlushOneKeeps(root: Root, h: Heap, place: map<nat, Place>, k: nat, c: nat) returns (after: map<nat, Place>)
    requires Inv(root, h, place) && k in h.cpus && c in h.caches && h.caches[c].objects != []
    ensures Inv(root, FlushOne(root, h, k, c), after) && Clients(after) == Clients(place)
  {
    var o := h.caches[c].objects[0];
    var p := root.HeadOf(o);
    PopObjectKeeps(root, h, place, c);
    var g, mid := PopObject(h, c), place[o := Client];
    assert root.size > 0;
    HandClients(place, o);
    FlushOneUnfolds(root, h, k, c);
    hide Inv, FreeRemote, ReturnObject, FlushOne, PopObject, Clients, Returned, GoesRemote;
    HomeOf(root, g, mid, o);
    HandMeansUsed(root, g, mid, o);
    if Owner(g, p) != Some(c) {
      after := FreeRemoteKeeps(root, g, mid, k, o);
      GoesRemoteClients(mid, after, k, o, g.slabs[p].cache);
    } else {
      ReturnKeeps(root, g, mid, c, p, o);
      after := Returned(root, g, mid, p, o);
      ReturnedClients(root, g, mid, p, o);
    }
  }

  lemma HandClients(place: map<nat, Place>, o: nat)
    requires o in place && place[o] != Client
    ensures Clients(place[o := Client]) - {o} == Clients(place)
  {
  }

  lemma FlushOneUnfolds(root: Root, h: Heap, k: nat, c: nat)
    requires root.size > 0 && k in h.cpus && c in h.caches && h.caches[c].objects != []
    ensures var o := h.caches[c].objects[0];
            var p := root.HeadOf(o);
            var g := PopObject(h, c);
            && (Owner(g, p) != Some(c) ==> FlushOne(root, h, k, c) == FreeRemote(root, g, k, o))
            && (Owner(g, p) == Some(c) && p in g.slabs && g.slabs[p].used > 0 ==>
                  FlushOne(root, h, k, c) == ReturnObject(root, g, c, p, o))
  {
    hide FreeRemote, ReturnObject;
  }

  lemma RelistedUsed(root: Root, h: Heap, c: nat, p: nat, o: nat)
    requires root.size > 0 && c in h.caches && p in h.slabs && h.slabs[p].used > 0
    ensures var g := Relist(root, h, c, p, o);
            c in g.caches && p in g.slabs && g.slabs[p].cache == h.slabs[p].cache && g.slabs[p].used == h.slabs[p].used - 1
  {
  }

  lemma DroppedClients(root: Root, place: map<nat, Place>, p: nat)
    requires forall x :: x in place && root.HeadOf(x) == p ==> place[x] == OnSlab(p)
    ensures Clients(Dropped(root, place, p)) == Clients(place)
  {
  }

  lemma ReturnedClients(root: Root, h: Heap, place: map<nat, Place>, p: nat, o: nat)
    requires Inv(root, h, place) && p in h.slabs && o in place && place[o] == Client && root.HeadOf(o) == p
    ensures Clients(Returned(root, h, place, p, o)) == Clients(place) - {o}
  {
    var mid := place[o := OnSlab(p)];
    assert Clients(mid) == Clients(place) - {o};
    if h.slabs[p].used == 1 {
      var c := h.slabs[p].cache;
      HomeOf(root, h, place, o);
      assert root.size > 0;
      hide Inv, Relist, DropSlab, Clients;
      RelistKeeps(root, h, place, c, p, o);
      RelistedUsed(root, h, c, p, o);
      DropKeeps(root, Relist(root, h, c, p, o), mid, c, p);
      DroppedClients(root, mid, p);
    }
  }

  lemma FlushNone(root: Root, h: Heap, k: nat, c: nat, amount: nat)
    requires root.size > 0 && k in h.cpus && c in h.caches && (h.caches[c].objects == [] || amount == 0)
    ensures FlushFreeList(root, h, k, c, amount) == h
  {
  }

  lemma FlushNext(root: Root, h: Heap, k: nat, c: nat, amount: nat)
    requires root.size > 0 && k in h.cpus && c in h.caches && h.caches[c].objects != [] && amount > 0
    ensures k in FlushOne(root, h, k, c).cpus && c in FlushOne(root, h, k, c).caches
    ensures FlushFreeList(root, h, k, c, amount) == FlushFreeList(root, FlushOne(root, h, k, c), k, c, amount - 1)
  {
    FlushOneShape(root, h, k, c);
    hide FlushOne;
  }

  lemma {:induction false} FlushKeeps(root: Root, h: Heap, place: map<nat, Place>, k: nat, c: nat, amount: nat)
    returns (after: map<nat, Place>)
    requires Inv(root, h, place) && k in h.cpus && c in h.caches
    ensures Inv(root, FlushFreeList(root, h, k, c, amount), after) && Clients(after) == Clients(place)
    decreases amount
  {
    hide Inv, FlushOne, FlushFreeList, Clients;
    InvParts(root, h, place, 0);
    if amount == 0 || h.caches[c].objects == [] {
      FlushNone(root, h, k, c, amount);
      after := place;
    } else {
      FlushNext(root, h, k, c, amount);
      var mid := FlushOneKeeps(root, h, place, k, c);
      after := FlushKeeps(root, FlushOne(root, h, k, c), mid, k, c, amount - 1);
    }
  }

  lemma CacheFreeKeeps(root: Root, h: Heap, place: map<nat, Place>, k: nat, c: nat, o: nat) returns (after: map<nat,
                       Place>)
    requires Inv(root, h, place) && k in h.cpus && c in h.caches && o in place && place[o] == Client
    ensures Inv(root, CacheFree(root, h, k, c, o), after) && Clients(after) == Clients(place) - {o}
  {
    assert root.size > 0;
    var g := PushObject(h, c, o);
    after := place[o := OnCache(c)];
    assert CacheFree(root, h, k, c, o)
        == if |g.caches[c].objects| > root.hiwater then FlushFreeList(root, g, k, c, root.freeBatch) else g;
    assert Clients(after) == Clients(place) - {o};
    hide *;
    PushObjectKeeps(root, h, place, c, o);
    if |g.caches[c].objects| > root.hiwater {
      after := FlushKeeps(root, g, after, k, c, root.freeBatch);
    }
  }

  /** Freeing keeps the object list within hiwater exactly when free_batch is not zero. */
  lemma HiwaterBound(root: Root, h: Heap, k: nat, c: nat, o: nat)
    requires root.Ok() && k in h.cpus && c in h.caches && |h.caches[c].objects| <= root.hiwater
    ensures |CacheFree(root, h, k, c, o).caches[c].objects| <= root.hiwater <==> root.freeBatch > 0
  {
    var g := PushObject(h, c, o);
    var n := |g.caches[c].objects|;
    assert n == |h.caches[c].objects| + 1;
    hide FlushOne;
  }

  // ---- the watermark ----

  /** A cache has been told to look at its incoming list if and only if that list has reached the watermark. */
  ghost predicate Watermark(root: Root, h: Heap) {
    forall c :: c in h.caches ==> (h.caches[c].remoteCheck <==> |h.caches[c].incoming| >= root.freeBatch)
  }

  /** The half of it that the code keeps as written: a list that has reached the watermark has told its cache. */
  ghost predicate Told(root: Root, h: Heap) {
    forall c :: c in h.caches && |h.caches[c].incoming| >= root.freeBatch ==> h.caches[c].remoteCheck
  }

  /** A flush raises the flag of the cache it is for if and only if the incoming list was shorter than free_batch and
      now is not; no flag falls, and no other one changes. */
  lemma FlushRemoteFlag(root: Root, h: Heap, k: nat)
    requires k in h.cpus
    ensures var g := FlushRemoteList(root, h, k);
            && g.caches.Keys == h.caches.Keys
            && forall c :: c in h.caches ==>
                 && |g.caches[c].incoming|
                    == |h.caches[c].incoming| + (if h.cpus[k].target == Some(c) then |h.cpus[k].remote| else 0)
                 && (g.caches[c].remoteCheck
                     <==> h.caches[c].remoteCheck || |h.caches[c].incoming| < root.freeBatch <= |g.caches[c].incoming|)
  {
    hide SpliceAfterFirst;
    if h.cpus[k].target.Some? && h.cpus[k].target.value in h.caches {
      SpliceLength(h.caches[h.cpus[k].target.value].incoming, h.cpus[k].remote);
    }
  }

  lemma FlushRemoteWatermark(root: Root, h: Heap, k: nat)
    requires k in h.cpus
    ensures Watermark(root, h) ==> Watermark(root, FlushRemoteList(root, h, k))
    ensures Told(root, h) ==> Told(root, FlushRemoteList(root, h, k))
  {
    hide FlushRemoteList;
    FlushRemoteFlag(root, h, k);
  }

  lemma SpliceLength(list: seq<nat>, more: seq<nat>)
    ensures |SpliceAfterFirst(list, more)| == |list| + |more|
  {
  }

  lemma FreeRemoteWatermark(root: Root, h: Heap, k: nat, o: nat)
    requires k in h.cpus
    ensures Watermark(root, h) ==> Watermark(root, FreeRemote(root, h, k, o))
    ensures Told(root, h) ==> Told(root, FreeRemote(root, h, k, o))
  {
    hide FlushRemoteList;
    FlushRemoteWatermark(root, h, k);
    var g := PushRemote(Retarget(root, h, k, Owner(h, o / PAGE)), k, o);
    assert (Watermark(root, h) ==> Watermark(root, g)) && (Told(root, h) ==> Told(root, g));
    FlushRemoteWatermark(root, g, k);
  }

  /** A claim that clears the flag empties the list, so the watermark survives it unless free_batch is 0, when an
      empty list is already at the watermark. One that does not clear it breaks the watermark if the flag was set. */
  lemma ClaimWatermark(root: Root, h: Heap, c: nat)
    requires c in h.caches
    ensures Told(root, h) ==> (Told(root, Claim(h, c, true)) <==> root.freeBatch > 0)
    ensures Told(root, h) ==> (Told(root, Claim(h, c, false)) <==> (root.freeBatch > 0 || h.caches[c].remoteCheck))
    ensures Watermark(root, h) ==> (Watermark(root, Claim(h, c, true)) <==> root.freeBatch > 0)
    ensures Watermark(root, h) ==>
              (Watermark(root, Claim(h, c, false)) <==> (root.freeBatch == 0 || !h.caches[c].remoteCheck))
  {
    var g, g' := Claim(h, c, true), Claim(h, c, false);
    assert g.caches[c].incoming == [] && g'.caches[c].incoming == [];
    assert g'.caches[c].remoteCheck == h.caches[c].remoteCheck;
  }

  // ---- allocating ----

  lemma {:induction false} FlushDownNonEmpty(root: Root, h: Heap, k: nat, c: nat)
    requires root.Ok() && k in h.cpus && c in h.caches && root.freeBatch > 0 && h.caches[c].objects != []
    ensures FlushDown(root, h, k, c).caches[c].objects != []
    decreases |h.caches[c].objects|
  {
    hide FlushFreeList;
    if |h.caches[c].objects| > root.hiwater {
      FlushDownNonEmpty(root, FlushFreeList(root, h, k, c, root.freeBatch), k, c);
    }
  }

  lemma {:induction false} FlushDownKeeps(root: Root, h: Heap, place: map<nat, Place>, k: nat, c: nat)
    returns (after: map<nat, Place>)
    requires Inv(root, h, place) && k in h.cpus && c in h.caches && root.freeBatch > 0
    ensures Inv(root, FlushDown(root, h, k, c), after) && Clients(after) == Clients(place)
    ensures h.caches[c].objects != [] ==> FlushDown(root, h, k, c).caches[c].objects != []
    decreases |h.caches[c].objects|
  {
    assert root.size > 0 && root.hiwater == root.freeBatch * 4 by { InvParts(root, h, place, 0); }
    hide Inv, FlushFreeList;
    if |h.caches[c].objects| > root.hiwater {
      var mid := FlushKeeps(root, h, place, k, c, root.freeBatch);
      after := FlushDownKeeps(root, FlushFreeList(root, h, k, c, root.freeBatch), mid, k, c);
    } else {
      after := place;
    }
  }

  lemma TakePartialUnfolds(root: Root, h: Heap, place: map<nat, Place>, c: nat)
    requires Inv(root, h, place) && c in h.caches && h.caches[c].partial != []
    ensures var p := h.caches[c].partial[0];
            && p in h.slabs && h.slabs[p].free != []
            && TakePartial(root, h, c) == Got(TakeFrom(root, h, c, p), h.slabs[p].free[0])
  {
    FrontOfPartial(root, h, place, c);
  }

  lemma RelocateClients(place: map<nat, Place>, from: Place, to: Place)
    requires from != Client && to != Client
    ensures Clients(Relocate(place, from, to)) == Clients(place)
  {
  }

  lemma ClientGains(place: map<nat, Place>, o: nat)
    requires o in place && place[o] != Client
    ensures Clients(place[o := Client]) == Clients(place) + {o} && o !in Clients(place)
  {
  }

  lemma ClientHas(place: map<nat, Place>, o: nat)
    requires o in Clients(place)
    ensures o in place && place[o] == Client
  {
  }

  lemma ClientLoses(place: map<nat, Place>, o: nat, to: Place)
    requires o in place && to != Client
    ensures Clients(place[o := to]) == Clients(place) - {o}
  {
  }

  /** One pass through Alloc: an object it returns goes from its list to the client and to no other,
      and nothing is taken from a client; at `retry` the flag has been cleared or there are objects. */
  lemma AllocPassKeeps(root: Root, h: Heap, place: map<nat, Place>, k: nat, c: nat, clear: bool)
    returns (after: map<nat, Place>)
    requires Inv(root, h, place) && k in h.cpus && c in h.caches
    ensures root.size > 0
    ensures match AllocPass(root, h, k, c, clear)
            case Got(g, o) => Inv(root, g, after) && o !in Clients(place) && Clients(after) == Clients(place) + {o}
            case Null(g) => g == h && after == place && h.caches[c].objects == [] && h.caches[c].partial == []
            case Again(g) => Inv(root, g, after) && Clients(after) == Clients(place)
            case Stuck => root.freeBatch == 0
  {
    assert root.size > 0 by { InvParts(root, h, place, 0); }
    hide Inv, Claim, FlushDown, TakePartial, PopObject, TakeFrom, Clients;
    var cache := h.caches[c];
    after := place;
    if cache.objects != [] {
      PopObjectKeeps(root, h, place, c);
      after := place[cache.objects[0] := Client];
      ClientGains(place, cache.objects[0]);
    } else if cache.remoteCheck {
      ClaimKeeps(root, h, place, c, clear);
      RelocateClients(place, Incoming(c), OnCache(c));
      var g, mid := Claim(h, c, clear), Relocate(place, Incoming(c), OnCache(c));
      assert k in g.cpus && c in g.caches by { ClaimShape(h, c, clear); }
      after := mid;
      if |g.caches[c].objects| > root.hiwater && root.freeBatch > 0 {
        after := FlushDownKeeps(root, g, mid, k, c);
      }
    } else if cache.partial != [] {
      TakePartialUnfolds(root, h, place, c);
      TakeFromKeeps(root, h, place, c);
      var o := h.slabs[cache.partial[0]].free[0];
      after := place[o := Client];
      ClientGains(place, o);
    }
  }

  lemma ClaimShape(h: Heap, c: nat, clear: bool)
    requires c in h.caches
    ensures var g := Claim(h, c, clear);
            && g.caches.Keys == h.caches.Keys && g.cpus == h.cpus && g.slabs == h.slabs
            && g.caches[c].objects == h.caches[c].objects + h.caches[c].incoming && g.caches[c].incoming == []
            && g.caches[c].remoteCheck == (h.caches[c].remoteCheck && !clear)
  {
  }

  /** n passes through Alloc, going round again as long as it says so. */
  function Passes(root: Root, h: Heap, k: nat, c: nat, clear: bool, n: nat): (r: Pass)
    requires root.size > 0 && k in h.cpus && c in h.caches
    decreases n
  {
    if n == 0 then Again(h)
    else
      AllocPassShape(root, h, k, c, clear);
      var p := AllocPass(root, h, k, c, clear);
      if p.Again? then Passes(root, p.h, k, c, clear, n - 1) else p
  }

  lemma AllocPassShape(root: Root, h: Heap, k: nat, c: nat, clear: bool)
    requires root.size > 0 && k in h.cpus && c in h.caches
    ensures AllocPass(root, h, k, c, clear).Again? ==>
              var g := AllocPass(root, h, k, c, clear).h;
              k in g.cpus && c in g.caches
  {
    hide FlushDown;
  }

  ghost predicate Returns(root: Root, h: Heap, k: nat, c: nat, clear: bool)
    requires root.size > 0 && k in h.cpus && c in h.caches
  {
    exists n: nat :: Passes(root, h, k, c, clear, n).Got? || Passes(root, h, k, c, clear, n).Null?
  }

  /** With the flag still set and nothing to claim, each pass ends where it began. */
  lemma {:induction false} SpinsForever(root: Root, h: Heap, k: nat, c: nat, n: nat)
    requires root.size > 0 && k in h.cpus && c in h.caches
    requires h.caches[c].objects == [] && h.caches[c].remoteCheck && h.caches[c].incoming == []
    ensures Passes(root, h, k, c, false, n) == Again(h)
    decreases n
  {
    var cache := h.caches[c];
    assert cache == cache.(objects := cache.objects + cache.incoming, incoming := []);
    assert Claim(h, c, false) == h by { assert h.caches[c := cache] == h.caches; }
    if n > 0 { SpinsForever(root, h, k, c, n - 1); }
  }

  lemma {:induction false} StuckForever(root: Root, h: Heap, k: nat, c: nat, clear: bool, n: nat)
    requires root.Ok() && root.freeBatch == 0 && k in h.cpus && c in h.caches
    requires h.caches[c].objects == [] && h.caches[c].remoteCheck && h.caches[c].incoming != []
    ensures n > 0 ==> Passes(root, h, k, c, clear, n) == Stuck
  {
    ClaimShape(h, c, clear);
    hide Claim;
    assert AllocPass(root, h, k, c, clear).Stuck?;
  }

  /** A claim does not bring objects that cannot be flushed again. */
  predicate Returning(root: Root, h: Heap, c: nat)
    requires c in h.caches
  {
    h.caches[c].objects != [] || !h.caches[c].remoteCheck || h.caches[c].incoming == [] || root.freeBatch > 0
  }

  /** Alloc with the flag cleared on a claim: at most two passes. */
  function AllocCleared(root: Root, h: Heap, k: nat, c: nat): Pass
    requires root.size > 0 && k in h.cpus && c in h.caches
  {
    AllocPassShape(root, h, k, c, true);
    var p := AllocPass(root, h, k, c, true);
    if p.Again? then AllocPass(root, p.h, k, c, true) else p
  }

  /** The second pass needs no third: it finds objects, or the flag is clear. */
  lemma AllocClearedEnds(root: Root, h: Heap, k: nat, c: nat)
    requires root.Ok() && k in h.cpus && c in h.caches && Returning(root, h, c)
    ensures AllocCleared(root, h, k, c).Got? || AllocCleared(root, h, k, c).Null?
  {
    ClaimShape(h, c, true);
    var g := Claim(h, c, true);
    if |g.caches[c].objects| > root.hiwater && root.freeBatch > 0 { FlushDownNonEmpty(root, g, k, c); }
    hide Claim, FlushDown;
  }

  /** What Alloc means for the clients: an object it returns was with none of them and is theirs now;
      it returns nullptr only when the object list and the partial list are empty. */
  lemma AllocClearedKeeps(root: Root, h: Heap, place: map<nat, Place>, k: nat, c: nat)
    returns (after: map<nat, Place>)
    requires Inv(root, h, place) && k in h.cpus && c in h.caches && Returning(root, h, c)
    ensures root.size > 0
    ensures match AllocCleared(root, h, k, c)
            case Got(g, o) => Inv(root, g, after) && o !in Clients(place) && Clients(after) == Clients(place) + {o}
            case Null(g) => && Inv(root, g, after) && Clients(after) == Clients(place)
                            && k in g.cpus && c in g.caches && AllocPass(root, g, k, c, true).Null?
                            && g.slabs == h.slabs
            case Again(g) => false
            case Stuck => false
  {
    assert root.Ok() by { InvParts(root, h, place, 0); }
    AllocClearedEnds(root, h, k, c);
    AllocPassShape(root, h, k, c, true);
    NullAfterClaim(root, h, k, c);
    hide Inv, AllocPass;
    after := AllocPassKeeps(root, h, place, k, c, true);
    var p := AllocPass(root, h, k, c, true);
    if p.Again? {
      after := AllocPassKeeps(root, p.h, after, k, c, true);
    }
  }

  /** When the second pass finds nothing, nothing was flushed in the first. */
  lemma NullAfterClaim(root: Root, h: Heap, k: nat, c: nat)
    requires root.Ok() && k in h.cpus && c in h.caches
    ensures var p := AllocPass(root, h, k, c, true);
            p.Again? && c in p.h.caches && p.h.caches[c].objects == [] ==> p.h.slabs == h.slabs
  {
    hide Claim, FlushDown, PopObject;
    ClaimShape(h, c, true);
    var g := Claim(h, c, true);
    if |g.caches[c].objects| > root.hiwater && root.freeBatch > 0 { FlushDownNonEmpty(root, g, k, c); }
  }

  /** A pass that ends at `retry` with objects on the list is followed by one that returns. */
  lemma SecondPass(root: Root, h: Heap, place: map<nat, Place>, k: nat, c: nat, clear: bool)
    requires Inv(root, h, place) && k in h.cpus && c in h.caches && root.freeBatch > 0
    requires h.caches[c].objects == [] && h.caches[c].remoteCheck
    ensures root.size > 0
    ensures h.caches[c].incoming != [] || clear ==>
              Passes(root, h, k, c, clear, 2).Got? || Passes(root, h, k, c, clear, 2).Null?
    ensures h.caches[c].incoming != [] ==> Passes(root, h, k, c, clear, 2).Got?
  {
    assert root.size > 0 by { InvParts(root, h, place, 0); }
    var g := Claim(h, c, clear);
    ClaimShape(h, c, clear);
    ClaimKeeps(root, h, place, c, clear);
    AllocPassShape(root, h, k, c, clear);
    hide Inv, Claim, FlushDown, Relocate, TakePartial;
    var first := AllocPass(root, h, k, c, clear);
    if |g.caches[c].objects| > root.hiwater {
      var after := FlushDownKeeps(root, g, Relocate(place, Incoming(c), OnCache(c)), k, c);
    }
    assert first.Again?;
    var next := AllocPass(root, first.h, k, c, clear);
    assert Passes(root, h, k, c, clear, 2) == Passes(root, first.h, k, c, clear, 1);
    assert next.Again? || Passes(root, first.h, k, c, clear, 1) == next;
  }

  /** Alloc as written returns exactly when it has an object at once, was not told to look at the
      incoming list, or finds something there (with free_batch not zero). */
  lemma AllocAsWrittenReturns(root: Root, h: Heap, place: map<nat, Place>, k: nat, c: nat)
    requires Inv(root, h, place) && k in h.cpus && c in h.caches
    ensures root.size > 0
    ensures Returns(root, h, k, c, false)
       <==> h.caches[c].objects != [] || !h.caches[c].remoteCheck || (h.caches[c].incoming != [] && root.freeBatch > 0)
  {
    var cache := h.caches[c];
    assert root.size > 0;
    if cache.objects != [] || !cache.remoteCheck {
      AtOnce(root, h, place, k, c, false);
    } else if cache.incoming != [] && root.freeBatch > 0 {
      SecondPass(root, h, place, k, c, false);
    } else {
      forall n: nat ensures !(Passes(root, h, k, c, false, n).Got? || Passes(root, h, k, c, false, n).Null?) {
        if cache.incoming == [] { SpinsForever(root, h, k, c, n); } else { StuckForever(root, h, k, c, false, n); }
      }
    }
  }

  lemma AtOnce(root: Root, h: Heap, place: map<nat, Place>, k: nat, c: nat, clear: bool)
    requires Inv(root, h, place) && k in h.cpus && c in h.caches
    requires h.caches[c].objects != [] || !h.caches[c].remoteCheck
    ensures root.size > 0 && Returns(root, h, k, c, clear)
  {
    assert root.size > 0;
    hide Inv, TakePartial;
    var p := AllocPass(root, h, k, c, clear);
    assert p.Got? || p.Null? by {
      if h.caches[c].objects == [] && h.caches[c].partial != [] { TakePartialUnfolds(root, h, place, c); }
    }
    assert Passes(root, h, k, c, clear, 1) == p;
  }

  /** Once the claim clears the flag, Alloc always returns for sizes with a free batch; without one it
      still fails to return exactly when there is something to claim. */
  lemma AllocClearedReturns(root: Root, h: Heap, place: map<nat, Place>, k: nat, c: nat)
    requires Inv(root, h, place) && k in h.cpus && c in h.caches
    ensures root.size > 0
    ensures Returns(root, h, k, c, true) <==> Returning(root, h, c)
  {
    var cache := h.caches[c];
    assert root.size > 0;
    if cache.objects != [] || !cache.remoteCheck {
      AtOnce(root, h, place, k, c, true);
    } else if root.freeBatch > 0 {
      SecondPass(root, h, place, k, c, true);
    } else if cache.incoming == [] {
      ClaimShape(h, c, true);
      var g := Claim(h, c, true);
      ClaimKeeps(root, h, place, c, true);
      hide Inv, Claim, Relocate;
      AtOnce(root, g, Relocate(place, Incoming(c), OnCache(c)), k, c, true);
      ReturnsLater(root, h, k, c, true, g);
    } else {
      forall n: nat ensures !(Passes(root, h, k, c, true, n).Got? || Passes(root, h, k, c, true, n).Null?) {
        StuckForever(root, h, k, c, true, n);
      }
    }
  }

  lemma ReturnsLater(root: Root, h: Heap, k: nat, c: nat, clear: bool, g: Heap)
    requires root.size > 0 && k in h.cpus && c in h.caches && k in g.cpus && c in g.caches
    requires AllocPass(root, h, k, c, clear) == Again(g) && Returns(root, g, k, c, clear)
    ensures Returns(root, h, k, c, clear)
  {
    hide AllocPass;
    var n: nat :| Passes(root, g, k, c, clear, n).Got? || Passes(root, g, k, c, clear, n).Null?;
    assert Passes(root, h, k, c, clear, n + 1) == Passes(root, g, k, c, clear, n);
  }

  /** A new slab always has an object to give: the assertion after AddSlab holds. */
  lemma NewSlabServes(root: Root, h: Heap, place: map<nat, Place>, k: nat, c: nat, p: nat, clear: bool)
    requires Inv(root, h, place) && k in h.cpus && c in h.caches && Aligned(p, root.order) && p !in h.slabs
    requires root.size > 0 && AllocPass(root, h, k, c, clear).Null?
    ensures AllocPass(root, AddSlab(root, h, c, p), k, c, clear).Got?
  {
    var after := AllocPassKeeps(root, h, place, k, c, clear);
    AddSlabKeeps(root, h, place, c, p);
    var g := AddSlab(root, h, c, p);
    assert !h.caches[c].remoteCheck by { hide Inv, Claim, FlushDown, TakePartial; }
    hide Inv, TakePartial, NewObjects, TagOwner, Carve;
    TakePartialUnfolds(root, g, place + NewObjects(root, p), c);
  }

  // ---- runs: the steps of all CPUs, in any order ----

  datatype Op =
    | Pop(c: nat)
    | Push(c: nat, o: nat)
    | FlushStep(k: nat, c: nat)
    | Remote(k: nat, o: nat)
    | FlushRemote(k: nat)
    | ClaimStep(c: nat, clear: bool)
    | Take(c: nat)
    | NewSlab(c: nat, p: nat)

  /** The heap, and the objects that clients hold. */
  datatype System = System(h: Heap, clients: set<nat>)

  /** There is a place for everything, and the clients' objects are the ones placed with them. */
  ghost predicate Good(root: Root, sys: System) {
    exists place :: Inv(root, sys.h, place) && Clients(place) == sys.clients
  }

  /** What the code guards each step with; clients free objects they hold, and the page allocator
      hands out aligned blocks that are not slabs already. */
  ghost predicate Enabled(root: Root, sys: System, op: Op) {
    match op
    case Pop(c) => c in sys.h.caches && sys.h.caches[c].objects != []
    case Push(c, o) => c in sys.h.caches && o in sys.clients
    case FlushStep(k, c) => k in sys.h.cpus && c in sys.h.caches && sys.h.caches[c].objects != []
    case Remote(k, o) => k in sys.h.cpus && o in sys.clients
    case FlushRemote(k) => k in sys.h.cpus
    case ClaimStep(c, clear) => c in sys.h.caches
    case Take(c) => c in sys.h.caches && sys.h.caches[c].partial != []
    case NewSlab(c, p) => c in sys.h.caches && Aligned(p, root.order) && p !in sys.h.slabs
  }

  ghost function Step(root: Root, sys: System, op: Op): System
    requires root.size > 0 && Enabled(root, sys, op)
  {
    match op
    case Pop(c) => System(PopObject(sys.h, c), sys.clients + {sys.h.caches[c].objects[0]})
    case Push(c, o) => System(PushObject(sys.h, c, o), sys.clients - {o})
    case FlushStep(k, c) => System(FlushOne(root, sys.h, k, c), sys.clients)
    case Remote(k, o) => System(FreeRemote(root, sys.h, k, o), sys.clients - {o})
    case FlushRemote(k) => System(FlushRemoteList(root, sys.h, k), sys.clients)
    case ClaimStep(c, clear) => System(Claim(sys.h, c, clear), sys.clients)
    case Take(c) =>
      var taken := TakePartial(root, sys.h, c);
      if taken.Got? then System(taken.h, sys.clients + {taken.o}) else sys
    case NewSlab(c, p) => System(AddSlab(root, sys.h, c, p), sys.clients)
  }

  lemma ObjectStepKeeps(root: Root, sys: System, place: map<nat, Place>, op: Op) returns (after: map<nat, Place>)
    requires Inv(root, sys.h, place) && Clients(place) == sys.clients
    requires root.size > 0 && Enabled(root, sys, op) && (op.Pop? || op.Push? || op.Take? || op.NewSlab?)
    ensures Inv(root, Step(root, sys, op).h, after) && Clients(after) == Step(root, sys, op).clients
  {
    hide Inv, TakePartial, AddSlab, PopObject, PushObject, TakeFrom, NewObjects, Clients;
    var h := sys.h;
    InvParts(root, h, place, 0);
    match op
    case Pop(c) =>
      PopObjectKeeps(root, h, place, c);
      after := place[h.caches[c].objects[0] := Client];
      ClientGains(place, h.caches[c].objects[0]);
    case Push(c, o) =>
      ClientHas(place, o);
      PushObjectKeeps(root, h, place, c, o);
      after := place[o := OnCache(c)];
      ClientLoses(place, o, OnCache(c));
    case Take(c) =>
      TakePartialUnfolds(root, h, place, c);
      TakeFromKeeps(root, h, place, c);
      after := place[TakePartial(root, h, c).o := Client];
      ClientGains(place, TakePartial(root, h, c).o);
    case NewSlab(c, p) =>
      AddSlabKeeps(root, h, place, c, p);
      NewObjectsClients(root, h, place, p);
      after := place + NewObjects(root, p);
  }

  lemma ListStepKeeps(root: Root, sys: System, place: map<nat, Place>, op: Op) returns (after: map<nat, Place>)
    requires Inv(root, sys.h, place) && Clients(place) == sys.clients
    requires root.size > 0 && Enabled(root, sys, op) && !(op.Pop? || op.Push? || op.Take? || op.NewSlab?)
    ensures Inv(root, Step(root, sys, op).h, after) && Clients(after) == Step(root, sys, op).clients
  {
    var h := sys.h;
    hide Inv, FlushOne, FreeRemote, FlushRemoteList, Claim, GoesRemote;
    match op
    case FlushStep(k, c) =>
      after := FlushOneKeeps(root, h, place, k, c);
    case Remote(k, o) =>
      after := FreeRemoteKeeps(root, h, place, k, o);
      GoesRemoteClients(place, after, k, o, h.slabs[root.HeadOf(o)].cache);
    case FlushRemote(k) =>
      FlushRemoteKeeps(root, h, place, k);
      after := Flushed(h, place, k);
    case ClaimStep(c, clear) =>
      ClaimKeeps(root, h, place, c, clear);
      after := Relocate(place, Incoming(c), OnCache(c));
  }

  lemma StepKeeps(root: Root, sys: System, op: Op)
    requires root.size > 0 && Good(root, sys) && Enabled(root, sys, op)
    ensures Good(root, Step(root, sys, op))
  {
    hide Inv, Enabled, Step;
    var place :| Inv(root, sys.h, place) && Clients(place) == sys.clients;
    if op.Pop? || op.Push? || op.Take? || op.NewSlab? {
      var after := ObjectStepKeeps(root, sys, place, op);
    } else {
      var after := ListStepKeeps(root, sys, place, op);
    }
  }

  ghost predicate EnabledRun(root: Root, sys: System, ops: seq<Op>)
    requires root.size > 0
    decreases |ops|
  {
    ops == [] || (Enabled(root, sys, ops[0]) && EnabledRun(root, Step(root, sys, ops[0]), ops[1..]))
  }

  ghost function Run(root: Root, sys: System, ops: seq<Op>): System
    requires root.size > 0 && EnabledRun(root, sys, ops)
    decreases |ops|
  {
    if ops == [] then sys else Run(root, Step(root, sys, ops[0]), ops[1..])
  }

  lemma {:induction false} RunKeeps(root: Root, sys: System, ops: seq<Op>)
    requires root.size > 0 && Good(root, sys) && EnabledRun(root, sys, ops)
    ensures Good(root, Run(root, sys, ops))
    decreases |ops|
  {
    hide Good, Enabled, Step;
    if ops != [] {
      StepKeeps(root, sys, ops[0]);
      RunKeeps(root, Step(root, sys, ops[0]), ops[1..]);
    }
  }

  /** Over every run from empty caches: every object of every slab is in exactly one place, each
      slab's count of used objects is the number of its objects that are not on its list, a cache's
      partial list is exactly its slabs with an object to give, and no slab overlaps another. */
  lemma EveryRun(root: Root, start: Heap, ops: seq<Op>)
    requires root.Ok() && Empty(start)
    requires EnabledRun(root, System(start, {}), ops)
    ensures Good(root, Run(root, System(start, {}), ops))
    ensures var end := Run(root, System(start, {}), ops);
            && (forall p, q :: p in end.h.slabs && q in end.h.slabs && p != q ==>
                  p + Pow2(root.order) <= q || q + Pow2(root.order) <= p)
            && (forall p :: p in end.h.slabs && end.h.slabs[p].used == 0 ==>
                  forall o :: o in end.clients ==> root.HeadOf(o) != p)
  {
    EmptyGood(root, start);
    RunKeeps(root, System(start, {}), ops);
    var end := Run(root, System(start, {}), ops);
    hide EnabledRun, Run;
    var place :| Inv(root, end.h, place) && Clients(place) == end.clients;
    forall p, q | p in end.h.slabs && q in end.h.slabs && p != q
      ensures p + Pow2(root.order) <= q || q + Pow2(root.order) <= p
    {
      SlabsApart(root, end.h, place, p, q);
    }
    forall p | p in end.h.slabs && end.h.slabs[p].used == 0
      ensures forall o :: o in end.clients ==> root.HeadOf(o) != p
    {
      FullListHoldsAll(root, end.h, place, p);
    }
  }

  ghost predicate Empty(h: Heap) {
    && h.slabs == map[]
    && (forall c :: c in h.caches ==> h.caches[c] == Cache([], [], [], false))
    && (forall k :: k in h.cpus ==> h.cpus[k] == Cpu([], None))
  }

  lemma EmptyInv(root: Root, h: Heap)
    requires root.Ok() && Empty(h)
    ensures Inv(root, h, map[])
  {
    var place: map<nat, Place> := map[];
    forall at: Place | at != Client ensures Holds(ListAt(h, at), place, at) {
      assert ListAt(h, at) == [];
    }
    forall c | c in h.caches ensures CachePartialOk(root, h, c) {}
  }

  lemma EmptyGood(root: Root, h: Heap)
    requires root.Ok() && Empty(h)
    ensures Good(root, System(h, {}))
  {
    EmptyInv(root, h);
    var place: map<nat, Place> := map[];
    assert Clients(place) == {};
  }

  lemma SlabsApart(root: Root, h: Heap, place: map<nat, Place>, p: nat, q: nat)
    requires Inv(root, h, place) && p in h.slabs && q in h.slabs && p != q
    ensures p + Pow2(root.order) <= q || q + Pow2(root.order) <= p
  {
    assert SlabOk(root, h, place, p) && SlabOk(root, h, place, q);
    Laminar(p, root.order, q, root.order);
  }

  lemma NewObjectsClients(root: Root, h: Heap, place: map<nat, Place>, p: nat)
    requires Inv(root, h, place) && Aligned(p, root.order) && p !in h.slabs
    ensures Clients(place + NewObjects(root, p)) == Clients(place)
  {
    NewObjectsAreNew(root, h, place, p);
    hide Inv, Carve;
  }
}
