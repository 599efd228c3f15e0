/** Which object each operation of the slab allocator takes, and how many it leaves: lists are used from the front
    (sys/slab_allocator.cpp). */
module SlabOrder {
  import opened Bits
  import opened Wrappers
  import opened SlabModel
  import opened SlabInvariant
  import opened SlabSteps
  import opened SlabPages
  import opened SlabRuns

  // ---- a new slab ----

  /** The objects of a slab are listed from the last to the first. */
  lemma {:induction false} CarveAt(root: Root, p: nat, n: nat)
    ensures |Carve(root, p, n)| == n
    ensures forall i :: 0 <= i < n ==> Carve(root, p, n)[i] == root.ObjectAt(p, n - 1 - i)
    decreases n
  {
    if n > 0 { CarveAt(root, p, n - 1); }
  }

  /** With no objects and none to claim, a new slab serves Alloc with its last object, before any other slab; it stays
      listed, in front, unless that was its only one. */
  lemma NewSlabLastObject(root: Root, h: Heap, place: map<nat, Place>, k: nat, c: nat, p: nat, clear: bool)
    requires Inv(root, h, place) && k in h.cpus && c in h.caches && Aligned(p, root.order) && p !in h.slabs
    requires h.caches[c].objects == [] && !h.caches[c].remoteCheck
    ensures root.size > 0
    ensures var r := AllocPass(root, AddSlab(root, h, c, p), k, c, clear);
            && root.PerSlab() > 0
            && r.Got? && r.o == root.ObjectAt(p, root.PerSlab() - 1)
            && r.h.slabs.Keys == h.slabs.Keys + {p} && r.h.slabs[p].used == 1
            && c in r.h.caches
            && r.h.caches[c].partial == (if root.PerSlab() > 1 then [p] else []) + h.caches[c].partial
  {
    InvParts(root, h, place, 0);
    hide Inv, Carve, TagOwner;
    CarveAt(root, p, root.PerSlab());
  }

  // ---- slabs ----

  /** The heap without slab p, which is first on cache c's partial list. */
  function WithoutSlab(h: Heap, c: nat, p: nat): Heap
    requires c in h.caches && h.caches[c].partial != []
  {
    h.(caches := h.caches[c := h.caches[c].(partial := h.caches[c].partial[1..])], slabs := h.slabs - {p})
  }

  /** An object taken from a partial slab and returned to it at once leaves the heap as it was; if the slab had no
      object in use, the slab is given up. */
  lemma TakeThenReturn(root: Root, h: Heap, place: map<nat, Place>, c: nat)
    requires Inv(root, h, place) && c in h.caches && h.caches[c].partial != []
    ensures root.size > 0
    ensures var p := h.caches[c].partial[0];
            var taken := TakePartial(root, h, c);
            && taken.Got? && p in h.slabs
            && c in taken.h.caches && p in taken.h.slabs && taken.h.slabs[p].used > 0
            && ReturnObject(root, taken.h, c, p, taken.o) == if h.slabs[p].used > 0 then h else WithoutSlab(h, c, p)
  {
    InvParts(root, h, place, 0);
    TakePartialUnfolds(root, h, place, c);
    FrontOfPartial(root, h, place, c);
    hide Inv;
    TakeReturnLists(root, h, c);
  }

  lemma TakeReturnLists(root: Root, h: Heap, c: nat)
    requires root.size > 0 && c in h.caches && h.caches[c].partial != []
    requires var p := h.caches[c].partial[0];
             p in h.slabs && h.slabs[p].free != [] && h.slabs[p].used < root.PerSlab()
    ensures var p := h.caches[c].partial[0];
            var taken := TakePartial(root, h, c);
            && taken.Got?
            && c in taken.h.caches && p in taken.h.slabs && taken.h.slabs[p].used > 0
            && ReturnObject(root, taken.h, c, p, taken.o) == if h.slabs[p].used > 0 then h else WithoutSlab(h, c, p)
  {
    hide Root.PerSlab;
    var cache := h.caches[c];
    var p := cache.partial[0];
    var slab := h.slabs[p];
    assert [slab.free[0]] + slab.free[1..] == slab.free;
    assert [p] + cache.partial[1..] == cache.partial;
    assert h.caches[c := cache] == h.caches && h.slabs[p := slab] == h.slabs;
    var g := ReturnObject(root, TakePartial(root, h, c).h, c, p, slab.free[0]);
    if slab.used > 0 {
      assert g.slabs == h.slabs;
      assert g.caches == h.caches;
    } else {
      assert g.slabs == h.slabs - {p};
    }
  }

  // ---- the object list ----

  /** An object freed to a cache below hiwater is the one it allocates next, and the heap is as it was. */
  lemma FreeThenAlloc(root: Root, h: Heap, k: nat, c: nat, o: nat, clear: bool)
    requires root.size > 0 && k in h.cpus && c in h.caches && |h.caches[c].objects| < root.hiwater
    ensures var g := CacheFree(root, h, k, c, o);
            k in g.cpus && c in g.caches && AllocPass(root, g, k, c, clear) == Got(h, o)
  {
    hide FlushFreeList, Claim, FlushDown, TakePartial;
    var list := h.caches[c].objects;
    assert ([o] + list)[1..] == list;
    assert h.caches[c := h.caches[c]] == h.caches;
  }

  /** Flushing takes from the front: the objects that stay are the last ones. */
  lemma {:induction false} FlushLeavesLast(root: Root, h: Heap, k: nat, c: nat, amount: nat)
    requires root.size > 0 && k in h.cpus && c in h.caches && amount <= |h.caches[c].objects|
    ensures c in FlushFreeList(root, h, k, c, amount).caches
    ensures FlushFreeList(root, h, k, c, amount).caches[c].objects == h.caches[c].objects[amount..]
    decreases amount
  {
    hide FlushOne, FlushFreeList, OnlyObjects;
    if amount == 0 {
      FlushNone(root, h, k, c, 0);
    } else {
      FlushNext(root, h, k, c, amount);
      FlushOneShape(root, h, k, c);
      FlushLeavesLast(root, FlushOne(root, h, k, c), k, c, amount - 1);
    }
  }

  /** Freeing to a full object list sends free_batch objects away from the front of it, the freed one first; freeing
      to any other only adds the object. */
  lemma CacheFreeExact(root: Root, h: Heap, k: nat, c: nat, o: nat)
    requires root.Ok() && k in h.cpus && c in h.caches && |h.caches[c].objects| <= root.hiwater
    ensures var g := CacheFree(root, h, k, c, o);
            && c in g.caches
            && (|h.caches[c].objects| < root.hiwater ==> g.caches[c].objects == [o] + h.caches[c].objects)
            && (|h.caches[c].objects| == root.hiwater && root.freeBatch > 0 ==>
                  g.caches[c].objects == h.caches[c].objects[root.freeBatch - 1..])
  {
    hide FlushFreeList, FlushOne;
    var g := PushObject(h, c, o);
    if |h.caches[c].objects| == root.hiwater && root.freeBatch > 0 {
      FlushLeavesLast(root, g, k, c, root.freeBatch);
    }
  }

  /** How many of n objects a claim keeps: as many as are left when batches of fb go while there are more than hw. */
  ghost predicate Left(n: nat, hw: nat, fb: nat, left: nat) {
    && left <= n && (n <= hw ==> left == n)
    && (n > hw ==> hw < left + fb <= hw + fb && exists j: nat :: n == left + j * fb)
  }

  /** There is one such number. */
  lemma LeftUnique(n: nat, hw: nat, fb: nat, a: nat, b: nat)
    requires Left(n, hw, fb, a) && Left(n, hw, fb, b)
    ensures a == b
  {
    if n > hw {
      var i: nat :| n == a + i * fb;
      var j: nat :| n == b + j * fb;
      if i < j { Further(i, j, fb); }
      if j < i { Further(j, i, fb); }
    }
  }

  lemma Further(i: nat, j: nat, fb: nat)
    requires i < j
    ensures i * fb + fb <= j * fb
  {
    MulLe(i + 1, j, fb);
    Distribute(i + 1, 1, fb);
  }

  /** After a claim whole batches go from the front of the list until it is within hiwater, and no further. */
  lemma {:induction false} FlushDownLeavesLast(root: Root, h: Heap, k: nat, c: nat)
    requires root.Ok() && k in h.cpus && c in h.caches && root.freeBatch > 0
    ensures var all, kept := h.caches[c].objects, FlushDown(root, h, k, c).caches[c].objects;
            Left(|all|, root.hiwater, root.freeBatch, |kept|) && kept == all[|all| - |kept|..]
    decreases |h.caches[c].objects|
  {
    hide FlushFreeList;
    var all := h.caches[c].objects;
    if |all| > root.hiwater {
      var g := FlushFreeList(root, h, k, c, root.freeBatch);
      FlushLeavesLast(root, h, k, c, root.freeBatch);
      FlushDownLeavesLast(root, g, k, c);
      var rest, kept := g.caches[c].objects, FlushDown(root, g, k, c).caches[c].objects;
      OneMoreBatch(|rest|, root.hiwater, root.freeBatch, |kept|);
    }
  }

  lemma OneMoreBatch(n: nat, hw: nat, fb: nat, left: nat)
    requires Left(n, hw, fb, left) && n + fb > hw
    ensures Left(n + fb, hw, fb, left)
  {
    var j: nat := 0;
    if n > hw { j :| n == left + j * fb; }
    assert n == left + j * fb;
    Distribute(j + 1, 1, fb);
    assert n + fb == left + (j + 1) * fb;
  }

  /** The object that Alloc takes from a slab: the first of the first partial slab. */
  function FromSlab(h: Heap, c: nat): Option<nat>
    requires c in h.caches
  {
    if h.caches[c].partial == [] then None
    else
      var p := h.caches[c].partial[0];
      if p !in h.slabs || h.slabs[p].free == [] then None else Some(h.slabs[p].free[0])
  }

  function Given(r: Pass): Option<nat> { if r.Got? then Some(r.o) else None }

  lemma FromSlabOnly(root: Root, h: Heap, k: nat, c: nat)
    requires root.size > 0 && k in h.cpus && c in h.caches && h.caches[c].objects == [] && !h.caches[c].remoteCheck
    ensures !AllocPass(root, h, k, c, true).Again? && Given(AllocPass(root, h, k, c, true)) == FromSlab(h, c)
  {
  }

  lemma ClaimNothing(root: Root, h: Heap, k: nat, c: nat)
    requires root.Ok() && k in h.cpus && c in h.caches
    requires h.caches[c].objects == [] && h.caches[c].remoteCheck && h.caches[c].incoming == []
    ensures Given(AllocCleared(root, h, k, c)) == FromSlab(h, c)
  {
    var g := Claim(h, c, true);
    assert g.caches[c].objects == [] && FromSlab(g, c) == FromSlab(h, c);
    assert AllocPass(root, h, k, c, true) == Again(g);
    FromSlabOnly(root, g, k, c);
  }

  /** The position in the incoming list of the object that is first after a claim. */
  ghost predicate FirstKept(n: nat, hw: nat, fb: nat, i: nat) { i < n && Left(n, hw, fb, n - i) }

  lemma ClaimSome(root: Root, h: Heap, k: nat, c: nat)
    requires root.Ok() && k in h.cpus && c in h.caches && root.freeBatch > 0
    requires h.caches[c].objects == [] && h.caches[c].remoteCheck && h.caches[c].incoming != []
    ensures var list := h.caches[c].incoming;
            exists i: nat :: FirstKept(|list|, root.hiwater, root.freeBatch, i)
                             && Given(AllocCleared(root, h, k, c)) == Some(list[i])
  {
    hide Claim, FlushDown, Left, AllocPass, AllocCleared, FirstKept, Given;
    var g := Claim(h, c, true);
    ClaimShape(h, c, true);
    var list := h.caches[c].incoming;
    assert g.caches[c].objects == list;
    ClaimThenFlush(root, h, k, c);
    FlushDownLeavesLast(root, g, k, c);
    FlushDownNonEmpty(root, g, k, c);
    var d := FlushDown(root, g, k, c);
    SecondTry(root, h, d, k, c);
    var i := KeptFront(list, d.caches[c].objects, root.hiwater, root.freeBatch);
  }

  lemma KeptFront(all: seq<nat>, kept: seq<nat>, hw: nat, fb: nat) returns (i: nat)
    requires Left(|all|, hw, fb, |kept|) && kept == all[|all| - |kept|..] && kept != []
    ensures FirstKept(|all|, hw, fb, i) && kept[0] == all[i]
  {
    i := |all| - |kept|;
  }

  lemma SecondTry(root: Root, h: Heap, d: Heap, k: nat, c: nat)
    requires root.size > 0 && k in h.cpus && c in h.caches && k in d.cpus && c in d.caches
    requires AllocPass(root, h, k, c, true) == Again(d) && d.caches[c].objects != []
    ensures Given(AllocCleared(root, h, k, c)) == Some(d.caches[c].objects[0])
  {
    hide FlushDown, Claim;
    assert AllocCleared(root, h, k, c) == AllocPass(root, d, k, c, true);
  }

  lemma ClaimThenFlush(root: Root, h: Heap, k: nat, c: nat)
    requires root.Ok() && k in h.cpus && c in h.caches && root.freeBatch > 0
    requires h.caches[c].objects == [] && h.caches[c].remoteCheck
    ensures var g := Claim(h, c, true);
            && k in g.cpus && c in g.caches && AllocPass(root, h, k, c, true) == Again(FlushDown(root, g, k, c))
            && k in FlushDown(root, g, k, c).cpus && c in FlushDown(root, g, k, c).caches
  {
    hide Claim, FlushDown;
    ClaimShape(h, c, true);
    FlushDownIdle(root, Claim(h, c, true), k, c);
  }

  lemma FlushDownIdle(root: Root, h: Heap, k: nat, c: nat)
    requires root.size > 0 && k in h.cpus && c in h.caches && root.freeBatch > 0
    ensures |h.caches[c].objects| <= root.hiwater ==> FlushDown(root, h, k, c) == h
    ensures k in FlushDown(root, h, k, c).cpus && c in FlushDown(root, h, k, c).caches
  {
    hide FlushFreeList;
  }

  /** Alloc gives out the first object of the object list; without one, told to look, the first of the incoming
      objects that are kept; without any, the first of the first partial slab. */
  lemma AllocFrom(root: Root, h: Heap, k: nat, c: nat)
    requires root.Ok() && k in h.cpus && c in h.caches && Returning(root, h, c)
    ensures var cache := h.caches[c];
            var o := Given(AllocCleared(root, h, k, c));
            if cache.objects != [] then o == Some(cache.objects[0])
            else if cache.remoteCheck && cache.incoming != [] then
              exists i: nat :: && FirstKept(|cache.incoming|, root.hiwater, root.freeBatch, i)
                               && o == Some(cache.incoming[i])
            else o == FromSlab(h, c)
  {
    hide AllocPass, FromSlab;
    var cache := h.caches[c];
    if cache.objects != [] {
      FromFront(root, h, k, c);
    } else if !cache.remoteCheck {
      FromSlabOnly(root, h, k, c);
    } else if cache.incoming == [] {
      ClaimNothing(root, h, k, c);
    } else {
      ClaimSome(root, h, k, c);
    }
  }

  lemma FromFront(root: Root, h: Heap, k: nat, c: nat)
    requires root.size > 0 && k in h.cpus && c in h.caches && h.caches[c].objects != []
    ensures Given(AllocCleared(root, h, k, c)) == Some(h.caches[c].objects[0])
  {
  }

  // ---- freeing to another cache ----

  /** A flush puts the remote list behind the first object of the incoming list, in its order. */
  lemma FlushRemoteOrder(root: Root, h: Heap, k: nat)
    requires k in h.cpus && h.cpus[k].target.Some? && h.cpus[k].target.value in h.caches
    ensures var was, more := h.caches[h.cpus[k].target.value].incoming, h.cpus[k].remote;
            var g := FlushRemoteList(root, h, k);
            && g.caches.Keys == h.caches.Keys && k in g.cpus && g.cpus[k] == Cpu([], h.cpus[k].target)
            && var now := g.caches[h.cpus[k].target.value].incoming;
               && |now| == |was| + |more|
               && (forall i :: 0 <= i < |more| ==> now[if was == [] then i else i + 1] == more[i])
               && (forall i :: 0 <= i < |was| ==> now[if i == 0 then 0 else i + |more|] == was[i])
  {
  }

  /** The remote list with a freed object: a list that is for another cache starts anew. */
  function Waits(h: Heap, k: nat, o: nat): seq<nat>
    requires k in h.cpus
  {
    if h.cpus[k].target == Owner(h, o / PAGE) then [o] + h.cpus[k].remote else [o]
  }

  /** The lists of a CPU and of all caches after a remote free of an object of cache `home`, of which `list` are on
      the way. */
  ghost predicate Sent(root: Root, h: Heap, g: Heap, k: nat, home: nat, list: seq<nat>)
    requires k in h.cpus
  {
    && k in g.cpus && g.cpus[k] == Cpu(if |list| <= root.freeBatch then list else [], Some(home))
    && g.caches.Keys == h.caches.Keys
    && (forall c :: c in h.caches ==>
          |g.caches[c].incoming| == |h.caches[c].incoming| + Arriving(root, h, k, home, c, |list|))
  }

  /** How many objects reach the incoming list of cache c. */
  function Arriving(root: Root, h: Heap, k: nat, home: nat, c: nat, n: nat): nat
    requires k in h.cpus
  {
    if c == home then (if n > root.freeBatch then n else 0)
    else if h.cpus[k].target == Some(c) then |h.cpus[k].remote|
    else 0
  }

  /** What a remote free does to the lists: a list for another cache goes there first; the object waits in front of
      the list for its own cache, which goes there as soon as it holds more than free_batch objects. */
  lemma FreeRemoteExact(root: Root, h: Heap, place: map<nat, Place>, k: nat, o: nat)
    requires Inv(root, h, place) && k in h.cpus && o in place && place[o] == Client
    ensures root.HeadOf(o) in h.slabs
    ensures Sent(root, h, FreeRemote(root, h, k, o), k, h.slabs[root.HeadOf(o)].cache, Waits(h, k, o))
  {
    hide Inv, Sent, Waits, FreeRemote;
    HomeOf(root, h, place, o);
    NothingWithout(root, h, place, k);
    FreeRemoteLists(root, h, k, o, h.slabs[root.HeadOf(o)].cache);
  }

  lemma FreeRemoteLists(root: Root, h: Heap, k: nat, o: nat, home: nat)
    requires k in h.cpus && (h.cpus[k].target.None? ==> h.cpus[k].remote == [])
    requires h.cpus[k].target.Some? ==> h.cpus[k].target.value in h.caches
    requires Owner(h, o / PAGE) == Some(home) && home in h.caches
    ensures Sent(root, h, FreeRemote(root, h, k, o), k, home, Waits(h, k, o))
  {
    hide FreeRemote, Queue, Waits, FlushRemoteList;
    FreeRemoteUnfolds(root, h, k, o, home);
    QueueExact(root, h, k, o, home);
    FlushExact(root, Queue(root, h, k, o, home), k);
  }

  lemma NothingWithout(root: Root, h: Heap, place: map<nat, Place>, k: nat)
    requires Inv(root, h, place) && k in h.cpus
    ensures h.cpus[k].target.None? ==> h.cpus[k].remote == []
    ensures h.cpus[k].target.Some? ==> h.cpus[k].target.value in h.caches
  {
    if h.cpus[k].remote != [] {
      var o := h.cpus[k].remote[0];
      assert Holds(ListAt(h, OnCpu(k)), place, OnCpu(k));
      assert ObjectOk(root, h, o, place[o]);
    }
  }

  lemma FlushExact(root: Root, h: Heap, k: nat)
    requires k in h.cpus && (h.cpus[k].target.None? ==> h.cpus[k].remote == [])
    requires h.cpus[k].target.Some? ==> h.cpus[k].target.value in h.caches
    ensures var g := FlushRemoteList(root, h, k);
            && k in g.cpus && g.cpus[k] == Cpu([], h.cpus[k].target) && g.caches.Keys == h.caches.Keys
            && forall c :: c in h.caches ==>
                 |g.caches[c].incoming|
                 == |h.caches[c].incoming| + (if h.cpus[k].target == Some(c) then |h.cpus[k].remote| else 0)
  {
    hide FlushRemoteList;
    FlushRemoteFlag(root, h, k);
    if h.cpus[k].target.Some? { FlushRemoteOrder(root, h, k); } else { NoTarget(root, h, k); }
  }

  lemma NoTarget(root: Root, h: Heap, k: nat)
    requires k in h.cpus && h.cpus[k].target.None?
    ensures FlushRemoteList(root, h, k) == h
  {
  }

  lemma QueueExact(root: Root, h: Heap, k: nat, o: nat, home: nat)
    requires k in h.cpus && (h.cpus[k].target.None? ==> h.cpus[k].remote == [])
    requires h.cpus[k].target.Some? ==> h.cpus[k].target.value in h.caches
    requires Owner(h, o / PAGE) == Some(home) && home in h.caches
    ensures var g := Queue(root, h, k, o, home);
            && k in g.cpus && g.cpus[k] == Cpu(Waits(h, k, o), Some(home)) && g.caches.Keys == h.caches.Keys
            && forall c :: c in h.caches ==>
                 |g.caches[c].incoming| == |h.caches[c].incoming|
                   + (if h.cpus[k].target == Some(c) && c != home then |h.cpus[k].remote| else 0)
  {
    hide FlushRemoteList;
    FlushExact(root, h, k);
  }

  // ---- where a flushed object goes ----

  /** Flushing one object of the cache's own slabs returns it to its slab, which goes when it was the last in use;
      an object of another cache's slab goes to that cache, by way of this CPU's remote list. */
  lemma FlushOneExact(root: Root, h: Heap, place: map<nat, Place>, k: nat, c: nat)
    requires Inv(root, h, place) && k in h.cpus && c in h.caches && h.caches[c].objects != []
    ensures root.size > 0
    ensures var o := h.caches[c].objects[0];
            var p := root.HeadOf(o);
            var g := FlushOne(root, h, k, c);
            && p in h.slabs && h.slabs[p].used > 0
            && if h.slabs[p].cache == c then
                 && g.cpus == h.cpus
                 && (if h.slabs[p].used == 1 then g.slabs == h.slabs - {p}
                     else && g.slabs.Keys == h.slabs.Keys && g.slabs[p].free == [o] + h.slabs[p].free
                          && g.slabs[p].used == h.slabs[p].used - 1)
               else
                 && g.slabs == h.slabs && k in g.cpus && g.cpus[k].target == Some(h.slabs[p].cache)
                 && (g.cpus[k].remote == Waits(h, k, o) || g.cpus[k].remote == [])
  {
    var o := h.caches[c].objects[0];
    var p := root.HeadOf(o);
    PopObjectKeeps(root, h, place, c);
    InvParts(root, h, place, 0);
    var g, mid := PopObject(h, c), place[o := Client];
    FlushOneUnfolds(root, h, k, c);
    hide Inv, FreeRemote, ReturnObject, FlushOne, Waits, Sent;
    HomeOf(root, g, mid, o);
    HandMeansUsed(root, g, mid, o);
    if h.slabs[p].cache == c {
      ReturnedLists(root, g, c, p, o);
    } else {
      FreeRemoteExact(root, g, mid, k, o);
      SentTarget(root, g, FreeRemote(root, g, k, o), k, g.slabs[p].cache, Waits(g, k, o));
      SameWaits(h, c, k, o);
      FreeRemoteSlabs(root, g, k, o);
    }
  }

  lemma SentTarget(root: Root, h: Heap, g: Heap, k: nat, home: nat, list: seq<nat>)
    requires k in h.cpus && Sent(root, h, g, k, home, list)
    ensures k in g.cpus && g.cpus[k].target == Some(home) && (g.cpus[k].remote == list || g.cpus[k].remote == [])
  {
  }

  lemma SameWaits(h: Heap, c: nat, k: nat, o: nat)
    requires k in h.cpus && c in h.caches && h.caches[c].objects != []
    ensures Waits(PopObject(h, c), k, o) == Waits(h, k, o)
  {
  }

  lemma FreeRemoteSlabs(root: Root, h: Heap, k: nat, o: nat)
    requires k in h.cpus
    ensures FreeRemote(root, h, k, o).slabs == h.slabs
  {
    hide SpliceAfterFirst;
  }

  lemma ReturnedLists(root: Root, h: Heap, c: nat, p: nat, o: nat)
    requires root.size > 0 && c in h.caches && p in h.slabs && h.slabs[p].used > 0
    ensures var g := ReturnObject(root, h, c, p, o);
            && g.cpus == h.cpus
            && if h.slabs[p].used == 1 then g.slabs == h.slabs - {p}
               else && g.slabs.Keys == h.slabs.Keys && g.slabs[p].free == [o] + h.slabs[p].free
                    && g.slabs[p].used == h.slabs[p].used - 1
  {
  }
}
