/** Slabs gaining and losing objects, new slabs, and slabs going back to the page allocator. */
module SlabPages {
  import opened Bits
  import opened Sequences
  import opened Wrappers
  import opened SlabModel
  import opened SlabInvariant
  import opened SlabSteps

  /** The parts of the invariant that do not mention the lists of objects. */
  ghost predicate Books(root: Root, h: Heap, place: map<nat, Place>)
    requires root.Ok()
  {
    SlabsOk(root, h, place) && ObjectsOk(root, h, place) && PartialOk(root, h) && TargetsOk(h)
  }

  lemma {:induction false} WithoutHas(l: seq<nat>, x: nat)
    requires NoDup(l)
    ensures NoDup(Without(l, x)) && forall y :: y in Without(l, x) <==> y in l && y != x
  {
    if l != [] {
      var rest := l[1..];
      assert forall y :: y in l <==> y == l[0] || y in rest;
      assert NoDup(rest) by {
        forall i, j | 0 <= i < j < |rest| ensures rest[i] != rest[j] { assert l[i + 1] != l[j + 1]; }
      }
      if l[0] != x {
        WithoutHas(rest, x);
        NoDupCons(l[0], Without(rest, x));
      }
    }
  }

  /** Between h and g only slab p of cache c and that cache's lists changed. */
  ghost predicate OnlySlab(h: Heap, g: Heap, c: nat, p: nat) {
    && c in h.caches && g.caches.Keys == h.caches.Keys && g.cpus == h.cpus
    && (forall q :: q in h.slabs && q != p ==> q in g.slabs && g.slabs[q] == h.slabs[q])
    && (forall q :: q in g.slabs && q != p ==> q in h.slabs)
    && (forall d :: d in h.caches && d != c ==> g.caches[d] == h.caches[d])
    && (p in g.slabs ==> g.slabs[p].cache == c)
    && (p in h.slabs ==> h.slabs[p].cache == c)
  }

  ghost predicate Rest(root: Root, g: Heap, after: map<nat, Place>, c: nat, p: nat)
    requires root.Ok()
  {
    && (forall q :: q in g.slabs && q != p ==> SlabOk(root, g, after, q))
    && (forall d :: d in g.caches && d != c ==> CachePartialOk(root, g, d))
    && ObjectsOk(root, g, after) && TargetsOk(g)
  }

  lemma JoinBooks(root: Root, g: Heap, after: map<nat, Place>, c: nat, p: nat)
    requires root.Ok() && Rest(root, g, after, c, p) && c in g.caches && CachePartialOk(root, g, c)
    requires p in g.slabs ==> SlabOk(root, g, after, p)
    ensures Books(root, g, after)
  {
    hide SlabOk, CachePartialOk, ObjectsOk, TargetsOk;
  }

  /** An object stays, goes to the client, or goes home; its slab stays and its tag does not change. */
  ghost predicate MayMove(root: Root, h: Heap, g: Heap, o: nat, was: Place, at: Place) {
    && root.HeadOf(o) in g.slabs && Owner(g, o / PAGE) == Owner(h, o / PAGE)
    && (at == was || at.Client? || at == OnSlab(root.HeadOf(o)))
  }

  /** What one slab of cache c does leaves all other slabs and partial lists in order. */
  lemma OthersKeep(root: Root, h: Heap, g: Heap, place: map<nat, Place>, after: map<nat, Place>, c: nat, p: nat)
    requires Inv(root, h, place) && OnlySlab(h, g, c, p)
    requires forall q :: q in h.slabs && q != p ==> Owner(g, q) == Owner(h, q)
    requires forall q, i: nat :: q in h.slabs && q != p && i < root.PerSlab() ==> root.ObjectAt(q, i) in after
    requires forall o :: o in after && o in place ==> MayMove(root, h, g, o, place[o], after[o])
    requires forall o :: o in after && o !in place ==> ObjectOk(root, g, o, after[o])
    ensures Rest(root, g, after, c, p)
  {
    hide Placed, IsObject, NoDup, SlabOk, CachePartialOk, Aligned, ObjectOk, MayMove;
    assert root.Ok() && TargetsOk(g);
    forall q | q in g.slabs && q != p ensures SlabOk(root, g, after, q) {
      assert SlabOk(root, h, place, q);
      OtherSlab(root, h, g, place, after, c, p, q);
    }
    forall d | d in g.caches && d != c ensures CachePartialOk(root, g, d) {
      assert CachePartialOk(root, h, d);
      OtherPartial(root, h, g, c, p, d);
    }
    forall x | x in after ensures ObjectOk(root, g, x, after[x]) {
      if x in place {
        assert ObjectOk(root, h, x, place[x]);
        OtherObject(root, h, g, c, p, x, place[x], after[x]);
      }
    }
  }

  lemma OtherSlab(root: Root, h: Heap, g: Heap, place: map<nat, Place>, after: map<nat, Place>, c: nat, p: nat, q: nat)
    requires root.Ok() && OnlySlab(h, g, c, p) && q in h.slabs && q != p && SlabOk(root, h, place, q)
    requires Owner(g, q) == Owner(h, q) && forall i: nat :: i < root.PerSlab() ==> root.ObjectAt(q, i) in after
    ensures q in g.slabs && SlabOk(root, g, after, q)
  {
  }

  lemma OtherPartial(root: Root, h: Heap, g: Heap, c: nat, p: nat, d: nat)
    requires root.Ok() && OnlySlab(h, g, c, p) && d in h.caches && d != c && CachePartialOk(root, h, d)
    ensures CachePartialOk(root, g, d)
  {
  }

  lemma OtherObject(root: Root, h: Heap, g: Heap, c: nat, p: nat, x: nat, was: Place, at: Place)
    requires root.Ok() && OnlySlab(h, g, c, p) && ObjectOk(root, h, x, was) && MayMove(root, h, g, x, was, at)
    ensures ObjectOk(root, g, x, at)
  {
    hide IsObject;
  }

  /** The objects of every slab are known to `place`. */
  lemma ObjectsKnown(root: Root, h: Heap, place: map<nat, Place>)
    requires Inv(root, h, place)
    ensures forall o :: o in place ==> root.HeadOf(o) in h.slabs
    ensures forall q, i: nat :: q in h.slabs && i < root.PerSlab() ==>
              root.ObjectAt(q, i) in place && root.HeadOf(root.ObjectAt(q, i)) == q
  {
    hide Placed;
    forall o | o in place ensures root.HeadOf(o) in h.slabs { assert ObjectOk(root, h, o, place[o]); }
    forall q, i: nat | q in h.slabs && i < root.PerSlab()
      ensures root.ObjectAt(q, i) in place && root.HeadOf(root.ObjectAt(q, i)) == q
    {
      assert SlabOk(root, h, place, q);
      ObjectFrame(root, q, i);
    }
  }

  lemma SameTag(h: Heap, g: Heap, f: nat)
    requires g.owner == h.owner
    ensures Owner(g, f) == Owner(h, f)
  {
  }

  lemma SameTags(root: Root, h: Heap, g: Heap, x: nat, was: Place, at: Place)
    requires g.owner == h.owner && g.slabs.Keys == h.slabs.Keys && root.HeadOf(x) in h.slabs
    requires at == was || at.Client? || at == OnSlab(root.HeadOf(x))
    ensures MayMove(root, h, g, x, was, at)
  {
  }

  /** The same when no slab comes or goes, no tag changes, and one object moves to the client or home. */
  lemma MoveRest(root: Root, h: Heap, g: Heap, place: map<nat, Place>, o: nat, at: Place, c: nat, p: nat)
    requires Inv(root, h, place) && OnlySlab(h, g, c, p) && g.owner == h.owner && g.slabs.Keys == h.slabs.Keys
    requires o in place && (at.Client? || at == OnSlab(root.HeadOf(o)))
    ensures Rest(root, g, place[o := at], c, p)
  {
    hide *;
    var after := place[o := at];
    InvParts(root, h, place, 0);
    ObjectsKnown(root, h, place);
    assert after.Keys == place.Keys;
    forall x | x in after && x in place ensures MayMove(root, h, g, x, place[x], after[x]) {
      if x != o { assert after[x] == place[x]; }
      SameTags(root, h, g, x, place[x], after[x]);
    }
    forall q | q in h.slabs && q != p ensures Owner(g, q) == Owner(h, q) { SameTag(h, g, q); }
    OthersKeep(root, h, g, place, after, c, p);
  }

  // ---- an object leaves its slab's list ----

  function TakeFrom(root: Root, h: Heap, c: nat, p: nat): Heap
    requires root.size > 0 && c in h.caches && h.caches[c].partial != [] && h.caches[c].partial[0] == p
    requires p in h.slabs && h.slabs[p].free != []
  {
    var slab := h.slabs[p];
    var cache := h.caches[c];
    h.(caches := h.caches[c := if slab.used + 1 == root.PerSlab()
                               then cache.(partial := cache.partial[1..]) else cache],
       slabs := h.slabs[p := slab.(used := slab.used + 1, free := slab.free[1..])])
  }

  lemma TailHas(l: seq<nat>)
    requires NoDup(l) && l != []
    ensures NoDup(l[1..]) && forall y :: y in l[1..] <==> y in l && y != l[0]
  {
    var rest := l[1..];
    forall i, j | 0 <= i < j < |rest| ensures rest[i] != rest[j] { assert l[i + 1] != l[j + 1]; }
    assert forall y :: y in l <==> y == l[0] || y in rest;
    assert forall i :: 0 <= i < |rest| ==> rest[i] == l[i + 1] && l[i + 1] != l[0];
  }

  lemma FrontOfPartial(root: Root, h: Heap, place: map<nat, Place>, c: nat)
    requires Inv(root, h, place) && c in h.caches && h.caches[c].partial != []
    ensures var p := h.caches[c].partial[0];
            && p in h.slabs && h.slabs[p].cache == c && h.slabs[p].used < root.PerSlab() && h.slabs[p].free != []
  {
    assert h.caches[c].partial[0] in h.caches[c].partial;
  }

  lemma TakeFromShape(root: Root, h: Heap, c: nat, p: nat)
    requires root.size > 0 && c in h.caches && h.caches[c].partial != [] && h.caches[c].partial[0] == p
    requires p in h.slabs && h.slabs[p].cache == c && h.slabs[p].free != []
    ensures var g := TakeFrom(root, h, c, p);
            OnlySlab(h, g, c, p) && g.owner == h.owner && g.slabs.Keys == h.slabs.Keys
  {
  }

  lemma TakeFromRest(root: Root, h: Heap, place: map<nat, Place>, c: nat, p: nat)
    requires Inv(root, h, place) && c in h.caches && h.caches[c].partial != [] && h.caches[c].partial[0] == p
    requires p in h.slabs && h.slabs[p].cache == c && h.slabs[p].free != []
    requires h.slabs[p].free[0] in place
    ensures Rest(root, TakeFrom(root, h, c, p), place[h.slabs[p].free[0] := Client], c, p)
  {
    assert root.Ok();
    TakeFromShape(root, h, c, p);
    hide *;
    MoveRest(root, h, TakeFrom(root, h, c, p), place, h.slabs[p].free[0], Client, c, p);
  }

  lemma PartialParts(root: Root, h: Heap, place: map<nat, Place>, c: nat)
    requires Inv(root, h, place) && c in h.caches
    ensures root.Ok() && CachePartialOk(root, h, c)
  {
  }

  lemma TakeFromBooks(root: Root, h: Heap, place: map<nat, Place>, c: nat, p: nat)
    requires Inv(root, h, place) && c in h.caches && h.caches[c].partial != [] && h.caches[c].partial[0] == p
    requires p in h.slabs && h.slabs[p].cache == c && h.slabs[p].free != []
    requires h.slabs[p].free[0] in place
    ensures Books(root, TakeFrom(root, h, c, p), place[h.slabs[p].free[0] := Client])
  {
    hide Placed, IsObject, Inv, Rest, Books;
    SlabParts(root, h, place, p);
    PartialParts(root, h, place, c);
    var g := TakeFrom(root, h, c, p);
    var after := place[h.slabs[p].free[0] := Client];
    TakeFromRest(root, h, place, c, p);
    assert SlabOk(root, g, after, p);
    assert CachePartialOk(root, g, c) by { TailHas(h.caches[c].partial); }
    JoinBooks(root, g, after, c, p);
  }

  lemma TakeFromKeeps(root: Root, h: Heap, place: map<nat, Place>, c: nat)
    requires Inv(root, h, place) && c in h.caches && h.caches[c].partial != []
    ensures var p := h.caches[c].partial[0];
            && p in h.slabs && h.slabs[p].free != []
            && var o := h.slabs[p].free[0];
            && o in place && place[o] == OnSlab(p)
            && Inv(root, TakeFrom(root, h, c, p), place[o := Client])
  {
    FrontOfPartial(root, h, place, c);
    var p := h.caches[c].partial[0];
    var o := h.slabs[p].free[0];
    var g := TakeFrom(root, h, c, p);
    InvParts(root, h, place, o);
    hide Inv, Placed, Books, OneMoves;
    TakeMoves(root, h, c, p);
    OneMoved(h, g, place, o, OnSlab(p), Client);
    TakeFromBooks(root, h, place, c, p);
    JoinInv(root, g, place[o := Client]);
  }

  lemma TakeMoves(root: Root, h: Heap, c: nat, p: nat)
    requires root.size > 0 && c in h.caches && h.caches[c].partial != [] && h.caches[c].partial[0] == p
    requires p in h.slabs && h.slabs[p].free != []
    ensures OneMoves(h, TakeFrom(root, h, c, p), h.slabs[p].free[0], OnSlab(p), Client)
  {
    assert h.slabs[p].free == [h.slabs[p].free[0]] + h.slabs[p].free[1..];
  }

  lemma JoinInv(root: Root, h: Heap, place: map<nat, Place>)
    requires root.Ok() && Placed(h, place) && Books(root, h, place)
    ensures Inv(root, h, place)
  {
  }

  // ---- an object goes back to its slab's list ----

  /** The object is on the list again; the slab is not yet looked at for return. */
  function Relist(root: Root, h: Heap, c: nat, p: nat, o: nat): Heap
    requires root.size > 0 && c in h.caches && p in h.slabs && h.slabs[p].used > 0
  {
    var slab := h.slabs[p].(free := [o] + h.slabs[p].free, used := h.slabs[p].used - 1);
    var cache := h.caches[c];
    h.(caches := h.caches[c := if slab.used + 1 == root.PerSlab()
                               then cache.(partial := [p] + cache.partial) else cache],
       slabs := h.slabs[p := slab])
  }

  /** A slab leaves: its record is destroyed and its block goes to the page allocator. */
  function DropSlab(h: Heap, c: nat, p: nat): Heap
    requires c in h.caches
  {
    h.(caches := h.caches[c := h.caches[c].(partial := Without(h.caches[c].partial, p))], slabs := h.slabs - {p})
  }

  lemma RelistShape(root: Root, h: Heap, c: nat, p: nat, o: nat)
    requires root.size > 0 && c in h.caches && p in h.slabs && h.slabs[p].cache == c && h.slabs[p].used > 0
    ensures var g := Relist(root, h, c, p, o);
            OnlySlab(h, g, c, p) && g.owner == h.owner && g.slabs.Keys == h.slabs.Keys
  {
  }

  lemma RelistRest(root: Root, h: Heap, place: map<nat, Place>, c: nat, p: nat, o: nat)
    requires Inv(root, h, place) && c in h.caches && p in h.slabs && h.slabs[p].cache == c && h.slabs[p].used > 0
    requires o in place && root.HeadOf(o) == p
    ensures Rest(root, Relist(root, h, c, p, o), place[o := OnSlab(p)], c, p)
  {
    assert root.Ok();
    RelistShape(root, h, c, p, o);
    hide *;
    MoveRest(root, h, Relist(root, h, c, p, o), place, o, OnSlab(p), c, p);
  }

  lemma RelistBooks(root: Root, h: Heap, place: map<nat, Place>, c: nat, p: nat, o: nat)
    requires Inv(root, h, place) && c in h.caches && p in h.slabs && h.slabs[p].cache == c && h.slabs[p].used > 0
    requires o in place && root.HeadOf(o) == p
    ensures Books(root, Relist(root, h, c, p, o), place[o := OnSlab(p)])
  {
    hide Placed, IsObject;
    var g := Relist(root, h, c, p, o);
    var after := place[o := OnSlab(p)];
    RelistRest(root, h, place, c, p, o);
    assert SlabOk(root, h, place, p) && CachePartialOk(root, h, c) && root.Ok();
    RelistedSlab(root, h, place, c, p, o);
    RelistedPartial(root, h, c, p, o);
    RelistShape(root, h, c, p, o);
    assert c in g.caches;
    hide *;
    JoinBooks(root, g, after, c, p);
  }

  lemma RelistedSlab(root: Root, h: Heap, place: map<nat, Place>, c: nat, p: nat, o: nat)
    requires root.Ok() && c in h.caches && p in h.slabs && h.slabs[p].used > 0 && SlabOk(root, h, place, p)
    ensures p in Relist(root, h, c, p, o).slabs && SlabOk(root, Relist(root, h, c, p, o), place[o := OnSlab(p)], p)
  {
    hide IsObject, Aligned;
  }

  lemma RelistedPartial(root: Root, h: Heap, c: nat, p: nat, o: nat)
    requires root.Ok() && c in h.caches && p in h.slabs && h.slabs[p].cache == c && h.slabs[p].used > 0
    requires h.slabs[p].used <= root.PerSlab() && CachePartialOk(root, h, c)
    ensures c in Relist(root, h, c, p, o).caches && CachePartialOk(root, Relist(root, h, c, p, o), c)
  {
    if h.slabs[p].used == root.PerSlab() { NoDupCons(p, h.caches[c].partial); }
  }

  lemma RelistKeeps(root: Root, h: Heap, place: map<nat, Place>, c: nat, p: nat, o: nat)
    requires Inv(root, h, place) && c in h.caches && p in h.slabs && h.slabs[p].cache == c && h.slabs[p].used > 0
    requires o in place && place[o] == Client && root.HeadOf(o) == p
    ensures Inv(root, Relist(root, h, c, p, o), place[o := OnSlab(p)])
  {
    InvParts(root, h, place, o);
    var g := Relist(root, h, c, p, o);
    assert root.size > 0;
    RelistMoves(root, h, c, p, o);
    hide *;
    OneMoved(h, g, place, o, Client, OnSlab(p));
    RelistBooks(root, h, place, c, p, o);
    JoinInv(root, g, place[o := OnSlab(p)]);
  }

  lemma RelistMoves(root: Root, h: Heap, c: nat, p: nat, o: nat)
    requires root.size > 0 && c in h.caches && p in h.slabs && h.slabs[p].used > 0
    ensures OneMoves(h, Relist(root, h, c, p, o), o, Client, OnSlab(p))
  {
  }

  function Dropped(root: Root, place: map<nat, Place>, p: nat): map<nat, Place> {
    map o | o in place && root.HeadOf(o) != p :: place[o]
  }

  lemma DropPlaced(root: Root, h: Heap, place: map<nat, Place>, c: nat, p: nat)
    requires Inv(root, h, place) && c in h.caches && p in h.slabs
    requires forall o :: o in place && root.HeadOf(o) == p ==> place[o] == OnSlab(p)
    ensures Placed(DropSlab(h, c, p), Dropped(root, place, p))
  {
    hide IsObject;
    var g, after := DropSlab(h, c, p), Dropped(root, place, p);
    forall at: Place | at != Client ensures Holds(ListAt(g, at), after, at) {
      assert Holds(ListAt(h, at), place, at);
      if at == OnSlab(p) {
        forall o | o in after ensures after[o] != at { assert ObjectOk(root, h, o, place[o]); }
      } else {
        assert ListAt(g, at) == ListAt(h, at);
      }
    }
  }

  lemma DropRest(root: Root, h: Heap, place: map<nat, Place>, c: nat, p: nat)
    requires Inv(root, h, place) && c in h.caches && p in h.slabs && h.slabs[p].cache == c
    ensures Rest(root, DropSlab(h, c, p), Dropped(root, place, p), c, p)
  {
    var g, after := DropSlab(h, c, p), Dropped(root, place, p);
    ObjectsKnown(root, h, place);
    assert root.Ok();
    DropShape(root, h, place, c, p);
    hide *;
    forall x | x in after && x in place ensures MayMove(root, h, g, x, place[x], after[x]) {
      StaysPut(root, h, g, x, place[x]);
    }
    forall q | q in h.slabs && q != p ensures Owner(g, q) == Owner(h, q) { SameTag(h, g, q); }
    OthersKeep(root, h, g, place, after, c, p);
  }

  lemma DropShape(root: Root, h: Heap, place: map<nat, Place>, c: nat, p: nat)
    requires c in h.caches && p in h.slabs && h.slabs[p].cache == c
    ensures var g := DropSlab(h, c, p);
            OnlySlab(h, g, c, p) && g.owner == h.owner && g.slabs.Keys == h.slabs.Keys - {p}
    ensures forall o :: o in Dropped(root, place, p) <==> o in place && root.HeadOf(o) != p
    ensures forall o :: o in Dropped(root, place, p) ==> Dropped(root, place, p)[o] == place[o]
  {
  }

  lemma StaysPut(root: Root, h: Heap, g: Heap, x: nat, at: Place)
    requires g.owner == h.owner && root.HeadOf(x) in g.slabs
    ensures MayMove(root, h, g, x, at, at)
  {
  }

  lemma DropBooks(root: Root, h: Heap, place: map<nat, Place>, c: nat, p: nat)
    requires Inv(root, h, place) && c in h.caches && p in h.slabs && h.slabs[p].cache == c
    ensures Books(root, DropSlab(h, c, p), Dropped(root, place, p))
  {
    hide Placed, IsObject;
    var g, after := DropSlab(h, c, p), Dropped(root, place, p);
    DropRest(root, h, place, c, p);
    assert CachePartialOk(root, h, c);
    hide Inv, Rest, Books;
    assert CachePartialOk(root, g, c) by { WithoutHas(h.caches[c].partial, p); }
    JoinBooks(root, g, after, c, p);
  }

  /** A slab whose objects are all on its own list can leave; its objects are then nowhere. */
  lemma DropKeeps(root: Root, h: Heap, place: map<nat, Place>, c: nat, p: nat)
    requires Inv(root, h, place) && c in h.caches && p in h.slabs && h.slabs[p].cache == c && h.slabs[p].used == 0
    ensures Inv(root, DropSlab(h, c, p), Dropped(root, place, p))
    ensures forall o :: o in place && root.HeadOf(o) == p ==> place[o] == OnSlab(p)
  {
    FullListHoldsAll(root, h, place, p);
    DropPlaced(root, h, place, c, p);
    DropBooks(root, h, place, c, p);
    assert root.Ok();
    hide Inv, Placed, Books;
    JoinInv(root, DropSlab(h, c, p), Dropped(root, place, p));
  }

  /** An object in hand means its slab has a used object. */
  lemma HandMeansUsed(root: Root, h: Heap, place: map<nat, Place>, o: nat)
    requires Inv(root, h, place) && o in place && !place[o].OnSlab?
    ensures root.HeadOf(o) in h.slabs && h.slabs[root.HeadOf(o)].used > 0
  {
    assert ObjectOk(root, h, o, place[o]);
    FullListHoldsAll(root, h, place, root.HeadOf(o));
  }

  /** Where things are after an object has gone back to slab p. */
  function Returned(root: Root, h: Heap, place: map<nat, Place>, p: nat, o: nat): map<nat, Place>
    requires p in h.slabs
  {
    if h.slabs[p].used == 1 then Dropped(root, place[o := OnSlab(p)], p) else place[o := OnSlab(p)]
  }

  lemma {:induction false} WithoutPrepended(l: seq<nat>, p: nat)
    requires p !in l
    ensures Without([p] + l, p) == l && Without(l, p) == l
  {
    assert ([p] + l)[1..] == l;
    if l != [] { WithoutPrepended(l[1..], p); }
  }

  /** Returning an object is putting it on the list and, if that was the last one, dropping the slab. */
  lemma ReturnIsRelistThenDrop(root: Root, h: Heap, place: map<nat, Place>, c: nat, p: nat, o: nat)
    requires Inv(root, h, place) && c in h.caches && p in h.slabs && h.slabs[p].cache == c && h.slabs[p].used > 0
    ensures ReturnObject(root, h, c, p, o)
         == if h.slabs[p].used == 1 then DropSlab(Relist(root, h, c, p, o), c, p) else Relist(root, h, c, p, o)
  {
    hide Inv;
    NotPartialWhenFull(root, h, place, c, p);
    if h.slabs[p].used == 1 { LastObjectDrops(root, h, c, p, o); }
  }

  lemma NotPartialWhenFull(root: Root, h: Heap, place: map<nat, Place>, c: nat, p: nat)
    requires Inv(root, h, place) && c in h.caches && p in h.slabs && h.slabs[p].cache == c && h.slabs[p].used > 0
    ensures root.Ok() && (root.PerSlab() == 1 && h.slabs[p].used == 1 ==> p !in h.caches[c].partial)
  {
  }

  lemma LastObjectDrops(root: Root, h: Heap, c: nat, p: nat, o: nat)
    requires root.size > 0 && c in h.caches && p in h.slabs && h.slabs[p].used == 1 && root.PerSlab() > 0
    requires root.PerSlab() == 1 ==> p !in h.caches[c].partial
    ensures ReturnObject(root, h, c, p, o) == DropSlab(Relist(root, h, c, p, o), c, p)
  {
    hide Without;
    var g := Relist(root, h, c, p, o);
    assert g.slabs - {p} == h.slabs - {p};
    if root.PerSlab() == 1 { WithoutPrepended(h.caches[c].partial, p); }
    assert DropSlab(g, c, p).caches == ReturnObject(root, h, c, p, o).caches;
  }

  lemma ReturnKeeps(root: Root, h: Heap, place: map<nat, Place>, c: nat, p: nat, o: nat)
    requires Inv(root, h, place) && c in h.caches && p in h.slabs && h.slabs[p].cache == c && h.slabs[p].used > 0
    requires o in place && place[o] == Client && root.HeadOf(o) == p
    ensures Inv(root, ReturnObject(root, h, c, p, o), Returned(root, h, place, p, o))
  {
    ReturnIsRelistThenDrop(root, h, place, c, p, o);
    hide Inv, ReturnObject;
    RelistKeeps(root, h, place, c, p, o);
    if h.slabs[p].used == 1 {
      DropKeeps(root, Relist(root, h, c, p, o), place[o := OnSlab(p)], c, p);
    }
  }

  // ---- a new slab ----

  lemma {:induction false} TagOwnerHas(root: Root, owner: map<nat, nat>, p: nat, n: nat, c: nat)
    requires root.Ok() && Aligned(p, root.order) && n <= root.PerSlab()
    ensures var t := TagOwner(root, owner, p, n, c);
            && (forall i: nat :: i < n ==> root.ObjectAt(p, i) / PAGE in t && t[root.ObjectAt(p, i) / PAGE] == c)
            && (forall f: nat :: AlignDown(f, root.order) != p ==> (f in t <==> f in owner) && (f in owner ==> t[f] == owner[f]))
  {
    if n > 0 {
      TagOwnerHas(root, owner, p, n - 1, c);
      ObjectFrame(root, p, n - 1);
    }
  }

  ghost function NewObjects(root: Root, p: nat): map<nat, Place>
    requires root.Ok()
  {
    map o | o in Carve(root, p, root.PerSlab()) :: OnSlab(p)
  }

  lemma NewObjectsAreNew(root: Root, h: Heap, place: map<nat, Place>, p: nat)
    requires Inv(root, h, place) && Aligned(p, root.order) && p !in h.slabs
    ensures forall o :: o in NewObjects(root, p) ==> o !in place && IsObject(root, p, o) && root.HeadOf(o) == p
    ensures forall i: nat :: i < root.PerSlab() ==> root.ObjectAt(p, i) in NewObjects(root, p)
    ensures NoDup(Carve(root, p, root.PerSlab())) && |Carve(root, p, root.PerSlab())| == root.PerSlab()
  {
    CarveHas(root, p, root.PerSlab());
    ObjectsKnown(root, h, place);
    forall o | o in NewObjects(root, p) ensures o !in place && IsObject(root, p, o) && root.HeadOf(o) == p {
      var i: nat :| i < root.PerSlab() && o == root.ObjectAt(p, i);
      ObjectFrame(root, p, i);
    }
  }

  lemma AddSlabPlaced(root: Root, h: Heap, place: map<nat, Place>, c: nat, p: nat)
    requires Inv(root, h, place) && c in h.caches && Aligned(p, root.order) && p !in h.slabs
    ensures Placed(AddSlab(root, h, c, p), place + NewObjects(root, p))
  {
    hide Inv, Carve, AddSlab, NewObjects, IsObject, ListAt;
    InvParts(root, h, place, 0);
    NewObjectsAreNew(root, h, place, p);
    NewObjectsPlace(root, p);
    NewList(root, p);
    AddSlabLists(root, h, c, p);
    var g, after := AddSlab(root, h, c, p), place + NewObjects(root, p);
    forall at: Place | at != Client ensures Holds(ListAt(g, at), after, at) {
      assert Holds(ListAt(h, at), place, at);
    }
  }

  lemma NewList(root: Root, p: nat)
    requires root.Ok()
    ensures forall o :: o in Carve(root, p, root.PerSlab()) <==> o in NewObjects(root, p)
  {
    hide Carve;
  }

  lemma AddSlabLists(root: Root, h: Heap, c: nat, p: nat)
    requires root.Ok() && c in h.caches && p !in h.slabs
    ensures var g := AddSlab(root, h, c, p);
            && ListAt(h, OnSlab(p)) == [] && ListAt(g, OnSlab(p)) == Carve(root, p, root.PerSlab())
            && forall at: Place :: at != OnSlab(p) ==> ListAt(g, at) == ListAt(h, at)
  {
    hide Carve, TagOwner;
  }

  lemma AddSlabTags(root: Root, h: Heap, place: map<nat, Place>, c: nat, p: nat)
    requires Inv(root, h, place) && c in h.caches && Aligned(p, root.order) && p !in h.slabs
    ensures var g := AddSlab(root, h, c, p);
            && Owner(g, p) == Some(c)
            && (forall q :: q in h.slabs ==> Owner(g, q) == Owner(h, q))
            && (forall o :: o in place ==> Owner(g, o / PAGE) == Owner(h, o / PAGE))
            && (forall o :: o in NewObjects(root, p) ==> Owner(g, o / PAGE) == Some(c))
  {
    hide Inv, SlabOk, Carve, TagOwner, AlignDown, IsObject;
    InvParts(root, h, place, 0);
    TagOwnerHas(root, h.owner, p, root.PerSlab(), c);
    CarveHas(root, p, root.PerSlab());
    assert root.ObjectAt(p, 0) / PAGE == p;
    forall q | q in h.slabs ensures AlignDown(q, root.order) != p { SlabApart(root, h, place, p, q); }
    forall o | o in place ensures AlignDown(o / PAGE, root.order) != p { ObjectApart(root, h, place, p, o); }
  }

  lemma SlabApart(root: Root, h: Heap, place: map<nat, Place>, p: nat, q: nat)
    requires Inv(root, h, place) && p !in h.slabs && q in h.slabs
    ensures AlignDown(q, root.order) != p
  {
    hide Inv, AlignDown;
    SlabParts(root, h, place, q);
    AlignDownRecovers(q, 0, root.order);
  }

  lemma ObjectApart(root: Root, h: Heap, place: map<nat, Place>, p: nat, o: nat)
    requires Inv(root, h, place) && p !in h.slabs && o in place
    ensures AlignDown(o / PAGE, root.order) != p
  {
    hide Inv, AlignDown, IsObject;
    InvParts(root, h, place, o);
  }

  lemma AddSlabShape(root: Root, h: Heap, c: nat, p: nat)
    requires root.Ok() && c in h.caches && p !in h.slabs
    ensures var g := AddSlab(root, h, c, p);
            OnlySlab(h, g, c, p) && g.slabs.Keys == h.slabs.Keys + {p} && g.slabs[p].cache == c
  {
  }

  /** The objects of a new slab are where they may be, and none of them was known. */
  lemma NewObjectsOk(root: Root, h: Heap, place: map<nat, Place>, c: nat, p: nat)
    requires Inv(root, h, place) && c in h.caches && Aligned(p, root.order) && p !in h.slabs
    ensures var g, after := AddSlab(root, h, c, p), place + NewObjects(root, p);
            && (forall o :: o in place ==> o in after && after[o] == place[o])
            && (forall o :: o in after && o !in place ==> ObjectOk(root, g, o, after[o]))
  {
    NewObjectsAreNew(root, h, place, p);
    AddSlabTags(root, h, place, c, p);
    AddSlabShape(root, h, c, p);
    NewObjectsPlace(root, p);
    hide Inv, AddSlab, NewObjects, IsObject, OnlySlab;
  }

  lemma NewObjectsPlace(root: Root, p: nat)
    requires root.Ok()
    ensures forall o :: o in NewObjects(root, p) ==> NewObjects(root, p)[o] == OnSlab(p)
  {
  }

  lemma AddSlabRest(root: Root, h: Heap, place: map<nat, Place>, c: nat, p: nat)
    requires Inv(root, h, place) && c in h.caches && Aligned(p, root.order) && p !in h.slabs
    ensures Rest(root, AddSlab(root, h, c, p), place + NewObjects(root, p), c, p)
  {
    var g, after := AddSlab(root, h, c, p), place + NewObjects(root, p);
    assert root.Ok();
    AddSlabShape(root, h, c, p);
    AddSlabTags(root, h, place, c, p);
    NewObjectsOk(root, h, place, c, p);
    ObjectsKnown(root, h, place);
    hide *;
    OthersKeep(root, h, g, place, after, c, p);
  }

  lemma AddSlabBooks(root: Root, h: Heap, place: map<nat, Place>, c: nat, p: nat)
    requires Inv(root, h, place) && c in h.caches && Aligned(p, root.order) && p !in h.slabs
    ensures Books(root, AddSlab(root, h, c, p), place + NewObjects(root, p))
  {
    NewObjectsAreNew(root, h, place, p);
    AddSlabTags(root, h, place, c, p);
    hide Carve, IsObject, TagOwner, NewObjects, Placed;
    var g, after := AddSlab(root, h, c, p), place + NewObjects(root, p);
    AddSlabRest(root, h, place, c, p);
    assert CachePartialOk(root, h, c);
    hide Inv, Rest, Books;
    assert CachePartialOk(root, g, c) by { NoDupCons(p, h.caches[c].partial); }
    assert SlabOk(root, g, after, p);
    JoinBooks(root, g, after, c, p);
  }

  lemma AddSlabKeeps(root: Root, h: Heap, place: map<nat, Place>, c: nat, p: nat)
    requires Inv(root, h, place) && c in h.caches && Aligned(p, root.order) && p !in h.slabs
    ensures Inv(root, AddSlab(root, h, c, p), place + NewObjects(root, p))
  {
    AddSlabPlaced(root, h, place, c, p);
    AddSlabBooks(root, h, place, c, p);
    assert root.Ok();
    hide Inv, Placed, Books, AddSlab;
    JoinInv(root, AddSlab(root, h, c, p), place + NewObjects(root, p));
  }
}
