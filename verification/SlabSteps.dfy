/** Each elementary step of the slab allocator moves objects from one place to another and keeps the
    invariant. An object an operation has in hand counts as being with a client. */
module SlabSteps {
  import opened Bits
  import opened Sequences
  import opened Wrappers
  import opened SlabModel
  import opened SlabInvariant

  // ---- the lists after a move ----

  /** The front object of `from` (or a client's object) goes to the front of `to` (or to a client). */
  ghost predicate OneMoves(h: Heap, g: Heap, o: nat, from: Place, to: Place) {
    && from != to
    && (from != Client ==> ListAt(h, from) == [o] + ListAt(g, from))
    && (to != Client ==> ListAt(g, to) == [o] + ListAt(h, to))
    && forall at: Place :: at != from && at != to ==> ListAt(g, at) == ListAt(h, at)
  }

  lemma HoldsCons(l: seq<nat>, place: map<nat, Place>, at: Place, o: nat)
    requires Holds(l, place, at) && o in place && place[o] != at
    ensures Holds([o] + l, place[o := at], at)
  {
    NoDupCons(o, l);
  }

  lemma HoldsTail(l: seq<nat>, place: map<nat, Place>, at: Place, o: nat, to: Place)
    requires Holds([o] + l, place, at) && to != at
    ensures o in place && place[o] == at && Holds(l, place[o := to], at)
  {
    var r := [o] + l;
    assert r[0] == o;
    assert forall i :: 0 <= i < |l| ==> l[i] == r[i + 1];
    assert forall x :: x in r <==> x == o || x in l;
  }

  lemma OneMoved(h: Heap, g: Heap, place: map<nat, Place>, o: nat, from: Place, to: Place)
    requires Placed(h, place) && OneMoves(h, g, o, from, to)
    requires from == Client ==> o in place && place[o] == Client
    ensures o in place && place[o] == from && Placed(g, place[o := to])
  {
    if from != Client {
      assert Holds(ListAt(h, from), place, from);
      HoldsTail(ListAt(g, from), place, from, o, to);
    }
    if to != Client {
      assert Holds(ListAt(h, to), place, to);
      HoldsCons(ListAt(h, to), place, to, o);
    }
    forall at: Place | at != Client ensures Holds(ListAt(g, at), place[o := to], at) {
      if at != from && at != to {
        assert Holds(ListAt(h, at), place, at);
      }
    }
  }

  /** Everything at `from` goes to `to`. */
  function Relocate(place: map<nat, Place>, from: Place, to: Place): map<nat, Place> {
    map o | o in place :: if place[o] == from then to else place[o]
  }

  lemma NoDupAppend(a: seq<nat>, b: seq<nat>)
    requires NoDup(a) && NoDup(b) && forall x :: x in a ==> x !in b
    ensures NoDup(a + b)
  {
    var r := a + b;
    forall i, j | 0 <= i < j < |r| ensures r[i] != r[j] {
      if i < |a| <= j {
        assert a[i] in a && b[j - |a|] in b;
      } else if |a| <= i {
        assert b[i - |a|] != b[j - |a|];
      }
    }
  }

  lemma AllMoved(h: Heap, g: Heap, place: map<nat, Place>, from: Place, to: Place)
    requires Placed(h, place) && from != to && from != Client && to != Client
    requires ListAt(g, from) == []
    requires NoDup(ListAt(g, to)) && forall o :: o in ListAt(g, to) <==> o in ListAt(h, from) || o in ListAt(h, to)
    requires forall at: Place :: at != from && at != to ==> ListAt(g, at) == ListAt(h, at)
    ensures Placed(g, Relocate(place, from, to))
  {
    assert Holds(ListAt(h, from), place, from) && Holds(ListAt(h, to), place, to);
    forall at: Place | at != Client ensures Holds(ListAt(g, at), Relocate(place, from, to), at) {
      if at != from && at != to {
        assert Holds(ListAt(h, at), place, at);
      }
    }
  }

  // ---- what does not change ----

  /** The slabs, tags, partial lists and targets are the same. */
  ghost predicate SameFrame(h: Heap, g: Heap) {
    && g.slabs == h.slabs && g.owner == h.owner
    && g.caches.Keys == h.caches.Keys && g.cpus.Keys == h.cpus.Keys
    && (forall c :: c in h.caches ==> g.caches[c].partial == h.caches[c].partial)
    && (forall k :: k in h.cpus ==> g.cpus[k].target == h.cpus[k].target)
  }

  lemma FrameKeeps(root: Root, h: Heap, g: Heap, place: map<nat, Place>, after: map<nat, Place>)
    requires Inv(root, h, place) && SameFrame(h, g) && Placed(g, after) && after.Keys == place.Keys
    requires forall o :: o in place ==> after[o] == place[o] || ObjectOk(root, g, o, after[o])
    ensures Inv(root, g, after)
  {
    hide Placed, IsObject, NoDup, SlabOk, CachePartialOk, Aligned;
    forall o | o in after ensures ObjectOk(root, g, o, after[o]) {
      assert ObjectOk(root, h, o, place[o]);
    }
    forall p | p in g.slabs ensures SlabOk(root, g, after, p) {
      assert SlabOk(root, h, place, p);
      SlabFrame(root, h, g, place, after, p);
    }
    forall c | c in g.caches ensures CachePartialOk(root, g, c) {
      assert CachePartialOk(root, h, c);
      PartialFrame(root, h, g, c);
    }
  }

  lemma SlabFrame(root: Root, h: Heap, g: Heap, place: map<nat, Place>, after: map<nat, Place>, p: nat)
    requires root.Ok() && SameFrame(h, g) && after.Keys == place.Keys && p in h.slabs && SlabOk(root, h, place, p)
    ensures SlabOk(root, g, after, p)
  {
  }

  lemma PartialFrame(root: Root, h: Heap, g: Heap, c: nat)
    requires root.Ok() && SameFrame(h, g) && c in h.caches && CachePartialOk(root, h, c)
    ensures CachePartialOk(root, g, c)
  {
  }

  lemma InvParts(root: Root, h: Heap, place: map<nat, Place>, o: nat)
    requires Inv(root, h, place)
    ensures root.Ok() && Placed(h, place)
    ensures o in place ==> ObjectOk(root, h, o, place[o])
  {
  }

  /** One object moves to a place where it may be, and nothing else changes. */
  lemma OneMoveKeeps(root: Root, h: Heap, g: Heap, place: map<nat, Place>, o: nat, from: Place, to: Place)
    requires Inv(root, h, place) && SameFrame(h, g) && OneMoves(h, g, o, from, to)
    requires from == Client ==> o in place && place[o] == Client
    requires to.Client? || to.OnCache? || (to.OnCpu? && to.k in h.cpus && h.cpus[to.k].target == Owner(h, o / PAGE))
    ensures o in place && place[o] == from
    ensures Inv(root, g, place[o := to])
  {
    hide Inv, Placed, OneMoves, ObjectOk, SameFrame;
    InvParts(root, h, place, o);
    OneMoved(h, g, place, o, from, to);
    MovedOk(root, h, g, o, from, to);
    FrameKeeps(root, h, g, place, place[o := to]);
  }

  lemma MovedOk(root: Root, h: Heap, g: Heap, o: nat, from: Place, to: Place)
    requires root.Ok() && ObjectOk(root, h, o, from) && SameFrame(h, g)
    requires to.Client? || to.OnCache? || (to.OnCpu? && to.k in h.cpus && h.cpus[to.k].target == Owner(h, o / PAGE))
    ensures ObjectOk(root, g, o, to)
  {
    hide IsObject;
  }

  lemma SlabParts(root: Root, h: Heap, place: map<nat, Place>, p: nat)
    requires Inv(root, h, place) && p in h.slabs
    ensures root.Ok() && SlabOk(root, h, place, p)
  {
  }

  // ---- the object list ----

  lemma PopObjectKeeps(root: Root, h: Heap, place: map<nat, Place>, c: nat)
    requires Inv(root, h, place) && c in h.caches && h.caches[c].objects != []
    ensures var o := h.caches[c].objects[0];
            && o in place && place[o] == OnCache(c)
            && Inv(root, PopObject(h, c), place[o := Client])
  {
    hide Inv;
    var o := h.caches[c].objects[0];
    var g := PopObject(h, c);
    assert h.caches[c].objects == [o] + g.caches[c].objects;
    assert OneMoves(h, g, o, OnCache(c), Client);
    OneMoveKeeps(root, h, g, place, o, OnCache(c), Client);
  }

  function PushObject(h: Heap, c: nat, o: nat): Heap
    requires c in h.caches
  {
    h.(caches := h.caches[c := h.caches[c].(objects := [o] + h.caches[c].objects)])
  }

  lemma PushObjectKeeps(root: Root, h: Heap, place: map<nat, Place>, c: nat, o: nat)
    requires Inv(root, h, place) && c in h.caches && o in place && place[o] == Client
    ensures Inv(root, PushObject(h, c, o), place[o := OnCache(c)])
  {
    hide Inv;
    var g := PushObject(h, c, o);
    assert OneMoves(h, g, o, Client, OnCache(c));
    OneMoveKeeps(root, h, g, place, o, Client, OnCache(c));
  }

  // ---- the remote lists ----

  lemma SpliceHas(list: seq<nat>, more: seq<nat>)
    requires NoDup(list) && NoDup(more) && forall x :: x in list ==> x !in more
    ensures NoDup(SpliceAfterFirst(list, more))
    ensures forall x :: x in SpliceAfterFirst(list, more) <==> x in list || x in more
    ensures |SpliceAfterFirst(list, more)| == |list| + |more|
  {
    if list != [] {
      var first, rest := [list[0]], list[1..];
      assert list == first + rest;
      NoDupAppend(more, rest);
      NoDupAppend(first, more + rest);
      assert SpliceAfterFirst(list, more) == first + (more + rest);
    }
  }

  /** Where a CPU's remote list goes when it is flushed. */
  function Flushed(h: Heap, place: map<nat, Place>, k: nat): map<nat, Place>
    requires k in h.cpus
  {
    if h.cpus[k].target.None? then place else Relocate(place, OnCpu(k), Incoming(h.cpus[k].target.value))
  }

  lemma FlushRemoteKeeps(root: Root, h: Heap, place: map<nat, Place>, k: nat)
    requires Inv(root, h, place) && k in h.cpus
    ensures Inv(root, FlushRemoteList(root, h, k), Flushed(h, place, k))
    ensures FlushRemoteList(root, h, k).cpus[k].remote == []
    ensures SameFrame(h, FlushRemoteList(root, h, k))
  {
    hide Inv, Placed, FlushRemoteList, SameFrame, ObjectOk, Relocate;
    if h.cpus[k].target.Some? {
      var g := FlushRemoteList(root, h, k);
      InvParts(root, h, place, 0);
      TargetExists(root, h, place, k);
      FlushMoves(root, h, place, k);
      FlushFrame(root, h, k);
      FlushedOk(root, h, g, place, k);
      RelocateKeys(place, OnCpu(k), Incoming(h.cpus[k].target.value));
      FrameKeeps(root, h, g, place, Flushed(h, place, k));
    } else {
      NoTarget(root, h, k);
      EmptyWithoutTarget(root, h, place, k);
    }
  }

  lemma TargetExists(root: Root, h: Heap, place: map<nat, Place>, k: nat)
    requires Inv(root, h, place) && k in h.cpus && h.cpus[k].target.Some?
    ensures h.cpus[k].target.value in h.caches
  {
  }

  lemma RelocateKeys(place: map<nat, Place>, from: Place, to: Place)
    ensures Relocate(place, from, to).Keys == place.Keys
  {
  }

  lemma NoTarget(root: Root, h: Heap, k: nat)
    requires k in h.cpus && h.cpus[k].target.None?
    ensures FlushRemoteList(root, h, k) == h && SameFrame(h, h)
  {
  }

  lemma FlushMoves(root: Root, h: Heap, place: map<nat, Place>, k: nat)
    requires Placed(h, place) && k in h.cpus && h.cpus[k].target.Some? && h.cpus[k].target.value in h.caches
    ensures Placed(FlushRemoteList(root, h, k), Flushed(h, place, k))
  {
    var t := h.cpus[k].target.value;
    assert Holds(ListAt(h, OnCpu(k)), place, OnCpu(k));
    assert Holds(ListAt(h, Incoming(t)), place, Incoming(t));
    SpliceHas(h.caches[t].incoming, h.cpus[k].remote);
    AllMoved(h, FlushRemoteList(root, h, k), place, OnCpu(k), Incoming(t));
  }

  lemma FlushFrame(root: Root, h: Heap, k: nat)
    requires k in h.cpus && h.cpus[k].target.Some? && h.cpus[k].target.value in h.caches
    ensures SameFrame(h, FlushRemoteList(root, h, k)) && FlushRemoteList(root, h, k).cpus[k].remote == []
  {
  }

  lemma EmptyWithoutTarget(root: Root, h: Heap, place: map<nat, Place>, k: nat)
    requires Inv(root, h, place) && k in h.cpus && h.cpus[k].target.None?
    ensures h.cpus[k].remote == []
  {
    assert Holds(ListAt(h, OnCpu(k)), place, OnCpu(k));
    assert forall o :: o in place ==> ObjectOk(root, h, o, place[o]);
    assert forall o :: o in place ==> place[o] != OnCpu(k);
    hide *;
    if h.cpus[k].remote != [] { HeadIn(h.cpus[k].remote); }
  }

  lemma HeadIn(l: seq<nat>)
    requires l != []
    ensures l[0] in l
  {
  }

  lemma FlushedOk(root: Root, h: Heap, g: Heap, place: map<nat, Place>, k: nat)
    requires Inv(root, h, place) && k in h.cpus && h.cpus[k].target.Some? && SameFrame(h, g)
    ensures var after := Flushed(h, place, k);
            forall o :: o in place ==> after[o] == place[o] || ObjectOk(root, g, o, after[o])
  {
    var after := Flushed(h, place, k);
    forall o | o in place ensures after[o] == place[o] || ObjectOk(root, g, o, after[o]) {
      assert ObjectOk(root, h, o, place[o]);
    }
  }

  lemma RetargetKeeps(root: Root, h: Heap, place: map<nat, Place>, k: nat, t: nat)
    requires Inv(root, h, place) && k in h.cpus && t in h.caches
    ensures var g := Retarget(root, h, k, Some(t));
            && g.slabs == h.slabs && g.owner == h.owner && g.cpus.Keys == h.cpus.Keys && g.caches.Keys == h.caches.Keys
            && g.cpus[k].target == Some(t)
            && Inv(root, g, if h.cpus[k].target == Some(t) then place else Flushed(h, place, k))
  {
    if h.cpus[k].target != Some(t) {
      FlushRemoteKeeps(root, h, place, k);
      TargetKeeps(root, FlushRemoteList(root, h, k), Flushed(h, place, k), k, t);
    }
  }

  lemma TargetKeeps(root: Root, h: Heap, place: map<nat, Place>, k: nat, t: nat)
    requires Inv(root, h, place) && k in h.cpus && h.cpus[k].remote == [] && t in h.caches
    ensures Inv(root, h.(cpus := h.cpus[k := h.cpus[k].(target := Some(t))]), place)
  {
    var g := h.(cpus := h.cpus[k := h.cpus[k].(target := Some(t))]);
    assert Holds(ListAt(h, OnCpu(k)), place, OnCpu(k));
    forall at: Place | at != Client ensures Holds(ListAt(g, at), place, at) {
      assert Holds(ListAt(h, at), place, at);
      assert ListAt(g, at) == ListAt(h, at);
    }
    forall o | o in place ensures ObjectOk(root, g, o, place[o]) {
      assert ObjectOk(root, h, o, place[o]);
    }
  }

  lemma PushRemoteKeeps(root: Root, h: Heap, place: map<nat, Place>, k: nat, o: nat)
    requires Inv(root, h, place) && k in h.cpus && o in place && place[o] == Client
    requires h.cpus[k].target == Owner(h, o / PAGE)
    ensures Inv(root, PushRemote(h, k, o), place[o := OnCpu(k)])
  {
    hide Inv;
    var g := PushRemote(h, k, o);
    assert OneMoves(h, g, o, Client, OnCpu(k));
    OneMoveKeeps(root, h, g, place, o, Client, OnCpu(k));
  }

  // ---- claiming ----

  lemma ClaimKeeps(root: Root, h: Heap, place: map<nat, Place>, c: nat, clear: bool)
    requires Inv(root, h, place) && c in h.caches
    ensures Inv(root, Claim(h, c, clear), Relocate(place, Incoming(c), OnCache(c)))
  {
    var g := Claim(h, c, clear);
    var after := Relocate(place, Incoming(c), OnCache(c));
    assert root.Ok() && Placed(h, place);
    ClaimMoves(h, place, c, clear);
    ClaimFrame(h, c, clear);
    ClaimedOk(root, h, g, place, c);
    hide *;
    RelocateKeys(place, Incoming(c), OnCache(c));
    FrameKeeps(root, h, g, place, after);
  }

  lemma ClaimFrame(h: Heap, c: nat, clear: bool)
    requires c in h.caches
    ensures SameFrame(h, Claim(h, c, clear))
  {
  }

  lemma ClaimMoves(h: Heap, place: map<nat, Place>, c: nat, clear: bool)
    requires Placed(h, place) && c in h.caches
    ensures Placed(Claim(h, c, clear), Relocate(place, Incoming(c), OnCache(c)))
  {
    assert Holds(ListAt(h, OnCache(c)), place, OnCache(c));
    assert Holds(ListAt(h, Incoming(c)), place, Incoming(c));
    NoDupAppend(h.caches[c].objects, h.caches[c].incoming);
    AllMoved(h, Claim(h, c, clear), place, Incoming(c), OnCache(c));
  }

  lemma ClaimedOk(root: Root, h: Heap, g: Heap, place: map<nat, Place>, c: nat)
    requires Inv(root, h, place) && SameFrame(h, g)
    ensures var after := Relocate(place, Incoming(c), OnCache(c));
            forall o :: o in place ==> o in after && (after[o] == place[o] || ObjectOk(root, g, o, after[o]))
  {
    hide Placed, IsObject;
    var after := Relocate(place, Incoming(c), OnCache(c));
    forall o | o in place ensures after[o] == place[o] || ObjectOk(root, g, o, after[o]) {
      assert ObjectOk(root, h, o, place[o]);
    }
  }
}
