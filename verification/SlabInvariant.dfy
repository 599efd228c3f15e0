/** Where every object is: with a client, on its slab's list, on a cache's object list, on a CPU's
    remote list, or on a cache's incoming list; and how the lists, counters and partial lists agree. */
module SlabInvariant {
  import opened Bits
  import opened Sequences
  import opened Wrappers
  import opened SlabModel

  datatype Place =
    | Client
    | OnSlab(p: nat)
    | OnCache(c: nat)
    | OnCpu(k: nat)
    | Incoming(c: nat)

  /** The list behind each place except Client. */
  function ListAt(h: Heap, at: Place): seq<nat> {
    match at
    case Client => []
    case OnSlab(p) => if p in h.slabs then h.slabs[p].free else []
    case OnCache(c) => if c in h.caches then h.caches[c].objects else []
    case OnCpu(k) => if k in h.cpus then h.cpus[k].remote else []
    case Incoming(c) => if c in h.caches then h.caches[c].incoming else []
  }

  ghost predicate Holds(l: seq<nat>, place: map<nat, Place>, at: Place) {
    && NoDup(l)
    && forall o :: o in l <==> o in place && place[o] == at
  }

  /** Every list holds each object placed there once and no other object; as `place` is a function,
      no object is in two places. */
  ghost predicate Placed(h: Heap, place: map<nat, Place>) {
    forall at: Place :: at != Client ==> Holds(ListAt(h, at), place, at)
  }

  ghost predicate IsObject(root: Root, p: nat, o: nat)
    requires root.Ok()
  {
    exists i: nat :: i < root.PerSlab() && o == root.ObjectAt(p, i)
  }

  ghost predicate SlabOk(root: Root, h: Heap, place: map<nat, Place>, p: nat)
    requires root.Ok() && p in h.slabs
  {
    && Aligned(p, root.order)
    && h.slabs[p].cache in h.caches
    && h.slabs[p].used + |h.slabs[p].free| == root.PerSlab()
    && Owner(h, p) == Some(h.slabs[p].cache)
    && (forall i: nat :: i < root.PerSlab() ==> root.ObjectAt(p, i) in place)
  }

  ghost predicate SlabsOk(root: Root, h: Heap, place: map<nat, Place>)
    requires root.Ok()
  {
    forall p :: p in h.slabs ==> SlabOk(root, h, place, p)
  }

  /** What holds of one object o at one place. */
  ghost predicate ObjectOk(root: Root, h: Heap, o: nat, at: Place)
    requires root.Ok()
  {
    var p := root.HeadOf(o);
    && p in h.slabs && IsObject(root, p, o)
    && Owner(h, o / PAGE) == Some(h.slabs[p].cache)
    && (at.OnSlab? ==> at.p == p)
    && (at.OnCpu? ==> at.k in h.cpus && h.cpus[at.k].target == Some(h.slabs[p].cache))
    && (at.Incoming? ==> at.c == h.slabs[p].cache)
  }

  ghost predicate ObjectsOk(root: Root, h: Heap, place: map<nat, Place>)
    requires root.Ok()
  {
    forall o :: o in place ==> ObjectOk(root, h, o, place[o])
  }

  /** A cache's partial list is exactly its slabs with an object to give. */
  ghost predicate CachePartialOk(root: Root, h: Heap, c: nat)
    requires root.Ok() && c in h.caches
  {
    && NoDup(h.caches[c].partial)
    && forall p :: p in h.caches[c].partial
                   <==> p in h.slabs && h.slabs[p].cache == c && h.slabs[p].used < root.PerSlab()
  }

  ghost predicate PartialOk(root: Root, h: Heap)
    requires root.Ok()
  {
    forall c :: c in h.caches ==> CachePartialOk(root, h, c)
  }

  ghost predicate TargetsOk(h: Heap) {
    forall k :: k in h.cpus && h.cpus[k].target.Some? ==> h.cpus[k].target.value in h.caches
  }

  ghost predicate Inv(root: Root, h: Heap, place: map<nat, Place>) {
    && root.Ok()
    && Placed(h, place)
    && SlabsOk(root, h, place)
    && ObjectsOk(root, h, place)
    && PartialOk(root, h)
    && TargetsOk(h)
  }

  // ---- addresses ----

  lemma ObjectFrame(root: Root, p: nat, i: nat)
    requires root.Ok() && Aligned(p, root.order) && i < root.PerSlab()
    ensures root.HeadOf(root.ObjectAt(p, i)) == p
    ensures p <= root.ObjectAt(p, i) / PAGE < p + Pow2(root.order)
  {
    var n := root.PerSlab();
    var bytes := PAGE * Pow2(root.order);
    MulDiv(bytes, root.size);
    MulLe(i + 1, n, root.size);
    Distribute(i, -1, root.size);
    assert i * root.size < bytes;
    var frame := (i * root.size) / PAGE;
    assert (p * PAGE + i * root.size) / PAGE == p + frame;
    assert frame < Pow2(root.order);
    AlignDownRecovers(p, frame, root.order);
  }

  lemma ObjectsDiffer(root: Root, p: nat, i: nat, j: nat)
    requires root.Ok() && i != j
    ensures root.ObjectAt(p, i) != root.ObjectAt(p, j)
  {
    if i < j { MulLe(i + 1, j, root.size); Distribute(i, -1, root.size); }
    else { MulLe(j + 1, i, root.size); Distribute(j, -1, root.size); }
  }

  lemma {:induction false} CarveHas(root: Root, p: nat, n: nat)
    requires root.Ok()
    ensures |Carve(root, p, n)| == n && NoDup(Carve(root, p, n))
    ensures forall o :: o in Carve(root, p, n) <==> exists i: nat :: i < n && o == root.ObjectAt(p, i)
  {
    if n > 0 {
      var rest := Carve(root, p, n - 1);
      var first := root.ObjectAt(p, n - 1);
      CarveHas(root, p, n - 1);
      if first in rest {
        var i: nat :| i < n - 1 && first == root.ObjectAt(p, i);
        ObjectsDiffer(root, p, i, n - 1);
      }
      NoDupCons(first, rest);
      forall o ensures o in Carve(root, p, n) <==> exists i: nat :: i < n && o == root.ObjectAt(p, i) {
        if i: nat :| i < n && o == root.ObjectAt(p, i) {
          if i < n - 1 { assert o in rest; }
        }
      }
    }
  }

  // ---- counting: a slab with all objects on its own list has none anywhere else ----

  /** The slab's own list is full exactly when each of its objects is on it. */
  lemma FullListHoldsAll(root: Root, h: Heap, place: map<nat, Place>, p: nat)
    requires Inv(root, h, place) && p in h.slabs
    ensures h.slabs[p].used == 0 <==> forall o :: o in place && root.HeadOf(o) == p ==> place[o] == OnSlab(p)
  {
    var free := h.slabs[p].free;
    var all := Carve(root, p, root.PerSlab());
    CarveHas(root, p, root.PerSlab());
    NoDupCard(all);
    assert Holds(ListAt(h, OnSlab(p)), place, OnSlab(p));
    assert SlabOk(root, h, place, p);
    NoDupCard(free);
    assert SetOf(free) <= SetOf(all) by {
      forall o | o in free ensures o in all { assert ObjectOk(root, h, o, place[o]); }
    }
    if h.slabs[p].used == 0 {
      SubsetCard(SetOf(free), SetOf(all));
      forall o | o in place && root.HeadOf(o) == p ensures place[o] == OnSlab(p) {
        assert ObjectOk(root, h, o, place[o]);
        assert o in SetOf(all);
        assert o in SetOf(free);
      }
    }
    if forall o :: o in place && root.HeadOf(o) == p ==> place[o] == OnSlab(p) {
      forall o | o in SetOf(all) ensures o in SetOf(free) {
        var i: nat :| i < root.PerSlab() && o == root.ObjectAt(p, i);
        ObjectFrame(root, p, i);
        assert o in place;
      }
      SubsetCard(SetOf(all), SetOf(free));
    }
  }
}
