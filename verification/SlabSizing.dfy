/** How large slabs and batches are (sys/slab_allocator.cpp:13-48, sys/slab_allocator.cpp:408-415). */
module SlabSizing {
  import opened Bits
  import opened SlabModel
  import opened BuddyModel

  const PAGE_SHIFT: nat := 12

  const MAX_SLAB_SIZE: nat := 0x80_0000

  function SlabBytes(order: nat): nat { PAGE * Pow2(order) }

  /** At most the given fraction of a slab of this order is wasted. */
  predicate LittleWaste(size: nat, order: nat, frac: nat)
    requires size > 0
  {
    var objects := SlabBytes(order) / size;
    (SlabBytes(order) - objects * size) * frac <= SlabBytes(order)
  }

  /** Little is wasted for fraction 4 if what is left after the last object is at most a quarter of the slab. */
  lemma QuarterWaste(size: nat, order: nat)
    requires size > 0
    ensures LittleWaste(size, order, 4) <==> SlabBytes(order) % size * 4 <= SlabBytes(order)
  {
    MulDiv(SlabBytes(order), size);
  }

  /** The order the search starts from. */
  function StartOrder(size: nat): nat
    requires size > 1
  {
    if Fls(size - 1) < PAGE_SHIFT then 0 else Fls(size - 1) - PAGE_SHIFT + 1
  }

  /** The least order from `order` on with little waste; maxOrder + 1 (or `order`) if there is none. */
  ghost predicate FirstFrom(size: nat, maxOrder: nat, frac: nat, order: nat, r: nat)
    requires size > 0
  {
    && order <= r && (order <= maxOrder ==> r <= maxOrder + 1) && (order > maxOrder ==> r == order)
    && (forall j: nat :: order <= j < r ==> !LittleWaste(size, j, frac))
    && (r <= maxOrder ==> LittleWaste(size, r, frac))
  }

  method SlabOrder(size: nat, maxOrder: nat, frac: nat) returns (order: nat)
    requires size > 1
    ensures FirstFrom(size, maxOrder, frac, StartOrder(size), order)
  {
    if Fls(size - 1) < PAGE_SHIFT {
      order := 0;
    } else {
      order := Fls(size - 1) - PAGE_SHIFT + 1;
    }
    while order <= maxOrder
      invariant StartOrder(size) <= order && (StartOrder(size) <= maxOrder ==> order <= maxOrder + 1)
      invariant StartOrder(size) > maxOrder ==> order == StartOrder(size)
      invariant forall j: nat :: StartOrder(size) <= j < order ==> !LittleWaste(size, j, frac)
      decreases maxOrder + 1 - order
    {
      var slabSize := PAGE * Pow2(order);
      var objects := slabSize / size;
      var waste := slabSize - objects * size;
      if waste * frac <= slabSize {
        break;
      }
      order := order + 1;
    }
  }

  lemma PageTimes(k: nat)
    ensures Pow2(k + PAGE_SHIFT) == PAGE * Pow2(k)
  {
    Pow2Split(PAGE_SHIFT, k + PAGE_SHIFT);
    assert Pow2(12) == 4096;
  }

  /** The search starts at the least order whose slab holds one object. */
  lemma StartOrderFits(size: nat, k: nat)
    requires size > 1
    ensures k >= StartOrder(size) <==> SlabBytes(k) >= size
  {
    var l := Fls(size - 1);
    FlsBounds(size - 1);
    PageTimes(k);
    assert Pow2(12) == 4096;
    if l < PAGE_SHIFT {
      Pow2Split(l + 1, PAGE_SHIFT);
    } else if k + PAGE_SHIFT >= l + 1 {
      Pow2Split(l + 1, k + PAGE_SHIFT);
    } else {
      Pow2Split(k + PAGE_SHIFT, l);
    }
  }

  /** What calculate_order promises: the order is allowed and its slab holds an object; it is the least
      order up to 1 that fits an object and wastes at most a quarter, or, when there is none, the least
      order that fits an object. */
  ghost predicate RightOrder(size: nat, order: nat)
    requires size > 0
  {
    && order <= MAX_ORDER && SlabBytes(order) >= size
    && if exists k: nat :: k <= 1 && Suits(size, k)
       then order <= 1 && Suits(size, order) && forall k: nat :: k < order ==> !Suits(size, k)
       else forall k: nat :: k < order ==> SlabBytes(k) < size
  }

  predicate Suits(size: nat, k: nat)
    requires size > 0
  {
    SlabBytes(k) >= size && LittleWaste(size, k, 4)
  }

  method CalculateOrder(size: nat) returns (order: nat)
    requires 8 <= size <= MAX_SLAB_SIZE
    ensures RightOrder(size, order)
  {
    order := SlabOrder(size, 1, 4);
    QuarterSearch(size, order);
    if order <= 1 {
      return;
    }
    order := SlabOrder(size, MAX_ORDER, 0);
    LargestStart(size);
    AnyFits(size, order);
    assert order == StartOrder(size);
    StartOrderFits(size, order);
    forall k: nat | k < order ensures SlabBytes(k) < size { StartOrderFits(size, k); }
  }

  lemma LargestStart(size: nat)
    requires 1 < size <= MAX_SLAB_SIZE
    ensures StartOrder(size) <= MAX_ORDER
  {
    PageTimes(MAX_ORDER);
    assert Pow2(11) == 2048;
    StartOrderFits(size, MAX_ORDER);
  }

  lemma AnyFits(size: nat, order: nat)
    requires size > 1 && StartOrder(size) <= MAX_ORDER && FirstFrom(size, MAX_ORDER, 0, StartOrder(size), order)
    ensures order == StartOrder(size)
  {
    assert LittleWaste(size, StartOrder(size), 0);
  }

  lemma QuarterSearch(size: nat, order: nat)
    requires size > 1 && FirstFrom(size, 1, 4, StartOrder(size), order)
    ensures order <= 1 ==> Suits(size, order) && forall k: nat :: k < order ==> !Suits(size, k)
    ensures order > 1 ==> forall k: nat :: k <= 1 ==> !Suits(size, k)
  {
    hide LittleWaste, SlabBytes, StartOrder;
    StartOrderFits(size, order);
    forall k: nat | k < order && k <= 1 ensures !Suits(size, k) { StartOrderFits(size, k); }
  }

  /** calculate_freebatch */
  function FreeBatch(size: nat): nat
    requires size > 0
  {
    var few, many := 4 * PAGE / size, 64 * PAGE / size;
    var capped := if many < 256 then many else 256;
    if few > capped then few else capped
  }

  lemma FitsIsQuotient(n: nat, size: nat, bytes: nat)
    requires size > 0
    ensures n * size <= bytes <==> n <= bytes / size
  {
    MulDiv(bytes, size);
    var q := bytes / size;
    if n <= q { MulLe(n, q, size); } else { MulLe(q + 1, n, size); Distribute(q + 1, q, size); }
  }

  /** The batch is the greatest number of objects that fit four pages, or that are at most 256 and fit 64 pages. */
  lemma FreeBatchExact(size: nat, n: nat)
    requires size > 0
    ensures n <= FreeBatch(size) <==> n * size <= 4 * PAGE || (n <= 256 && n * size <= 64 * PAGE)
  {
    FitsIsQuotient(n, size, 4 * PAGE);
    FitsIsQuotient(n, size, 64 * PAGE);
  }

  /** The batch is empty exactly for objects larger than 64 pages. */
  lemma FreeBatchPositive(size: nat)
    requires size > 0
    ensures FreeBatch(size) > 0 <==> size <= 64 * PAGE
  {
    FreeBatchExact(size, 1);
    hide FreeBatch;
  }

  /** The numbers of SlabAllocatorRoot's constructor give a root the other proofs ask for. */
  lemma RootIsOk(size: nat, order: nat)
    requires 8 <= size <= MAX_SLAB_SIZE && RightOrder(size, order)
    ensures Root(size, order, FreeBatch(size), FreeBatch(size) * 4).Ok()
  {
    var root := Root(size, order, FreeBatch(size), FreeBatch(size) * 4);
    MulDiv(SlabBytes(order), size);
    var rest := SlabBytes(order) % size;
    assert root.PerSlab() == 0 ==> SlabBytes(order) == rest;
  }
}
