/** Powers of two, alignment and the exclusive-or of one bit, as the allocators use them
    (sys/align.hpp, sys/page_allocator.hpp). Frame numbers are natural numbers. */
module Bits {

  /** The ranges of the unsigned integer types, and the size of a page (sys/pfn.hpp). */
  const U16: nat := 0x1_0000
  const U32: nat := 0x1_0000_0000
  const U64: nat := 0x1_0000_0000_0000_0000
  const PAGE: nat := 0x1000

  /** pfn_up */
  function PfnUp(addr: nat): nat { (addr + PAGE - 1) / PAGE }

  function Pow2(k: nat): (r: nat)
    ensures r > 0
  {
    if k == 0 then 1 else 2 * Pow2(k - 1)
  }

  predicate Aligned(p: nat, k: nat) {
    p % Pow2(k) == 0
  }

  /** `p ^ (1 << k)`: flips bit k of p. */
  function FlipBit(p: nat, k: nat): nat {
    if (p / Pow2(k)) % 2 == 0 then p + Pow2(k)
    else (MulDiv(p, Pow2(k)); p - Pow2(k))
  }

  /** `val & ~(alignment - 1)`, for a power of two. */
  function RoundDown(val: nat, alignment: nat): nat
    requires alignment > 0
  {
    val / alignment * alignment
  }

  function AlignDown(val: nat, k: nat): nat {
    RoundDown(val, Pow2(k))
  }

  function AlignUp(val: nat, k: nat): nat {
    RoundDown(val + Pow2(k) - 1, Pow2(k))
  }

  lemma MulDiv(p: nat, d: nat)
    requires d > 0
    ensures p == (p / d) * d + p % d
    ensures p / d > 0 ==> p >= d
  {
    if p / d > 0 {
      MulLe(1, p / d, d);
    }
  }

  lemma MulLe(a: int, b: int, d: nat)
    requires a <= b
    ensures a * d <= b * d
  {
  }

  lemma Distribute(a: int, b: int, d: int)
    ensures (a - b) * d == a * d - b * d
  {
  }

  lemma ModOfMultiple(m: nat, d: nat)
    requires d > 0
    ensures (m * d) % d == 0 && (m * d) / d == m
  {
    var q, r := (m * d) / d, (m * d) % d;
    assert m * d == q * d + r;
    assert (m - q) * d == r;
    if m > q { MulLe(1, m - q, d); } else if m < q { MulLe(m - q, -1, d); }
  }

  /** A remainder is determined by any quotient that leaves less than the divisor. */
  lemma DivModUnique(p: nat, q: nat, d: nat)
    requires d > 0 && q * d <= p < (q + 1) * d
    ensures p / d == q && p % d == p - q * d
  {
    MulDiv(p, d);
    if p / d > q { MulLe(q + 1, p / d, d); } else if p / d < q { MulLe(p / d + 1, q, d); }
  }

  lemma DoubleTimes(a: nat, b: nat)
    ensures (2 * a) * b == 2 * (a * b)
  {
  }

  lemma TimesDouble(q: nat, x: nat)
    ensures q * (2 * x) == 2 * (q * x)
  {
  }

  lemma Pow2Next(k: nat)
    ensures Pow2(k + 1) == 2 * Pow2(k)
  {
  }

  lemma {:induction false} Pow2Split(i: nat, j: nat)
    requires i <= j
    ensures Pow2(j) == Pow2(j - i) * Pow2(i)
    ensures Pow2(i) <= Pow2(j)
    decreases j
  {
    if i < j {
      Pow2Split(i, j - 1);
      DoubleTimes(Pow2(j - 1 - i), Pow2(i));
    }
  }

  lemma Pow2Less(i: nat, j: nat)
    requires i < j
    ensures 2 * Pow2(i) <= Pow2(j)
  {
    Pow2Split(i + 1, j);
  }

  lemma AlignedMultiple(p: nat, k: nat) returns (m: nat)
    requires Aligned(p, k)
    ensures p == m * Pow2(k) && m == p / Pow2(k)
  {
    m := p / Pow2(k);
    MulDiv(p, Pow2(k));
  }

  lemma MultipleAligned(m: nat, k: nat)
    ensures Aligned(m * Pow2(k), k)
  {
    ModOfMultiple(m, Pow2(k));
  }

  /** A block aligned to a higher order is aligned to every lower one. */
  lemma AlignedLower(p: nat, i: nat, j: nat)
    requires i <= j && Aligned(p, j)
    ensures Aligned(p, i)
  {
    var m := AlignedMultiple(p, j);
    Pow2Split(i, j);
    assert p == (m * Pow2(j - i)) * Pow2(i);
    MultipleAligned(m * Pow2(j - i), i);
  }

  lemma AlignedAdd(p: nat, i: nat, j: nat)
    requires i <= j && Aligned(p, i)
    ensures Aligned(p + Pow2(j), i)
  {
    var m := AlignedMultiple(p, i);
    Pow2Split(i, j);
    Distribute(m + Pow2(j - i), Pow2(j - i), Pow2(i));
    assert p + Pow2(j) == (m + Pow2(j - i)) * Pow2(i);
    MultipleAligned(m + Pow2(j - i), i);
  }

  /** Two multiples of a power of two that differ are at least that power apart. */
  lemma AlignedGap(p: nat, q: nat, k: nat)
    requires Aligned(p, k) && Aligned(q, k) && p < q
    ensures p + Pow2(k) <= q
  {
    var m := AlignedMultiple(p, k);
    var n := AlignedMultiple(q, k);
    if n <= m { MulLe(n, m, Pow2(k)); }
    MulLe(m + 1, n, Pow2(k));
  }

  /** Aligned blocks are laminar: apart, or the smaller lies inside the larger. */
  lemma Laminar(p: nat, i: nat, q: nat, j: nat)
    requires i <= j && Aligned(p, i) && Aligned(q, j)
    ensures p + Pow2(i) <= q || q + Pow2(j) <= p || (q <= p && p + Pow2(i) <= q + Pow2(j))
  {
    AlignedLower(q, i, j);
    AlignedAdd(q, i, j);
    if p < q {
      AlignedGap(p, q, i);
    } else if p < q + Pow2(j) {
      AlignedGap(p, q + Pow2(j), i);
    }
  }

  lemma FlipUp(h: nat, k: nat)
    ensures var p := (2 * h) * Pow2(k);
            FlipBit(p, k) == p + Pow2(k) && Aligned(p, k + 1) && Aligned(p, k) && Aligned(p + Pow2(k), k)
  {
    hide Pow2;
    var d := Pow2(k);
    Pow2Next(k);
    ModOfMultiple(2 * h, d);
    Distribute(2 * h + 1, 1, d);
    ModOfMultiple(2 * h + 1, d);
    DoubleTimes(h, d);
    TimesDouble(h, d);
    ModOfMultiple(h, Pow2(k + 1));
  }

  lemma FlipDown(h: nat, k: nat)
    ensures var p := (2 * h + 1) * Pow2(k);
            && p == (2 * h) * Pow2(k) + Pow2(k)
            && FlipBit(p, k) == p - Pow2(k) && !Aligned(p, k + 1)
  {
    hide Pow2;
    var d := Pow2(k);
    Pow2Next(k);
    Distribute(2 * h + 1, 1, d);
    ModOfMultiple(2 * h + 1, d);
    DoubleTimes(h, d);
    TimesDouble(h, d);
    DivModUnique((2 * h + 1) * d, h, Pow2(k + 1));
  }

  /** The buddy of an aligned block: which side it lies on, and what the pair makes together. */
  lemma BuddySides(p: nat, k: nat)
    requires Aligned(p, k)
    ensures FlipBit(p, k) == if Aligned(p, k + 1) then p + Pow2(k) else p - Pow2(k)
    ensures Aligned(FlipBit(p, k), k)
    ensures FlipBit(FlipBit(p, k), k) == p
    ensures Aligned(if p < FlipBit(p, k) then p else FlipBit(p, k), k + 1)
  {
    var m := AlignedMultiple(p, k);
    var h := m / 2;
    FlipUp(h, k);
    FlipDown(h, k);
    assert m == 2 * h || m == 2 * h + 1;
  }

  /** An address inside an aligned block is aligned down to the block's head. */
  lemma AlignDownRecovers(p: nat, off: nat, k: nat)
    requires Aligned(p, k) && off < Pow2(k)
    ensures AlignDown(p + off, k) == p
  {
    var m := AlignedMultiple(p, k);
    DivModUnique(p + off, m, Pow2(k));
  }

  lemma RoundDownBounds(val: nat, d: nat)
    requires d > 0
    ensures RoundDown(val, d) % d == 0 && RoundDown(val, d) <= val < RoundDown(val, d) + d
  {
    MulDiv(val, d);
    ModOfMultiple(val / d, d);
  }

  /** Rounding down and up give the nearest multiples on each side. */
  lemma AlignBounds(val: nat, k: nat)
    ensures Aligned(AlignDown(val, k), k) && AlignDown(val, k) <= val < AlignDown(val, k) + Pow2(k)
    ensures Aligned(AlignUp(val, k), k) && val <= AlignUp(val, k) < val + Pow2(k)
  {
    RoundDownBounds(val, Pow2(k));
    RoundDownBounds(val + Pow2(k) - 1, Pow2(k));
  }

  // ---- the compiler builtins, on 32-bit operands ----

  /** The position of the highest set bit: 31 - clz. */
  function Fls(n: nat): nat
    requires n > 0
  {
    if n == 1 then 0 else 1 + Fls(n / 2)
  }

  /** The position of the lowest set bit. */
  function Ctz(n: nat): nat
    requires n > 0
  {
    if n % 2 == 1 then 0 else 1 + Ctz(n / 2)
  }

  /** `__builtin_clz` and `__builtin_ctz` take an unsigned int, so the operand is truncated; a zero
      operand is undefined. */
  function Fls32(n: nat): nat
    requires n % U32 != 0
  {
    Fls(n % U32)
  }

  function Ctz32(n: nat): nat
    requires n % U32 != 0
  {
    Ctz(n % U32)
  }

  lemma {:induction false} FlsBounds(n: nat)
    requires n > 0
    ensures Pow2(Fls(n)) <= n < Pow2(Fls(n) + 1)
  {
    if n > 1 { FlsBounds(n / 2); }
  }

  lemma FlsMonotone(m: nat, n: nat)
    requires 0 < m <= n
    ensures Fls(m) <= Fls(n)
  {
    FlsBounds(m);
    FlsBounds(n);
    if Fls(n) < Fls(m) { Pow2Split(Fls(n) + 1, Fls(m)); }
  }

  /** Exactly the orders up to the lowest set bit divide n. */
  lemma {:induction false} CtzAligned(n: nat, k: nat)
    requires n > 0
    ensures Aligned(n, k) <==> k <= Ctz(n)
  {
    if k == 0 {
    } else {
      HalveAligned(n, k);
      if n % 2 == 0 { CtzAligned(n / 2, k - 1); }
    }
  }

  lemma HalveAligned(n: nat, k: nat)
    requires k > 0
    ensures Aligned(n, k) <==> n % 2 == 0 && Aligned(n / 2, k - 1)
  {
    if Aligned(n, k) { HalveAlignedDown(n, k); }
    if n % 2 == 0 && Aligned(n / 2, k - 1) {
      var m := AlignedMultiple(n / 2, k - 1);
      assert n == m * Pow2(k);
      MultipleAligned(m, k);
    }
  }

  lemma HalveAlignedDown(n: nat, k: nat)
    requires k > 0 && Aligned(n, k)
    ensures n % 2 == 0 && Aligned(n / 2, k - 1)
  {
    var q := AlignedMultiple(n, k);
    var half := q * Pow2(k - 1);
    TimesDouble(q, Pow2(k - 1));
    MultipleAligned(q, k - 1);
    assert n == 2 * half;
    hide *;
  }
}
