/** The alignment and power-of-two helpers of the memory utilities library and of the DMA allocator,
    on 64-bit words. */
module Alignment {
  import opened MachineWords

  const DMA_MIN_ALLOC_SIZE: nat := 64
  const DMA_MAX_ALLOC_SIZE: nat := 32 * 1024 * 1024

  /** memory_utils_align_up: (addr + align - 1) & ~(align - 1) in 64-bit arithmetic. */
  function AlignUp(addr: Word, align: Word): nat {
    var a := if align == 0 then 1 else align;
    And((addr + a - 1) % WORD, Complement(a - 1))
  }

  /** memory_utils_align_down: addr & ~(align - 1). */
  function AlignDown(addr: Word, align: Word): nat {
    var a := if align == 0 then 1 else align;
    And(addr, Complement(a - 1))
  }

  predicate IsAligned(addr: nat, align: nat) {
    align == 0 || And(addr, align - 1) == 0
  }

  predicate IsPowerOfTwo(n: nat) {
    n != 0 && And(n, n - 1) == 0
  }

  /** The bit test recognises exactly the powers of two. */
  lemma IsPowerOfTwoCorrect(n: nat)
    ensures IsPowerOfTwo(n) <==> IsPow2(n)
  {
    if n > 0 {
      PowerOfTwoIdiom(n);
    } else {
      forall k: nat ensures n != Pow2(k) {}
    }
  }

  /** Whatever the alignment, a power of two or not, rounding up moves the address forward by less than
      the alignment, as long as the addition does not leave the word. */
  lemma AlignUpBounds(addr: Word, align: Word)
    requires 0 < align && addr + align - 1 < WORD
    ensures addr <= AlignUp(addr, align) <= addr + align - 1
    ensures AlignUp(addr, align) == addr + align - 1 - And(addr + align - 1, align - 1)
  {
    DivModUnique(addr + align - 1, WORD, 0, addr + align - 1);
    WordComplement(addr + align - 1, align - 1);
  }

  /** For a power of two the bit mask is arithmetic rounding. */
  lemma AlignUpValue(addr: Word, align: Word)
    requires IsPow2(align) && addr + align - 1 < WORD
    ensures AlignUp(addr, align) == addr + align - 1 - (addr + align - 1) % align
  {
    var k: nat :| align == Pow2(k);
    AlignUpBounds(addr, align);
    AndLowMask(addr + align - 1, k);
  }

  /** What is left without the remainder lies less than the divisor below. */
  lemma AboveFloor(x: nat, m: nat, r: int)
    requires m > 0 && r == x - x % m
    ensures x - m < r <= x
  {}

  /** The multiple that is left when x loses its remainder is the greatest one at or below x. */
  lemma FloorIsGreatest(x: nat, m: nat)
    requires m > 0
    ensures (x - x % m) % m == 0 && x - m < x - x % m <= x
    ensures forall n: nat :: x - m < n && n % m == 0 ==> x - x % m <= n
  {
    FloorIsMultiple(x, m);
    var r := x - x % m;
    AboveFloor(x, m, r);
    forall n: nat | x - m < n && n % m == 0 ensures r <= n {
      if n < r { MultiplesApart(n, r, m); }
    }
  }

  /** It is the least multiple of the alignment at or above the address. */
  lemma AlignUpIsLeastMultiple(addr: Word, align: Word)
    requires IsPow2(align) && addr + align - 1 < WORD
    ensures AlignUp(addr, align) % align == 0
    ensures addr <= AlignUp(addr, align) < addr + align
    ensures forall m: nat :: addr <= m && m % align == 0 ==> AlignUp(addr, align) <= m
  {
    AlignUpValue(addr, align);
    FloorIsGreatest(addr + align - 1, align);
  }

  /** Dropping the remainder leaves a multiple. */
  lemma FloorIsMultiple(x: nat, m: nat)
    requires m > 0
    ensures (x - x % m) % m == 0
  {
    assert x - x % m == x / m * m;
    DivModUnique(x / m * m, m, x / m, 0);
  }

  /** Distinct multiples of m are at least m apart. */
  lemma MultiplesApart(a: nat, b: nat, m: nat)
    requires m > 0 && a % m == 0 && b % m == 0 && a < b
    ensures a + m <= b
  {
    ProductsApart(a / m, b / m, m);
  }

  lemma ProductsApart(p: int, q: int, m: int)
    requires m > 0 && p * m < q * m
    ensures p * m + m <= q * m
  {
    var d := q - p;
    assert d * m == q * m - p * m;
    assert d >= 1;
    assert (d - 1) * m >= 0;
    assert d * m == (d - 1) * m + m;
  }

  /** Rounding up is idempotent and monotone. */
  lemma AlignUpIdempotentMonotone(a: Word, b: Word, align: Word)
    requires IsPow2(align) && a <= b && b + align - 1 < WORD
    ensures AlignUp(a, align) < WORD
    ensures AlignUp(AlignUp(a, align), align) == AlignUp(a, align)
    ensures AlignUp(a, align) <= AlignUp(b, align)
  {
    AlignUpIsLeastMultiple(a, align);
    AlignUpIsLeastMultiple(b, align);
    var r := AlignUp(a, align);
    WordIsMultiple(align);
    MultiplesApart(r, WORD, align);
    AlignUpIsLeastMultiple(r, align);
  }

  lemma WordIsMultiple(align: Word)
    requires IsPow2(align)
    ensures WORD % align == 0
  {
    var k: nat :| align == Pow2(k);
    var w := WordWidth();
    if k > w { Pow2Monotone(w, k); }
    Pow2Adds(w - k, k);
    DivModUnique(WORD, align, Pow2(w - k), 0);
  }

  /** The exact condition on the alignment: rounding up lands on a multiple of `align` for every
      address if and only if `align` is a power of two. Address 1 exposes every other alignment. */
  lemma AlignUpMultipleExactly(align: Word)
    requires 0 < align
    ensures (forall addr: Word :: addr + align - 1 < WORD ==> AlignUp(addr, align) % align == 0)
            <==> IsPow2(align)
  {
    if IsPow2(align) {
      forall addr: Word | addr + align - 1 < WORD
        ensures AlignUp(addr, align) % align == 0
      {
        AlignUpIsLeastMultiple(addr, align);
      }
    } else {
      PowerOfTwoIdiom(align);
      AlignUpBounds(1, align);
      var r := AlignUp(1, align);
      assert r == align - And(align, align - 1);
      assert 0 < r < align;
      DivModUnique(r, align, 0, r);
    }
  }

  lemma AlignDownValue(addr: Word, align: Word)
    requires 0 < align
    ensures AlignDown(addr, align) == addr - And(addr, align - 1)
  {
    WordComplement(addr, align - 1);
  }

  /** align_down is the greatest multiple at or below addr, and is_aligned decides divisibility. */
  lemma AlignDownIsGreatestMultiple(addr: Word, align: Word)
    requires IsPow2(align)
    ensures AlignDown(addr, align) % align == 0 && AlignDown(addr, align) <= addr
    ensures forall m: nat :: m <= addr && m % align == 0 ==> m <= AlignDown(addr, align)
    ensures IsAligned(addr, align) <==> addr % align == 0
  {
    var k: nat :| align == Pow2(k);
    AlignDownValue(addr, align);
    AndLowMask(addr, k);
    FloorIsMultiple(addr, align);
    forall m: nat | m <= addr && m % align == 0
      ensures m <= AlignDown(addr, align)
    {
      if AlignDown(addr, align) < m { MultiplesApart(AlignDown(addr, align), m, align); }
    }
  }

  /** An alignment of 0 is taken for one byte: every address is aligned and stays where it is. */
  lemma ZeroAlignsNothing(addr: Word)
    ensures AlignUp(addr, 0) == addr == AlignDown(addr, 0) && IsAligned(addr, 0)
  {
    WordComplement(addr, 0);
    DivModUnique(addr, WORD, 0, addr);
  }

  // ---- Rounding sizes up to a power of two ----------------------------------------------------

  /** The least power of two at or above n. */
  function LeastPow2From(n: nat, k: nat): (p: nat)
    requires k > 0 ==> Pow2(k - 1) < n
    ensures n <= p && IsPow2(p)
    ensures forall j: nat :: n <= Pow2(j) ==> p <= Pow2(j)
    decreases n - Pow2(k)
  {
    if n <= Pow2(k) then
      assert forall j: nat :: n <= Pow2(j) ==> Pow2(k) <= Pow2(j) by {
        forall j: nat | n <= Pow2(j) ensures Pow2(k) <= Pow2(j) {
          if j < k {
            if j < k - 1 { Pow2Monotone(j, k - 1); }
          } else if j > k {
            Pow2Monotone(k, j);
          }
        }
      }
      Pow2(k)
    else LeastPow2From(n, k + 1)
  }

  function LeastPow2(n: nat): (p: nat)
    ensures n <= p && IsPow2(p)
    ensures forall j: nat :: n <= Pow2(j) ==> p <= Pow2(j)
  {
    LeastPow2From(n, 0)
  }

  /** A left shift by one, which drops the top bit. */
  function Doubled(p: Word): Word {
    p * 2 % WORD
  }

  lemma DoubledValue(p: Word)
    ensures Doubled(p) == if 2 * p < WORD then 2 * p else 2 * p - WORD
  {}

  /** memory_utils_next_power_of_two. The 64-bit shift drops the top bit, so the loop ends only for
      n <= 2^63; see NextPowerOfTwoEnds for the other inputs. */
  method NextPowerOfTwo(n: Word) returns (power: Word)
    requires n <= WORD / 2
    ensures n <= power && IsPow2(power)
    ensures forall j: nat :: n <= Pow2(j) ==> power <= Pow2(j)
  {
    power := 1;
    ghost var k := 0;
    while power < n
      invariant k < 64 && power == Pow2(k)
      invariant k > 0 ==> Pow2(k - 1) < n
      decreases n - power
    {
      PowersInWord(k);
      PowersInWord(k + 1);
      DoubledValue(power);
      power := Doubled(power);
      k := k + 1;
    }
    forall j: nat | n <= Pow2(j) ensures power <= Pow2(j) {
      if j < k {
        if j < k - 1 { Pow2Monotone(j, k - 1); }
      } else if j > k {
        Pow2Monotone(k, j);
      }
    }
  }

  /** The loop variable after k shifts: zero once the single bit has left the word. */
  function ShiftedOne(k: nat): Word {
    if k == 0 then 1 else Doubled(ShiftedOne(k - 1))
  }

  /** The loop of next_power_of_two reaches its exit for n if and only if n <= 2^63. */
  lemma NextPowerOfTwoEnds(n: nat)
    ensures (exists k: nat :: ShiftedOne(k) >= n) <==> n <= WORD / 2
  {
    var last := 63;
    ShiftedOneValue(last);
    PowersInWord(last);
    forall k: nat ensures ShiftedOne(k) <= WORD / 2 {
      ShiftedOneValue(k);
      if k < 64 { PowersInWord(k); }
    }
    assert ShiftedOne(last) == WORD / 2;
  }

  lemma PowersInWord(k: nat)
    requires k < 64
    ensures 2 * Pow2(k) <= WORD
    ensures k == 63 ==> 2 * Pow2(k) == WORD
  {
    var w := WordWidth();
    Pow2Monotone(k, w);
  }

  lemma {:induction false} ShiftedOneValue(k: nat)
    ensures ShiftedOne(k) == if k < 64 then Pow2(k) else 0
  {
    if k > 0 {
      ShiftedOneValue(k - 1);
      DoubledValue(ShiftedOne(k - 1));
      if k <= 64 { PowersInWord(k - 1); }
      if k < 64 { PowersInWord(k); }
    }
  }

  /** dma_align_size: at least the minimum size, then up to a power of two. */
  function DmaAlignSize(size: nat): nat {
    var s := if size < DMA_MIN_ALLOC_SIZE then DMA_MIN_ALLOC_SIZE else size;
    if IsPowerOfTwo(s) then s else LeastPow2(s)
  }

  lemma DmaAlignSizeIsLeast(size: nat)
    ensures var r := DmaAlignSize(size);
            && size <= r && DMA_MIN_ALLOC_SIZE <= r && IsPow2(r)
            && forall j: nat :: size <= Pow2(j) && DMA_MIN_ALLOC_SIZE <= Pow2(j) ==> r <= Pow2(j)
  {
    IsPowerOfTwoCorrect(if size < DMA_MIN_ALLOC_SIZE then DMA_MIN_ALLOC_SIZE else size);
  }

  lemma LimitIsPow2(k: nat)
    requires k == 25
    ensures Pow2(k) == DMA_MAX_ALLOC_SIZE
  {
    assert Pow2(5) == 32;
    Pow2Adds(5, 5);
    Pow2Adds(10, 10);
    Pow2Adds(5, 20);
  }

  /** dma_align_size gives the least power of two at or above max(size, 64), is idempotent, and never
      lifts an accepted size over the allocation limit of 32 MB. */
  lemma DmaAlignSizeCorrect(size: nat)
    ensures var r := DmaAlignSize(size);
            && size <= r && 64 <= r && IsPow2(r)
            && (forall j: nat :: size <= Pow2(j) && 64 <= Pow2(j) ==> r <= Pow2(j))
            && DmaAlignSize(r) == r
            && (size <= 32 * 1024 * 1024 ==> r <= 32 * 1024 * 1024)
  {
    DmaAlignSizeIsLeast(size);
    var k := 25;
    LimitIsPow2(k);
    IsPowerOfTwoCorrect(DmaAlignSize(size));
  }

  /** An accepted size stays accepted, and aligned, when it is aligned again. */
  lemma AcceptedSizeFits(size: nat)
    requires 0 < size <= DMA_MAX_ALLOC_SIZE
    ensures 0 < DmaAlignSize(size) <= DMA_MAX_ALLOC_SIZE
    ensures DmaAlignSize(DmaAlignSize(size)) == DmaAlignSize(size)
  {
    DmaAlignSizeCorrect(size);
  }
}
