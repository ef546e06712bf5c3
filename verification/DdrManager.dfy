/** The allocation functions of the DDR manager library: a header in front of each payload, aligned
    placements, and the overflow check of calloc. malloc is what grants a block. */
module DdrManager {
  import opened MachineWords
  import opened Alignment
  import opened Runs
  import opened Options

  /** sizeof(struct allocation_header) and sizeof(void *) on a 64-bit target. */
  const HEADER: nat := 40
  const ADDRESS_BYTES: nat := 8
  const CACHE_LINE: nat := 64
  const MAX_ALLOC_SIZE: nat := 512 * 1024 * 1024
  const MAX_ALIGNMENT: nat := 4096

  predicate SizeAccepted(size: nat) {
    0 < size <= MAX_ALLOC_SIZE
  }

  // ---- Sizes and overflow -----------------------------------------------------------------------

  /** ddr_align_size. */
  function AlignSize(size: Word): nat {
    AlignUp(size, CACHE_LINE)
  }

  lemma CacheLineIsPow2(line: Word)
    requires line == CACHE_LINE
    ensures IsPow2(line)
  {
    var k := 6;
    assert Pow2(3) == 8;
    Pow2Adds(3, 3);
    assert line == Pow2(k);
  }

  /** Sizes up to 512 MB are accepted, and no others. The size in effect is the least multiple of 64 bytes that
      holds the payload; with its header of 40 bytes the block cannot overflow. */
  lemma AlignSizeIsLeast(size: Word)
    ensures SizeAccepted(size) <==> 0 < size <= 512 * 1024 * 1024
    ensures SizeAccepted(size) ==>
              var r := AlignSize(size);
              && size <= r < size + 64 && r % 64 == 0 && r + 40 < WORD
              && forall m: nat :: size <= m && m % 64 == 0 ==> r <= m
  {
    if SizeAccepted(size) {
      var line := CACHE_LINE;
      CacheLineIsPow2(line);
      AlignUpIsLeastMultiple(size, line);
    }
  }

  /** ddr_get_alloc_size, in 64-bit arithmetic. */
  function AllocSize(size: nat): Word {
    (size + HEADER) % WORD
  }

  /** The size ddr_calloc asks ddr_alloc for. */
  function CallocTotal(count: Word, size: Word): Option<Word> {
    var total := count * size % WORD;
    if total == 0 || count == 0 || size == 0 || total / count != size then None else Some(total)
  }

  /** The check by division lets exactly the true products through: the size is forwarded if and only if the
      product is positive and fits a word, and then it is the product. */
  lemma CallocExactly(count: Word, size: Word)
    ensures CallocTotal(count, size) == if 0 < count * size < WORD then Some(count * size) else None
  {
    var product := count * size;
    var total := product % WORD;
    if product < WORD {
      DivModUnique(product, WORD, 0, product);
      if count > 0 { DivModUnique(product, count, size, 0); }
    } else {
      WrapLoses(count, product);
      if count > 0 && total / count == size { QuotientBound(total, count, size); }
    }
  }

  /** A product that wraps loses at least a whole word, which is more than the divisor. */
  lemma WrapLoses(count: Word, product: nat)
    requires WORD <= product
    ensures product % WORD + count < product
  {
    assert product % WORD < WORD;
    assert product == product / WORD * WORD + product % WORD;
    assert product / WORD >= 1;
  }

  lemma QuotientBound(x: nat, m: nat, q: nat)
    requires m > 0 && x / m == q
    ensures m * q <= x
  {}

  // ---- Placement --------------------------------------------------------------------------------

  /** The test of the requested alignment; align - 1 wraps for 0. */
  predicate AlignAccepted(align: Word) {
    And(align, (align + WORD - 1) % WORD) == 0 && align <= MAX_ALIGNMENT
  }

  /** Besides the powers of two up to the limit, exactly 0 passes. */
  lemma AlignAcceptedExactly(align: Word)
    ensures AlignAccepted(align) <==> align == 0 || (IsPow2(align) && align <= 4096)
  {
    if align > 0 {
      DivModUnique(align + WORD - 1, WORD, 1, align - 1);
      PowerOfTwoIdiom(align);
    }
  }

  /** The alignment in effect. */
  function Effective(align: Word): Word {
    if align < ADDRESS_BYTES then ADDRESS_BYTES else align
  }

  lemma EffectiveIsPow2(align: Word)
    requires AlignAccepted(align)
    ensures IsPow2(Effective(align)) && ADDRESS_BYTES <= Effective(align) <= MAX_ALIGNMENT
  {
    AlignAcceptedExactly(align);
    if align < ADDRESS_BYTES {
      assert Pow2(3) == ADDRESS_BYTES;
    }
  }

  /** Where ddr_alloc_aligned puts the payload of the block at p. */
  function Placed(p: Word, align: Word): nat
    requires p + HEADER < WORD
  {
    AlignUp(p + HEADER, Effective(align))
  }

  /** What malloc grants: a block inside the address space, not at the null address. */
  predicate Granted(p: Word, size: nat) {
    0 < p && p + size <= WORD
  }

  /** The header and the aligned payload are disjoint and inside the block, wherever malloc puts it, and the
      payload starts at the first aligned address behind the header. */
  lemma AlignedPlacement(p: Word, size: Word, align: Word)
    requires SizeAccepted(size) && AlignAccepted(align)
    requires Granted(p, size + Effective(align) + HEADER)
    ensures var a := Effective(align);
            var addr := Placed(p, align);
            && p + HEADER <= addr && addr + size < p + size + a + HEADER
            && addr % a == 0 && forall m: nat :: p + HEADER <= m && m % a == 0 ==> addr <= m
  {
    EffectiveIsPow2(align);
    AlignUpIsLeastMultiple(p + HEADER, Effective(align));
  }

  /** The pointer stored at the payload fits the block, whatever the size, when malloc aligns to pointers;
      even a payload of one byte leaves room for it. */
  lemma StoredPointerFits(p: Word, size: Word, align: Word)
    requires SizeAccepted(size) && AlignAccepted(align)
    requires Granted(p, size + Effective(align) + HEADER) && p % ADDRESS_BYTES == 0
    ensures Placed(p, align) + ADDRESS_BYTES <= p + size + Effective(align) + HEADER
  {
    var a := Effective(align);
    AlignedPlacement(p, size, align);
    EffectiveIsPow2(align);
    SmallPowers(3);
    Pow2Divides(ADDRESS_BYTES, a);
    DivisorOfMultiple(Placed(p, align), a, ADDRESS_BYTES);
    LastSlot(p, a, Placed(p, align));
  }

  lemma SmallPowers(k: nat)
    ensures k == 3 ==> Pow2(k) == 8
    ensures k == 4 ==> Pow2(k) == 16
  {}

  /** Divisibility is transitive. */
  lemma DivisorOfMultiple(x: nat, a: nat, b: nat)
    requires a > 0 && b > 0 && x % a == 0 && a % b == 0
    ensures x % b == 0
  {
    var q, r := x / a, a / b;
    assert x == q * a && a == r * b;
    assert x == (q * r) * b by {
      assert q * (r * b) == (q * r) * b;
    }
    DivModUnique(x, b, q * r, 0);
  }

  /** Of two multiples of the pointer size, the lower one has room for a pointer below the higher one. */
  lemma LastSlot(p: nat, a: nat, addr: nat)
    requires p % 8 == 0 && a % 8 == 0 && addr % 8 == 0 && addr < p + 40 + a
    ensures addr + 8 <= p + 40 + a
  {}

  /** A power of two above 8 is a multiple of 16. */
  lemma NextPower(a: nat)
    requires IsPow2(a) && ADDRESS_BYTES < a
    ensures a % 16 == 0
  {
    var k: nat :| a == Pow2(k);
    SmallPowers(3);
    SmallPowers(4);
    if k < 3 { Pow2Monotone(k, 3); }
    if k > 4 { Pow2Monotone(4, k); }
    Pow2Divides(16, a);
  }

  /** ddr_free looks for the header just in front of the payload. After ddr_alloc_aligned it is there if and
      only if the address behind the header was aligned already. */
  lemma HeaderFoundExactly(p: Word, size: Word, align: Word)
    requires SizeAccepted(size) && AlignAccepted(align)
    requires Granted(p, size + Effective(align) + HEADER)
    ensures Placed(p, align) - HEADER == p <==> (p + HEADER) % Effective(align) == 0
  {
    AlignedPlacement(p, size, align);
  }

  lemma EightOff(p: nat)
    requires p % 16 == 0
    ensures (p + 40) % 16 == 8 && (p + 40) % 8 == 0
  {
    var q := p / 16;
    DivModUnique(p + 40, 16, q + 2, 8);
    DivModUnique(p + 40, 8, 2 * q + 5, 0);
  }

  /** With a malloc that aligns to 16 bytes, that is the case if and only if no more than pointer alignment was
      asked for: the header's 40 bytes leave the payload at 8 modulo 16. */
  lemma HeaderFoundOnlyForSmallAlignments(p: Word, size: Word, align: Word)
    requires SizeAccepted(size) && AlignAccepted(align)
    requires Granted(p, size + Effective(align) + HEADER) && p % 16 == 0
    ensures Placed(p, align) - HEADER == p <==> align <= ADDRESS_BYTES
  {
    var a := Effective(align);
    HeaderFoundExactly(p, size, align);
    EffectiveIsPow2(align);
    EightOff(p);
    if align > ADDRESS_BYTES {
      NextPower(a);
      if (p + HEADER) % a == 0 { DivisorOfMultiple(p + HEADER, a, 16); }
    }
  }

  // ---- Headers in memory ------------------------------------------------------------------------

  const HALF_WORD: nat := 0x1_0000_0000

  /** The flags are a 32-bit integer, followed by four bytes of padding that nothing writes. */
  type Flags = f: nat | f < HALF_WORD

  /** struct allocation_header: the size at offset 0, the flags at 8; the DMA handle and the two links, at 16, 24
      and 32, are written as 0. */
  datatype Header = Header(size: nat, flags: Flags)

  /** malloc's blocks by address, the headers in memory, the pointers the caller holds, and how often an address
      that is no block was handed to free. */
  datatype Heap = Heap(blocks: map<nat, nat>, headers: map<nat, Header>, held: set<nat>, strays: nat)

  /** The word at an address as the size field of a header is read there; `unknown` is what memory holds where
      no header was written. */
  function SizeSeen(headers: map<nat, Header>, at: nat, unknown: Word): nat {
    if at in headers then headers[at].size
    else if at >= 8 && at - 8 in headers then unknown / HALF_WORD * HALF_WORD + headers[at - 8].flags
    else if at >= 16 && at - 16 in headers then 0
    else if at >= 24 && at - 24 in headers then 0
    else if at >= 32 && at - 32 in headers then 0
    else unknown
  }

  /** The flag that ddr_alloc refuses. */
  predicate IsDma(flags: Flags) {
    Bit(flags, 0)
  }

  /** A request with malloc's answer; a free with what memory holds where no header was written. */
  datatype Operation =
    | Plain(size: Word, flags: Flags, grant: Option<Word>)
    | Aligned(size: Word, align: Word, flags: Flags, grant: Option<Word>)
    | Release(pointer: Word, unknown: Word)

  function Put(h: Heap, p: nat, bytes: nat, header: Header, pointer: nat): Heap {
    h.(blocks := h.blocks[p := bytes], headers := h.headers[p := header], held := h.held + {pointer})
  }

  /** ddr_alloc: the heap and the payload. */
  function Alloc(h: Heap, size: Word, flags: Flags, grant: Option<Word>): (Heap, nat) {
    if !SizeAccepted(size) || IsDma(flags) || grant.None? then (h, 0)
    else
      var pointer := (grant.value + HEADER) % WORD;
      (Put(h, grant.value, AllocSize(AlignSize(size)), Header(size, flags), pointer), pointer)
  }

  /** ddr_alloc_aligned. */
  function AllocAligned(h: Heap, size: Word, align: Word, flags: Flags, grant: Option<Word>): (Heap, nat) {
    if !SizeAccepted(size) || !AlignAccepted(align) || grant.None? then (h, 0)
    else
      var pointer := AlignUp((grant.value + HEADER) % WORD, Effective(align));
      (Put(h, grant.value, (size + Effective(align) + HEADER) % WORD, Header(size, flags), pointer), pointer)
  }

  /** ddr_free: the address handed to free, if any. */
  function Freed(h: Heap, pointer: Word, unknown: Word): Option<nat> {
    var at := (pointer + WORD - HEADER) % WORD;
    if pointer == 0 || !SizeAccepted(SizeSeen(h.headers, at, unknown)) then None else Some(at)
  }

  /** What free does with it. */
  function Returned(h: Heap, pointer: nat, at: nat): Heap {
    if at in h.blocks then h.(blocks := h.blocks - {at}, headers := h.headers - {at}, held := h.held - {pointer})
    else h.(strays := h.strays + 1)
  }

  function Free(h: Heap, pointer: Word, unknown: Word): Heap {
    match Freed(h, pointer, unknown)
    case None => h
    case Some(at) => Returned(h, pointer, at)
  }

  function Step(h: Heap, op: Operation): Heap {
    match op
    case Plain(size, flags, grant) => Alloc(h, size, flags, grant).0
    case Aligned(size, align, flags, grant) => AllocAligned(h, size, align, flags, grant).0
    case Release(pointer, unknown) => Free(h, pointer, unknown)
  }

  /** Within a granted block nothing wraps: what ddr_alloc leaves and returns. */
  lemma AllocValue(h: Heap, size: Word, flags: Flags, p: Word)
    requires SizeAccepted(size) && !IsDma(flags) && Granted(p, AlignSize(size) + HEADER)
    ensures Alloc(h, size, flags, Some(p))
            == (Put(h, p, AlignSize(size) + HEADER, Header(size, flags), p + HEADER), p + HEADER)
    ensures size <= AlignSize(size) && p + HEADER < WORD
  {
    AlignSizeIsLeast(size);
    var r := AlignSize(size);
    DivModUnique(r + HEADER, WORD, 0, r + HEADER);
    DivModUnique(p + HEADER, WORD, 0, p + HEADER);
  }

  lemma AllocAlignedValue(h: Heap, size: Word, align: Word, flags: Flags, p: Word)
    requires SizeAccepted(size) && AlignAccepted(align) && Granted(p, size + Effective(align) + HEADER)
    ensures var bytes := size + Effective(align) + HEADER;
            AllocAligned(h, size, align, flags, Some(p))
            == (Put(h, p, bytes, Header(size, flags), Placed(p, align)), Placed(p, align))
  {
    EffectiveIsPow2(align);
    var bytes := size + Effective(align) + HEADER;
    DivModUnique(bytes, WORD, 0, bytes);
    DivModUnique(p + HEADER, WORD, 0, p + HEADER);
  }

  /** A block whose address behind the header is aligned. */
  lemma AllocAlignedInPlace(h: Heap, size: Word, align: Word, flags: Flags, p: Word)
    requires SizeAccepted(size) && AlignAccepted(align) && Granted(p, size + Effective(align) + HEADER)
    requires (p + HEADER) % Effective(align) == 0
    ensures AllocAligned(h, size, align, flags, Some(p)).0
            == Put(h, p, size + Effective(align) + HEADER, Header(size, flags), p + HEADER)
  {
    AllocAlignedValue(h, size, align, flags, p);
    HeaderFoundExactly(p, size, align);
  }

  // ---- Freeing aligned allocations --------------------------------------------------------------

  /** malloc's block overlaps no other block with a header. */
  ghost predicate NewBlock(h: Heap, p: nat, bytes: nat) {
    forall q :: q in h.headers ==> q + HEADER <= p || p + bytes <= q
  }

  /** What is read d bytes behind the header of a block that overlaps no other. */
  lemma SeenBehind(h: Heap, p: nat, bytes: nat, header: Header, pointer: nat, d: nat, unknown: Word)
    requires NewBlock(h, p, bytes) && d % 8 == 0 && d < bytes
    ensures SizeSeen(Put(h, p, bytes, header, pointer).headers, p + d, unknown)
            == if d == 0 then header.size
               else if d == 8 then unknown / 0x1_0000_0000 * 0x1_0000_0000 + header.flags
               else if d < HEADER then 0 else unknown
  {}

  /** How far the payload lies behind where it would lie directly after the header. */
  function Displacement(p: Word, align: Word): int
    requires p + HEADER < WORD
  {
    Placed(p, align) - HEADER - p
  }

  /** It is what rounding the address behind the header up to the alignment adds. */
  lemma DisplacementValue(p: Word, size: Word, align: Word)
    requires SizeAccepted(size) && AlignAccepted(align)
    requires Granted(p, size + Effective(align) + HEADER) && p % ADDRESS_BYTES == 0
    ensures 0 <= Displacement(p, align) < Effective(align) && Displacement(p, align) % 8 == 0
    ensures (p + HEADER + Displacement(p, align)) % Effective(align) == 0
  {
    var a := Effective(align);
    AlignedPlacement(p, size, align);
    EffectiveIsPow2(align);
    SmallPowers(3);
    Pow2Divides(ADDRESS_BYTES, a);
    DivisorOfMultiple(Placed(p, align), a, ADDRESS_BYTES);
    DifferenceOfEights(Placed(p, align), p);
  }

  lemma DifferenceOfEights(x: nat, p: nat)
    requires x % 8 == 0 && p % 8 == 0
    ensures (x - 40 - p) % 8 == 0
  {}

  /** What ddr_free makes of a payload that is displaced by d. Without displacement the block goes back. At 8 the
      flags and the padding behind them are taken for a size, at 16 to 32 the zeros that the header ends with, which
      refuse the free, and beyond that whatever memory holds there. */
  function FreedAt(p: nat, d: nat, flags: Flags, unknown: Word): Option<nat> {
    if d == 0 then Some(p)
    else if d == 8 then (if SizeAccepted(unknown / HALF_WORD * HALF_WORD + flags) then Some(p + d) else None)
    else if d < HEADER then None
    else if SizeAccepted(unknown) then Some(p + d) else None
  }

  /** A free that looks d bytes behind the header. */
  lemma FreedBehind(h: Heap, p: nat, bytes: nat, size: nat, flags: Flags, d: nat, unknown: Word)
    requires NewBlock(h, p, bytes) && d % 8 == 0 && d < bytes && SizeAccepted(size) && p + HEADER + d < WORD
    ensures Freed(Put(h, p, bytes, Header(size, flags), p + HEADER + d), p + HEADER + d, unknown)
            == FreedAt(p, d, flags, unknown)
  {
    SeenBehind(h, p, bytes, Header(size, flags), p + HEADER + d, d, unknown);
    DivModUnique(p + HEADER + d + WORD - HEADER, WORD, 1, p + d);
  }

  /** That is exactly what happens to what ddr_alloc_aligned returned. */
  lemma AlignedFreeExactly(h: Heap, size: Word, align: Word, flags: Flags, p: Word, unknown: Word)
    requires SizeAccepted(size) && AlignAccepted(align) && p % ADDRESS_BYTES == 0
    requires Granted(p, size + Effective(align) + HEADER) && NewBlock(h, p, size + Effective(align) + HEADER)
    ensures var (g, pointer) := AllocAligned(h, size, align, flags, Some(p));
            && Displacement(p, align) >= 0 && pointer < WORD
            && Freed(g, pointer, unknown) == FreedAt(p, Displacement(p, align), flags, unknown)
  {
    AllocAlignedValue(h, size, align, flags, p);
    DisplacementValue(p, size, align);
    FreedBehind(h, p, size + Effective(align) + HEADER, size, flags, Displacement(p, align), unknown);
  }

  /** Freeing what ddr_alloc_aligned returned gives malloc its block back if and only if the address behind the
      header was aligned, on any block. */
  lemma AlignedFreeReturnsBlockExactly(h: Heap, size: Word, align: Word, flags: Flags, p: Word, unknown: Word)
    requires SizeAccepted(size) && AlignAccepted(align) && Granted(p, size + Effective(align) + HEADER)
    ensures var (g, pointer) := AllocAligned(h, size, align, flags, Some(p));
            && pointer < WORD
            && (Freed(g, pointer, unknown) == Some(p) <==> (p + HEADER) % Effective(align) == 0)
  {
    AllocAlignedValue(h, size, align, flags, p);
    AlignedPlacement(p, size, align);
    HeaderFoundExactly(p, size, align);
    FreedHeader(Put(h, p, size + Effective(align) + HEADER, Header(size, flags), Placed(p, align)),
                p, Placed(p, align), unknown);
  }

  lemma FreedHeader(g: Heap, p: nat, pointer: Word, unknown: Word)
    requires p in g.headers && SizeAccepted(g.headers[p].size) && p + HEADER <= pointer
    ensures Freed(g, pointer, unknown) == Some(p) <==> pointer - HEADER == p
  {
    DivModUnique(pointer + WORD - HEADER, WORD, 1, pointer - HEADER);
  }

  /** The displacements at which the block leaks for certain, because each free is refused. */
  lemma LeaksExactly(p: nat, d: nat, flags: Flags)
    requires d % 8 == 0
    ensures (forall unknown: Word :: FreedAt(p, d, flags, unknown).None?)
            <==> 16 <= d < HEADER || (d == 8 && !SizeAccepted(flags))
  {
    assert SizeAccepted(1) && FreedAt(p, d, flags, 1).None? ==> d != 0 && d < HEADER;
    assert FreedAt(p, d, flags, 0).None? && d == 8 ==> !SizeAccepted(flags);
    forall unknown: Word ensures d == 8 && !SizeAccepted(flags) ==> FreedAt(p, d, flags, unknown).None? {
      HighHalf(unknown);
    }
  }

  lemma HighHalf(x: Word)
    ensures var high := x / HALF_WORD * HALF_WORD; high == 0 || high >= HALF_WORD
  {}

  /** The placements of ddr_alloc_aligned that leak for certain, whatever memory holds. */
  lemma AlignedLeaksExactly(h: Heap, size: Word, align: Word, flags: Flags, p: Word)
    requires SizeAccepted(size) && AlignAccepted(align) && p % ADDRESS_BYTES == 0
    requires Granted(p, size + Effective(align) + HEADER) && NewBlock(h, p, size + Effective(align) + HEADER)
    ensures var (g, pointer) := AllocAligned(h, size, align, flags, Some(p));
            && pointer < WORD
            && ((forall unknown: Word :: Freed(g, pointer, unknown).None?)
                <==> 16 <= Displacement(p, align) < HEADER || (Displacement(p, align) == 8 && !SizeAccepted(flags)))
  {
    var (g, pointer) := AllocAligned(h, size, align, flags, Some(p));
    var d := Displacement(p, align);
    AlignedFreeExactly(h, size, align, flags, p, 0);
    DisplacementValue(p, size, align);
    forall unknown: Word ensures Freed(g, pointer, unknown) == FreedAt(p, d, flags, unknown) {
      AlignedFreeExactly(h, size, align, flags, p, unknown);
    }
    LeaksExactly(p, d, flags);
  }

  /** On a block at a multiple of 64, allocations aligned to 32 or 64 bytes always leak. */
  lemma CacheLinesLeak(p: Word, size: Word, align: Word)
    requires SizeAccepted(size) && (align == 32 || align == 64) && AlignAccepted(align)
    requires Granted(p, size + align + HEADER) && p % 64 == 0
    ensures Displacement(p, align) == 24
  {
    EightDivides(p);
    DisplacementValue(p, size, align);
    TwentyFour(p, Displacement(p, align), align);
  }

  lemma EightDivides(p: nat)
    requires p % 64 == 0
    ensures p % 8 == 0
  {
    DivisorOfMultiple(p, 64, 8);
  }

  lemma TwentyFour(p: nat, d: nat, align: nat)
    requires p % 64 == 0 && (align == 32 || align == 64) && d < align && (p + 40 + d) % align == 0
    ensures d == 24
  {
    var q := p / 64;
    DivModUnique(p + 64, align, if align == 32 then 2 * q + 2 else q + 1, 0);
    if p + 40 + d < p + 64 { MultiplesApart(p + 40 + d, p + 64, align); }
    if p + 64 < p + 40 + d { MultiplesApart(p + 64, p + 40 + d, align); }
  }

  // ---- Runs -------------------------------------------------------------------------------------

  /** Grants are new blocks of the size asked for, and only a held pointer, or null, is freed. An aligned
      request is one whose block happens to have the address behind its header aligned. */
  predicate Proper(h: Heap, op: Operation) {
    match op
    case Plain(size, _, grant) =>
      grant.Some? && SizeAccepted(size) ==> Granted(grant.value, AlignSize(size) + HEADER) && grant.value !in h.blocks
    case Aligned(size, align, _, grant) =>
      grant.Some? && SizeAccepted(size) ==>
        && Granted(grant.value, size + Effective(align) + HEADER) && grant.value !in h.blocks
        && (grant.value + HEADER) % Effective(align) == 0
    case Release(pointer, unknown) => pointer == 0 || pointer in h.held
  }

  /** The header of a block says a size that fits behind it. */
  predicate Headed(blocks: map<nat, nat>, headers: map<nat, Header>, p: nat) {
    p in blocks && p in headers && SizeAccepted(headers[p].size) && HEADER + headers[p].size <= blocks[p]
  }

  ghost predicate AllHeaded(blocks: map<nat, nat>, headers: map<nat, Header>) {
    forall p <- blocks :: Headed(blocks, headers, p)
  }

  /** The pointer for the block at p is held. */
  predicate HeldFor(held: set<nat>, p: nat) {
    p > 0 && p + HEADER in held
  }

  /** The pointer leads to a block. */
  predicate Leads(blocks: map<nat, nat>, q: nat) {
    HEADER < q < WORD && q - HEADER in blocks
  }

  ghost predicate Paired(blocks: map<nat, nat>, held: set<nat>) {
    (forall p <- blocks :: HeldFor(held, p)) && (forall q <- held :: Leads(blocks, q))
  }

  /** Each held pointer lies one header behind a block, each block has its pointer held and a fitting header, and
      no stray address was freed. */
  ghost predicate Sound(h: Heap) {
    h.strays == 0 && Paired(h.blocks, h.held) && AllHeaded(h.blocks, h.headers)
  }

  lemma PairedPut(blocks: map<nat, nat>, held: set<nat>, p: nat, bytes: nat)
    requires Paired(blocks, held) && 0 < p && p + HEADER < WORD
    ensures Paired(blocks[p := bytes], held + {p + HEADER})
  {
    var more, holding := blocks[p := bytes], held + {p + HEADER};
    forall q | q in more ensures HeldFor(holding, q) {
      if q != p { assert HeldFor(held, q); }
    }
    forall q | q in holding ensures Leads(more, q) {
      if q != p + HEADER { assert Leads(blocks, q); }
    }
  }

  lemma HeadedPut(blocks: map<nat, nat>, headers: map<nat, Header>, p: nat, bytes: nat, header: Header)
    requires AllHeaded(blocks, headers) && SizeAccepted(header.size) && HEADER + header.size <= bytes
    ensures AllHeaded(blocks[p := bytes], headers[p := header])
  {
    var more, written := blocks[p := bytes], headers[p := header];
    forall q | q in more ensures Headed(more, written, q) {
      if q != p { assert Headed(blocks, headers, q); }
    }
  }

  lemma PutSound(h: Heap, p: nat, bytes: nat, header: Header)
    requires Sound(h) && SizeAccepted(header.size) && 0 < p && p + HEADER < WORD && HEADER + header.size <= bytes
    ensures Sound(Put(h, p, bytes, header, p + HEADER))
  {
    PairedPut(h.blocks, h.held, p, bytes);
    HeadedPut(h.blocks, h.headers, p, bytes, header);
  }

  lemma PairedReturned(blocks: map<nat, nat>, held: set<nat>, p: nat)
    requires Paired(blocks, held) && p + HEADER in held
    ensures p in blocks && Paired(blocks - {p}, held - {p + HEADER})
  {
    assert Leads(blocks, p + HEADER);
    var fewer, holding := blocks - {p}, held - {p + HEADER};
    forall q | q in fewer ensures HeldFor(holding, q) { assert HeldFor(held, q); }
    forall q | q in holding ensures Leads(fewer, q) { assert Leads(blocks, q); }
  }

  lemma HeadedReturned(blocks: map<nat, nat>, headers: map<nat, Header>, p: nat)
    requires AllHeaded(blocks, headers)
    ensures AllHeaded(blocks - {p}, headers - {p})
  {
    var fewer, left := blocks - {p}, headers - {p};
    forall q | q in fewer ensures Headed(fewer, left, q) { assert Headed(blocks, headers, q); }
  }

  lemma ReturnedSound(h: Heap, pointer: nat)
    requires Sound(h) && pointer in h.held && HEADER <= pointer
    ensures Sound(Returned(h, pointer, pointer - HEADER))
  {
    var p := pointer - HEADER;
    PairedReturned(h.blocks, h.held, p);
    HeadedReturned(h.blocks, h.headers, p);
  }

  /** A held pointer leads to its block. */
  lemma FreedIs(h: Heap, pointer: Word, unknown: Word)
    requires Sound(h) && pointer in h.held
    ensures HEADER < pointer && Freed(h, pointer, unknown) == Some(pointer - HEADER)
  {
    assert Leads(h.blocks, pointer);
    DivModUnique(pointer + WORD - HEADER, WORD, 1, pointer - HEADER);
    assert Headed(h.blocks, h.headers, pointer - HEADER);
  }

  lemma FreeSound(h: Heap, pointer: Word, unknown: Word)
    requires Sound(h) && (pointer == 0 || pointer in h.held)
    ensures Sound(Free(h, pointer, unknown))
    ensures Freed(h, pointer, unknown) == if pointer == 0 then None else Some(pointer - HEADER)
    ensures pointer != 0 ==> Free(h, pointer, unknown).blocks == h.blocks - {pointer - HEADER}
  {
    if pointer != 0 {
      FreedIs(h, pointer, unknown);
      ReturnedSound(h, pointer);
    }
  }

  /** The block that either allocation puts, whatever its size comes to. */
  lemma PlainBlock(h: Heap, size: Word, flags: Flags, p: Word) returns (bytes: nat)
    requires SizeAccepted(size) && !IsDma(flags) && Granted(p, AlignSize(size) + HEADER)
    ensures HEADER + size <= bytes && p + HEADER < WORD
    ensures Alloc(h, size, flags, Some(p)).0 == Put(h, p, bytes, Header(size, flags), p + HEADER)
  {
    AllocValue(h, size, flags, p);
    bytes := AlignSize(size) + HEADER;
  }

  lemma AlignedBlock(h: Heap, size: Word, align: Word, flags: Flags, p: Word) returns (bytes: nat)
    requires SizeAccepted(size) && AlignAccepted(align) && Granted(p, size + Effective(align) + HEADER)
    requires (p + HEADER) % Effective(align) == 0
    ensures HEADER + size <= bytes && p + HEADER < WORD
    ensures AllocAligned(h, size, align, flags, Some(p)).0 == Put(h, p, bytes, Header(size, flags), p + HEADER)
  {
    AllocAlignedInPlace(h, size, align, flags, p);
    bytes := size + Effective(align) + HEADER;
  }

  lemma PlainSound(h: Heap, size: Word, flags: Flags, grant: Option<Word>)
    requires Sound(h) && Proper(h, Plain(size, flags, grant))
    ensures Sound(Alloc(h, size, flags, grant).0)
  {
    if SizeAccepted(size) && !IsDma(flags) && grant.Some? {
      var bytes := PlainBlock(h, size, flags, grant.value);
      PutSound(h, grant.value, bytes, Header(size, flags));
    }
  }

  lemma AlignedSound(h: Heap, size: Word, align: Word, flags: Flags, grant: Option<Word>)
    requires Sound(h) && Proper(h, Aligned(size, align, flags, grant))
    ensures Sound(AllocAligned(h, size, align, flags, grant).0)
  {
    if SizeAccepted(size) && AlignAccepted(align) && grant.Some? {
      var bytes := AlignedBlock(h, size, align, flags, grant.value);
      PutSound(h, grant.value, bytes, Header(size, flags));
    }
  }

  lemma StepSound(h: Heap, op: Operation)
    requires Sound(h) && Proper(h, op)
    ensures Sound(Step(h, op))
  {
    match op
    case Plain(size, flags, grant) => PlainSound(h, size, flags, grant);
    case Aligned(size, align, flags, grant) => AlignedSound(h, size, align, flags, grant);
    case Release(pointer, unknown) => FreeSound(h, pointer, unknown);
  }

  /** On every such run each block is reached from the pointer held for it, and each free returns a block. */
  lemma SoundOnEveryRun(start: Heap, ops: seq<Operation>)
    requires start == Heap(map[], map[], {}, 0) && Admitted(Step, Proper, start, ops)
    ensures Sound(Run(Step, start, ops))
  {
    forall h, op | Sound(h) && Proper(h, op) ensures Sound(Step(h, op)) { StepSound(h, op); }
    Invariant(Step, Proper, Sound, start, ops);
  }

  // ---- The library ------------------------------------------------------------------------------

  const ZERO_INIT: Flags := 0x80

  class Library {
    var initialized: bool
    var blocks: map<nat, nat>
    var headers: map<nat, Header>
    ghost var held: set<nat>
    ghost var strays: nat

    ghost function State(): Heap
      reads this
    {
      Heap(blocks, headers, held, strays)
    }

    constructor ()
      ensures !initialized && State() == Heap(map[], map[], {}, 0)
    {
      initialized, blocks, headers, held, strays := false, map[], map[], {}, 0;
    }

    /** The block that malloc granted gets its header. */
    method PutHeader(p: Word, bytes: nat, size: Word, flags: Flags, pointer: nat)
      modifies this`blocks, this`headers, this`held
      ensures State() == Put(old(State()), p, bytes, Header(size, flags), pointer)
    {
      blocks := blocks[p := bytes];
      headers := headers[p := Header(size, flags)];
      held := held + {pointer};
    }

    /** ddr_alloc. */
    method Allocate(size: Word, flags: Flags, grant: Option<Word>) returns (pointer: nat)
      modifies this
      ensures initialized == old(initialized)
      ensures (State(), pointer) == if initialized then Alloc(old(State()), size, flags, grant) else (old(State()), 0)
      ensures initialized ==> State() == Step(old(State()), Plain(size, flags, grant))
      ensures var served := initialized && 0 < size <= 512 * 1024 * 1024 && flags % 2 == 0 && grant.Some?;
              if served then
                && pointer == (grant.value + 40) % 0x1_0000_0000_0000_0000
                && blocks == old(blocks)[grant.value := (AlignSize(size) + 40) % 0x1_0000_0000_0000_0000]
                && headers == old(headers)[grant.value := Header(size, flags)]
              else pointer == 0 && State() == old(State())
    {
      if !initialized || !SizeAccepted(size) || flags % 2 == 1 || grant.None? {
        return 0;
      }
      pointer := (grant.value + HEADER) % WORD;
      PutHeader(grant.value, AllocSize(AlignSize(size)), size, flags, pointer);
    }

    /** ddr_calloc: a request for the true product of the counts, or none. */
    method Calloc(count: Word, size: Word, grant: Option<Word>) returns (pointer: nat)
      modifies this
      ensures initialized == old(initialized)
      ensures (State(), pointer) ==
              if initialized && 0 < count * size < WORD then Alloc(old(State()), count * size, ZERO_INIT, grant)
              else (old(State()), 0)
      ensures initialized && 0 < count * size <= 512 * 1024 * 1024 && grant.Some? ==>
                && pointer == (grant.value + 40) % 0x1_0000_0000_0000_0000
                && headers == old(headers)[grant.value := Header(count * size, 0x80)]
    {
      CallocExactly(count, size);
      var total := count * size % WORD;
      if total == 0 || count == 0 || size == 0 || total / count != size {
        return 0;
      }
      pointer := Allocate(total, ZERO_INIT, grant);
    }

    /** ddr_alloc_aligned. */
    method AllocateAligned(size: Word, align: Word, flags: Flags, grant: Option<Word>) returns (pointer: nat)
      modifies this
      ensures initialized == old(initialized)
      ensures (State(), pointer) ==
              if initialized then AllocAligned(old(State()), size, align, flags, grant) else (old(State()), 0)
      ensures initialized ==> State() == Step(old(State()), Aligned(size, align, flags, grant))
      ensures var served := && initialized && 0 < size <= 512 * 1024 * 1024 && grant.Some?
                            && (align == 0 || (IsPow2(align) && align <= 4096));
              if served then
                var a := if align < 8 then 8 else align;
                && pointer == AlignUp((grant.value + 40) % 0x1_0000_0000_0000_0000, a)
                && blocks == old(blocks)[grant.value := (size + a + 40) % 0x1_0000_0000_0000_0000]
                && headers == old(headers)[grant.value := Header(size, flags)]
              else pointer == 0 && State() == old(State())
    {
      AlignAcceptedExactly(align);
      if !initialized || !SizeAccepted(size) || !AlignAccepted(align) || grant.None? {
        return 0;
      }
      var a := if align < ADDRESS_BYTES then ADDRESS_BYTES else align;
      pointer := AlignUp((grant.value + HEADER) % WORD, a);
      PutHeader(grant.value, (size + a + HEADER) % WORD, size, flags, pointer);
    }

    /** ddr_free; `unknown` is what is read where no header was written. */
    method Release(pointer: Word, unknown: Word) returns (freed: Option<nat>)
      modifies this
      ensures initialized == old(initialized)
      ensures freed == if initialized then Freed(old(State()), pointer, unknown) else None
      ensures State() == if initialized then Free(old(State()), pointer, unknown) else old(State())
      ensures initialized ==> State() == Step(old(State()), Operation.Release(pointer, unknown))
      ensures var at := (pointer - 40) % 0x1_0000_0000_0000_0000;
              if initialized && pointer != 0 && 0 < SizeSeen(old(headers), at, unknown) <= 512 * 1024 * 1024 then
                && freed == Some(at)
                && blocks == old(blocks) - {at} && strays == old(strays) + (if at in old(blocks) then 0 else 1)
                && headers == (if at in old(blocks) then old(headers) - {at} else old(headers))
              else freed == None && State() == old(State())
    {
      ModAdd(pointer - HEADER, WORD, WORD);
      if pointer == 0 || !initialized {
        return None;
      }
      var at := (pointer + WORD - HEADER) % WORD;
      if !SizeAccepted(SizeSeen(headers, at, unknown)) {
        return None;
      }
      freed := Some(at);
      if at in blocks {
        blocks, headers, held := blocks - {at}, headers - {at}, held - {pointer};
      } else {
        strays := strays + 1;
      }
    }
  }
}
