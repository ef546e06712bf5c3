/** The bump allocators of the memory utilities library and the table that holds them. */
module BumpPools {
  import opened MachineWords
  import opened Alignment
  import opened MemoryUtilsCodes
  import opened Runs

  const MAX_POOLS: nat := 16
  const MEMORY_UTILS_ALIGNMENT: nat := 64

  /** struct memory_pool, without name and lock. */
  datatype Pool = Pool(start: nat, end: nat, current: nat, size: nat, used: nat, align: nat, initialized: bool)

  /** A slot as memset leaves it. */
  const EMPTY_SLOT := Pool(0, 0, 0, 0, 0, 0, false)

  function NewPool(memory: nat, size: nat, align: nat): Pool {
    Pool(memory, memory + size, memory, size, 0, if align != 0 then align else MEMORY_UTILS_ALIGNMENT, true)
  }

  /** What creating a pool on malloc'ed memory establishes. */
  predicate Valid(p: Pool) {
    && 0 < p.start <= p.current <= p.end < WORD
    && p.size == p.end - p.start && p.used == p.current - p.start
    && 0 < p.align < WORD
  }

  /** memory_utils_pool_alloc on one pool, in 64-bit pointer arithmetic; 0 is NULL. */
  function Alloc(p: Pool, size: Word): (Pool, nat)
    requires Valid(p)
  {
    AllocAt(p, AlignUp(p.current, p.align), size)
  }

  /** The same with the aligned pointer given. */
  function AllocAt(p: Pool, ptr: nat, size: Word): (Pool, nat) {
    var last := (ptr + size) % WORD;
    if last > p.end then (p, 0)
    else (p.(current := last, used := (last - p.start) % WORD), ptr)
  }

  /** memory_utils_pool_reset. */
  function Reset(p: Pool): (q: Pool)
    ensures Valid(p) ==> Valid(q)
  {
    p.(current := p.start, used := 0)
  }

  /** What an allocation does to a pool: the position moves to the wrapped end of the aligned range, unless that
      is behind the end of the pool. */
  predicate Bumped(p: Pool, size: Word, q: Pool, ptr: nat)
    requires Valid(p)
  {
    var at := AlignUp(p.current, p.align);
    var last := (at + size) % 0x1_0000_0000_0000_0000;
    if last > p.end then q == p && ptr == 0
    else ptr == at && q == p.(current := last, used := (last - p.start) % 0x1_0000_0000_0000_0000)
  }

  // ---- One allocation -------------------------------------------------------------------------

  /** A sound outcome: NULL and nothing changed, or a range behind everything handed out and inside the pool. */
  predicate Sound(p: Pool, size: nat, q: Pool, ptr: nat)
    requires Valid(p)
  {
    || (ptr == 0 && q == p)
    || (p.current <= ptr && ptr + size <= p.end
        && q == p.(current := ptr + size, used := ptr + size - p.start))
  }

  /** At a pointer behind the current position, an end that does not wrap makes the outcome sound. */
  lemma AllocAtSound(p: Pool, ptr: nat, size: Word)
    requires Valid(p) && p.current <= ptr && ptr + size < WORD
    ensures var (q, r) := AllocAt(p, ptr, size);
            && Sound(p, size, q, r) && Valid(q)
            && if ptr + size <= p.end then r == ptr else r == 0 && q == p
  {}

  /** An allocation that does not wrap is sound for every alignment; it succeeds exactly when the aligned
      range fits, and it skips less than one alignment. */
  lemma AllocSound(p: Pool, size: Word)
    requires Valid(p) && p.current + p.align - 1 < WORD && AlignUp(p.current, p.align) + size < WORD
    ensures var (q, ptr) := Alloc(p, size);
            && Sound(p, size, q, ptr) && Valid(q)
            && (ptr != 0 <==> AlignUp(p.current, p.align) + size <= p.end)
            && (ptr != 0 ==> ptr == AlignUp(p.current, p.align) <= p.current + p.align - 1)
            && (IsPow2(p.align) ==> ptr % p.align == 0)
  {
    AlignUpBounds(p.current, p.align);
    AllocAtSound(p, AlignUp(p.current, p.align), size);
    if IsPow2(p.align) { AlignUpIsLeastMultiple(p.current, p.align); }
  }

  /** An end that wraps is compared as a small number. */
  lemma AllocAtWraps(p: Pool, ptr: nat, size: Word)
    requires Valid(p) && p.current <= ptr < WORD && ptr + size >= WORD
    ensures var (q, r) := AllocAt(p, ptr, size);
            Sound(p, size, q, r) <==> ptr + size - WORD > p.end
  {
    DivModUnique(ptr + size, WORD, 1, ptr + size - WORD);
  }

  lemma AllocAtZero(p: Pool, size: Word)
    requires Valid(p)
    ensures var (q, r) := AllocAt(p, 0, size);
            Sound(p, size, q, r) <==> size > p.end || size == p.current
  {
    DivModUnique(size, WORD, 0, size);
    if size == p.current {
      DivModUnique(size - p.start, WORD, 0, size - p.start);
    }
  }

  /** When the alignment step leaves the word, it comes out at address 0. */
  lemma AlignUpWraps(addr: Word, align: Word)
    requires IsPow2(align) && addr + align - 1 >= WORD
    ensures AlignUp(addr, align) == 0
  {
    var x := addr + align - 1 - WORD;
    DivModUnique(addr + align - 1, WORD, 1, x);
    WordComplement(x, align - 1);
    var k: nat :| align == Pow2(k);
    AndLowMask(x, k);
    DivModUnique(x, align, 0, x);
  }

  /** Exactly when an allocation is sound: the code compares wrapped end addresses, so a request is served
      unsoundly if and only if its wrapped end falls below the end of the pool. */
  lemma AllocSoundExactly(p: Pool, size: Word)
    requires Valid(p) && IsPow2(p.align)
    ensures var (q, ptr) := Alloc(p, size);
            Sound(p, size, q, ptr) <==>
            if p.current + p.align - 1 >= WORD then size > p.end || size == p.current
            else
              var last := AlignUp(p.current, p.align) + size;
              last < WORD || last - WORD > p.end
  {
    if p.current + p.align - 1 >= WORD {
      AlignUpWraps(p.current, p.align);
      AllocAtZero(p, size);
    } else {
      AlignUpBounds(p.current, p.align);
      var ptr := AlignUp(p.current, p.align);
      if ptr + size < WORD {
        AllocAtSound(p, ptr, size);
      } else {
        AllocAtWraps(p, ptr, size);
      }
    }
  }

  /** A request served unsoundly: a pool of one page at 0x1000 is asked for all bytes from its start to the end of
      the address space. It returns its start and moves its position to 0, outside of itself. */
  lemma WrappingRequestServed(p: Pool, size: Word)
    requires p == NewPool(0x1000, 0x1000, 64) && size == WORD - 0x1000
    ensures Valid(p) && var (q, ptr) := Alloc(p, size);
            ptr == 0x1000 && q.current == 0 && !Valid(q) && !Sound(p, size, q, ptr)
  {
    PageIsAligned(p.current, p.align);
    AlignedStays(p.current, p.align);
    DivModUnique(p.current + size, WORD, 1, 0);
  }

  lemma PageIsAligned(page: Word, line: Word)
    requires page == 0x1000 && line == 64
    ensures IsPow2(line) && page % line == 0
  {
    var k := 6;
    assert Pow2(3) == 8;
    Pow2Adds(3, 3);
    assert line == Pow2(k);
  }

  // ---- Runs since a reset ---------------------------------------------------------------------

  /** The request is one that AllocSoundExactly finds to be sound; alignments that are no powers of two must not
      take the alignment step out of the word. */
  ghost predicate Guarded(p: Pool, size: Word)
    requires Valid(p)
  {
    if p.current + p.align - 1 >= WORD then IsPow2(p.align) && (size > p.end || size == p.current)
    else
      var last := AlignUp(p.current, p.align) + size;
      last < WORD || last - WORD > p.end
  }

  lemma GuardedSound(p: Pool, size: Word)
    requires Valid(p) && Guarded(p, size)
    ensures var (q, ptr) := Alloc(p, size);
            && Valid(q) && Sound(p, size, q, ptr)
            && (ptr != 0 ==> p.current <= ptr <= p.current + p.align - 1)
            && (IsPow2(p.align) ==> ptr % p.align == 0)
  {
    if p.current + p.align - 1 >= WORD {
      AlignUpWraps(p.current, p.align);
      AllocAtZero(p, size);
    } else {
      var ptr := AlignUp(p.current, p.align);
      AlignUpBounds(p.current, p.align);
      if IsPow2(p.align) { AlignUpIsLeastMultiple(p.current, p.align); }
      if ptr + size < WORD { AllocAtSound(p, ptr, size); } else { AllocAtWraps(p, ptr, size); }
    }
  }

  /** Every request of the sequence is guarded in the state it meets. */
  ghost predicate AllGuarded(p: Pool, sizes: seq<Word>)
    requires Valid(p)
    decreases sizes
  {
    sizes != [] ==>
      && Guarded(p, sizes[0])
      && (GuardedSound(p, sizes[0]); AllGuarded(Alloc(p, sizes[0]).0, sizes[1..]))
  }

  datatype Range = Range(lo: nat, size: nat)

  /** A sequence of requests: the final pool and the ranges of those that succeeded, in order. */
  function Serve(p: Pool, sizes: seq<Word>): (Pool, seq<Range>)
    requires Valid(p) && AllGuarded(p, sizes)
    decreases sizes
  {
    if sizes == [] then (p, [])
    else
      GuardedSound(p, sizes[0]);
      var (q, ptr) := Alloc(p, sizes[0]);
      var (last, rest) := Serve(q, sizes[1..]);
      (last, if ptr == 0 then rest else [Range(ptr, sizes[0])] + rest)
  }

  function Bytes(ranges: seq<Range>): nat {
    if ranges == [] then 0 else ranges[0].size + Bytes(ranges[1..])
  }

  /** The ranges lie between lo and hi one after the other, hence are pairwise disjoint. */
  predicate InOrder(ranges: seq<Range>, lo: nat, hi: nat) {
    && (forall i :: 0 <= i < |ranges| ==> lo <= ranges[i].lo && ranges[i].lo + ranges[i].size <= hi)
    && forall i, j :: 0 <= i < j < |ranges| ==> ranges[i].lo + ranges[i].size <= ranges[j].lo
  }

  /** Over every sequence of requests: all ranges handed out follow each other inside the pool, and they
      are aligned if the alignment is a power of two. */
  lemma {:induction false} RunIsSafe(p: Pool, sizes: seq<Word>)
    requires Valid(p) && AllGuarded(p, sizes)
    ensures var (q, ranges) := Serve(p, sizes);
            && Valid(q) && q == p.(current := q.current, used := q.used)
            && p.current <= q.current && InOrder(ranges, p.current, q.current)
            && (IsPow2(p.align) ==> forall i :: 0 <= i < |ranges| ==> ranges[i].lo % p.align == 0)
    decreases sizes
  {
    if sizes != [] {
      GuardedSound(p, sizes[0]);
      RunIsSafe(Alloc(p, sizes[0]).0, sizes[1..]);
    }
  }

  /** What the pool counts as used exceeds the bytes handed out by less than one alignment per range. */
  lemma {:induction false} RunUses(p: Pool, sizes: seq<Word>)
    requires Valid(p) && AllGuarded(p, sizes)
    ensures var (q, ranges) := Serve(p, sizes);
            q.used - p.used <= Bytes(ranges) + |ranges| * (p.align - 1)
    decreases sizes
  {
    if sizes != [] {
      GuardedSound(p, sizes[0]);
      var (q, ptr) := Alloc(p, sizes[0]);
      RunUses(q, sizes[1..]);
      var rest := Serve(q, sizes[1..]).1;
      assert ([Range(ptr, sizes[0])] + rest)[1..] == rest;
      OneMore(|rest|, p.align - 1);
    }
  }

  lemma OneMore(n: int, k: int)
    ensures (n + 1) * k == n * k + k
  {}

  function Repeat(size: Word, n: nat): (s: seq<Word>)
    ensures |s| == n && forall i :: 0 <= i < n ==> s[i] == size
  {
    if n == 0 then [] else [size] + Repeat(size, n - 1)
  }

  /** A freshly reset pool at an aligned address serves exactly floor(size / s) of n requests for s bytes,
      when the alignment is a power of two that divides s. */
  lemma UniformRequests(p: Pool, s: Word, n: nat)
    requires Valid(p) && AllGuarded(p, Repeat(s, n)) && IsPow2(p.align)
    requires s > 0 && s % p.align == 0 && p.start % p.align == 0 && p.current == p.start
    ensures |Serve(p, Repeat(s, n)).1| == Min(n, p.size / s)
  {
    UniformFrom(p, s, n);
    SlotsIsQuotient(p.size, s);
  }

  // ---- Serving again after a reset ------------------------------------------------------------

  /** A reset empties the pool and keeps its memory: nothing is used, all of the size is free, and the next request
      is placed from the start. */
  lemma ResetEmpties(p: Pool)
    requires Valid(p)
    ensures var q := Reset(p);
            && Valid(q) && q.current == q.start && q.used == 0 && q.size - q.used == q.end - q.start
            && q.start == p.start && q.end == p.end && q.size == p.size && q.align == p.align
            && q.initialized == p.initialized
  {}

  /** Whatever was served before, after a reset the pool answers like any other reset pool on this memory. */
  lemma ResetForgets(p: Pool, before: seq<Word>)
    requires Valid(p) && AllGuarded(p, before)
    ensures Reset(Serve(p, before).0) == p.(current := p.start, used := 0)
  {
    RunIsSafe(p, before);
  }

  /** From the reset of any pool the ranges handed out follow each other from the start of its memory up to its
      end, aligned if the alignment is a power of two, and what is used then is the distance to the start. */
  lemma ResetRunIsSafe(p: Pool, sizes: seq<Word>)
    requires Valid(p) && AllGuarded(Reset(p), sizes)
    ensures var (q, ranges) := Serve(Reset(p), sizes);
            && Valid(q) && q.start == p.start && q.end == p.end
            && InOrder(ranges, p.start, q.current) && InOrder(ranges, p.start, p.end)
            && q.used == q.current - p.start <= Bytes(ranges) + |ranges| * (p.align - 1)
            && (IsPow2(p.align) ==> forall i :: 0 <= i < |ranges| ==> ranges[i].lo % p.align == 0)
  {
    RunIsSafe(Reset(p), sizes);
    RunUses(Reset(p), sizes);
  }

  /** The reset of any pool at an aligned address serves floor(size / s) of n requests for s bytes again, when the
      alignment is a power of two that divides s. Request i of them is answered with the start plus i * s. */
  lemma ResetServesAgain(p: Pool, s: Word, n: nat)
    requires Valid(p) && IsPow2(p.align) && s > 0 && s % p.align == 0 && p.start % p.align == 0
    requires p.end + s < WORD
    ensures Valid(Reset(p)) && AllGuarded(Reset(p), Repeat(s, n))
    ensures var ranges := Serve(Reset(p), Repeat(s, n)).1;
            && |ranges| == Min(n, p.size / s)
            && forall i :: 0 <= i < |ranges| ==> ranges[i] == Range(p.start + i * s, s)
  {
    UniformGuarded(Reset(p), s, n);
    UniformRequests(Reset(p), s, n);
    UniformPlaces(Reset(p), s, n);
  }

  /** Requests that cannot wrap are guarded all along. */
  lemma {:induction false} UniformGuarded(p: Pool, s: Word, n: nat)
    requires Valid(p) && IsPow2(p.align) && s % p.align == 0 && p.current % p.align == 0 && p.end + s < WORD
    ensures AllGuarded(p, Repeat(s, n))
    decreases n
  {
    if n > 0 {
      AlignedRoom(p.current, p.align);
      AlignedStays(p.current, p.align);
      AlignedAlloc(p, s);
      GuardedSound(p, s);
      UniformGuarded(Alloc(p, s).0, s, n - 1);
      assert Repeat(s, n)[1..] == Repeat(s, n - 1);
    }
  }

  /** The first of the requests, and the others. */
  lemma ServeFirst(p: Pool, s: Word, n: nat)
    requires Valid(p) && n > 0 && AllGuarded(p, Repeat(s, n))
    ensures var (q, ptr) := Alloc(p, s);
            && Valid(q) && AllGuarded(q, Repeat(s, n - 1))
            && Serve(p, Repeat(s, n)).1
               == (if ptr == 0 then [] else [Range(ptr, s)]) + Serve(q, Repeat(s, n - 1)).1
  {
    assert Repeat(s, n)[1..] == Repeat(s, n - 1);
    GuardedSound(p, s);
  }

  /** Ranges of s bytes side by side from this address on. */
  predicate SideBySide(ranges: seq<Range>, from: nat, s: nat) {
    forall i :: 0 <= i < |ranges| ==> ranges[i] == Range(from + i * s, s)
  }

  lemma OneMoreBefore(rest: seq<Range>, from: nat, s: nat)
    requires SideBySide(rest, from + s, s)
    ensures SideBySide([Range(from, s)] + rest, from, s)
  {
    var ranges := [Range(from, s)] + rest;
    forall i | 0 <= i < |ranges| ensures ranges[i] == Range(from + i * s, s) {
      if i > 0 {
        OneMore(i - 1, s);
        assert ranges[i] == rest[i - 1];
      }
    }
  }

  lemma {:induction false} UniformPlaces(p: Pool, s: Word, n: nat)
    requires Valid(p) && AllGuarded(p, Repeat(s, n)) && IsPow2(p.align)
    requires s > 0 && s % p.align == 0 && p.current % p.align == 0
    ensures SideBySide(Serve(p, Repeat(s, n)).1, p.current, s)
    decreases n
  {
    if n > 0 {
      ServeFirst(p, s, n);
      AlignedAlloc(p, s);
      var (q, ptr) := Alloc(p, s);
      if ptr == 0 {
        FullStaysFull(p, s, n);
      } else {
        UniformPlaces(q, s, n - 1);
        OneMoreBefore(Serve(q, Repeat(s, n - 1)).1, p.current, s);
      }
    }
  }

  lemma {:induction false} FullStaysFull(p: Pool, s: Word, n: nat)
    requires Valid(p) && AllGuarded(p, Repeat(s, n)) && IsPow2(p.align)
    requires s > p.end - p.current && s % p.align == 0 && p.current % p.align == 0
    ensures Serve(p, Repeat(s, n)).1 == []
    decreases n
  {
    if n > 0 {
      ServeFirst(p, s, n);
      AlignedAlloc(p, s);
      FullStaysFull(p, s, n - 1);
    }
  }

  function Min(a: int, b: int): int {
    if a <= b then a else b
  }

  /** How many times s fits into the room. */
  function Slots(room: nat, s: nat): nat
    requires s > 0
    decreases room
  {
    if room < s then 0 else 1 + Slots(room - s, s)
  }

  lemma {:induction false} SlotsIsQuotient(room: nat, s: nat)
    requires s > 0
    ensures Slots(room, s) == room / s
    decreases room
  {
    if room < s {
      DivModUnique(room, s, 0, room);
    } else {
      SlotsIsQuotient(room - s, s);
      OneMore((room - s) / s, s);
      DivModUnique(room, s, (room - s) / s + 1, (room - s) % s);
    }
  }

  lemma {:induction false} UniformFrom(p: Pool, s: Word, n: nat)
    requires Valid(p) && AllGuarded(p, Repeat(s, n)) && IsPow2(p.align)
    requires s > 0 && s % p.align == 0 && p.current % p.align == 0
    ensures |Serve(p, Repeat(s, n)).1| == Min(n, Slots(p.end - p.current, s))
    decreases n
  {
    if n > 0 {
      var sizes := Repeat(s, n);
      assert sizes[1..] == Repeat(s, n - 1);
      GuardedSound(p, sizes[0]);
      AlignedAlloc(p, s);
      UniformFrom(Alloc(p, s).0, s, n - 1);
    }
  }

  /** At an aligned position nothing is skipped, and the position stays aligned. */
  lemma AlignedAlloc(p: Pool, s: Word)
    requires Valid(p) && IsPow2(p.align) && Guarded(p, s)
    requires s % p.align == 0 && p.current % p.align == 0
    ensures var (q, ptr) := Alloc(p, s);
            && q.current % p.align == 0
            && if s > p.end - p.current then ptr == 0 && q == p
               else ptr == p.current && q == p.(current := p.current + s, used := p.current + s - p.start)
  {
    AlignedRoom(p.current, p.align);
    AlignedStays(p.current, p.align);
    AllocAtSound(p, p.current, s);
    MultiplesAdd(p.current, s, p.align);
  }

  /** An aligned address has room for its alignment in the word. */
  lemma AlignedRoom(addr: Word, align: Word)
    requires IsPow2(align) && addr % align == 0
    ensures addr + align - 1 < WORD
  {
    WordIsMultiple(align);
    MultiplesApart(addr, WORD, align);
  }

  lemma AlignedStays(addr: Word, align: Word)
    requires IsPow2(align) && addr + align - 1 < WORD && addr % align == 0
    ensures AlignUp(addr, align) == addr
  {
    AlignUpIsLeastMultiple(addr, align);
  }

  lemma MultiplesAdd(a: nat, b: nat, m: nat)
    requires m > 0 && a % m == 0 && b % m == 0
    ensures (a + b) % m == 0
  {
    var p, q := a / m, b / m;
    assert a + b == (p + q) * m;
    DivModUnique(a + b, m, p + q, 0);
  }

  // ---- The table of pools ---------------------------------------------------------------------

  /** The pools are the first `count` slots. */
  predicate Compact(slots: seq<Pool>, count: nat) {
    count <= |slots| && forall i :: 0 <= i < |slots| ==> (slots[i].initialized <==> i < count)
  }

  /** memory_utils_pool_destroy clears the slot it is given but always gives up the last id, so the pools
      stay the first `count` slots if and only if it is the last pool that is destroyed. */
  lemma DestroyKeepsCompactExactly(slots: seq<Pool>, count: nat, id: nat)
    requires Compact(slots, count) && id < count
    ensures Compact(slots[id := EMPTY_SLOT], count - 1) <==> id == count - 1
  {
    var after := slots[id := EMPTY_SLOT];
    if id != count - 1 { assert after[count - 1].initialized; }
  }

  // ---- Runs of creations and destructions -----------------------------------------------------

  /** The table as a value. */
  datatype Table = Table(slots: seq<Pool>, count: nat)

  datatype TableOp = CreatePool(memory: nat, size: nat, align: Word) | DestroyPool(id: int)

  /** A destruction that finds its pool. */
  predicate Destroys(t: Table, op: TableOp) {
    op.DestroyPool? && 0 <= op.id < t.count && op.id < |t.slots| && t.slots[op.id].initialized
  }

  function TableStep(t: Table, op: TableOp): Table {
    match op
    case CreatePool(memory, size, align) =>
      if t.count >= |t.slots| then t else Table(t.slots[t.count := NewPool(memory, size, align)], t.count + 1)
    case DestroyPool(id) => if Destroys(t, op) then Table(t.slots[id := EMPTY_SLOT], t.count - 1) else t
  }

  /** The table with an account: whether a creation has overwritten a pool, and whether each destruction so far has
      taken the last pool. */
  datatype Watched = Watched(t: Table, overwrote: bool, lastOnly: bool)

  function WatchedStep(w: Watched, op: TableOp): Watched {
    Watched(TableStep(w.t, op),
            w.overwrote || (op.CreatePool? && w.t.count < |w.t.slots| && w.t.slots[w.t.count].initialized),
            w.lastOnly && (Destroys(w.t, op) ==> op.id == w.t.count - 1))
  }

  predicate Stranded(t: Table, i: nat) {
    t.count <= i < |t.slots| && t.slots[i].initialized
  }

  /** As long as only last pools were destroyed the table is compact; afterwards a pool has been overwritten or is
      stranded in a slot that the count has yet to reach. */
  ghost predicate Accounted(w: Watched) {
    && w.t.count <= |w.t.slots|
    && if w.lastOnly then Compact(w.t.slots, w.t.count) && !w.overwrote
       else w.overwrote || exists i: nat :: Stranded(w.t, i)
  }

  lemma StepAccounted(w: Watched, op: TableOp)
    requires Accounted(w)
    ensures Accounted(WatchedStep(w, op))
  {
    var v := WatchedStep(w, op);
    if w.lastOnly {
      if !v.lastOnly { assert Stranded(v.t, w.t.count - 1); }
    } else if !v.overwrote {
      var i: nat :| Stranded(w.t, i);
      assert Stranded(v.t, i);
    }
  }

  predicate OnlyCreates(ops: seq<TableOp>) {
    forall op <- ops :: op.CreatePool?
  }

  lemma {:induction false} CompactCreates(w: Watched, ops: seq<TableOp>)
    requires Accounted(w) && w.lastOnly && OnlyCreates(ops)
    ensures !Run(WatchedStep, w, ops).overwrote
    decreases ops
  {
    if ops != [] {
      assert ops[0] in ops;
      StepAccounted(w, ops[0]);
      CompactCreates(WatchedStep(w, ops[0]), ops[1..]);
    }
  }

  lemma {:induction false} OnceOverwritten(w: Watched, ops: seq<TableOp>)
    requires w.overwrote
    ensures Run(WatchedStep, w, ops).overwrote
    decreases ops
  {
    if ops != [] { OnceOverwritten(WatchedStep(w, ops[0]), ops[1..]); }
  }

  /** Creations go on until they overwrite the stranded pool. */
  lemma {:induction false} CreatesReach(w: Watched, i: nat) returns (ops: seq<TableOp>)
    requires Stranded(w.t, i)
    ensures OnlyCreates(ops) && Run(WatchedStep, w, ops).overwrote
    decreases i - w.t.count
  {
    var op := CreatePool(1, 1, 0);
    var v := WatchedStep(w, op);
    if v.overwrote {
      ops := [op];
      assert Run(WatchedStep, v, ops[1..]) == v;
    } else {
      assert Stranded(v.t, i);
      var rest := CreatesReach(v, i);
      ops := [op] + rest;
      assert ops[1..] == rest;
    }
  }

  /** After any run from an empty table: no pool has been overwritten, and none will be however many pools are
      created, if and only if every pool that was destroyed was the last one. */
  lemma OverwritesExactly(start: Watched, ops: seq<TableOp>)
    requires Compact(start.t.slots, 0) && start.t.count == 0 && !start.overwrote && start.lastOnly
    ensures var w := Run(WatchedStep, start, ops);
            (forall more: seq<TableOp> :: OnlyCreates(more) ==> !Run(WatchedStep, w, more).overwrote) <==> w.lastOnly
  {
    forall w, op | Accounted(w) ensures Accounted(WatchedStep(w, op)) { StepAccounted(w, op); }
    AlwaysInvariant(WatchedStep, Accounted, start, ops);
    var w := Run(WatchedStep, start, ops);
    if w.lastOnly {
      forall more: seq<TableOp> | OnlyCreates(more) ensures !Run(WatchedStep, w, more).overwrote {
        CompactCreates(w, more);
      }
    } else {
      var more := [];
      if w.overwrote {
        OnceOverwritten(w, more);
      } else {
        var i: nat :| Stranded(w.t, i);
        more := CreatesReach(w, i);
      }
      assert OnlyCreates(more) && Run(WatchedStep, w, more).overwrote;
    }
  }

  /** Two pools, the first of which is destroyed: the next creation takes the id of the second, which is still in
      use, and its slot. */
  lemma MiddleDestroyRepeatsId(t: Table, a: TableOp, b: TableOp, c: TableOp)
    requires Compact(t.slots, 0) && t.count == 0 && |t.slots| == MAX_POOLS
    requires a.CreatePool? && b.CreatePool? && c.CreatePool?
    ensures var two := TableStep(TableStep(t, a), b);
            var one := TableStep(two, DestroyPool(0));
            && two.slots[1] == NewPool(b.memory, b.size, b.align)
            && one.count == 1 && one.slots[1] == two.slots[1] && one.slots[1].initialized
            && TableStep(one, c).slots[1] == NewPool(c.memory, c.size, c.align)
  {}

  // ---- The table in memory --------------------------------------------------------------------

  /** How many of the first n slots hold pools. */
  function Occupied(slots: seq<Pool>, n: nat): (c: nat)
    requires n <= |slots|
    ensures c <= n
  {
    if n == 0 then 0 else Occupied(slots, n - 1) + if slots[n - 1].initialized then 1 else 0
  }

  /** The least k from i on for which k and the pools among the first k slots together reach the count. */
  function CleanupStop(slots: seq<Pool>, count: nat, i: nat): (k: nat)
    requires i <= count <= |slots|
    ensures i <= k <= count && k + Occupied(slots, k) >= count
    ensures forall j :: i <= j < k ==> j + Occupied(slots, j) < count
    decreases count - i
  {
    if i + Occupied(slots, i) >= count then i else CleanupStop(slots, count, i + 1)
  }

  lemma {:induction false} CompactOccupied(slots: seq<Pool>, count: nat, n: nat)
    requires Compact(slots, count) && n <= count
    ensures Occupied(slots, n) == n
  {
    if n > 0 { CompactOccupied(slots, count, n - 1); }
  }

  /** Of the pools of a compact table, cleanup destroys the first ceil(count / 2). */
  lemma CompactCleanup(slots: seq<Pool>, count: nat)
    requires Compact(slots, count)
    ensures CleanupStop(slots, count, 0) == (count + 1) / 2
  {
    var k := CleanupStop(slots, count, 0);
    CompactOccupied(slots, count, k);
    CompactOccupied(slots, count, if k > 0 then k - 1 else 0);
  }

  class PoolTable {
    const pools: array<Pool>
    var count: nat
    var initialized: bool

    ghost predicate WellFormed()
      reads this, pools
    {
      && pools.Length == MAX_POOLS && count <= MAX_POOLS
      && forall i :: 0 <= i < MAX_POOLS ==> pools[i].initialized ==> Valid(pools[i])
    }

    ghost function State(): Table
      reads this, pools
    {
      Table(pools[..], count)
    }

    constructor ()
      ensures WellFormed() && Compact(pools[..], count) && count == 0 && initialized
      ensures pools.Length == 16 && forall i :: 0 <= i < 16 ==> pools[i] == Pool(0, 0, 0, 0, 0, 0, false)
    {
      pools := new Pool[MAX_POOLS](_ => EMPTY_SLOT);
      count, initialized := 0, true;
    }

    /** memory_utils_pool_create; memory is what malloc returns for the size. */
    method Create(hasName: bool, size: nat, align: Word, memory: nat) returns (code: Code, id: nat)
      requires WellFormed() && memory + size < WORD
      modifies this`count, pools
      ensures WellFormed()
      ensures code == if !hasName || size == 0 then Invalid else if !initialized then NotInitialized
                      else if old(count) >= 16 then Overflow else if memory == 0 then NoMemory else Success
      ensures code.Success? ==> id == old(count) && count == old(count) + 1
                                && pools[..] == old(pools[..])[id := NewPool(memory, size, align)]
                                && pools[id].start == pools[id].current == memory && pools[id].end == memory + size
                                && pools[id].size == size && pools[id].used == 0 && pools[id].initialized
                                && pools[id].align == if align == 0 then 64 else align
      ensures State() == if code.Success? then TableStep(old(State()), CreatePool(memory, size, align))
                         else old(State())
      ensures old(Compact(pools[..], count)) ==> Compact(pools[..], count)
    {
      id := 0;
      if !hasName || size == 0 {
        return Invalid, 0;
      }
      if !initialized {
        return NotInitialized, 0;
      }
      if count >= MAX_POOLS {
        return Overflow, 0;
      }
      if memory == 0 {
        return NoMemory, 0;
      }
      pools[count] := NewPool(memory, size, align);
      id := count;
      count := count + 1;
      code := Success;
    }

    /** memory_utils_pool_destroy. */
    method Destroy(id: int) returns (code: Code)
      requires WellFormed()
      modifies this`count, pools
      ensures WellFormed()
      ensures code == if id < 0 || id >= old(count) then Invalid
                      else if !old(pools[..])[id].initialized then NotFound else Success
      ensures code.Success? ==> count == old(count) - 1 && pools[..] == old(pools[..])[id := EMPTY_SLOT]
                                && pools[id] == Pool(0, 0, 0, 0, 0, 0, false)
      ensures State() == TableStep(old(State()), DestroyPool(id))
    {
      if id < 0 || id >= count {
        return Invalid;
      }
      if !pools[id].initialized {
        return NotFound;
      }
      pools[id] := EMPTY_SLOT;
      count := count - 1;
      code := Success;
    }

    /** memory_utils_pool_alloc. */
    method Allocate(id: int, size: Word) returns (ptr: nat)
      requires WellFormed()
      modifies pools
      ensures 0 <= id < count && old(pools[..])[id].initialized ==>
                (pools[id], ptr) == Alloc(old(pools[id]), size)
                && Bumped(old(pools[id]), size, pools[id], ptr)
                && forall i :: 0 <= i < MAX_POOLS && i != id ==> pools[i] == old(pools[i])
      ensures !(0 <= id < count && old(pools[..])[id].initialized) ==> ptr == 0 && pools[..] == old(pools[..])
      ensures (0 <= id < count && old(pools[..])[id].initialized ==> Sound(old(pools[..])[id], size, pools[id], ptr))
              ==> WellFormed()
    {
      if id < 0 || id >= count {
        return 0;
      }
      var pool := pools[id];
      if !pool.initialized {
        return 0;
      }
      ptr := AlignUp(pool.current, pool.align);
      var last := (ptr + size) % WORD;
      if last > pool.end {
        return 0;
      }
      pools[id] := pool.(current := last, used := (last - pool.start) % WORD);
    }

    /** memory_utils_pool_reset. */
    method ResetPool(id: int) returns (code: Code)
      requires WellFormed()
      modifies pools
      ensures WellFormed()
      ensures code == if id < 0 || id >= count then Invalid
                      else if !old(pools[..])[id].initialized then NotFound else Success
      ensures pools[..] == if code.Success? then old(pools[..])[id := Reset(old(pools[..])[id])] else old(pools[..])
      ensures code.Success? ==>
                && pools[id].current == pools[id].start == old(pools[..])[id].start && pools[id].used == 0
                && pools[id].end == old(pools[..])[id].end && pools[id].size == old(pools[..])[id].size
                && pools[id].align == old(pools[..])[id].align && pools[id].initialized
    {
      if id < 0 || id >= count {
        return Invalid;
      }
      if !pools[id].initialized {
        return NotFound;
      }
      pools[id] := pools[id].(current := pools[id].start, used := 0);
      code := Success;
    }

    /** memory_utils_pool_stats. */
    method PoolStats(id: int) returns (code: Code, used: nat, free: nat)
      requires WellFormed()
      ensures code == if id < 0 || id >= count then Invalid
                      else if !pools[id].initialized then NotFound else Success
      ensures code.Success? ==>
                used + free == pools[id].size && used == pools[id].current - pools[id].start
                && free == pools[id].end - pools[id].current
      ensures !code.Success? ==> used == 0 && free == 0
    {
      used, free := 0, 0;
      if id < 0 || id >= count {
        return Invalid, 0, 0;
      }
      if !pools[id].initialized {
        return NotFound, 0, 0;
      }
      used := pools[id].used;
      free := pools[id].size - pools[id].used;
      code := Success;
    }

    /** The pool loop of memory_utils_cleanup. The bound of the loop shrinks while the index grows, so it stops
        when the index and the number of pools destroyed reach the count; pools in later slots stay initialized,
        with ids that are given up. */
    method Cleanup()
      requires WellFormed()
      modifies this`count, pools
      ensures WellFormed() && count == 0
      ensures var stop := CleanupStop(old(pools[..]), old(count), 0);
              forall i :: 0 <= i < MAX_POOLS ==>
                pools[i] == if i < stop && old(pools[i]).initialized then EMPTY_SLOT else old(pools[i])
    {
      ghost var before := pools[..];
      var i := 0;
      while i < count
        invariant WellFormed() && i <= old(count) && count == old(count) - Occupied(before, i)
        invariant forall j :: 0 <= j < i ==> j + Occupied(before, j) < old(count)
        invariant forall j :: 0 <= j < MAX_POOLS ==>
                    pools[j] == if j < i && before[j].initialized then EMPTY_SLOT else before[j]
        decreases old(count) - i
      {
        if pools[i].initialized {
          var code := Destroy(i);
        }
        i := i + 1;
      }
      assert i == CleanupStop(before, old(count), 0);
      count := 0;
    }
  }
}
