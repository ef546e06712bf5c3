/** The allocation tracker of the memory utilities library: its operations as functions on a list of entries,
    what they keep over whole runs, and the doubly linked list that implements them. */
module BlockTracker {
  import opened MachineWords
  import opened Lists
  import opened Options
  import opened MemoryUtilsCodes
  import opened Runs

  datatype Config = Config(tracking: bool, leakDetection: bool)

  datatype Entry = Entry(address: nat, size: Word)

  /** struct memory_stats: byte counters are 64-bit words, block counters are taken as unbounded. */
  datatype Stats = Stats(
    totalAllocated: nat, totalFreed: nat, currentAllocated: nat, peakAllocated: nat,
    totalBlocks: nat, currentBlocks: int, peakBlocks: int)

  /** The part of the library context that the tracker uses; entries[0] was tracked last. */
  datatype Context = Context(initialized: bool, config: Config, entries: seq<Entry>, stats: Stats)

  /** The argument of memory_utils_init: NULL, or a configuration whose log file opens or not. */
  datatype InitArgument = Defaults | Given(config: Config, logOpens: bool)

  datatype Operation =
    | Init(argument: InitArgument)
    | Cleanup
    | SetConfig(given: Option<Config>)
    | TrackAlloc(ptr: nat, size: Word, nodeAvailable: bool)
    | TrackFree(ptr: nat)
    | ClearLeaks

  // ---- The operations -------------------------------------------------------------------------

  function Apply(s: Context, op: Operation): (Context, Code) {
    match op
    case Init(argument) =>
      if s.initialized then (s, Success)
      else if argument.Given? && !argument.logOpens then (s.(config := argument.config), IoError)
      else
        (Context(true, if argument.Given? then argument.config else Config(true, true), s.entries,
               Stats(0, 0, 0, 0, 0, 0, 0)),
         Success)
    case Cleanup => (if s.initialized then s.(initialized := false, entries := []) else s, Success)
    case SetConfig(given) =>
      if given.None? then (s, Invalid)
      else if s.initialized then (s.(config := given.value), Success) else (s, NotInitialized)
    case TrackAlloc(ptr, size, nodeAvailable) =>
      if ptr == 0 || size == 0 then (s, Invalid)
      else if !s.initialized then (s, NotInitialized)
      else if !s.config.tracking then (s, Success)
      else if !nodeAvailable then (s, NoMemory)
      else (s.(entries := [Entry(ptr, size)] + s.entries, stats := Counted(s.stats, size)), Success)
    case TrackFree(ptr) =>
      if ptr == 0 then (s, Invalid)
      else if !s.initialized then (s, NotInitialized)
      else if !s.config.tracking then (s, Success)
      else
        var i := FindByPointer(s.entries, ptr);
        if i == |s.entries| then (s, NotFound)
        else (s.(entries := Without(s.entries, i), stats := Uncounted(s.stats, s.entries[i].size)), Success)
    case ClearLeaks =>
      (if s.initialized
       then s.(entries := [], stats := s.stats.(currentAllocated := 0, currentBlocks := 0)) else s, Success)
  }

  function Step(s: Context, op: Operation): Context {
    Apply(s, op).0
  }

  /** The statistics after tracking `size` bytes. */
  function Counted(t: Stats, size: nat): Stats {
    var c := (t.currentAllocated + size) % WORD;
    Stats((t.totalAllocated + size) % WORD, t.totalFreed, c, Max(c, t.peakAllocated),
          t.totalBlocks + 1, t.currentBlocks + 1, Max(t.currentBlocks + 1, t.peakBlocks))
  }

  /** The statistics after the free of a block of `size` bytes. */
  function Uncounted(t: Stats, size: nat): Stats {
    t.(totalFreed := (t.totalFreed + size) % WORD,
       currentAllocated := (t.currentAllocated - size) % WORD, currentBlocks := t.currentBlocks - 1)
  }

  /** The position of the entry tracked last for this address, or |entries|. */
  function FindByPointer(entries: seq<Entry>, ptr: nat): (i: nat)
    ensures i <= |entries|
    ensures i < |entries| ==> entries[i].address == ptr
    ensures forall j :: 0 <= j < i ==> entries[j].address != ptr
  {
    IndexWhere(entries, (e: Entry) => e.address == ptr)
  }

  function SumSizes(entries: seq<Entry>): nat {
    if entries == [] then 0 else entries[0].size + SumSizes(entries[1..])
  }

  /** What memory_utils_detect_leaks counts. */
  function CountAtLeast(entries: seq<Entry>, threshold: nat): nat {
    if entries == [] then 0
    else (if entries[0].size >= threshold then 1 else 0) + CountAtLeast(entries[1..], threshold)
  }

  // ---- Exact statistics on every run ----------------------------------------------------------

  /** The state with an account of the run since the last initialization that took effect. It is kept from the
      list alone: the bytes that entered it, that frees removed and that clear_leaks dropped, the number of
      entries added, and the largest byte count (as a word) and block count of any state. */
  datatype Audited = Audited(
    s: Context, entered: int, freed: int, dropped: int, added: int, highestBytes: int, highestBlocks: int)

  function AuditedStep(a: Audited, op: Operation): Audited {
    var t := Step(a.s, op);
    var bytes, blocks := SumSizes(t.entries) % WORD, |t.entries|;
    if !a.s.initialized && t.initialized then Audited(t, 0, 0, 0, 0, bytes, blocks)
    else
      var gone := SumSizes(a.s.entries) - SumSizes(t.entries);
      Audited(t,
              a.entered - (if op.TrackAlloc? then gone else 0),
              a.freed + (if op.TrackFree? then gone else 0),
              a.dropped + (if op.ClearLeaks? then gone else 0),
              a.added + (if op.TrackAlloc? then |t.entries| - |a.s.entries| else 0),
              Max(a.highestBytes, bytes), Max(a.highestBlocks, blocks))
  }

  /** The library as the program loads it. */
  predicate Loaded(s: Context) {
    !s.initialized && s.entries == []
  }

  /** The statistics say what the account of the list says. */
  ghost predicate Exact(a: Audited) {
    if a.s.initialized then
      && Accounted(a.s.stats, a)
      && a.entered == a.freed + a.dropped + SumSizes(a.s.entries)
      && a.highestBlocks >= |a.s.entries|
      && forall i :: 0 <= i < |a.s.entries| ==> a.s.entries[i].address != 0 && a.s.entries[i].size != 0
    else a.s.entries == []
  }

  predicate Accounted(t: Stats, a: Audited) {
    && t.totalAllocated == a.entered % WORD
    && t.totalFreed == a.freed % WORD
    && t.currentAllocated == SumSizes(a.s.entries) % WORD
    && t.totalBlocks == a.added
    && t.currentBlocks == |a.s.entries|
    && t.peakBlocks == a.highestBlocks
  }

  lemma {:induction false} SumSizesWithout(entries: seq<Entry>, i: nat)
    requires i < |entries|
    ensures SumSizes(Without(entries, i)) == SumSizes(entries) - entries[i].size
  {
    if i > 0 {
      SumSizesWithout(entries[1..], i - 1);
      WithoutTail(entries, i);
    } else {
      assert Without(entries, i) == entries[1..];
    }
  }

  /** An entry of this size enters the list. */
  lemma AllocEffect(a: Audited, op: Operation)
    requires op.TrackAlloc? && a.s.initialized && a.s.config.tracking && op.ptr != 0 && op.size != 0 && op.nodeAvailable
    ensures var b, t := AuditedStep(a, op), a.s.stats;
            && b.s.entries == [Entry(op.ptr, op.size)] + a.s.entries
            && SumSizes(b.s.entries) == SumSizes(a.s.entries) + op.size
            && b.s == a.s.(entries := b.s.entries, stats := b.s.stats)
            && b.entered == a.entered + op.size && b.freed == a.freed && b.dropped == a.dropped
            && b.added == a.added + 1 && b.highestBlocks == Max(a.highestBlocks, |a.s.entries| + 1)
            && b.s.stats.totalAllocated == (t.totalAllocated + op.size) % WORD
            && b.s.stats.totalFreed == t.totalFreed && b.s.stats.totalBlocks == t.totalBlocks + 1
            && b.s.stats.currentAllocated == (t.currentAllocated + op.size) % WORD
            && b.s.stats.currentBlocks == t.currentBlocks + 1
            && b.s.stats.peakBlocks == Max(t.peakBlocks, t.currentBlocks + 1)
  {
    assert ([Entry(op.ptr, op.size)] + a.s.entries)[1..] == a.s.entries;
  }

  lemma AllocExact(a: Audited, op: Operation)
    requires op.TrackAlloc? && Exact(a)
    ensures Exact(AuditedStep(a, op))
  {
    if a.s.initialized && a.s.config.tracking && op.ptr != 0 && op.size != 0 && op.nodeAvailable {
      AllocEffect(a, op);
      WrapAdd(SumSizes(a.s.entries), op.size);
      WrapAdd(a.entered, op.size);
    }
  }

  /** A free takes the entry tracked last for the pointer off the list and moves its size from the current to the
      freed bytes. */
  lemma FreeServed(s: Context, ptr: nat, i: nat)
    requires s.initialized && s.config.tracking && ptr != 0
    requires i < |s.entries| && s.entries[i].address == ptr && forall j :: 0 <= j < i ==> s.entries[j].address != ptr
    ensures var t, size := s.stats, s.entries[i].size;
            Apply(s, TrackFree(ptr)) ==
            (Context(true, s.config, Without(s.entries, i),
                     Stats(t.totalAllocated, (t.totalFreed + size) % 0x1_0000_0000_0000_0000,
                           (t.currentAllocated - size) % 0x1_0000_0000_0000_0000, t.peakAllocated,
                           t.totalBlocks, t.currentBlocks - 1, t.peakBlocks)),
             Success)
  {
    assert FindByPointer(s.entries, ptr) == i;
  }

  /** Every other free changes nothing, and an error says why unless tracking is off. */
  lemma FreeRefused(s: Context, ptr: nat)
    requires ptr != 0 && s.initialized && s.config.tracking ==> forall e <- s.entries :: e.address != ptr
    ensures Apply(s, TrackFree(ptr)) ==
            (s, if ptr == 0 then Invalid else if !s.initialized then NotInitialized
                else if s.config.tracking then NotFound else Success)
  {
    var i := FindByPointer(s.entries, ptr);
    if i < |s.entries| { assert s.entries[i] in s.entries; }
  }

  /** The entry found for the pointer leaves the list. */
  lemma FreeEffect(a: Audited, op: Operation, i: nat)
    requires op.TrackFree? && a.s.initialized && a.s.config.tracking && op.ptr != 0
    requires i == FindByPointer(a.s.entries, op.ptr) < |a.s.entries|
    ensures var b, t, size := AuditedStep(a, op), a.s.stats, a.s.entries[i].size;
            && b.s.entries == Without(a.s.entries, i)
            && SumSizes(b.s.entries) == SumSizes(a.s.entries) - size
            && b.s == a.s.(entries := b.s.entries, stats := b.s.stats)
            && b.entered == a.entered && b.freed == a.freed + size && b.dropped == a.dropped
            && b.added == a.added && b.highestBlocks == Max(a.highestBlocks, |a.s.entries| - 1)
            && b.s.stats == t.(totalFreed := (t.totalFreed + size) % WORD,
                               currentAllocated := (t.currentAllocated - size) % WORD,
                               currentBlocks := t.currentBlocks - 1)
  {
    SumSizesWithout(a.s.entries, i);
  }

  lemma FreeExact(a: Audited, op: Operation)
    requires op.TrackFree? && Exact(a)
    ensures Exact(AuditedStep(a, op))
  {
    var s := a.s;
    var i := FindByPointer(s.entries, op.ptr);
    if op.ptr != 0 && s.initialized && s.config.tracking && i < |s.entries| {
      FreeEffect(a, op, i);
      WrapAdd(SumSizes(s.entries), -(s.entries[i].size as int));
      WrapAdd(a.freed, s.entries[i].size);
    }
  }

  /** What was counted in is counted out, still there, or dropped. */
  lemma StatisticsBalance(a: Audited)
    requires Exact(a) && a.s.initialized
    ensures var t := a.s.stats;
            t.totalAllocated == (t.totalFreed + t.currentAllocated + a.dropped) % WORD
  {
    var bytes := SumSizes(a.s.entries);
    WrapAdd(a.freed, bytes % WORD + a.dropped);
    WrapAdd(bytes, a.freed + a.dropped);
  }

  /** peak_allocated is the largest byte count of any state of the run. */
  predicate BytePeakExact(a: Audited) {
    a.s.initialized ==>
      a.s.stats.peakAllocated == a.highestBytes && a.s.stats.currentAllocated <= a.highestBytes
  }

  /** Only track_alloc updates the byte peak. A free of more bytes than the counter holds wraps it to the top
      of the word; the peak stays exact if and only if that does not happen, or happens below the old peak. */
  lemma FreeKeepsBytePeakExactly(a: Audited, ptr: nat)
    requires Exact(a) && BytePeakExact(a) && ptr != 0 && a.s.initialized && a.s.config.tracking
    requires FindByPointer(a.s.entries, ptr) < |a.s.entries|
    ensures var size, t := a.s.entries[FindByPointer(a.s.entries, ptr)].size, a.s.stats;
            BytePeakExact(AuditedStep(a, TrackFree(ptr)))
            <==> size <= t.currentAllocated || WORD + t.currentAllocated - size <= t.peakAllocated
    ensures SumSizes(a.s.entries) < WORD ==> BytePeakExact(AuditedStep(a, TrackFree(ptr)))
  {
    var i := FindByPointer(a.s.entries, ptr);
    FreeEffect(a, TrackFree(ptr), i);
    WrapAdd(SumSizes(a.s.entries), -(a.s.entries[i].size as int));
    WrapDown(a.s.stats.currentAllocated, a.s.entries[i].size);
  }

  /** Two frees' worth of bytes beyond 2^64: after tracking 10 and 2^64 - 5 bytes, freeing the 10 leaves a
      byte counter of 2^64 - 5 above a peak of 10. */
  lemma BytePeakMissesWrap(s: Context)
    requires s.initialized && s.config.tracking && s.entries == []
    requires s.stats.currentAllocated == 0 && s.stats.peakAllocated == 0
    ensures var t := Step(Step(Step(s, TrackAlloc(1, 10, true)), TrackAlloc(2, WORD - 5, true)), TrackFree(1));
            t.stats.currentAllocated == WORD - 5 && t.stats.peakAllocated == 10
  {
    var t := Step(Step(s, TrackAlloc(1, 10, true)), TrackAlloc(2, WORD - 5, true));
    assert t.entries == [Entry(2, WORD - 5), Entry(1, 10)];
    assert t.stats.currentAllocated == 5;
    assert t.entries[1].address == 1 && t.entries[0].address != 1;
  }

  /** The tracked blocks fit into the address space, as real allocations do. */
  predicate FitsMemory(a: Audited, op: Operation) {
    op.TrackAlloc? ==> SumSizes(a.s.entries) + op.size < WORD
  }

  ghost predicate ExactInMemory(a: Audited) {
    Exact(a) && BytePeakExact(a) && SumSizes(a.s.entries) < WORD
  }

  lemma StepExactInMemory(a: Audited, op: Operation)
    requires ExactInMemory(a) && FitsMemory(a, op)
    ensures ExactInMemory(AuditedStep(a, op))
  {
    StepExact(a, op);
    var s := a.s;
    match op
    case TrackAlloc(ptr, size, _) =>
      assert ([Entry(ptr, size)] + s.entries)[1..] == s.entries;
    case TrackFree(ptr) =>
      if ptr != 0 && s.initialized && s.config.tracking && FindByPointer(s.entries, ptr) < |s.entries| {
        FreeKeepsBytePeakExactly(a, ptr);
        SumSizesWithout(s.entries, FindByPointer(s.entries, ptr));
      }
    case _ =>
  }

  /** On every run whose tracked blocks fit into the address space, the byte peak is exact as well, and the
      byte counters are the true sums. */
  lemma BytePeakExactInMemory(start: Audited, ops: seq<Operation>)
    requires Loaded(start.s) && Admitted(AuditedStep, FitsMemory, start, ops)
    ensures ExactInMemory(Run(AuditedStep, start, ops))
  {
    forall a, op | ExactInMemory(a) && FitsMemory(a, op) ensures ExactInMemory(AuditedStep(a, op)) {
      StepExactInMemory(a, op);
    }
    Invariant(AuditedStep, FitsMemory, ExactInMemory, start, ops);
  }

  /** The statistics are exact on every run, through any number of cleanups and new initializations: the
      current counters are the sum and the number of the live entries; total_allocated, total_freed and
      total_blocks are the bytes that entered the list, the bytes that frees removed from it and the number of
      entries added; and the block peak is the largest length since then. What entered was freed, dropped by
      clear_leaks, or is still there. Byte counters wrap at 2^64. */
  lemma StatisticsExact(start: Audited, ops: seq<Operation>)
    requires Loaded(start.s)
    ensures var a := Run(AuditedStep, start, ops);
            && Exact(a)
            && (a.s.initialized ==>
                  a.s.stats.totalAllocated
                  == (a.s.stats.totalFreed + a.s.stats.currentAllocated + a.dropped) % 0x1_0000_0000_0000_0000)
  {
    forall a, op | Exact(a) ensures Exact(AuditedStep(a, op)) { StepExact(a, op); }
    AlwaysInvariant(AuditedStep, Exact, start, ops);
    var a := Run(AuditedStep, start, ops);
    if a.s.initialized { StatisticsBalance(a); }
  }

  lemma StepExact(a: Audited, op: Operation)
    requires Exact(a)
    ensures Exact(AuditedStep(a, op))
  {
    match op
    case TrackAlloc(_, _, _) => AllocExact(a, op);
    case TrackFree(_) => FreeExact(a, op);
    case ClearLeaks =>
    case _ =>
  }

  /** With threshold 0 every live block counts as a leak, and so it does with threshold 1. */
  lemma {:induction false} AllBlocksAreLeaks(entries: seq<Entry>)
    ensures CountAtLeast(entries, 0) == |entries|
    ensures (forall i :: 0 <= i < |entries| ==> entries[i].size != 0) ==> CountAtLeast(entries, 1) == |entries|
  {
    if entries != [] { AllBlocksAreLeaks(entries[1..]); }
  }

  lemma {:induction false} CountAppend(entries: seq<Entry>, e: Entry, threshold: nat)
    ensures CountAtLeast(entries + [e], threshold)
            == CountAtLeast(entries, threshold) + if e.size >= threshold then 1 else 0
  {
    if entries != [] {
      CountAppend(entries[1..], e, threshold);
      assert (entries + [e])[1..] == entries[1..] + [e];
    }
  }

  predicate LargeAt(entries: seq<Entry>, threshold: nat, i: nat) {
    i < |entries| && entries[i].size >= threshold
  }

  /** The leaks reported are the live blocks of at least the threshold. */
  lemma {:induction false} LeaksAreTheLargeBlocks(entries: seq<Entry>, threshold: nat)
    ensures CountAtLeast(entries, threshold) == |set i: nat | i < |entries| && LargeAt(entries, threshold, i)|
  {
    var large := set i: nat | i < |entries| && LargeAt(entries, threshold, i);
    if entries == [] {
      assert large == {};
    } else {
      var n := |entries| - 1;
      var rest, last := entries[..n], entries[n];
      LeaksAreTheLargeBlocks(rest, threshold);
      assert entries == rest + [last];
      CountAppend(rest, last, threshold);
      var before := set i: nat | i < |rest| && LargeAt(rest, threshold, i);
      assert forall i: nat :: i < n ==> (LargeAt(entries, threshold, i) <==> LargeAt(rest, threshold, i));
      assert large == before + if last.size >= threshold then {n} else {};
    }
  }

  // ---- A free removes the entry tracked last for its pointer ----------------------------------

  /** `big` is `small` with one more entry for p, which is the first one for p. */
  predicate HasExtra(big: seq<Entry>, small: seq<Entry>, p: nat, size: Word) {
    && |big| == |small| + 1
    && (|| (big[0] == Entry(p, size) && big[1..] == small)
        || (&& small != [] && small[0].address != p && big[0] == small[0]
            && HasExtra(big[1..], small[1..], p, size)))
  }

  /** The operation tracks or frees a pointer other than p. */
  predicate OtherPointer(p: nat, op: Operation) {
    (op.TrackAlloc? || op.TrackFree?) && op.ptr != p
  }

  lemma PushKeepsExtra(big: seq<Entry>, small: seq<Entry>, p: nat, size: Word, e: Entry)
    requires HasExtra(big, small, p, size) && e.address != p
    ensures HasExtra([e] + big, [e] + small, p, size)
  {
    assert ([e] + big)[1..] == big && ([e] + small)[1..] == small;
  }

  /** The list without its first entry for q. */
  function Removed(entries: seq<Entry>, q: nat): seq<Entry> {
    if entries == [] then [] else if entries[0].address == q then entries[1..]
    else [entries[0]] + Removed(entries[1..], q)
  }

  lemma {:induction false} RemovedIsWithout(entries: seq<Entry>, q: nat)
    ensures var i := FindByPointer(entries, q);
            Removed(entries, q) == if i < |entries| then Without(entries, i) else entries
  {
    if entries == [] {
    } else if entries[0].address == q {
      assert Without(entries, 0) == entries[1..];
    } else {
      RemovedIsWithout(entries[1..], q);
      var i := FindByPointer(entries, q);
      if i < |entries| {
        WithoutTail(entries, i);
      } else {
        assert entries == [entries[0]] + entries[1..];
      }
    }
  }

  lemma {:induction false} RemoveKeepsExtra(big: seq<Entry>, small: seq<Entry>, p: nat, size: Word, q: nat)
    requires HasExtra(big, small, p, size) && q != p
    ensures HasExtra(Removed(big, q), Removed(small, q), p, size)
  {
    if big[0] == Entry(p, size) && big[1..] == small {
      assert Removed(big, q)[1..] == Removed(small, q);
    } else if small[0].address != q {
      RemoveKeepsExtra(big[1..], small[1..], p, size, q);
      assert Removed(big, q)[1..] == Removed(big[1..], q);
      assert Removed(small, q)[1..] == Removed(small[1..], q);
    }
  }

  /** What tracking and freeing do to the list. */
  lemma StepEntries(s: Context, op: Operation)
    requires op.TrackAlloc? || op.TrackFree?
    ensures var t := Step(s, op);
            && t.initialized == s.initialized && t.config == s.config
            && t.entries == if !s.initialized || !s.config.tracking || op.ptr == 0 then s.entries
                            else if op.TrackFree? then Removed(s.entries, op.ptr)
                            else if op.size == 0 || !op.nodeAvailable then s.entries
                            else [Entry(op.ptr, op.size)] + s.entries
  {
    if op.TrackFree? { RemovedIsWithout(s.entries, op.ptr); }
  }

  lemma StepKeepsExtra(b: Context, s: Context, p: nat, size: Word, op: Operation)
    requires HasExtra(b.entries, s.entries, p, size) && OtherPointer(p, op)
    requires b.initialized == s.initialized && b.config == s.config
    ensures HasExtra(Step(b, op).entries, Step(s, op).entries, p, size)
    ensures Step(b, op).initialized == b.initialized && Step(b, op).config == b.config
    ensures Step(s, op).initialized == s.initialized && Step(s, op).config == s.config
  {
    StepEntries(b, op);
    StepEntries(s, op);
    if op.TrackAlloc? {
      PushKeepsExtra(b.entries, s.entries, p, size, Entry(op.ptr, op.size));
    } else {
      RemoveKeepsExtra(b.entries, s.entries, p, size, op.ptr);
    }
  }

  lemma {:induction false} RunKeepsExtra(b: Context, s: Context, p: nat, size: Word, ops: seq<Operation>)
    requires HasExtra(b.entries, s.entries, p, size) && forall op <- ops :: OtherPointer(p, op)
    requires b.initialized == s.initialized && b.config == s.config
    ensures HasExtra(Run(Step, b, ops).entries, Run(Step, s, ops).entries, p, size)
    ensures Run(Step, b, ops).initialized == b.initialized && Run(Step, b, ops).config == b.config
    decreases ops
  {
    if ops != [] {
      assert ops[0] in ops;
      StepKeepsExtra(b, s, p, size, ops[0]);
      RunKeepsExtra(Step(b, ops[0]), Step(s, ops[0]), p, size, ops[1..]);
    }
  }

  /** Tracking p and freeing p around any operations on other pointers leaves the list exactly as those
      operations alone would, even when p was already tracked before: a free removes the most recent entry
      for its pointer, and every other entry keeps its place. */
  lemma FreeRemovesMostRecent(s: Context, p: nat, size: Word, ops: seq<Operation>)
    requires s.initialized && s.config.tracking && p != 0 && size != 0
    requires forall op <- ops :: OtherPointer(p, op)
    ensures var b := Run(Step, Step(s, TrackAlloc(p, size, true)), ops);
            Step(b, TrackFree(p)).entries == Run(Step, s, ops).entries
  {
    var b := Step(s, TrackAlloc(p, size, true));
    assert b.entries[1..] == s.entries;
    RunKeepsExtra(b, s, p, size, ops);
    var c := Run(Step, b, ops);
    ExtraIsRemoved(c.entries, Run(Step, s, ops).entries, p, size);
    RemovedIsWithout(c.entries, p);
  }

  lemma {:induction false} ExtraIsRemoved(big: seq<Entry>, small: seq<Entry>, p: nat, size: Word)
    requires HasExtra(big, small, p, size)
    ensures FindByPointer(big, p) < |big| && Removed(big, p) == small
  {
    if !(big[0] == Entry(p, size) && big[1..] == small) {
      ExtraIsRemoved(big[1..], small[1..], p, size);
      assert small == [small[0]] + small[1..];
    }
  }

  // ---- The doubly linked list -----------------------------------------------------------------

  /** struct memory_block, without the fields that only feed the leak report. */
  class Block {
    var address: nat
    var size: Word
    var next: Block?
    var prev: Block?

    constructor (address: nat, size: Word)
      ensures this.address == address && this.size == size && next == null && prev == null
    {
      this.address, this.size, next, prev := address, size, null, null;
    }
  }

  class Tracker {
    ghost var nodes: seq<Block>      // the blocks, from the head of the list
    ghost var entries: seq<Entry>    // what they describe
    var blocks: Block?
    var initialized: bool
    var config: Config
    var stats: Stats

    /** The nodes are linked in both directions in this order, without cycles. */
    ghost predicate Linked()
      reads this, nodes
    {
      && (forall i, j :: 0 <= i < j < |nodes| ==> nodes[i] != nodes[j])
      && blocks == NodeAt(0)
      && (forall i {:trigger nodes[i].prev} :: 0 <= i < |nodes| ==>
            nodes[i].prev == if i == 0 then null else nodes[i - 1])
      && (forall i {:trigger nodes[i].next} :: 0 <= i < |nodes| ==>
            nodes[i].next == if i == |nodes| - 1 then null else nodes[i + 1])
    }

    ghost function NodeAt(i: int): Block?
      reads this
    {
      if 0 <= i < |nodes| then nodes[i] else null
    }

    ghost predicate Valid()
      reads this, nodes
    {
      && Linked() && |entries| == |nodes|
      && forall i :: 0 <= i < |nodes| ==> entries[i] == Entry(nodes[i].address, nodes[i].size)
    }

    ghost function State(): Context
      reads this
    {
      Context(initialized, config, entries, stats)
    }

    constructor ()
      ensures Valid() && Loaded(State())
      ensures !initialized && entries == [] && blocks == null
      ensures config == Config(false, false) && stats == Stats(0, 0, 0, 0, 0, 0, 0)
    {
      blocks, nodes, entries := null, [], [];
      initialized, config := false, Config(false, false);
      stats := Stats(0, 0, 0, 0, 0, 0, 0);
    }

    /** memory_utils_block_find_by_ptr. */
    method FindByPtr(ptr: nat) returns (block: Block?, ghost k: nat)
      requires Valid()
      ensures k == FindByPointer(entries, ptr) && block == NodeAt(FindByPointer(entries, ptr))
      ensures block != null ==> block.address == ptr
    {
      block, k := blocks, 0;
      while block != null
        invariant k <= |nodes| && block == NodeAt(k)
        invariant forall j :: 0 <= j < k ==> entries[j].address != ptr
        decreases |nodes| - k
      {
        if block.address == ptr {
          return;
        }
        block, k := block.next, k + 1;
      }
    }

    /** The pointer updates of memory_utils_block_remove, on node k. */
    method Unlink(block: Block, ghost k: nat)
      requires Valid() && k < |nodes| && nodes[k] == block
      modifies this`blocks, nodes
      ensures blocks == if k > 0 then nodes[0] else if |nodes| > 1 then nodes[1] else null
      ensures forall i {:trigger nodes[i].next} :: 0 <= i < |nodes| && i != k ==>
                nodes[i].next == if i == k - 1 then (if k + 1 < |nodes| then nodes[k + 1] else null)
                                 else if i == |nodes| - 1 then null else nodes[i + 1]
      ensures forall i {:trigger nodes[i].prev} :: 0 <= i < |nodes| && i != k ==>
                nodes[i].prev == if i == k + 1 then (if k > 0 then nodes[k - 1] else null)
                                 else if i == 0 then null else nodes[i - 1]
      ensures forall i :: 0 <= i < |nodes| ==> entries[i] == Entry(nodes[i].address, nodes[i].size)
    {
      if block.prev != null {
        block.prev.next := block.next;
      } else {
        blocks := block.next;
      }
      if block.next != null {
        block.next.prev := block.prev;
      }
    }

    /** memory_utils_block_remove: unlink and drop the block, which is node k. */
    method BlockRemove(block: Block, ghost k: nat)
      requires Valid() && k < |nodes| && nodes[k] == block
      modifies this`nodes, this`entries, this`blocks, nodes
      ensures Valid() && nodes == Without(old(nodes), k) && entries == Without(old(entries), k)
    {
      Unlink(block, k);
      nodes, entries := Without(nodes, k), Without(entries, k);
    }

    /** memory_utils_track_alloc. */
    method TrackAlloc(ptr: nat, size: Word, nodeAvailable: bool) returns (code: Code)
      requires Valid()
      modifies this, nodes
      ensures Valid() && (State(), code) == Apply(old(State()), Operation.TrackAlloc(ptr, size, nodeAvailable))
      ensures code == if ptr == 0 || size == 0 then Invalid
                      else if !old(initialized) then NotInitialized
                      else if old(config).tracking && !nodeAvailable then NoMemory else Success
      ensures initialized == old(initialized) && config == old(config)
      ensures code == Success && old(config).tracking ==>
                && entries == [Entry(ptr, size)] + old(entries)
                && stats.totalAllocated == (old(stats).totalAllocated + size) % 0x1_0000_0000_0000_0000
                && stats.totalFreed == old(stats).totalFreed
                && stats.currentAllocated == (old(stats).currentAllocated + size) % 0x1_0000_0000_0000_0000
                && stats.peakAllocated == Max(stats.currentAllocated, old(stats).peakAllocated)
                && stats.totalBlocks == old(stats).totalBlocks + 1
                && stats.currentBlocks == old(stats).currentBlocks + 1
                && stats.peakBlocks == Max(stats.currentBlocks, old(stats).peakBlocks)
      ensures code != Success || !old(config).tracking ==>
                blocks == old(blocks) && entries == old(entries) && stats == old(stats)
    {
      if ptr == 0 || size == 0 {
        return Invalid;
      }
      if !initialized {
        return NotInitialized;
      }
      if !config.tracking {
        return Success;
      }
      if !nodeAvailable {
        return NoMemory;
      }
      var block := new Block(ptr, size);
      PushFront(block);
      stats := stats.(totalAllocated := (stats.totalAllocated + size) % WORD,
                      currentAllocated := (stats.currentAllocated + size) % WORD,
                      totalBlocks := stats.totalBlocks + 1, currentBlocks := stats.currentBlocks + 1);
      stats := stats.(peakAllocated := Max(stats.currentAllocated, stats.peakAllocated),
                      peakBlocks := Max(stats.currentBlocks, stats.peakBlocks));
      code := Success;
    }

    method PushFront(block: Block)
      requires Valid() && block !in nodes && block.prev == null
      modifies this`blocks, this`nodes, this`entries, nodes, block
      ensures Valid() && nodes == [block] + old(nodes)
      ensures entries == [Entry(old(block.address), old(block.size))] + old(entries)
    {
      block.next := blocks;
      if blocks != null {
        blocks.prev := block;
      }
      blocks := block;
      nodes, entries := [block] + nodes, [Entry(block.address, block.size)] + entries;
    }

    /** memory_utils_track_free. */
    method TrackFree(ptr: nat) returns (code: Code)
      requires Valid()
      modifies this, nodes
      ensures Valid() && (State(), code) == Apply(old(State()), Operation.TrackFree(ptr))
    {
      if ptr == 0 {
        return Invalid;
      }
      if !initialized {
        return NotInitialized;
      }
      if !config.tracking {
        return Success;
      }
      var block, k := FindByPtr(ptr);
      if block == null {
        return NotFound;
      }
      stats := stats.(totalFreed := (stats.totalFreed + block.size) % WORD,
                      currentAllocated := (stats.currentAllocated - block.size) % WORD,
                      currentBlocks := stats.currentBlocks - 1);
      BlockRemove(block, k);
      code := Success;
    }

    /** memory_utils_detect_leaks: a negative code, or the number of live blocks of at least this size. */
    method DetectLeaks(threshold: nat) returns (code: Code, count: nat)
      requires Valid()
      ensures code == if initialized then Success else NotInitialized
      ensures count == if initialized && config.leakDetection then CountAtLeast(entries, threshold) else 0
    {
      count := 0;
      if !initialized {
        return NotInitialized, 0;
      }
      code := Success;
      if !config.leakDetection {
        return;
      }
      var block := blocks;
      ghost var k := 0;
      while block != null
        invariant k <= |nodes| && block == NodeAt(k)
        invariant count + CountAtLeast(entries[k..], threshold) == CountAtLeast(entries, threshold)
        decreases |nodes| - k
      {
        assert entries[k..][1..] == entries[k + 1..];
        if block.size >= threshold {
          count := count + 1;
        }
        block, k := block.next, k + 1;
      }
    }

    /** memory_utils_clear_leaks; freeing the nodes leaves nothing to model. */
    method ClearLeaks()
      requires Valid()
      modifies this
      ensures Valid() && State() == Step(old(State()), Operation.ClearLeaks)
      ensures initialized == old(initialized) && config == old(config)
      ensures entries == if initialized then [] else old(entries)
      ensures stats == if initialized then old(stats).(currentAllocated := 0, currentBlocks := 0) else old(stats)
    {
      if initialized {
        blocks, nodes, entries := null, [], [];
        stats := stats.(currentAllocated := 0, currentBlocks := 0);
      }
    }

    /** memory_utils_init. */
    method Init(argument: InitArgument) returns (code: Code)
      requires Valid()
      modifies this`initialized, this`config, this`stats
      ensures Valid() && (State(), code) == Apply(old(State()), Operation.Init(argument))
      ensures code == if !old(initialized) && argument.Given? && !argument.logOpens then IoError else Success
      ensures initialized <==> old(initialized) || code == Success
      ensures config == if old(initialized) then old(config) else
                          match argument
                          case Defaults => Config(true, true)
                          case Given(given, _) => given
      ensures stats == if !old(initialized) && code == Success then Stats(0, 0, 0, 0, 0, 0, 0) else old(stats)
    {
      if initialized {
        return Success;
      }
      config := if argument.Given? then argument.config else Config(true, true);
      if argument.Given? && !argument.logOpens {
        return IoError;
      }
      stats := Stats(0, 0, 0, 0, 0, 0, 0);
      initialized := true;
      code := Success;
    }

    /** memory_utils_cleanup, as far as it touches the tracker. */
    method Cleanup()
      requires Valid()
      modifies this
      ensures Valid() && State() == Step(old(State()), Operation.Cleanup)
      ensures !initialized && config == old(config) && stats == old(stats)
      ensures entries == if old(initialized) then [] else old(entries)
    {
      if initialized {
        blocks, nodes, entries := null, [], [];
        initialized := false;
      }
    }

    /** memory_utils_set_config; a null configuration is refused. */
    method SetConfig(given: Option<Config>) returns (code: Code)
      requires Valid()
      modifies this`config
      ensures Valid() && (State(), code) == Apply(old(State()), Operation.SetConfig(given))
      ensures code == if given.None? then Invalid else if !initialized then NotInitialized else Success
      ensures config == if code == Success then given.value else old(config)
    {
      if given.None? {
        return Invalid;
      }
      if !initialized {
        return NotInitialized;
      }
      config := given.value;
      code := Success;
    }
  }
}
