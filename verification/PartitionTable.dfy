/** The DDR partition table of U-Boot: an array that is appended to and shifted in place. */
module PartitionTable {
  import opened Lists
  import opened Runs
  import opened Options
  import opened MachineWords

  const DDR_MAX_PARTITIONS: nat := 32

  datatype Error = Invalid | NoDevice | NoSpace | Exists | NotFound | NoMemory

  datatype Status = Success | Failure(error: Error)

  /** struct ddr_partition. */
  datatype Partition = Partition(
    name: string, id: nat, start: nat, size: nat, kind: nat, flags: nat, priority: nat, refCount: nat)

  /** The table as a value: the first num_partitions slots, and the total size, an unsigned int. */
  datatype TableState = TableState(initialized: bool, parts: seq<Partition>, totalSize: nat)

  /** 2^32: the range of an unsigned int. */
  const UINT_RANGE: nat := 0x1_0000_0000

  // ---- The operations on values ---------------------------------------------------------------

  function IndexOfName(parts: seq<Partition>, name: string): (i: nat)
    ensures i <= |parts|
    ensures i < |parts| ==> parts[i].name == name
    ensures forall j :: 0 <= j < i ==> parts[j].name != name
  {
    IndexWhere(parts, (p: Partition) => p.name == name)
  }

  function IndexOfId(parts: seq<Partition>, id: nat): (i: nat)
    ensures i <= |parts|
    ensures i < |parts| ==> parts[i].id == id
    ensures forall j :: 0 <= j < i ==> parts[j].id != id
  {
    IndexWhere(parts, (p: Partition) => p.id == id)
  }

  /** The first slot with the id is where it is found. */
  lemma IndexOfIdIs(parts: seq<Partition>, id: nat, k: nat)
    requires k < |parts| && parts[k].id == id && forall j :: 0 <= j < k ==> parts[j].id != id
    ensures IndexOfId(parts, id) == k
  {
    assert IndexOfId(parts, id) >= k;
  }

  /** The partitions of a type, in table order. */
  function OfKind(parts: seq<Partition>, kind: nat): seq<Partition> {
    if parts == [] then []
    else if parts[0].kind == kind then [parts[0]] + OfKind(parts[1..], kind)
    else OfKind(parts[1..], kind)
  }

  /** ddr_partition_add: the id is the number of slots in use, plus one. */
  function Add(t: TableState, named: bool, p: Partition): (TableState, Status) {
    if !named then (t, Failure(Invalid))
    else if !t.initialized then (t, Failure(NoDevice))
    else if |t.parts| >= DDR_MAX_PARTITIONS then (t, Failure(NoSpace))
    else if IndexOfName(t.parts, p.name) < |t.parts| then (t, Failure(Exists))
    else
      (t.(parts := t.parts + [p.(id := |t.parts| + 1)], totalSize := (t.totalSize + p.size) % UINT_RANGE), Success)
  }

  /** ddr_partition_remove: the first slot with the id goes, the later ones move up. The total size stays. */
  function Remove(t: TableState, id: nat): (TableState, Status) {
    if !t.initialized then (t, Failure(NoDevice))
    else
      var i := IndexOfId(t.parts, id);
      if i == |t.parts| then (t, Failure(NotFound)) else (t.(parts := Without(t.parts, i)), Success)
  }

  datatype Operation = Init(memoryAvailable: bool) | AddPart(named: bool, p: Partition) | RemovePart(id: nat) | Cleanup

  function Step(t: TableState, op: Operation): TableState {
    match op
    case Init(memoryAvailable) => if t.initialized || !memoryAvailable then t else TableState(true, [], 0)
    case AddPart(named, p) => Add(t, named, p).0
    case RemovePart(id) => Remove(t, id).0
    case Cleanup => if t.initialized then TableState(false, [], 0) else t
  }

  // ---- Every run ------------------------------------------------------------------------------

  /** Names are unique, and the id of a slot is at least its position, counted from one. */
  ghost predicate Orderly(t: TableState) {
    && |t.parts| <= DDR_MAX_PARTITIONS
    && (!t.initialized ==> t.parts == [])
    && (forall i, j :: 0 <= i < j < |t.parts| ==> t.parts[i].name != t.parts[j].name)
    && forall i :: 0 <= i < |t.parts| ==> i + 1 <= t.parts[i].id <= DDR_MAX_PARTITIONS
  }

  lemma StepOrderly(t: TableState, op: Operation)
    requires Orderly(t)
    ensures Orderly(Step(t, op))
  {}

  lemma OrderlyOnEveryRun(start: TableState, ops: seq<Operation>)
    requires start == TableState(false, [], 0)
    ensures Orderly(Run(Step, start, ops))
  {
    forall t, op | Orderly(t) ensures Orderly(Step(t, op)) { StepOrderly(t, op); }
    AlwaysInvariant(Step, Orderly, start, ops);
  }

  /** The ids are 1, 2, ..., n in slot order. */
  predicate Numbered(parts: seq<Partition>) {
    forall i :: 0 <= i < |parts| ==> parts[i].id == i + 1
  }

  /** A removal keeps the numbering if and only if it takes the last slot. */
  lemma RemoveKeepsNumberingExactly(parts: seq<Partition>, i: nat)
    requires Numbered(parts) && i < |parts|
    ensures Numbered(Without(parts, i)) <==> i == |parts| - 1
  {
    var rest := Without(parts, i);
    if i < |parts| - 1 { assert rest[i] == parts[i + 1]; }
  }

  /** The operation, if it removes a partition, removes that of the last slot. */
  predicate TakesLast(t: TableState, op: Operation) {
    op.RemovePart? ==> IndexOfId(t.parts, op.id) + 1 >= |t.parts|
  }

  ghost predicate NumberedTable(t: TableState) {
    Numbered(t.parts)
  }

  lemma StepNumbered(t: TableState, op: Operation)
    requires NumberedTable(t) && TakesLast(t, op)
    ensures NumberedTable(Step(t, op))
  {
    if op.RemovePart? && IndexOfId(t.parts, op.id) < |t.parts| {
      RemoveKeepsNumberingExactly(t.parts, IndexOfId(t.parts, op.id));
    }
  }

  /** On every run whose removals take the last slot, the ids are exactly 1..n, so each id names one slot. */
  lemma NumberedOnLastInFirstOutRuns(start: TableState, ops: seq<Operation>)
    requires start == TableState(false, [], 0) && Admitted(Step, TakesLast, start, ops)
    ensures NumberedTable(Run(Step, start, ops))
  {
    forall t, op | NumberedTable(t) && TakesLast(t, op) ensures NumberedTable(Step(t, op)) { StepNumbered(t, op); }
    Invariant(Step, TakesLast, NumberedTable, start, ops);
  }

  /** Removing any slot but the last of a numbered table makes the next addition repeat an id: the new
      partition gets the id of the one that is then last, and by that id only the older one is found. */
  lemma MiddleRemovalRepeatsId(t: TableState, i: nat, p: Partition)
    requires t.initialized && Numbered(t.parts) && i + 1 < |t.parts| <= DDR_MAX_PARTITIONS
    requires IndexOfName(t.parts, p.name) == |t.parts|
    ensures var (v, status) := Add(Remove(t, i + 1).0, true, p);
            var n := |t.parts|;
            && status.Success? && |v.parts| == n
            && v.parts[n - 1].id == v.parts[n - 2].id == n && v.parts[n - 1].name == p.name
            && IndexOfId(v.parts, n) == n - 2
  {
    var n, rest := |t.parts|, Without(t.parts, i);
    IndexOfIdIs(t.parts, i + 1, i);
    assert IndexOfName(rest, p.name) == |rest| by {
      assert forall j :: 0 <= j < |rest| ==> rest[j].name != p.name;
    }
    var parts := rest + [p.(id := n)];
    assert parts[n - 2] == t.parts[n - 1];
    IndexOfIdIs(parts, n, n - 2);
  }

  /** A removal deletes one partition from the list of its own type, at the place the earlier slots of the
      type give it, and leaves the lists of the other types as they are. */
  lemma {:induction false} RemovalWithinKinds(parts: seq<Partition>, i: nat, kind: nat)
    requires i < |parts|
    ensures var before, after := OfKind(parts, kind), OfKind(Without(parts, i), kind);
            if parts[i].kind != kind then after == before
            else
              var k := |OfKind(parts[..i], kind)|;
              k < |before| && before[k] == parts[i] && after == Without(before, k)
  {
    if i == 0 {
      assert Without(parts, i) == parts[1..];
      assert OfKind(parts[..i], kind) == [];
    } else {
      WithoutTail(parts, i);
      RemovalWithinKinds(parts[1..], i - 1, kind);
      assert parts[..i][1..] == parts[1..][..i - 1];
      var rest, k := OfKind(parts[1..], kind), |OfKind(parts[1..][..i - 1], kind)|;
      if parts[i].kind == kind && parts[0].kind == kind {
        assert Without([parts[0]] + rest, k + 1) == [parts[0]] + Without(rest, k);
      }
    }
  }

  lemma {:induction false} KindAppend(parts: seq<Partition>, p: Partition, kind: nat)
    ensures OfKind(parts + [p], kind) == OfKind(parts, kind) + if p.kind == kind then [p] else []
  {
    if parts != [] {
      KindAppend(parts[1..], p, kind);
      assert (parts + [p])[1..] == parts[1..] + [p];
    }
  }

  /** One more slot. */
  lemma KindStep(parts: seq<Partition>, i: nat, kind: nat)
    requires i < |parts|
    ensures OfKind(parts[..i + 1], kind) == OfKind(parts[..i], kind) + if parts[i].kind == kind then [parts[i]] else []
  {
    assert parts[..i + 1] == parts[..i] + [parts[i]];
    KindAppend(parts[..i], parts[i], kind);
  }

  // ---- The table against the calls that filled it ---------------------------------------------

  /** The table with an account of the calls since the last initialization or cleanup: the partitions passed to
      successful additions, without those that were removed again, and the sizes of all that were added and of all
      that were removed. */
  datatype Filled = Filled(t: TableState, given: seq<Partition>, addedBytes: nat, removedBytes: nat)

  function FilledStep(f: Filled, op: Operation): Filled {
    var next := Step(f.t, op);
    match op
    case Init(_) => if f.t.initialized == next.initialized then f.(t := next) else Filled(next, [], 0, 0)
    case Cleanup => if f.t.initialized == next.initialized then f.(t := next) else Filled(next, [], 0, 0)
    case AddPart(named, p) =>
      if Add(f.t, named, p).1.Failure? then f.(t := next)
      else f.(t := next, given := f.given + [p], addedBytes := f.addedBytes + p.size)
    case RemovePart(id) =>
      var i := IndexOfId(f.t.parts, id);
      if Remove(f.t, id).1.Failure? || i >= |f.given| then f.(t := next)
      else f.(t := next, given := Without(f.given, i), removedBytes := f.removedBytes + f.given[i].size)
  }

  function SumSizes(parts: seq<Partition>): nat {
    if parts == [] then 0 else parts[0].size + SumSizes(parts[1..])
  }

  lemma {:induction false} SumSizesAppend(parts: seq<Partition>, p: Partition)
    ensures SumSizes(parts + [p]) == SumSizes(parts) + p.size
  {
    if parts != [] {
      SumSizesAppend(parts[1..], p);
      assert (parts + [p])[1..] == parts[1..] + [p];
    }
  }

  lemma {:induction false} SumSizesWithout(parts: seq<Partition>, i: nat)
    requires i < |parts|
    ensures SumSizes(Without(parts, i)) == SumSizes(parts) - parts[i].size
  {
    if i > 0 {
      SumSizesWithout(parts[1..], i - 1);
      WithoutTail(parts, i);
    } else {
      assert Without(parts, i) == parts[1..];
    }
  }

  /** Slot for slot the table holds the name, start, size, type, flags, priority and reference count passed. */
  predicate AsGiven(parts: seq<Partition>, given: seq<Partition>) {
    |parts| == |given| && forall i :: 0 <= i < |parts| ==>
      && parts[i].name == given[i].name && parts[i].start == given[i].start && parts[i].size == given[i].size
      && parts[i].kind == given[i].kind && parts[i].flags == given[i].flags
      && parts[i].priority == given[i].priority && parts[i].refCount == given[i].refCount
  }

  lemma {:induction false} SumSizesSame(parts: seq<Partition>, given: seq<Partition>)
    requires AsGiven(parts, given)
    ensures SumSizes(parts) == SumSizes(given)
  {
    if parts != [] { SumSizesSame(parts[1..], given[1..]); }
  }

  ghost predicate Faithful(f: Filled) {
    && Orderly(f.t) && AsGiven(f.t.parts, f.given)
    && f.t.totalSize == f.addedBytes % 0x1_0000_0000
    && f.addedBytes == f.removedBytes + SumSizes(f.given)
  }

  lemma AddFaithful(f: Filled, op: Operation)
    requires op.AddPart? && Faithful(f)
    ensures Faithful(FilledStep(f, op))
  {
    StepOrderly(f.t, op);
    SumSizesAppend(f.given, op.p);
    ModAdd(f.addedBytes, op.p.size, UINT_RANGE);
  }

  lemma RemoveFaithful(f: Filled, op: Operation)
    requires op.RemovePart? && Faithful(f)
    ensures Faithful(FilledStep(f, op))
  {
    StepOrderly(f.t, op);
    var i := IndexOfId(f.t.parts, op.id);
    if f.t.initialized && i < |f.t.parts| { SumSizesWithout(f.given, i); }
  }

  lemma StepFaithful(f: Filled, op: Operation)
    requires Faithful(f)
    ensures Faithful(FilledStep(f, op))
  {
    match op
    case AddPart(_, _) => AddFaithful(f, op);
    case RemovePart(_) => RemoveFaithful(f, op);
    case _ => StepOrderly(f.t, op);
  }

  /** On every run the table holds, slot for slot, what was passed to the additions that succeeded and was not
      removed since, the id aside; a partition is found by its name in its own slot, with the start and the size it
      was added with; and total_size is the sum of all sizes ever added, modulo 2^32. */
  lemma TableIsAsFilled(start: Filled, ops: seq<Operation>)
    requires start == Filled(TableState(false, [], 0), [], 0, 0)
    ensures var f := Run(FilledStep, start, ops);
            && Faithful(f)
            && forall i :: 0 <= i < |f.given| ==> IndexOfName(f.t.parts, f.given[i].name) == i
  {
    forall f, op | Faithful(f) ensures Faithful(FilledStep(f, op)) { StepFaithful(f, op); }
    AlwaysInvariant(FilledStep, Faithful, start, ops);
  }

  /** What is found by its name right after an addition is what was passed. */
  lemma FoundAsAdded(t: TableState, p: Partition)
    requires Add(t, true, p).1.Success?
    ensures var u := Add(t, true, p).0;
            var i := IndexOfName(u.parts, p.name);
            && i == |t.parts| < |u.parts| && u.parts[..i] == t.parts
            && u.parts[i] == Partition(p.name, i + 1, p.start, p.size, p.kind, p.flags, p.priority, p.refCount)
  {
    var u := Add(t, true, p).0;
    assert forall j :: 0 <= j < |t.parts| ==> u.parts[j].name != p.name;
    assert u.parts[|t.parts|].name == p.name;
  }

  /** Removals do not take their sizes off the total, so after any run total_size is the sum of the sizes in the
      table, modulo 2^32, if and only if the sizes removed sum up to a multiple of 2^32. */
  lemma TotalSizeExactly(start: Filled, ops: seq<Operation>)
    requires start == Filled(TableState(false, [], 0), [], 0, 0)
    ensures var f := Run(FilledStep, start, ops);
            f.t.totalSize == SumSizes(f.t.parts) % 0x1_0000_0000 <==> f.removedBytes % 0x1_0000_0000 == 0
  {
    TableIsAsFilled(start, ops);
    var f := Run(FilledStep, start, ops);
    SumSizesSame(f.t.parts, f.given);
    ModMoves(SumSizes(f.given), f.removedBytes, UINT_RANGE);
  }

  // ---- The table in memory --------------------------------------------------------------------

  class Table {
    const slots: array<Partition>
    var num: nat
    var totalSize: nat
    var initialized: bool

    ghost predicate Valid()
      reads this
    {
      slots.Length == DDR_MAX_PARTITIONS && num <= DDR_MAX_PARTITIONS
    }

    ghost function State(): TableState
      requires Valid()
      reads this, slots
    {
      TableState(initialized, slots[..num], totalSize)
    }

    constructor (blank: Partition)
      ensures Valid() && State() == TableState(false, [], 0)
      ensures slots.Length == 32 && num == 0 && totalSize == 0 && !initialized
    {
      slots := new Partition[DDR_MAX_PARTITIONS](_ => blank);
      num, totalSize, initialized := 0, 0, false;
    }

    /** ddr_partition_init. It adds the default partitions while the table still counts as uninitialized, so
        every one of these additions is refused and the table starts out empty. */
    method Init(memoryAvailable: bool, defaults: seq<Partition>) returns (status: Status)
      requires Valid()
      modifies this, slots
      ensures Valid() && State() == Step(old(State()), Operation.Init(memoryAvailable))
      ensures status == if old(initialized) || memoryAvailable then Success else Failure(NoMemory)
      ensures initialized <==> status.Success?
      ensures !old(initialized) && initialized ==> num == 0 && totalSize == 0
    {
      if initialized {
        return Success;
      }
      if !memoryAvailable {
        return Failure(NoMemory);
      }
      num, totalSize := 0, 0;
      var i := 0;
      while i < |defaults|
        invariant Valid() && !initialized && num == 0 && totalSize == 0
      {
        var refused := AddPart(true, defaults[i]);
        i := i + 1;
      }
      initialized := true;
      status := Success;
    }

    /** ddr_partition_add. */
    method AddPart(named: bool, p: Partition) returns (status: Status)
      requires Valid()
      modifies this`num, this`totalSize, slots
      ensures Valid() && (State(), status) == Add(old(State()), named, p)
      ensures State() == Step(old(State()), Operation.AddPart(named, p))
      ensures status == if !named then Failure(Invalid) else if !initialized then Failure(NoDevice)
                        else if old(num) >= 32 then Failure(NoSpace)
                        else if exists i :: 0 <= i < old(num) && old(slots[..])[i].name == p.name then Failure(Exists)
                        else Success
      ensures status.Success? ==>
                && num == old(num) + 1 && slots[..old(num)] == old(slots[..num])
                && slots[old(num)]
                   == Partition(p.name, old(num) + 1, p.start, p.size, p.kind, p.flags, p.priority, p.refCount)
                && totalSize == (old(totalSize) + p.size) % 0x1_0000_0000
      ensures status.Failure? ==> num == old(num) && slots[..] == old(slots[..]) && totalSize == old(totalSize)
    {
      if !named {
        return Failure(Invalid);
      }
      if !initialized {
        return Failure(NoDevice);
      }
      if num >= DDR_MAX_PARTITIONS {
        return Failure(NoSpace);
      }
      var i := 0;
      while i < num
        invariant i <= num
        invariant forall j :: 0 <= j < i ==> slots[j].name != p.name
      {
        if slots[i].name == p.name {
          return Failure(Exists);
        }
        i := i + 1;
      }
      ghost var before := slots[..num];
      slots[num] := p.(id := num + 1);
      num := num + 1;
      totalSize := (totalSize + p.size) % UINT_RANGE;
      assert slots[..num] == before + [p.(id := num)];
      status := Success;
    }

    /** The loop that moves the slots behind i up by one. */
    method ShiftDown(i: nat)
      requires Valid() && i < num
      modifies slots
      ensures slots[..num - 1] == Without(old(slots[..num]), i)
    {
      var j := i;
      while j < num - 1
        invariant i <= j < num
        invariant forall k :: 0 <= k < i ==> slots[k] == old(slots[k])
        invariant forall k :: i <= k < j ==> slots[k] == old(slots[k + 1])
        invariant forall k :: j <= k < num ==> slots[k] == old(slots[k])
      {
        slots[j] := slots[j + 1];
        j := j + 1;
      }
    }

    /** ddr_partition_remove. */
    method RemovePart(id: nat) returns (status: Status)
      requires Valid()
      modifies this`num, slots
      ensures Valid() && (State(), status) == Remove(old(State()), id)
      ensures State() == Step(old(State()), Operation.RemovePart(id))
      ensures status == if !initialized then Failure(NoDevice)
                        else if exists i :: 0 <= i < old(num) && old(slots[..])[i].id == id then Success
                        else Failure(NotFound)
      ensures num == old(num) - if status.Success? then 1 else 0
    {
      if !initialized {
        return Failure(NoDevice);
      }
      var i := 0;
      while i < num
        invariant i <= num
        invariant forall j :: 0 <= j < i ==> slots[j].id != id
      {
        if slots[i].id == id {
          IndexOfIdIs(slots[..num], id, i);
          ShiftDown(i);
          num := num - 1;
          return Success;
        }
        i := i + 1;
      }
      status := Failure(NotFound);
    }

    /** ddr_partition_get; `wanted` says whether there is a place for the result. */
    method GetPart(id: nat, wanted: bool) returns (status: Status, p: Option<Partition>)
      requires Valid()
      ensures var i := IndexOfId(slots[..num], id);
              p == if wanted && initialized && i < num then Some(slots[i]) else None
      ensures status == if !wanted then Failure(Invalid) else if !initialized then Failure(NoDevice)
                        else if p.None? then Failure(NotFound) else Success
    {
      p := None;
      if !wanted {
        return Failure(Invalid), None;
      }
      if !initialized {
        return Failure(NoDevice), None;
      }
      var i := 0;
      while i < num
        invariant i <= num
        invariant forall j :: 0 <= j < i ==> slots[j].id != id
      {
        if slots[i].id == id {
          return Success, Some(slots[i]);
        }
        i := i + 1;
      }
      status := Failure(NotFound);
    }

    /** ddr_partition_find: the partition with this name, whose id is the return value. A null name is refused. */
    method FindPart(name: Option<string>) returns (status: Status, p: Option<Partition>)
      requires Valid()
      ensures p == if name.Some? && initialized && IndexOfName(slots[..num], name.value) < num
                   then Some(slots[IndexOfName(slots[..num], name.value)]) else None
      ensures status == if name.None? then Failure(Invalid) else if !initialized then Failure(NoDevice)
                        else if p.None? then Failure(NotFound) else Success
    {
      p := None;
      if name.None? {
        return Failure(Invalid), None;
      }
      if !initialized {
        return Failure(NoDevice), None;
      }
      var i := 0;
      while i < num
        invariant i <= num
        invariant forall j :: 0 <= j < i ==> slots[j].name != name.value
      {
        if slots[i].name == name.value {
          return Success, Some(slots[i]);
        }
        i := i + 1;
      }
      status := Failure(NotFound);
    }

    /** ddr_partition_get_by_type: element `index` of the table filtered by the type. */
    method GetByKind(kind: nat, index: nat, wanted: bool) returns (status: Status, p: Option<Partition>)
      requires Valid()
      ensures var found := OfKind(slots[..num], kind);
              p == if wanted && initialized && index < |found| then Some(found[index]) else None
      ensures status == if !wanted then Failure(Invalid) else if !initialized then Failure(NoDevice)
                        else if p.None? then Failure(NotFound) else Success
    {
      p := None;
      if !wanted {
        return Failure(Invalid), None;
      }
      if !initialized {
        return Failure(NoDevice), None;
      }
      var i, count := 0, 0;
      while i < num
        invariant i <= num && count == |OfKind(slots[..i], kind)| <= index
      {
        KindStep(slots[..num], i, kind);
        assert slots[..num][..i] == slots[..i] && slots[..num][..i + 1] == slots[..i + 1];
        if slots[i].kind == kind {
          if count == index {
            RemovalWithinKinds(slots[..num], i, kind);
            return Success, Some(slots[i]);
          }
          count := count + 1;
        }
        i := i + 1;
      }
      status := Failure(NotFound);
    }

    /** ddr_partition_cleanup. */
    method Cleanup()
      requires Valid()
      modifies this
      ensures Valid() && State() == Step(old(State()), Operation.Cleanup)
      ensures !initialized && (old(initialized) ==> num == 0 && totalSize == 0)
    {
      if initialized {
        num, totalSize, initialized := 0, 0, false;
      }
    }
  }
}
