/** The DDR memory layout: its validation, the overlap check, and the current layout. */
module DdrLayout {
  import opened MachineWords
  import opened Intervals
  import opened Options

  datatype Error = Invalid | Overflow | NoMemory | NoDevice | NotFound | NoSpace

  datatype Status = Success | Failure(error: Error)

  /** struct ddr_region; addresses and sizes are 64-bit words. */
  datatype Region = Region(named: bool, start: Word, size: Word)

  /** The regions of struct ddr_layout, in order: bootloader, uboot, kernel, dtb, reserved, npu, gpu, vpu,
      system, secure, dma, user. */
  type Layout = l: seq<Region> | |l| == 12 witness seq(12, _ => Region(false, 0, 0))

  const SYSTEM: nat := 8
  const VALIDATED: nat := 9  // the last three regions are optional and are not validated

  /** start + size in 64-bit arithmetic. */
  function End(r: Region): Word {
    (r.start + r.size) % WORD
  }

  // ---- The checks -----------------------------------------------------------------------------

  /** ddr_layout_validate_region. */
  function ValidateRegion(r: Region): Status {
    if !r.named || r.size == 0 || r.start == 0 then Failure(Invalid)
    else if End(r) < r.start then Failure(Overflow)
    else Success
  }

  /** A validated region is a non-empty range of addresses that does not leave the word. */
  lemma ValidateRegionExactly(r: Region)
    ensures ValidateRegion(r) == if !r.named || r.start == 0 || r.size == 0 then Failure(Invalid)
                                 else if r.start + r.size >= 0x1_0000_0000_0000_0000 then Failure(Overflow)
                                 else Success
  {
    EndValue(r);
  }

  lemma EndValue(r: Region)
    ensures End(r) == if r.start + r.size < WORD then r.start + r.size else r.start + r.size - WORD
  {}

  /** ddr_layout_validate: the status of the first region that fails. */
  method Validate(layout: Layout) returns (status: Status)
    ensures status.Success? <==> forall i :: 0 <= i < 9 ==> ValidateRegion(layout[i]).Success?
    ensures status.Failure? ==>
              exists i :: 0 <= i < 9 && status == ValidateRegion(layout[i])
                && forall j :: 0 <= j < i ==> ValidateRegion(layout[j]).Success?
  {
    var i := 0;
    while i < VALIDATED
      invariant i <= VALIDATED
      invariant forall j :: 0 <= j < i ==> ValidateRegion(layout[j]).Success?
    {
      status := ValidateRegion(layout[i]);
      if status.Failure? {
        return;
      }
      i := i + 1;
    }
    status := Success;
  }

  /** What the overlap check demands of two regions. */
  predicate Accepted(a: Region, b: Region) {
    a.size == 0 || b.size == 0 || End(a) <= b.start || End(b) <= a.start
  }

  predicate AllAccepted(regions: seq<Region>) {
    forall i, j :: 0 <= i < j < |regions| ==> Accepted(regions[i], regions[j])
  }

  /** ddr_layout_check_overlap. */
  method CheckOverlap(regions: seq<Region>) returns (status: Status)
    ensures status == if AllAccepted(regions) then Success else Failure(Invalid)
  {
    var i := 0;
    while i < |regions|
      invariant i <= |regions|
      invariant forall k, l :: 0 <= k < i && k < l < |regions| ==> Accepted(regions[k], regions[l])
    {
      if regions[i].size != 0 {
        var j := i + 1;
        while j < |regions|
          invariant i < j <= |regions|
          invariant forall l :: i < l < j ==> Accepted(regions[i], regions[l])
        {
          if regions[j].size != 0 {
            if !(End(regions[i]) <= regions[j].start || End(regions[j]) <= regions[i].start) {
              assert !Accepted(regions[i], regions[j]);
              return Failure(Invalid);
            }
          }
          j := j + 1;
        }
      }
      i := i + 1;
    }
    status := Success;
  }

  // ---- What the checks decide -----------------------------------------------------------------

  /** The address lies in the region, counting on from 0 after the last address of the word. */
  predicate Holds(r: Region, addr: Word) {
    (addr - r.start) % WORD < r.size
  }

  ghost predicate Disjoint(a: Region, b: Region) {
    forall addr: Word :: !(Holds(a, addr) && Holds(b, addr))
  }

  predicate Wraps(r: Region) {
    r.start + r.size >= WORD
  }

  lemma HoldsValue(r: Region, addr: Word)
    ensures Holds(r, addr) <==>
            if addr >= r.start then addr - r.start < r.size else addr - r.start + WORD < r.size
  {
    var d := addr - r.start;
    if d >= 0 {
      DivModUnique(d, WORD, 0, d);
    } else {
      DivModUnique(d, WORD, -1, d + WORD);
    }
  }

  /** A common address of two non-empty regions, if one of these four is in both, and none if not: the two
      starts decide. */
  lemma DisjointByStarts(a: Region, b: Region)
    requires a.size > 0 && b.size > 0
    ensures Disjoint(a, b) <==> !Holds(a, b.start) && !Holds(b, a.start)
  {
    HoldsValue(a, a.start);
    HoldsValue(b, b.start);
    if !Holds(a, b.start) && !Holds(b, a.start) {
      forall addr: Word ensures !(Holds(a, addr) && Holds(b, addr)) {
        HoldsValue(a, addr);
        HoldsValue(b, addr);
        HoldsValue(a, b.start);
        HoldsValue(b, a.start);
      }
    }
  }

  /** The exact reliability of the overlap check for two non-empty regions. It is right whenever neither
      region leaves the word. When both do, they share the last address, and the check notices unless one
      wrapped end falls below the other's start. When one does, the check needs only one of the two
      comparisons that disjointness needs, so it is right when the two comparisons agree. */
  lemma VerdictExactly(a: Region, b: Region)
    requires a.size > 0 && b.size > 0
    ensures (Accepted(a, b) <==> Disjoint(a, b)) <==>
            if !Wraps(a) && !Wraps(b) then true
            else if Wraps(a) && Wraps(b) then End(a) > b.start && End(b) > a.start
            else (End(a) <= b.start <==> End(b) <= a.start)
  {
    DisjointByStarts(a, b);
    HoldsValue(a, b.start);
    HoldsValue(b, a.start);
    EndValue(a);
    EndValue(b);
  }

  /** An accepted pair that overlaps: a secure region that runs around the end of the address space into the
      bootloader region. */
  lemma WrappingRegionAccepted()
    ensures var bootloader, secure := Region(true, 0x1000, 0x1000), Region(true, WORD - 0x1000, 0x3000);
            Accepted(bootloader, secure) && Holds(bootloader, 0x1000) && Holds(secure, 0x1000)
  {
    HoldsValue(Region(true, WORD - 0x1000, 0x3000), 0x1000);
  }

  /** Without wrapping regions the nested loop accepts exactly the pairwise disjoint layouts. */
  lemma AcceptedIsDisjoint(regions: seq<Region>)
    requires forall i :: 0 <= i < |regions| ==> !Wraps(regions[i])
    ensures AllAccepted(regions) <==>
            forall i, j :: 0 <= i < j < |regions| && regions[i].size > 0 && regions[j].size > 0 ==>
              Disjoint(regions[i], regions[j])
  {
    forall i, j | 0 <= i < j < |regions| && regions[i].size > 0 && regions[j].size > 0
      ensures Accepted(regions[i], regions[j]) <==> Disjoint(regions[i], regions[j])
    {
      VerdictExactly(regions[i], regions[j]);
    }
    if forall i, j :: 0 <= i < j < |regions| && regions[i].size > 0 && regions[j].size > 0 ==>
         Disjoint(regions[i], regions[j]) {
      forall i, j | 0 <= i < j < |regions| ensures Accepted(regions[i], regions[j]) {
        if regions[i].size > 0 && regions[j].size > 0 { assert Disjoint(regions[i], regions[j]); }
      }
    }
  }

  // ---- Sizes fit the span ---------------------------------------------------------------------

  function Extent(r: Region): Range {
    Range(r.start, r.size)
  }

  /** The regions of an accepted layout need no more memory together than the addresses they span. */
  lemma SizesFitSpan(regions: seq<Region>, lo: int, hi: int)
    requires lo <= hi && AllAccepted(regions)
    requires forall i :: 0 <= i < |regions| ==>
               && !Wraps(regions[i])
               && (regions[i].size > 0 ==> lo <= regions[i].start && regions[i].start + regions[i].size <= hi)
    ensures Bytes(regions, Extent) <= hi - lo
  {
    forall i, j | 0 <= i < j < |regions| ensures Apart(Extent(regions[i]), Extent(regions[j])) {
      assert Accepted(regions[i], regions[j]);
      EndValue(regions[i]);
      EndValue(regions[j]);
    }
    BytesFit(regions, Extent, lo, hi);
  }

  // ---- The current layout ---------------------------------------------------------------------

  /** A layout that has passed both checks. */
  predicate Checked(layout: Layout) {
    && (forall i :: 0 <= i < VALIDATED ==> ValidateRegion(layout[i]).Success?)
    && AllAccepted(layout)
  }

  /** For a layout whose regions do not wrap: the first nine are named, away from address 0 and not empty, and no
      two regions that are not empty overlap. */
  lemma CheckedExactly(layout: Layout)
    requires forall i :: 0 <= i < 12 ==> !Wraps(layout[i])
    ensures Checked(layout) <==>
            && (forall i :: 0 <= i < 9 ==> layout[i].named && 0 < layout[i].start && 0 < layout[i].size)
            && forall i, j :: 0 <= i < j < 12 && layout[i].size > 0 && layout[j].size > 0 ==>
                 Disjoint(layout[i], layout[j])
  {
    AcceptedIsDisjoint(layout);
    forall i | 0 <= i < 9
      ensures ValidateRegion(layout[i]).Success? <==> layout[i].named && 0 < layout[i].start && 0 < layout[i].size
    {
      ValidateRegionExactly(layout[i]);
      assert !Wraps(layout[i]);
    }
  }

  /** The position of a region by its name, or 12. */
  function RegionIndex(name: string): nat {
    if name == "bootloader" then 0 else if name == "uboot" then 1 else if name == "kernel" then 2
    else if name == "dtb" then 3 else if name == "reserved" then 4 else if name == "npu" then 5
    else if name == "gpu" then 6 else if name == "vpu" then 7 else if name == "system" then 8
    else if name == "secure" then 9 else if name == "dma" then 10 else if name == "user" then 11 else 12
  }

  /** The regions are known by these names, in the order of the layout, and by no others. */
  lemma RegionIndexExactly(name: string)
    ensures var names := ["bootloader", "uboot", "kernel", "dtb", "reserved", "npu", "gpu", "vpu", "system", "secure",
                          "dma", "user"];
            && RegionIndex(name) <= 12 && (name in names <==> RegionIndex(name) < 12)
            && (RegionIndex(name) < 12 ==> names[RegionIndex(name)] == name)
  {}

  class LayoutManager {
    var current: Option<Layout>

    /** Whatever is installed has passed both checks. */
    predicate Valid()
      reads this
    {
      current.Some? ==> Checked(current.value)
    }

    constructor ()
      ensures Valid() && current == None
    {
      current := None;
    }

    /** ddr_layout_init: `board` is the default layout of the board, None for an unknown board. */
    method Init(board: Option<Layout>, memoryAvailable: bool) returns (status: Status)
      requires Valid()
      modifies this
      ensures Valid()
      ensures status.Success? <==> memoryAvailable && board.Some? && Checked(board.value)
      ensures !memoryAvailable ==> status == Failure(NoMemory)
      ensures memoryAvailable && board.None? ==> status == Failure(NoDevice)
      ensures memoryAvailable && board.Some? && status.Failure? ==> status.error in {Invalid, Overflow}
      ensures current == if status.Success? then board else old(current)
    {
      if !memoryAvailable {
        return Failure(NoMemory);
      }
      if board.None? {
        return Failure(NoDevice);
      }
      status := Validate(board.value);
      if status.Failure? {
        return;
      }
      status := CheckOverlap(board.value);
      if status.Failure? {
        return;
      }
      current := board;
    }

    /** ddr_layout_set; a null layout is refused. */
    method Set(layout: Option<Layout>, memoryAvailable: bool) returns (status: Status)
      requires Valid()
      modifies this
      ensures Valid()
      ensures status.Success? <==> layout.Some? && Checked(layout.value) && memoryAvailable
      ensures layout.None? ==> status == Failure(Invalid)
      ensures layout.Some? && Checked(layout.value) && !memoryAvailable ==> status == Failure(NoMemory)
      ensures current == if status.Success? then layout else old(current)
    {
      if layout.None? {
        return Failure(Invalid);
      }
      status := Validate(layout.value);
      if status.Failure? {
        return;
      }
      status := CheckOverlap(layout.value);
      if status.Failure? {
        return;
      }
      if !memoryAvailable {
        return Failure(NoMemory);
      }
      current := layout;
    }

    /** ddr_layout_get; `wanted` says whether there is a place for the result. */
    method Get(wanted: bool) returns (status: Status, layout: Option<Layout>)
      requires Valid()
      ensures status == if !wanted then Failure(Invalid) else if current.None? then Failure(NoDevice) else Success
      ensures layout == (if wanted then current else None) && (layout.Some? ==> Checked(layout.value))
    {
      if !wanted {
        return Failure(Invalid), None;
      }
      layout := current;
      status := if current.None? then Failure(NoDevice) else Success;
    }

    /** ddr_layout_region_info; a null name is refused. */
    method RegionInfo(name: Option<string>) returns (status: Status, start: Word, size: Word)
      requires Valid()
      ensures status == if name.None? then Failure(Invalid)
                        else if current.None? then Failure(NoDevice)
                        else if RegionIndex(name.value) == 12 then Failure(NotFound) else Success
      ensures status.Success? ==>
                var region := current.value[RegionIndex(name.value)];
                start == region.start && size == region.size
    {
      start, size := 0, 0;
      if name.None? {
        return Failure(Invalid), 0, 0;
      }
      if current.None? {
        return Failure(NoDevice), 0, 0;
      }
      var i := RegionIndex(name.value);
      if i == 12 {
        return Failure(NotFound), 0, 0;
      }
      status, start, size := Success, current.value[i].start, current.value[i].size;
    }

    /** ddr_layout_find_free: always the start of the system region. The range it promises lies in that region
        if and only if it does not leave the word. The outcome is the same for every limit. */
    method FindFree(size: Word, wantsStart: bool, limit: Word) returns (status: Status, start: Word)
      requires Valid()
      ensures status == if !wantsStart || size == 0 then Failure(Invalid)
                        else if current.None? then Failure(NoDevice)
                        else
                          var system := current.value[8];
                          if size <= system.size || system.start + size >= WORD then Success else Failure(NoSpace)
      ensures status.Success? ==>
                var system := current.value[8];
                && start == system.start
                && (start + size <= system.start + system.size <==> start + size < WORD)
    {
      start := 0;
      if !wantsStart || size == 0 {
        return Failure(Invalid), 0;
      }
      if current.None? {
        return Failure(NoDevice), 0;
      }
      var system := current.value[SYSTEM];
      ValidateRegionExactly(system);
      EndValue(system);
      EndValue(Region(true, system.start, size));
      if (system.start + size) % WORD > End(system) {
        return Failure(NoSpace), 0;
      }
      status, start := Success, system.start;
    }

    /** ddr_layout_cleanup. */
    method Cleanup()
      modifies this
      ensures Valid() && current == None
    {
      current := None;
    }
  }

  // ---- The default layouts --------------------------------------------------------------------

  datatype Board = Edge2 | Rock3b | Orange5

  /** The default layouts. All boards share the first five regions and have none of the optional ones. */
  function DefaultLayout(board: Board): Layout {
    [Region(true, 0, 0x01000000), Region(true, 0x01000000, 0x01000000), Region(true, 0x02000000, 0x0E000000),
     Region(true, 0x10000000, 0x01000000), Region(true, 0x11000000, 0x0F000000)]
    + (match board
       case Edge2 => [Region(true, 0x20000000, 0x08000000), Region(true, 0x28000000, 0x08000000),
                      Region(true, 0x30000000, 0x10000000), Region(true, 0x40000000, 0xC0000000)]
       case Rock3b => [Region(true, 0x20000000, 0x10000000), Region(true, 0x30000000, 0x10000000),
                       Region(true, 0x40000000, 0x20000000), Region(true, 0x60000000, 0x1C0000000)]
       case Orange5 => [Region(true, 0x20000000, 0x10000000), Region(true, 0x30000000, 0x10000000),
                        Region(true, 0x40000000, 0x10000000), Region(true, 0x50000000, 0xB0000000)])
    + [Region(true, 0, 0), Region(true, 0, 0), Region(true, 0, 0)]
  }

  /** No layout whose bootloader region starts at address 0 is ever installed. The default layouts of all
      three boards start there, so initialization from a default layout always fails. */
  lemma BootloaderAtZeroRefused(layout: Layout)
    requires layout[0].start == 0
    ensures !Checked(layout)
  {
    assert ValidateRegion(layout[0]).Failure?;
  }

  /** The first n regions lie one directly behind the other, and the others are empty. */
  predicate Adjacent(regions: seq<Region>, n: nat)
    requires n <= |regions|
  {
    && (forall i :: 0 <= i < n ==> !Wraps(regions[i]))
    && (forall i :: 0 <= i < n - 1 ==> regions[i].start + regions[i].size == regions[i + 1].start)
    && forall i :: n <= i < |regions| ==> regions[i].size == 0
  }

  lemma {:induction false} AdjacentOrder(regions: seq<Region>, n: nat, i: nat, j: nat)
    requires n <= |regions| && Adjacent(regions, n) && i < j < n
    ensures regions[i].start + regions[i].size <= regions[j].start
    decreases j
  {
    if i + 1 < j { AdjacentOrder(regions, n, i, j - 1); }
  }

  lemma AdjacentAccepted(regions: seq<Region>, n: nat)
    requires n <= |regions| && Adjacent(regions, n)
    ensures AllAccepted(regions)
  {
    forall i, j | 0 <= i < j < |regions| ensures Accepted(regions[i], regions[j]) {
      if j < n {
        AdjacentOrder(regions, n, i, j);
        EndValue(regions[i]);
      }
    }
  }

  lemma DefaultAdjacent(board: Board, layout: Layout)
    requires layout == DefaultLayout(board)
    ensures Adjacent(layout, VALIDATED) && layout[0].start == 0
  {
    assert forall i :: 0 <= i < 8 ==> layout[i].start + layout[i].size == layout[i + 1].start;
  }

  /** Together the regions of a default layout cover the addresses from 0 on without a gap: 4 GB, and 8.5 GB on the
      Rock 3B. */
  lemma DefaultLayoutsCover(board: Board)
    ensures var layout := DefaultLayout(board);
            Adjacent(layout, 9) && layout[0].start == 0
            && layout[8].start + layout[8].size == if board == Rock3b then 0x2_2000_0000 else 0x1_0000_0000
  {
    DefaultAdjacent(board, DefaultLayout(board));
  }

  /** The default layout of no board passes the checks, but nothing else is wrong with any of them: their
      regions are adjacent, so they are free of overlaps, and all but the bootloader region are valid. */
  lemma DefaultLayoutsRefused(board: Board)
    ensures var layout := DefaultLayout(board);
            && !Checked(layout) && AllAccepted(layout)
            && forall i :: 1 <= i < VALIDATED ==> ValidateRegion(layout[i]).Success?
  {
    var layout := DefaultLayout(board);
    DefaultAdjacent(board, layout);
    BootloaderAtZeroRefused(layout);
    AdjacentAccepted(layout, VALIDATED);
    forall i | 1 <= i < VALIDATED ensures ValidateRegion(layout[i]).Success? {
      ValidateRegionExactly(layout[i]);
    }
  }
}
