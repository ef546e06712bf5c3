/** The DDR timing words: packed into registers by the kernel driver and by U-Boot, and unpacked from them
    again. The fields are 32-bit words of the caller's, and nothing masks them before they are packed. */
module DdrTimings {
  import opened Runs

  // ---- One word ---------------------------------------------------------------------------------

  /** Four timing fields that share a word. */
  datatype Fields = Fields(a: bv32, b: bv32, c: bv32, d: bv32)

  predicate FitBytes(f: Fields) {
    f.a < 256 && f.b < 256 && f.c < 256 && f.d < 256
  }

  function Pack(f: Fields): bv32 {
    (f.a << 24) | (f.b << 16) | (f.c << 8) | f.d
  }

  function Unpack(w: bv32): Fields {
    Fields((w >> 24) & 0xFF, (w >> 16) & 0xFF, (w >> 8) & 0xFF, w & 0xFF)
  }

  /** What a reader gets back, for any fields: a field too wide leaks its upper bits into the ones above. */
  lemma WideFieldsLeak(f: Fields)
    ensures Unpack(Pack(f)) == Fields((f.a | (f.b >> 8) | (f.c >> 16) | (f.d >> 24)) & 0xFF,
                                      (f.b | (f.c >> 8) | (f.d >> 16)) & 0xFF,
                                      (f.c | (f.d >> 8)) & 0xFF,
                                      f.d & 0xFF)
  {}

  /** The fields come back if and only if each fits a byte. */
  lemma RoundTripExactly(f: Fields)
    ensures Unpack(Pack(f)) == f <==> FitBytes(f)
  {
    WideFieldsLeak(f);
  }

  /** Fields that fit have each a byte of the word to themselves, the first one the top byte. */
  lemma PackPlaces(f: Fields)
    requires FitBytes(f)
    ensures Pack(f) >> 24 == f.a && (Pack(f) >> 16) & 0xFF == f.b
    ensures (Pack(f) >> 8) & 0xFF == f.c && Pack(f) & 0xFF == f.d
  {}

  // ---- The registers ----------------------------------------------------------------------------

  type Registers = map<nat, bv32>

  function Load(regs: Registers, r: nat): bv32 {
    if r in regs then regs[r] else 0
  }

  // ---- U-Boot's three words ---------------------------------------------------------------------

  /** struct ddr_timing, by the word the fields go to: tCL, tRCD, tRP, tRAS; tRFC, tRRD, tWTR, tFAW; and
      tWR, tRTP, tCWL, whose word has no first field. */
  datatype Timing = Timing(word0: Fields, word1: Fields, tWR: bv32, tRTP: bv32, tCWL: bv32)

  function Third(t: Timing): Fields {
    Fields(0, t.tWR, t.tRTP, t.tCWL)
  }

  predicate TableFits(t: Timing) {
    FitBytes(t.word0) && FitBytes(t.word1) && FitBytes(Third(t))
  }

  /** What ddr_print_timing_table reads. */
  function Table(regs: Registers): Timing {
    var w := Unpack(Load(regs, 0x18));
    Timing(Unpack(Load(regs, 0x10)), Unpack(Load(regs, 0x14)), w.b, w.c, w.d)
  }

  /** The third word leaves its first byte to what leaks from tWR; no reader looks there. */
  lemma ThirdWordExactly(b: bv32, c: bv32, d: bv32)
    ensures (var f := Unpack(Pack(Fields(0, b, c, d))); f.b == b && f.c == c && f.d == d)
            <==> FitBytes(Fields(0, b, c, d))
  {
    WideFieldsLeak(Fields(0, b, c, d));
  }

  /** The memory-mapped registers of the DDR controller. */
  class Controller {
    var regs: Registers

    constructor (regs: Registers)
      ensures this.regs == regs
    {
      this.regs := regs;
    }

    method Write(r: nat, value: bv32)
      modifies this
      ensures regs == old(regs)[r := value]
    {
      regs := regs[r := value];
    }

    /** ddr_timing_init. A read of the timing table returns what was set if and only if every field fits a
        byte; the frequency and the voltage are set as they are, and no other register changes. */
    method TimingInit(t: Timing, frequency: bv32, voltage: bv32)
      modifies this
      ensures Table(regs) == t <==> TableFits(t)
      ensures Load(regs, 0x10) == Pack(t.word0) && Load(regs, 0x14) == Pack(t.word1)
      ensures Load(regs, 0x18) == Pack(Fields(0, t.tWR, t.tRTP, t.tCWL))
      ensures Load(regs, 0x1C) == frequency && Load(regs, 0x20) == voltage
      ensures forall r :: r !in {0x10, 0x14, 0x18, 0x1C, 0x20} ==> Load(regs, r) == old(Load(regs, r))
    {
      Write(0x10, Pack(t.word0));
      Write(0x14, Pack(t.word1));
      Write(0x18, Pack(Third(t)));
      Write(0x1C, frequency);
      Write(0x20, voltage);
      RoundTripExactly(t.word0);
      RoundTripExactly(t.word1);
      ThirdWordExactly(t.tWR, t.tRTP, t.tCWL);
    }

    /** ddr_print_timing_table: the fields it reads. */
    method ReadTable() returns (t: Timing)
      ensures t == Table(regs)
    {
      var first := Unpack(Load(regs, 0x10));
      var second := Unpack(Load(regs, 0x14));
      var third := Unpack(Load(regs, 0x18));
      t := Timing(first, second, third.b, third.c, third.d);
    }
  }

  // ---- The kernel driver ------------------------------------------------------------------------

  const MEMORY_SIZE: nat := 0x04
  const FREQUENCY: nat := 0x08
  const VOLTAGE: nat := 0x0C
  const ECC_STATUS: nat := 0x10
  const TIMINGS: nat := 0x14
  const REFRESH: nat := 0x18
  const CONTROL: nat := 0x24

  const ENABLE: bv32 := 0x1
  const ECC_ENABLE: bv32 := 0x2
  const CALIBRATE: bv32 := 0x4
  const RESET: bv32 := 0x8
  const READY: bv32 := 0x1
  const CALIBRATED: bv32 := 0x10

  /** The fields of struct ddr_config that reach a register; the timings are tCL, tRCD, tRP, tRAS. */
  datatype Config = Config(
    frequency: bv32, voltage: bv32, timings: Fields, tRFC: bv32)

  datatype Status = Success | Eio | IrqRefused

  /** The registers, dev->config, and the size read into dev->total_memory. */
  datatype Device = Device(regs: Registers, config: Config, ecc: bool, totalMemory: bv32)

  /** What the hardware answers during an operation: the values the two registers hold after a write to
      them, and the two reads of the status register; and whether the kernel refuses the interrupt line. */
  datatype Answers = Answers(frequency: bv32, voltage: bv32, status: bv32, recheck: bv32, irqRefused: bool)

  /** The configuration the registers hold. */
  function Held(regs: Registers): Config {
    Config(Load(regs, FREQUENCY), Load(regs, VOLTAGE), Unpack(Load(regs, TIMINGS)), Load(regs, REFRESH))
  }

  /** A change of frequency or voltage that the hardware takes. */
  predicate Takes(cached: bv32, requested: bv32, answer: bv32) {
    requested == cached || answer == requested
  }

  predicate Reaches(d: Device, request: Config, a: Answers) {
    && Takes(d.config.frequency, request.frequency, a.frequency)
    && Takes(d.config.voltage, request.voltage, a.voltage)
  }

  function WithSet(regs: Registers, r: nat, bit: bv32): Registers {
    regs[r := Load(regs, r) | bit]
  }

  function WithClear(regs: Registers, r: nat, bit: bv32): Registers {
    regs[r := Load(regs, r) & !bit]
  }

  /** The part of ddr_hw_config from the timings on. */
  function Written(regs: Registers, request: Config): Registers {
    var timed := regs[TIMINGS := Pack(request.timings)][REFRESH := request.tRFC];
    WithSet(WithSet(timed, CONTROL, ENABLE), CONTROL, CALIBRATE)
  }

  /** The frequency step of ddr_hw_config. */
  function FrequencySet(d: Device, request: Config, a: Answers): Device {
    if request.frequency == d.config.frequency then d
    else d.(regs := d.regs[FREQUENCY := a.frequency],
            config := if a.frequency == request.frequency then d.config.(frequency := request.frequency) else d.config)
  }

  /** The voltage step. */
  function VoltageSet(d: Device, request: Config, a: Answers): Device {
    if request.voltage == d.config.voltage then d
    else d.(regs := d.regs[VOLTAGE := a.voltage],
            config := if a.voltage == request.voltage then d.config.(voltage := request.voltage) else d.config)
  }

  /** The part from the timings on. */
  function TimingsSet(d: Device, request: Config): Device {
    d.(regs := Written(d.regs, request),
       config := d.config.(timings := request.timings, tRFC := request.tRFC))
  }

  /** ddr_hw_config. A frequency or voltage that does not stick ends it early. */
  function Configured(d: Device, request: Config, a: Answers): (Device, Status) {
    var tuned := FrequencySet(d.(regs := WithClear(d.regs, CONTROL, ENABLE)), request, a);
    if !Takes(d.config.frequency, request.frequency, a.frequency) then (tuned, Eio)
    else
      var powered := VoltageSet(tuned, request, a);
      if !Takes(d.config.voltage, request.voltage, a.voltage) then (powered, Eio)
      else (TimingsSet(powered, request), if a.status & CALIBRATED != 0 then Success else Eio)
  }

  /** ddr_hw_init: the cache is read from the registers. */
  function Initialized(d: Device, a: Answers): (Device, Status) {
    var ecc := d.ecc || Load(d.regs, ECC_STATUS) & 1 != 0;
    var read := d.(config := Held(d.regs), ecc := ecc, totalMemory := Load(d.regs, MEMORY_SIZE));
    var on := WithSet(d.regs, CONTROL, ENABLE);
    if a.status & READY == 0 then (read.(regs := on), Eio)
    else
      var started := if a.status & CALIBRATED == 0 then WithSet(on, CONTROL, CALIBRATE) else on;
      if a.status & CALIBRATED == 0 && a.recheck & CALIBRATED == 0 then (read.(regs := started), Eio)
      else
        (read.(regs := if ecc then WithSet(started, CONTROL, ECC_ENABLE) else started),
         if a.irqRefused then IrqRefused else Success)
  }

  /** The register file after the reset bit was set and cleared. */
  function Toggled(regs: Registers): Registers {
    WithClear(WithSet(regs, CONTROL, RESET), CONTROL, RESET)
  }

  /** ddr_hw_reset: the reset bit is set and cleared, and the hardware is initialized again. */
  function WasReset(d: Device, a: Answers): (Device, Status) {
    Initialized(d.(regs := Toggled(d.regs)), a)
  }

  /** The cache says what the registers hold. */
  ghost predicate Coherent(d: Device) {
    d.config == Held(d.regs)
  }

  /** Reading the hardware makes the cache agree with it, whatever the outcome. */
  lemma InitMakesCoherent(d: Device, a: Answers)
    ensures Coherent(Initialized(d, a).0)
    ensures Initialized(d, a).0.config == Held(d.regs)
    ensures Initialized(d, a).0.totalMemory == Load(d.regs, MEMORY_SIZE)
  {
    var e := Initialized(d, a).0;
    assert forall r :: r != CONTROL ==> Load(e.regs, r) == Load(d.regs, r);
  }

  lemma ToggledHolds(regs: Registers)
    ensures Held(Toggled(regs)) == Held(regs)
    ensures Load(Toggled(regs), CONTROL) == (Load(regs, CONTROL) | RESET) & !RESET
  {}

  /** A reset does the same. */
  lemma ResetMakesCoherent(d: Device, a: Answers)
    ensures Coherent(WasReset(d, a).0) && WasReset(d, a).0.config == Held(d.regs)
  {
    ToggledHolds(d.regs);
    InitMakesCoherent(d.(regs := Toggled(d.regs)), a);
  }

  lemma ClearThenSet(control: bv32)
    ensures (control & !ENABLE) & ENABLE == 0
    ensures (control & !ENABLE) | ENABLE | CALIBRATE == control | ENABLE | CALIBRATE
  {}

  lemma Disabled(d: Device)
    ensures var off := d.(regs := WithClear(d.regs, CONTROL, ENABLE));
            Held(off.regs) == Held(d.regs) && Load(off.regs, CONTROL) == Load(d.regs, CONTROL) & !ENABLE
  {}

  lemma FrequencyHolds(d: Device, request: Config, a: Answers)
    requires Coherent(d)
    ensures var e := FrequencySet(d, request, a);
            var taken := Takes(d.config.frequency, request.frequency, a.frequency);
            && Load(e.regs, CONTROL) == Load(d.regs, CONTROL)
            && e.config == (if taken then d.config.(frequency := request.frequency) else d.config)
            && Held(e.regs) == d.config.(frequency := if taken then request.frequency else a.frequency)
  {}

  lemma VoltageHolds(d: Device, request: Config, a: Answers)
    requires Coherent(d)
    ensures var e := VoltageSet(d, request, a);
            var taken := Takes(d.config.voltage, request.voltage, a.voltage);
            && Load(e.regs, CONTROL) == Load(d.regs, CONTROL)
            && e.config == (if taken then d.config.(voltage := request.voltage) else d.config)
            && Held(e.regs) == d.config.(voltage := if taken then request.voltage else a.voltage)
  {}

  lemma TimingsHold(d: Device, request: Config)
    requires Coherent(d)
    ensures var e := TimingsSet(d, request);
            && Load(e.regs, CONTROL) == Load(d.regs, CONTROL) | ENABLE | CALIBRATE
            && e.config == d.config.(timings := request.timings, tRFC := request.tRFC)
            && Held(e.regs) == d.config.(timings := Unpack(Pack(request.timings)), tRFC := request.tRFC)
  {}

  /** What a configuration that reaches the timings leaves in the cache and the registers. */
  lemma ConfiguredHolds(d: Device, request: Config, a: Answers)
    requires Coherent(d) && Reaches(d, request, a)
    ensures var e := Configured(d, request, a).0;
            && e.config == request && Held(e.regs) == request.(timings := Unpack(Pack(request.timings)))
            && Load(e.regs, CONTROL) == Load(d.regs, CONTROL) | ENABLE | CALIBRATE
  {
    var off := d.(regs := WithClear(d.regs, CONTROL, ENABLE));
    Disabled(d);
    FrequencyHolds(off, request, a);
    VoltageHolds(FrequencySet(off, request, a), request, a);
    TimingsHold(VoltageSet(FrequencySet(off, request, a), request, a), request);
    ClearThenSet(Load(d.regs, CONTROL));
  }

  /** From an agreeing cache, a configuration that writes the timings keeps the agreement if and only if each
      packed field fits a byte; then, and only then, a later reset reads back the requested configuration. */
  lemma ConfigKeepsCoherenceExactly(d: Device, request: Config, a: Answers, later: Answers)
    requires Coherent(d) && Reaches(d, request, a)
    ensures Coherent(Configured(d, request, a).0) <==> FitBytes(request.timings)
    ensures WasReset(Configured(d, request, a).0, later).0.config == request <==> FitBytes(request.timings)
  {
    var e := Configured(d, request, a).0;
    ConfiguredHolds(d, request, a);
    RoundTripExactly(request.timings);
    ResetMakesCoherent(e, later);
  }

  /** A refused frequency or voltage leaves the timings and the refresh alone and the controller disabled; the
      cache is then right if and only if the refused register holds what it held before. */
  lemma RefusalExactly(d: Device, request: Config, a: Answers)
    requires Coherent(d) && !Reaches(d, request, a)
    ensures var (e, status) := Configured(d, request, a);
            && status == Eio && Load(e.regs, CONTROL) & ENABLE == 0
            && Held(e.regs).timings == d.config.timings && Held(e.regs).tRFC == d.config.tRFC
            && (Coherent(e) <==>
                if Takes(d.config.frequency, request.frequency, a.frequency) then a.voltage == d.config.voltage
                else a.frequency == d.config.frequency)
  {
    var off := d.(regs := WithClear(d.regs, CONTROL, ENABLE));
    Disabled(d);
    ClearThenSet(Load(d.regs, CONTROL));
    FrequencyHolds(off, request, a);
    if Takes(d.config.frequency, request.frequency, a.frequency) {
      VoltageHolds(FrequencySet(off, request, a), request, a);
    }
  }

  // ---- Registers and status, call by call -----------------------------------------------------

  /** All registers but these six are as they were. */
  ghost predicate OthersKept(before: Registers, after: Registers) {
    forall r :: r !in {0x08, 0x0C, 0x14, 0x18, 0x24} ==> Load(after, r) == Load(before, r)
  }

  lemma SetPlaces(regs: Registers, bit: bv32)
    ensures Load(WithSet(regs, CONTROL, bit), 0x24) == Load(regs, 0x24) | bit
    ensures forall r :: r != 0x24 ==> Load(WithSet(regs, CONTROL, bit), r) == Load(regs, r)
  {}

  lemma FrequencyPlaces(d: Device, request: Config, a: Answers)
    ensures var e := FrequencySet(d, request, a);
            && Load(e.regs, 0x08)
               == (if request.frequency == d.config.frequency then Load(d.regs, 0x08) else a.frequency)
            && (forall r :: r != 0x08 ==> Load(e.regs, r) == Load(d.regs, r))
            && e == d.(regs := e.regs, config := e.config)
            && e.config == if Takes(d.config.frequency, request.frequency, a.frequency)
                           then d.config.(frequency := request.frequency) else d.config
  {}

  lemma VoltagePlaces(d: Device, request: Config, a: Answers)
    ensures var e := VoltageSet(d, request, a);
            && Load(e.regs, 0x0C) == (if request.voltage == d.config.voltage then Load(d.regs, 0x0C) else a.voltage)
            && (forall r :: r != 0x0C ==> Load(e.regs, r) == Load(d.regs, r))
            && e == d.(regs := e.regs, config := e.config)
            && e.config == if Takes(d.config.voltage, request.voltage, a.voltage)
                           then d.config.(voltage := request.voltage) else d.config
  {}

  lemma TimingsPlaces(d: Device, request: Config)
    ensures var e := TimingsSet(d, request);
            && Load(e.regs, 0x14) == Pack(request.timings) && Load(e.regs, 0x18) == request.tRFC
            && Load(e.regs, 0x24) == Load(d.regs, 0x24) | ENABLE | CALIBRATE
            && (forall r :: r !in {0x14, 0x18, 0x24} ==> Load(e.regs, r) == Load(d.regs, r))
            && e == d.(regs := e.regs, config := d.config.(timings := request.timings, tRFC := request.tRFC))
  {
    var timed := d.regs[TIMINGS := Pack(request.timings)][REFRESH := request.tRFC];
    SetPlaces(timed, ENABLE);
    SetPlaces(WithSet(timed, CONTROL, ENABLE), CALIBRATE);
  }

  /** The controller disabled. */
  function Off(d: Device): Device {
    d.(regs := WithClear(d.regs, CONTROL, ENABLE))
  }

  lemma OffPlaces(d: Device)
    ensures Load(Off(d).regs, 0x24) == Load(d.regs, 0x24) & !1
    ensures forall r :: r != 0x24 ==> Load(Off(d).regs, r) == Load(d.regs, r)
  {}

  /** A configuration whose frequency and voltage are taken is written whole, enables the controller and starts its
      calibration; it succeeds if and only if the status register then says that it is calibrated. */
  lemma ConfiguredExactly(d: Device, request: Config, a: Answers)
    requires d.config.frequency == request.frequency || a.frequency == request.frequency
    requires d.config.voltage == request.voltage || a.voltage == request.voltage
    ensures var (e, status) := Configured(d, request, a);
            && status == (if a.status & 0x10 != 0 then Success else Eio)
            && e.config == request && e.ecc == d.ecc && e.totalMemory == d.totalMemory
            && Load(e.regs, 0x08)
               == (if request.frequency == d.config.frequency then Load(d.regs, 0x08) else request.frequency)
            && Load(e.regs, 0x0C)
               == (if request.voltage == d.config.voltage then Load(d.regs, 0x0C) else request.voltage)
            && Load(e.regs, 0x14) == Pack(request.timings) && Load(e.regs, 0x18) == request.tRFC
            && Load(e.regs, 0x24) == Load(d.regs, 0x24) | 1 | 4
            && OthersKept(d.regs, e.regs)
  {
    var tuned := FrequencySet(Off(d), request, a);
    var powered := VoltageSet(tuned, request, a);
    OffPlaces(d);
    FrequencyPlaces(Off(d), request, a);
    VoltagePlaces(tuned, request, a);
    TimingsPlaces(powered, request);
    ClearThenSet(Load(d.regs, 0x24));
    assert Configured(d, request, a).0 == TimingsSet(powered, request);
  }

  /** When the hardware does not take the frequency, or takes it but not the voltage, the controller stays
      disabled, and of the cache at most the frequency has changed. */
  lemma RefusedExactly(d: Device, request: Config, a: Answers)
    requires var taken := d.config.frequency == request.frequency || a.frequency == request.frequency;
             !taken || (d.config.voltage != request.voltage && a.voltage != request.voltage)
    ensures var (e, status) := Configured(d, request, a);
            var taken := d.config.frequency == request.frequency || a.frequency == request.frequency;
            && status == Eio && e.ecc == d.ecc && e.totalMemory == d.totalMemory
            && e.config == (if taken then d.config.(frequency := request.frequency) else d.config)
            && Load(e.regs, 0x08)
               == (if request.frequency == d.config.frequency then Load(d.regs, 0x08) else a.frequency)
            && Load(e.regs, 0x0C) == (if taken then a.voltage else Load(d.regs, 0x0C))
            && Load(e.regs, 0x14) == Load(d.regs, 0x14) && Load(e.regs, 0x18) == Load(d.regs, 0x18)
            && Load(e.regs, 0x24) == Load(d.regs, 0x24) & !1
            && OthersKept(d.regs, e.regs)
  {
    var tuned := FrequencySet(Off(d), request, a);
    OffPlaces(d);
    FrequencyPlaces(Off(d), request, a);
    VoltagePlaces(tuned, request, a);
    var taken := Takes(d.config.frequency, request.frequency, a.frequency);
    assert Configured(d, request, a).0 == if taken then VoltageSet(tuned, request, a) else tuned;
  }

  /** An initialization reads the cache from the registers. It fails if the hardware is not ready or stays
      uncalibrated. */
  lemma InitializedExactly(d: Device, a: Answers)
    ensures var (e, status) := Initialized(d, a);
            var ready, calibrated := a.status & 1 != 0, a.status & 0x10 != 0;
            && status == (if !ready || (!calibrated && a.recheck & 0x10 == 0) then Eio
                          else if a.irqRefused then IrqRefused else Success)
            && e.ecc == (d.ecc || Load(d.regs, 0x10) & 1 != 0) && e.totalMemory == Load(d.regs, 0x04)
            && e.config == Config(Load(d.regs, 0x08), Load(d.regs, 0x0C), Unpack(Load(d.regs, 0x14)),
                                  Load(d.regs, 0x18))
  {}

  function SetIf(condition: bool, regs: Registers, bit: bv32): Registers {
    if condition then WithSet(regs, CONTROL, bit) else regs
  }

  lemma SetIfPlaces(condition: bool, regs: Registers, bit: bv32)
    ensures Load(SetIf(condition, regs, bit), 0x24) == if condition then Load(regs, 0x24) | bit else Load(regs, 0x24)
    ensures forall r :: r != 0x24 ==> Load(SetIf(condition, regs, bit), r) == Load(regs, r)
  {
    SetPlaces(regs, bit);
  }

  lemma InitializedSets(d: Device, a: Answers, start: bool, correct: bool)
    requires start == (a.status & 1 != 0 && a.status & 0x10 == 0)
    requires correct == (Initialized(d, a).1 != Eio && Initialized(d, a).0.ecc)
    ensures Initialized(d, a).0.regs
            == SetIf(correct, SetIf(start, WithSet(d.regs, CONTROL, ENABLE), CALIBRATE), ECC_ENABLE)
  {}

  /** It enables the controller, starts a calibration that is missing, and turns error correction on if it is there
      and nothing failed. It writes no other register. */
  lemma InitializedRegisters(d: Device, a: Answers, start: bool, correct: bool)
    requires start == (a.status & 1 != 0 && a.status & 0x10 == 0)
    requires correct == (Initialized(d, a).1 != Eio && Initialized(d, a).0.ecc)
    ensures var regs := Initialized(d, a).0.regs;
            && (forall r :: r != 0x24 ==> Load(regs, r) == Load(d.regs, r))
            && var on := Load(d.regs, 0x24) | 1;
               var started := if start then on | 4 else on;
               Load(regs, 0x24) == if correct then started | 2 else started
  {
    var on := WithSet(d.regs, CONTROL, ENABLE);
    InitializedSets(d, a, start, correct);
    SetPlaces(d.regs, ENABLE);
    SetIfPlaces(start, on, CALIBRATE);
    SetIfPlaces(correct, SetIf(start, on, CALIBRATE), ECC_ENABLE);
  }

  /** A reset sets the reset bit and clears it again, and then it is an initialization. */
  lemma ResetExactly(d: Device, a: Answers)
    ensures WasReset(d, a) == Initialized(d.(regs := d.regs[0x24 := Load(d.regs, 0x24) & !8]), a)
  {
    ToggledExactly(d.regs);
  }

  lemma ToggledExactly(regs: Registers)
    ensures Toggled(regs) == regs[0x24 := Load(regs, 0x24) & !8]
  {
    SetThenClear(Load(regs, 0x24));
  }

  lemma SetThenClear(control: bv32)
    ensures (control | RESET) & !RESET == control & !8
  {}

  datatype Operation = Initialize(a: Answers) | Reset(a: Answers) | Configure(request: Config, a: Answers)

  function Step(d: Device, op: Operation): Device {
    match op
    case Initialize(a) => Initialized(d, a).0
    case Reset(a) => WasReset(d, a).0
    case Configure(request, a) => Configured(d, request, a).0
  }

  /** The operations of runs are the three calls. */
  lemma StepsAreCalls(d: Device, request: Config, a: Answers)
    ensures Step(d, Initialize(a)) == Initialized(d, a).0 && Step(d, Reset(a)) == WasReset(d, a).0
    ensures Step(d, Configure(request, a)) == Configured(d, request, a).0
  {}

  /** A configuration whose packed fields fit, and whose refused change leaves the register as it was. */
  predicate Faithful(d: Device, op: Operation) {
    op.Configure? ==>
      && FitBytes(op.request.timings)
      && (Takes(d.config.frequency, op.request.frequency, op.a.frequency) || op.a.frequency == d.config.frequency)
      && (Takes(d.config.voltage, op.request.voltage, op.a.voltage) || op.a.voltage == d.config.voltage)
  }

  lemma StepCoherent(d: Device, op: Operation)
    requires Faithful(d, op) && (op.Configure? ==> Coherent(d))
    ensures Coherent(Step(d, op))
  {
    match op
    case Initialize(a) => InitMakesCoherent(d, a);
    case Reset(a) => ResetMakesCoherent(d, a);
    case Configure(request, a) =>
      if Reaches(d, request, a) {
        ConfigKeepsCoherenceExactly(d, request, a, a);
      } else {
        RefusalExactly(d, request, a);
      }
  }

  /** On every run that starts with an initialization or a reset and configures fields that fit, the cached
      configuration is the one the registers hold. */
  lemma CoherentOnEveryRun(d: Device, first: Operation, ops: seq<Operation>)
    requires !first.Configure? && Admitted(Step, Faithful, Step(d, first), ops)
    ensures Coherent(Run(Step, Step(d, first), ops))
  {
    StepCoherent(d, first);
    forall e, op | Coherent(e) && Faithful(e, op) ensures Coherent(Step(e, op)) { StepCoherent(e, op); }
    Invariant(Step, Faithful, Coherent, Step(d, first), ops);
  }

  /** struct ddr_device: the register file and the cached configuration. */
  class Driver {
    var regs: Registers
    var config: Config
    var ecc: bool
    var totalMemory: bv32

    ghost function State(): Device
      reads this
    {
      Device(regs, config, ecc, totalMemory)
    }

    constructor (regs: Registers, config: Config)
      ensures State() == Device(regs, config, false, 0)
    {
      this.regs, this.config, ecc, totalMemory := regs, config, false, 0;
    }

    method Write(r: nat, value: bv32)
      modifies this`regs
      ensures regs == old(regs)[r := value]
    {
      regs := regs[r := value];
    }

    method SetBit(r: nat, bit: bv32)
      modifies this`regs
      ensures regs == WithSet(old(regs), r, bit)
    {
      Write(r, Load(regs, r) | bit);
    }

    method ClearBit(r: nat, bit: bv32)
      modifies this`regs
      ensures regs == WithClear(old(regs), r, bit)
    {
      Write(r, Load(regs, r) & !bit);
    }

    /** The frequency step of ddr_hw_config: written only when it changes, and read back. */
    method SetFrequency(request: Config, a: Answers) returns (ok: bool)
      modifies this`regs, this`config
      ensures State() == FrequencySet(old(State()), request, a)
      ensures ok == Takes(old(config.frequency), request.frequency, a.frequency)
    {
      ok := true;
      if request.frequency != config.frequency {
        Write(FREQUENCY, a.frequency);
        if Load(regs, FREQUENCY) != request.frequency {
          return false;
        }
        config := config.(frequency := request.frequency);
      }
    }

    /** The voltage step. */
    method SetVoltage(request: Config, a: Answers) returns (ok: bool)
      modifies this`regs, this`config
      ensures State() == VoltageSet(old(State()), request, a)
      ensures ok == Takes(old(config.voltage), request.voltage, a.voltage)
    {
      ok := true;
      if request.voltage != config.voltage {
        Write(VOLTAGE, a.voltage);
        if Load(regs, VOLTAGE) != request.voltage {
          return false;
        }
        config := config.(voltage := request.voltage);
      }
    }

    /** The part from the timings on. */
    method SetTimings(request: Config)
      modifies this`regs, this`config
      ensures State() == TimingsSet(old(State()), request)
    {
      Write(TIMINGS, Pack(request.timings));
      config := config.(timings := request.timings);
      Write(REFRESH, request.tRFC);
      config := config.(tRFC := request.tRFC);
      SetBit(CONTROL, ENABLE);
      SetBit(CONTROL, CALIBRATE);
    }

    /** ddr_hw_config. */
    method HwConfig(request: Config, a: Answers) returns (status: Status)
      modifies this
      ensures (State(), status) == Configured(old(State()), request, a)
    {
      ClearBit(CONTROL, ENABLE);
      var ok := SetFrequency(request, a);
      if !ok {
        return Eio;
      }
      ok := SetVoltage(request, a);
      if !ok {
        return Eio;
      }
      SetTimings(request);
      status := if a.status & CALIBRATED == 0 then Eio else Success;
    }

    /** ddr_hw_init. */
    method HwInit(a: Answers) returns (status: Status)
      modifies this
      ensures (State(), status) == Initialized(old(State()), a)
    {
      totalMemory := Load(regs, MEMORY_SIZE);
      config := config.(frequency := Load(regs, FREQUENCY));
      config := config.(voltage := Load(regs, VOLTAGE));
      if Load(regs, ECC_STATUS) & 1 != 0 {
        ecc := true;
      }
      config := config.(timings := Unpack(Load(regs, TIMINGS)));
      config := config.(tRFC := Load(regs, REFRESH));
      SetBit(CONTROL, ENABLE);
      if a.status & READY == 0 {
        return Eio;
      }
      if a.status & CALIBRATED == 0 {
        SetBit(CONTROL, CALIBRATE);
        if a.recheck & CALIBRATED == 0 {
          return Eio;
        }
      }
      if ecc {
        SetBit(CONTROL, ECC_ENABLE);
      }
      status := if a.irqRefused then IrqRefused else Success;
    }

    /** ddr_hw_reset. */
    method HwReset(a: Answers) returns (status: Status)
      modifies this
      ensures (State(), status) == WasReset(old(State()), a)
    {
      SetBit(CONTROL, RESET);
      ClearBit(CONTROL, RESET);
      status := HwInit(a);
    }
  }
}
