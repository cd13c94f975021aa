/**
 * One battery module on the bus: its address, the six cell voltages and two
 * temperatures of the latest reading, the lifetime extremes of each, and the
 * alert and fault flags of its monitor chip.
 */
module BmsModule {
  import opened Crc
  import opened Frame
  import opened Bus
  import opened Wrappers

  const CellCount: nat := 6
  /** Volts per count of the module-voltage channel. */
  const ModuleScale: real := 0.0020346293922562
  /** Volts per count of a cell channel. */
  const CellScale: real := 0.000381493

  /** The lifetime-minimum seed, above any real reading. */
  const LowSentinel: real := 200.0
  /** The lifetime-maximum seed of the voltages. */
  const HighVoltSentinel: real := 0.0
  /** The lifetime-maximum seed of the temperatures. */
  const HighTempSentinel: real := -100.0

  function Min(a: real, b: real): real { if a <= b then a else b }
  function Max(a: real, b: real): real { if a >= b then a else b }

  /** A module record as a value: what the class below holds in its fields. */
  datatype ModuleState = ModuleState(
    moduleAddress: int,
    cellVolt: seq<Option<real>>,
    lowestCellVolt: seq<real>,
    highestCellVolt: seq<real>,
    moduleVolt: real,
    temperatures: seq<Option<real>>,
    lowestTemperature: real,
    highestTemperature: real,
    lowestModuleVolt: real,
    highestModuleVolt: real,
    alerts: byte,
    faults: byte,
    covFaults: byte,
    cuvFaults: byte)
  {
    ghost predicate WellFormed() {
      |cellVolt| == CellCount && |lowestCellVolt| == CellCount && |highestCellVolt| == CellCount
      && |temperatures| == 2
    }
  }

  /** A record with no reading yet: every extreme at its sentinel, flags and address 0. */
  function Cleared(): (st: ModuleState)
    ensures st.WellFormed()
  {
    var low, high := LowSentinel, HighVoltSentinel;
    ModuleState(0, [None, None, None, None, None, None], [low, low, low, low, low, low],
                [high, high, high, high, high, high], 0.0, [None, None],
                LowSentinel, HighTempSentinel, LowSentinel, HighVoltSentinel, 0, 0, 0, 0)
  }

  /**
   * The flags from a status reply: after the three echoed request bytes come
   * the alert, fault, over-voltage and under-voltage bytes; a reply without
   * all four cannot be unpacked.
   */
  function StatusApplied(st: ModuleState, buf: seq<byte>): (r: Result<ModuleState, Error>)
    ensures r.Success? <==> |buf| >= 7
    ensures r.Success? ==> r.value == st.(alerts := buf[3], faults := buf[4], covFaults := buf[5], cuvFaults := buf[6])
    ensures r.Failure? ==> r.error == ShortReply
  {
    if |buf| < 7 then Failure(ShortReply)
    else Success(st.(alerts := buf[3], faults := buf[4], covFaults := buf[5], cuvFaults := buf[6]))
  }

  /** The module-voltage reading in bytes 3..4 of the ADC reply. */
  function ModuleReading(buf: seq<byte>): real
    requires |buf| >= 5
  {
    U16(buf[3..5]) as real * ModuleScale
  }

  /** The voltage of cell `i` (0-based) in bytes 5+2i..6+2i of the ADC reply. */
  function CellReading(buf: seq<byte>, i: nat): real
    requires 7 + 2 * i <= |buf|
  {
    U16(buf[5 + 2 * i..7 + 2 * i]) as real * CellScale
  }

  /** How many cells' two bytes the reply holds: cells are decoded until one is missing. */
  function CellsRead(buf: seq<byte>): (k: nat)
    ensures k <= CellCount
    ensures forall j :: 0 <= j < k ==> 7 + 2 * j <= |buf|
    ensures k < CellCount ==> |buf| < 7 + 2 * k
  {
    if |buf| < 7 then 0 else if |buf| >= 17 then 6 else (|buf| - 5) / 2
  }

  /** The running sum of the first `n` cell readings. */
  function SumCells(buf: seq<byte>, n: nat): real
    requires 5 + 2 * n <= |buf|
  {
    if n == 0 then 0.0 else SumCells(buf, n - 1) + CellReading(buf, n - 1)
  }

  /**
   * The thermistor resistance, in ohms, for a raw temperature code; the two
   * sensors use different calibration offsets and divisors. The logarithm of
   * the kelvin conversion is defined only for a positive resistance, which the
   * formula gives exactly while the code stays below `1.78 * divisor / 3.57 - offset`.
   */
  function ThermistorOhms(raw: int, offset: real, divisor: real): (ohms: real)
    requires raw as real + offset > 0.0 && divisor > 0.0
    ensures ohms > -3570.0
    ensures ohms > 0.0 <==> raw as real + offset < 1.78 * divisor / 3.57
  {
    var x := raw as real + offset;
    assert 1.78 / (x / divisor) == 1.78 * divisor / x;
    RatioAbove(1.78 * divisor, x, 3.57);
    (1.78 / (x / divisor) - 3.57) * 1000.0
  }

  /** For positive x and c, a / x exceeds c exactly when x is below a / c. */
  lemma RatioAbove(a: real, x: real, c: real)
    requires x > 0.0 && c > 0.0
    ensures a / x > c <==> x < a / c
  {
    var q, p := a / x, a / c;
    assert q * x == a && p * c == a;
    if q > c {
      assert a > c * x;
    } else {
      assert a <= c * x;
    }
  }

  /** Degrees Celsius from a resistance, given the Steinhart-Hart conversion to kelvin. */
  function Celsius(kelvin: real -> real, ohms: real): real {
    kelvin(ohms) - 273.15
  }

  function Temperature1(kelvin: real -> real, buf: seq<byte>): real
    requires |buf| >= 19
  {
    Celsius(kelvin, ThermistorOhms(U16(buf[17..19]), 2.0, 33046.0))
  }

  function Temperature2(kelvin: real -> real, buf: seq<byte>): real
    requires |buf| >= 21
  {
    Celsius(kelvin, ThermistorOhms(U16(buf[19..21]), 9.0, 33068.0))
  }

  /** The record after decoding an ADC reply, and whether the whole reply could be decoded. */
  datatype Update = Update(state: ModuleState, complete: bool)

  /**
   * The record after the first `n` cells of the reply are decoded: each such
   * cell holds its reading and has its extremes widened to it, the others are
   * untouched, and the module voltage is the running sum of the `n` readings.
   */
  function CellsApplied(st: ModuleState, buf: seq<byte>, n: nat): (r: ModuleState)
    requires st.WellFormed() && n <= CellCount && 5 + 2 * n <= |buf|
    ensures r.WellFormed()
  {
    st.(moduleVolt := SumCells(buf, n),
        cellVolt := seq(6, i requires 0 <= i < 6 => if i < n then Some(CellReading(buf, i)) else st.cellVolt[i]),
        highestCellVolt := seq(6, i requires 0 <= i < 6 =>
          if i < n then Max(st.highestCellVolt[i], CellReading(buf, i)) else st.highestCellVolt[i]),
        lowestCellVolt := seq(6, i requires 0 <= i < 6 =>
          if i < n then Min(st.lowestCellVolt[i], CellReading(buf, i)) else st.lowestCellVolt[i]))
  }

  /** Decoding one more cell updates that cell's entries and adds its reading to the sum. */
  lemma CellsAppliedStep(st: ModuleState, buf: seq<byte>, n: nat)
    requires st.WellFormed() && n < CellCount && 7 + 2 * n <= |buf|
    ensures var c, v := CellsApplied(st, buf, n), CellReading(buf, n);
      CellsApplied(st, buf, n + 1) == c.(moduleVolt := c.moduleVolt + v, cellVolt := c.cellVolt[n := Some(v)],
                                         highestCellVolt := c.highestCellVolt[n := Max(c.highestCellVolt[n], v)],
                                         lowestCellVolt := c.lowestCellVolt[n := Min(c.lowestCellVolt[n], v)])
  {
  }

  /**
   * Decoding the ADC reply into the record. Fields are updated in reply
   * order, so a reply that ends early leaves the fields before the missing
   * bytes updated and the rest as they were.
   */
  function AfterVoltTemp(st: ModuleState, buf: seq<byte>, kelvin: real -> real): (u: Update)
    requires st.WellFormed()
    ensures u.state.WellFormed()
    ensures u.state.moduleAddress == st.moduleAddress
  {
    if |buf| < 5 then Update(st, false)
    else
      var mv := ModuleReading(buf);
      var k := CellsRead(buf);
      var st1 := CellsApplied(st.(highestModuleVolt := Max(st.highestModuleVolt, mv),
                                  lowestModuleVolt := Min(st.lowestModuleVolt, mv)), buf, k);
      if k < 6 || |buf| < 19 then Update(st1, false)
      else TemperaturesApplied(st1, buf, kelvin)
  }

  /**
   * The temperature part of the ADC reply: the first sensor once bytes 17..18
   * are there, then the second and both extremes once bytes 19..20 are.
   */
  function TemperaturesApplied(st: ModuleState, buf: seq<byte>, kelvin: real -> real): (u: Update)
    requires st.WellFormed() && |buf| >= 19
    ensures u.state.WellFormed()
    ensures u.state.(temperatures := st.temperatures, lowestTemperature := st.lowestTemperature,
                     highestTemperature := st.highestTemperature) == st
  {
    var t0 := Temperature1(kelvin, buf);
    if |buf| < 21 then Update(st.(temperatures := [Some(t0), st.temperatures[1]]), false)
    else
      var t1 := Temperature2(kelvin, buf);
      Update(st.(temperatures := [Some(t0), Some(t1)],
                 lowestTemperature := Min(Min(st.lowestTemperature, t0), t1),
                 highestTemperature := Max(Max(st.highestTemperature, t0), t1)), true)
  }

  /** The sum of the readings held in a list of optional voltages (absent entries count 0). */
  function SumReadings(vs: seq<Option<real>>): real {
    if vs == [] then 0.0
    else SumReadings(vs[..|vs| - 1]) + (if vs[|vs| - 1].Some? then vs[|vs| - 1].value else 0.0)
  }

  /** Lifetime extremes only ever tighten: lowest values never rise, highest never fall. */
  lemma ExtremesMonotone(st: ModuleState, buf: seq<byte>, kelvin: real -> real)
    requires st.WellFormed()
    ensures var n := AfterVoltTemp(st, buf, kelvin).state;
      && (forall i :: 0 <= i < 6 ==> n.lowestCellVolt[i] <= st.lowestCellVolt[i] && n.highestCellVolt[i] >= st.highestCellVolt[i])
      && n.lowestModuleVolt <= st.lowestModuleVolt && n.highestModuleVolt >= st.highestModuleVolt
      && n.lowestTemperature <= st.lowestTemperature && n.highestTemperature >= st.highestTemperature
  {
  }

  /**
   * After a complete reading every cell holds the voltage decoded from its
   * two bytes, and lies between that cell's lifetime extremes.
   */
  lemma CellsDecodedWithinExtremes(st: ModuleState, buf: seq<byte>, kelvin: real -> real)
    requires st.WellFormed()
    requires AfterVoltTemp(st, buf, kelvin).complete
    ensures |buf| >= 21
    ensures var n := AfterVoltTemp(st, buf, kelvin).state;
      forall i :: 0 <= i < 6 ==>
        && n.cellVolt[i] == Some(U16(buf[5 + 2 * i..7 + 2 * i]) as real * 0.000381493)
        && n.lowestCellVolt[i] <= n.cellVolt[i].value <= n.highestCellVolt[i]
  {
  }

  /**
   * After a complete reading the module-voltage channel comes from bytes 3..4
   * and the two temperatures from bytes 17..18 and 19..20, and each lies
   * between its lifetime extremes.
   */
  lemma ChannelsDecodedWithinExtremes(st: ModuleState, buf: seq<byte>, kelvin: real -> real)
    requires st.WellFormed()
    requires AfterVoltTemp(st, buf, kelvin).complete
    ensures |buf| >= 21
    ensures var n := AfterVoltTemp(st, buf, kelvin).state;
      var t1, t2 := Temperature1(kelvin, buf), Temperature2(kelvin, buf);
      && ModuleReading(buf) == U16(buf[3..5]) as real * 0.0020346293922562
      && t1 == kelvin(ThermistorOhms(U16(buf[17..19]), 2.0, 33046.0)) - 273.15
      && t2 == kelvin(ThermistorOhms(U16(buf[19..21]), 9.0, 33068.0)) - 273.15
      && n.temperatures == [Some(t1), Some(t2)]
      && n.lowestTemperature <= t1 <= n.highestTemperature
      && n.lowestTemperature <= t2 <= n.highestTemperature
      && n.lowestModuleVolt <= ModuleReading(buf) <= n.highestModuleVolt
  {
  }

  /** A higher raw temperature code means a lower thermistor resistance. */
  lemma ThermistorFalls(lo: int, hi: int, offset: real, divisor: real)
    requires 0 <= lo <= hi && offset > 0.0 && divisor > 0.0
    ensures ThermistorOhms(hi, offset, divisor) <= ThermistorOhms(lo, offset, divisor)
  {
    var x, y := (lo as real + offset) / divisor, (hi as real + offset) / divisor;
    assert 0.0 < x <= y;
    assert 1.78 / y <= 1.78 / x by {
      assert 1.78 / y * y == 1.78 == 1.78 / x * x;
    }
  }

  /**
   * The module voltage kept after a complete reading is the sum of the six
   * new cell voltages, not the module-voltage channel.
   */
  lemma {:induction false} ModuleVoltIsCellSum(st: ModuleState, buf: seq<byte>, kelvin: real -> real)
    requires st.WellFormed()
    requires AfterVoltTemp(st, buf, kelvin).complete
    ensures var n := AfterVoltTemp(st, buf, kelvin).state;
      n.moduleVolt == SumReadings(n.cellVolt)
  {
    var cells := AfterVoltTemp(st, buf, kelvin).state.cellVolt;
    forall n | 0 <= n <= 6
      ensures SumReadings(cells[..n]) == SumCells(buf, n)
    {
      PrefixSum(cells, buf, n);
    }
    assert cells[..6] == cells;
  }

  lemma {:induction false} PrefixSum(cells: seq<Option<real>>, buf: seq<byte>, n: nat)
    requires |buf| >= 17 && n <= 6 && |cells| == 6
    requires forall i :: 0 <= i < 6 ==> cells[i] == Some(CellReading(buf, i))
    ensures SumReadings(cells[..n]) == SumCells(buf, n)
  {
    if n > 0 {
      PrefixSum(cells, buf, n - 1);
      assert cells[..n][..n - 1] == cells[..n - 1];
    }
  }

  /** A raw code of 0 reads as 0 V on both scales, and voltages grow with the code. */
  lemma ScalesMonotone(a: int, b: int)
    requires 0 <= a <= b
    ensures a as real * CellScale <= b as real * CellScale
    ensures a as real * ModuleScale <= b as real * ModuleScale
    ensures 0 as real * CellScale == 0.0 && 0 as real * ModuleScale == 0.0
  {
  }

  /**
   * Every reading lies below the 200.0 seed of the minima and at or above the
   * 0.0 seed of the maxima, so the first complete reading after a clear
   * replaces both sentinels of every cell and of the module voltage.
   */
  lemma FirstReadingReplacesSentinels(buf: seq<byte>, kelvin: real -> real)
    requires AfterVoltTemp(Cleared(), buf, kelvin).complete
    ensures var n := AfterVoltTemp(Cleared(), buf, kelvin).state;
      && (forall i :: 0 <= i < 6 ==> n.lowestCellVolt[i] == n.highestCellVolt[i] == n.cellVolt[i].value)
      && n.lowestModuleVolt == n.highestModuleVolt == ModuleReading(buf)
  {
    forall i | 0 <= i < 6
      ensures 0.0 <= CellReading(buf, i) < LowSentinel
    {
      ReadingBelowSentinel(U16(buf[5 + 2 * i..7 + 2 * i]), CellScale);
    }
    ReadingBelowSentinel(U16(buf[3..5]), ModuleScale);
  }

  lemma ReadingBelowSentinel(code: int, scale: real)
    requires 0 <= code < 0x1_0000
    requires scale == CellScale || scale == ModuleScale
    ensures 0.0 <= code as real * scale < LowSentinel
  {
    assert code as real * scale <= 65535.0 * scale;
  }

  /** The flags after the status read, or why the read failed. */
  function StatusOutcome(st: ModuleState, reply: Result<seq<byte>, Error>): Result<ModuleState, Error> {
    match reply
    case Failure(e) => Failure(e)
    case Success(buf) => StatusApplied(st, buf)
  }

  /**
   * Whether a write's result stops the driver: it ignores the result of its
   * configuration writes, so a CRC mismatch passes, but a missing reply or a
   * field that does not fit is raised to the caller.
   */
  predicate Raised(r: Result<seq<byte>, Error>) {
    r.Failure? && !r.error.CrcMismatch?
  }

  /** A request that did not raise got a reply, so it used one up: retry loops make progress. */
  lemma AnsweredConsumes(write: bool, data: seq<int>, script: Script)
    requires |data| == 3 && !Raised(Outcome(write, data, script, true))
    ensures |ScriptAfter(write, data, script)| < |script|
  {
  }

  /** A conversation that leaves the record alone: its result and the line afterwards. */
  datatype Talk = Talk(outcome: Result<(), Error>, line: Line)

  /**
   * A request whose result is ignored (`data` = [module address, register,
   * value or length]): a CRC mismatch passes, a raised error ends the talk.
   */
  function Quiet(write: bool, data: seq<int>, line: Line): (t: Talk)
    requires |data| == 3
    ensures Extends(t.line, line)
    ensures t.outcome.Failure? ==> !t.outcome.error.CrcMismatch?
  {
    var o := Outcome(write, data, line.script, true);
    Talk(if Raised(o) then Failure(o.error) else Success(()), Sent(line, write, data))
  }

  /**
   * A request whose result is ignored fails only when its frame cannot be
   * built or nothing answers it.
   */
  lemma QuietOutcome(write: bool, data: seq<int>, line: Line)
    requires |data| == 3
    ensures Quiet(write, data, line).outcome ==
      if EncodeRequest(write, data).Failure? then Failure(InvalidByte)
      else if NextReply(line.script) == [] then Failure(NoReply)
      else Success(())
  {
  }

  /**
   * The three configuration writes before a reading: automatic ADC scan of
   * every input, temperature-sense pins on, start of the conversions. The
   * first one raised ends the sequence.
   */
  function ConfigTalk(a: int, line: Line): (t: Talk)
    ensures Extends(t.line, line)
    ensures t.outcome.Failure? ==> !t.outcome.error.CrcMismatch?
    ensures t.outcome.Success? && 0 <= a < 128 ==> |t.line.log| == |line.log| + 3
  {
    var t1 := Quiet(true, [a, RegAdcCtrl as int, 0x3D], line);
    if t1.outcome.Failure? then t1
    else
      var t2 := Quiet(true, [a, RegIoCtrl as int, 0x03], t1.line);
      ExtendsTrans(line, t1.line, t2.line);
      if t2.outcome.Failure? then t2
      else
        var t3 := Quiet(true, [a, RegAdcConv as int, 0x01], t2.line);
        ExtendsTrans(line, t2.line, t3.line);
        t3
  }

  /** A conversation's effect on a record: the record afterwards, the result and the line. */
  datatype Run = Run(state: ModuleState, outcome: Result<(), Error>, line: Line)

  /** The 18-byte read from the module-voltage register of module `a`, decoded into the record. */
  function AdcRun(a: int, st: ModuleState, line: Line, kelvin: real -> real): (run: Run)
    requires st.WellFormed()
    ensures run.state.WellFormed() && run.state.moduleAddress == st.moduleAddress
  {
    var d := [a, RegGpai as int, 0x12];
    var o := Outcome(false, d, line.script, true);
    if o.Failure? then Run(st, Failure(o.error), Sent(line, false, d))
    else
      var u := AfterVoltTemp(st, o.value, kelvin);
      Run(u.state, if u.complete then Success(()) else Failure(ShortReply), Sent(line, false, d))
  }

  /** The status read of module `a`: the flags it brings into the record, or why it failed. */
  function StatusRun(a: int, st: ModuleState, line: Line): (run: Run)
    ensures run.state.moduleAddress == st.moduleAddress
    ensures st.WellFormed() ==> run.state.WellFormed()
  {
    var d := [a, RegAlertStatus as int, 4];
    var o := StatusOutcome(st, Outcome(false, d, line.script, true));
    Run(if o.Success? then o.value else st, if o.Success? then Success(()) else Failure(o.error),
        Sent(line, false, d))
  }

  /** The exchanges a reading is made of, each with the address of the module it talks to. */
  datatype Phase =
    | StatusPhase(addr: int)   // the status registers, into the flags
    | ConfigPhase(addr: int)   // the configuration writes that start the conversions
    | ConvertPhase(addr: int)  // the ADC registers, decoded into the record

  /** One phase of a reading: the record afterwards, the result and the line. */
  function PhaseRun(ph: Phase, st: ModuleState, line: Line, kelvin: real -> real): (run: Run)
    requires st.WellFormed()
    ensures run.state.WellFormed() && run.state.moduleAddress == st.moduleAddress
    ensures ph.ConfigPhase? ==> run.state == st
  {
    match ph
    case StatusPhase(a) => StatusRun(a, st, line)
    case ConfigPhase(a) =>
      var t := ConfigTalk(a, line);
      Run(st, t.outcome, t.line)
    case ConvertPhase(a) => AdcRun(a, st, line, kelvin)
  }

  /** Phases run one after another; the first failure ends the reading. */
  function Phases(phs: seq<Phase>, st: ModuleState, line: Line, kelvin: real -> real): (run: Run)
    requires st.WellFormed()
    ensures run.state.WellFormed() && run.state.moduleAddress == st.moduleAddress
    decreases |phs|
  {
    if phs == [] then Run(st, Success(()), line)
    else
      var first := PhaseRun(phs[0], st, line, kelvin);
      if first.outcome.Failure? then first else Phases(phs[1..], first.state, first.line, kelvin)
  }

  /** A measurement once the flags are read: the configuration writes, then the ADC read. */
  function MeasureRun(st: ModuleState, line: Line, kelvin: real -> real): (run: Run)
    requires st.WellFormed()
    ensures run.state.WellFormed() && run.state.moduleAddress == st.moduleAddress
  {
    var a := st.moduleAddress;
    Phases([ConfigPhase(a), ConvertPhase(a)], st, line, kelvin)
  }

  /** The whole voltage and temperature read of one module: the status read, then the measurement. */
  function ReadVoltTempRun(st: ModuleState, line: Line, kelvin: real -> real): (run: Run)
    requires st.WellFormed()
    ensures run.state.WellFormed() && run.state.moduleAddress == st.moduleAddress
  {
    var a := st.moduleAddress;
    Phases([StatusPhase(a), ConfigPhase(a), ConvertPhase(a)], st, line, kelvin)
  }

  /**
   * A measurement fails as the configuration writes fail, leaving the record
   * alone; once they pass it is the ADC read on the line they leave.
   */
  lemma MeasureSteps(st: ModuleState, line: Line, kelvin: real -> real)
    requires st.WellFormed()
    ensures var config := ConfigTalk(st.moduleAddress, line);
      MeasureRun(st, line, kelvin) ==
        if config.outcome.Failure? then Run(st, config.outcome, config.line)
        else AdcRun(st.moduleAddress, st, config.line, kelvin)
  {
    var a := st.moduleAddress;
    var phs := [ConfigPhase(a), ConvertPhase(a)];
    var config := PhaseRun(phs[0], st, line, kelvin);
    if config.outcome.Success? {
      assert phs[1..] == [ConvertPhase(a)];
      var adc := PhaseRun(ConvertPhase(a), st, config.line, kelvin);
      assert [ConvertPhase(a)][1..] == [];
      assert Phases([ConvertPhase(a)], st, config.line, kelvin) == adc;
    }
  }

  /** A reading is the status read, then, if it succeeded, the measurement from the flags it read. */
  lemma ReadingSteps(st: ModuleState, line: Line, kelvin: real -> real)
    requires st.WellFormed()
    ensures var status := StatusRun(st.moduleAddress, st, line);
      ReadVoltTempRun(st, line, kelvin) ==
        if status.outcome.Failure? then status else MeasureRun(status.state, status.line, kelvin)
  {
    var a := st.moduleAddress;
    assert [StatusPhase(a), ConfigPhase(a), ConvertPhase(a)][1..] == [ConfigPhase(a), ConvertPhase(a)];
  }

  /**
   * The module's own balance stop as written: the address it sends to is a
   * name that is not bound where it is used, so it fails before anything is
   * put on the line.
   */
  function StopBalancingAsWritten(line: Line): (t: Talk)
    ensures t.line.log == line.log && t.outcome.Failure?
  {
    Talk(Failure(Unbound), line)
  }

  /**
   * As written the stop never reaches the line; as intended it sends one
   * frame, a write of 0 to the balance-control register of the module's own
   * address, for every address the bus can carry.
   */
  lemma StopBalancingReachesModule(a: int, line: Line)
    requires 0 <= a < 128
    ensures StopBalancingAsWritten(line).line == line && StopBalancingAsWritten(line).outcome.Failure?
    ensures var t := Quiet(true, [a, RegBalCtrl as int, 0], line);
      && |t.line.log| == |line.log| + 1 && t.line.log[..|line.log|] == line.log
      && var f := t.line.log[|line.log|];
         AddressOf(f[0]) == a && IsWrite(f[0]) && f[1] == RegBalCtrl && f[2] == 0
  {
    AddressRoundTrip(a, true, RegBalCtrl as int, 0);
  }

  /** A module record, updated in place by each reading. */
  class Module {
    /** The bus the module is reached through. */
    const comms: Comms
    var cellVolt: seq<Option<real>>
    var lowestCellVolt: seq<real>
    var highestCellVolt: seq<real>
    var moduleVolt: real
    var temperatures: seq<Option<real>>
    var lowestTemperature: real
    var highestTemperature: real
    var lowestModuleVolt: real
    var highestModuleVolt: real
    var alerts: byte
    var faults: byte
    var covFaults: byte
    var cuvFaults: byte
    var moduleAddress: int

    /** Six cells and two sensors. */
    ghost predicate Valid()
      reads this
    {
      |cellVolt| == CellCount && |lowestCellVolt| == CellCount && |highestCellVolt| == CellCount
      && |temperatures| == 2
    }

    /** The record as a value. */
    ghost function State(): (st: ModuleState)
      reads this
      ensures st.WellFormed() <==> Valid()
    {
      ModuleState(moduleAddress, cellVolt, lowestCellVolt, highestCellVolt, moduleVolt,
                  temperatures, lowestTemperature, highestTemperature, lowestModuleVolt,
                  highestModuleVolt, alerts, faults, covFaults, cuvFaults)
    }

    /** A new record on bus `serialConnection`, with no reading yet. */
    constructor (serialConnection: Comms)
      ensures Valid() && comms == serialConnection && State() == Cleared()
    {
      comms := serialConnection;
      new;
      ClearModule();
    }

    /** Back to no reading: every extreme at its sentinel, flags and address 0. */
    method ClearModule()
      modifies this
      ensures Valid() && State() == Cleared()
    {
      ClearCells();
      ClearTemperatures();
      ClearFlags();
    }

    /** The cell and module voltages back to no reading. */
    method ClearCells()
      modifies this`cellVolt, this`lowestCellVolt, this`highestCellVolt, this`moduleVolt,
               this`lowestModuleVolt, this`highestModuleVolt
      ensures cellVolt == Cleared().cellVolt && moduleVolt == Cleared().moduleVolt
      ensures lowestCellVolt == Cleared().lowestCellVolt && highestCellVolt == Cleared().highestCellVolt
      ensures lowestModuleVolt == Cleared().lowestModuleVolt && highestModuleVolt == Cleared().highestModuleVolt
    {
      var low, high := LowSentinel, HighVoltSentinel;
      cellVolt := [None, None, None, None, None, None];
      lowestCellVolt := [low, low, low, low, low, low];
      highestCellVolt := [high, high, high, high, high, high];
      moduleVolt := 0.0;
      lowestModuleVolt := LowSentinel;
      highestModuleVolt := HighVoltSentinel;
    }

    /** The temperatures back to no reading. */
    method ClearTemperatures()
      modifies this`temperatures, this`lowestTemperature, this`highestTemperature
      ensures temperatures == Cleared().temperatures
      ensures lowestTemperature == Cleared().lowestTemperature && highestTemperature == Cleared().highestTemperature
    {
      temperatures := [None, None];
      lowestTemperature := LowSentinel;
      highestTemperature := HighTempSentinel;
    }

    /** The status flags and the address back to 0. */
    method ClearFlags()
      modifies this`alerts, this`faults, this`covFaults, this`cuvFaults, this`moduleAddress
      ensures alerts == 0 && faults == 0 && covFaults == 0 && cuvFaults == 0 && moduleAddress == 0
    {
      alerts := 0;
      faults := 0;
      covFaults := 0;
      cuvFaults := 0;
      moduleAddress := 0;
    }

    /** The four status flags set from a reply, the rest of the record as it was. */
    method SetFlags(a: byte, f: byte, cov: byte, cuv: byte)
      modifies this`alerts, this`faults, this`covFaults, this`cuvFaults
      ensures State() == old(State()).(alerts := a, faults := f, covFaults := cov, cuvFaults := cuv)
    {
      alerts, faults, covFaults, cuvFaults := a, f, cov, cuv;
    }

    /** Reads the four status registers into the flags. */
    method ReadStatus() returns (r: Result<(), Error>)
      requires Valid() && comms.Idle()
      modifies this, comms
      ensures Valid() && comms.Idle()
      ensures var run := StatusRun(moduleAddress, old(State()), old(comms.Now()));
        State() == run.state && r == run.outcome && comms.Now() == run.line
    {
      ghost var st0 := State();
      ghost var run := StatusRun(moduleAddress, st0, comms.Now());
      var buf := comms.Read(moduleAddress, RegAlertStatus as int, 0x04);
      assert comms.Now() == run.line;
      if buf.Failure? {
        return Failure(buf.error);
      }
      if |buf.value| < 7 {
        return Failure(ShortReply);
      }
      SetFlags(buf.value[3], buf.value[4], buf.value[5], buf.value[6]);
      r := Success(());
    }

    /** Decodes cell `i` into its entry, its extremes and the running module sum. */
    method DecodeCell(buf: seq<byte>, i: nat, ghost base: ModuleState)
      requires Valid() && base.WellFormed() && i < CellCount && 7 + 2 * i <= |buf|
      requires State() == CellsApplied(base, buf, i)
      modifies this
      ensures Valid() && State() == CellsApplied(base, buf, i + 1)
    {
      var v := U16(buf[5 + 2 * i..7 + 2 * i]) as real * CellScale;
      assert v == CellReading(buf, i);
      CellsAppliedStep(base, buf, i);
      ghost var c := State();
      cellVolt := cellVolt[i := Some(v)];
      highestCellVolt := highestCellVolt[i := Max(highestCellVolt[i], v)];
      lowestCellVolt := lowestCellVolt[i := Min(lowestCellVolt[i], v)];
      moduleVolt := moduleVolt + v;
      assert State() == c.(moduleVolt := c.moduleVolt + v, cellVolt := c.cellVolt[i := Some(v)],
                           highestCellVolt := c.highestCellVolt[i := Max(c.highestCellVolt[i], v)],
                           lowestCellVolt := c.lowestCellVolt[i := Min(c.lowestCellVolt[i], v)]);
    }

    /**
     * Decodes the cell voltages of an ADC reply, cell by cell, into the cell
     * entries, their extremes and the running module sum; it stops at the
     * first cell whose two bytes are missing.
     */
    method DecodeCells(buf: seq<byte>) returns (ok: bool)
      requires Valid() && |buf| >= 5
      modifies this
      ensures Valid() && State() == CellsApplied(old(State()), buf, CellsRead(buf))
      ensures ok <==> CellsRead(buf) == CellCount
    {
      moduleVolt := 0.0;
      ghost var base := old(State());
      assert State() == CellsApplied(base, buf, 0);
      for i := 0 to 6
        invariant Valid() && 5 + 2 * i <= |buf|
        invariant State() == CellsApplied(base, buf, i)
      {
        if |buf| < 7 + 2 * i {
          assert CellsRead(buf) == i;
          return false;
        }
        DecodeCell(buf, i, base);
      }
      ok := true;
    }

    /**
     * Decodes an 18-byte ADC reply (after its 3-byte echo) into the record:
     * module-voltage extremes, then each cell with its extremes and the running
     * module sum, then the two temperatures and their extremes.
     */
    method ApplyVoltTemp(buf: seq<byte>, kelvin: real -> real) returns (ok: bool)
      requires Valid()
      modifies this
      ensures Valid()
      ensures State() == AfterVoltTemp(old(State()), buf, kelvin).state
      ensures ok == AfterVoltTemp(old(State()), buf, kelvin).complete
    {
      ghost var st0 := State();
      if |buf| < 5 {
        return false;
      }
      var retModuleVolt := U16(buf[3..5]) as real * ModuleScale;
      highestModuleVolt := Max(highestModuleVolt, retModuleVolt);
      lowestModuleVolt := Min(lowestModuleVolt, retModuleVolt);
      ok := DecodeCells(buf);
      if !ok || |buf| < 19 {
        return false;
      }
      ok := ApplyTemperatures(buf, kelvin);
    }

    /** Decodes the two temperature channels, each once its bytes are there. */
    method ApplyTemperatures(buf: seq<byte>, kelvin: real -> real) returns (ok: bool)
      requires Valid() && |buf| >= 19
      modifies this
      ensures Valid()
      ensures State() == TemperaturesApplied(old(State()), buf, kelvin).state
      ensures ok == TemperaturesApplied(old(State()), buf, kelvin).complete
    {
      var t0 := Temperature1(kelvin, buf);
      temperatures := temperatures[0 := Some(t0)];
      if |buf| < 21 {
        return false;
      }
      var t1 := Temperature2(kelvin, buf);
      temperatures := temperatures[1 := Some(t1)];
      lowestTemperature := Min(Min(lowestTemperature, t0), t1);
      highestTemperature := Max(Max(highestTemperature, t0), t1);
      ok := true;
    }

    /** The three configuration writes that start a reading; their CRC results are ignored. */
    method StartConversion() returns (r: Result<(), Error>)
      requires comms.Idle()
      modifies comms
      ensures comms.Idle()
      ensures var talk := ConfigTalk(moduleAddress, old(comms.Now()));
        r == talk.outcome && comms.Now() == talk.line
    {
      var w := comms.Write(moduleAddress, RegAdcCtrl as int, 0x3D);
      if Raised(w) {
        return Failure(w.error);
      }
      w := comms.Write(moduleAddress, RegIoCtrl as int, 0x03);
      if Raised(w) {
        return Failure(w.error);
      }
      w := comms.Write(moduleAddress, RegAdcConv as int, 0x01);
      if Raised(w) {
        return Failure(w.error);
      }
      r := Success(());
    }

    /** Switches off every balancing resistor of this module; a CRC mismatch in the reply is ignored. */
    method StopBalancing() returns (r: Result<(), Error>)
      requires comms.Idle()
      modifies comms
      ensures comms.Idle()
      ensures var t := Quiet(true, [moduleAddress, RegBalCtrl as int, 0], old(comms.Now()));
        r == t.outcome && comms.Now() == t.line
    {
      var w := comms.Write(moduleAddress, RegBalCtrl as int, 0x00);
      r := if Raised(w) then Failure(w.error) else Success(());
    }

    /** The configuration writes and the ADC read, decoded into the record. */
    method Measure(kelvin: real -> real) returns (r: Result<(), Error>)
      requires Valid() && comms.Idle()
      modifies this, comms
      ensures Valid() && comms.Idle()
      ensures var run := MeasureRun(old(State()), old(comms.Now()), kelvin);
        State() == run.state && r == run.outcome && comms.Now() == run.line
    {
      MeasureSteps(State(), comms.Now(), kelvin);
      var c := StartConversion();
      if c.Failure? {
        return c;
      }
      var buf := comms.Read(moduleAddress, RegGpai as int, 0x12);
      if buf.Failure? {
        return Failure(buf.error);
      }
      var ok := ApplyVoltTemp(buf.value, kelvin);
      r := if ok then Success(()) else Failure(ShortReply);
    }

    /**
     * One voltage and temperature reading: the status read, the three
     * configuration writes and the ADC read, decoded into the record.
     */
    method ReadVoltTemp(kelvin: real -> real) returns (r: Result<(), Error>)
      requires Valid() && comms.Idle()
      modifies this, comms
      ensures Valid() && comms.Idle()
      ensures var run := ReadVoltTempRun(old(State()), old(comms.Now()), kelvin);
        State() == run.state && r == run.outcome && comms.Now() == run.line
    {
      ReadingSteps(State(), comms.Now(), kelvin);
      r := ReadStatus();
      if r.Success? {
        r := Measure(kelvin);
      }
    }
  }
}
