/**
 * The pack manager: the bus, the modules found on it, and the pack-wide
 * figures gathered from them; discovery, fault clearing, reading every
 * module and balancing the pack.
 */
module Manager {
  import opened Wrappers
  import opened Crc
  import opened Frame
  import opened Bus
  import opened BmsModule
  import opened Balance
  import opened Discovery

  // ---------------------------------------------------------------------
  // Broadcast commands.
  // ---------------------------------------------------------------------

  /** The frame writing `value` to register `reg` of every module at once. */
  function BroadcastFrame(reg: byte, value: byte): (f: seq<byte>)
    ensures |f| == 4 && f[0] == 0x7F && f[1] == reg && f[2] == value && f[3] == Crc8(f[..3])
  {
    EncodeRequest(true, [Broadcast, reg as int, value as int]).value
  }

  /**
   * Writing `value` to register `reg` of every module at once: its one frame
   * goes on the line, and it fails only when nothing answers.
   */
  function BroadcastTalk(reg: byte, value: byte, line: Line): (t: Talk)
    ensures t.line.log == line.log + [BroadcastFrame(reg, value)]
    ensures t.line.script == AfterReply(line.script)
    ensures t.outcome == if NextReply(line.script) == [] then Failure(NoReply) else Success(())
  {
    QuietOutcome(true, [Broadcast, reg as int, value as int], line);
    Quiet(true, [Broadcast, reg as int, value as int], line)
  }

  /**
   * Switching off every balancing resistor of every module at once: the one
   * frame sent writes 0 to every module's balance-control register.
   */
  function StopAllTalk(line: Line): (t: Talk)
    ensures t.line.log == line.log + [BroadcastFrame(RegBalCtrl, 0x00)]
    ensures t.outcome.Failure? <==> NextReply(line.script) == []
  {
    BroadcastTalk(RegBalCtrl, 0x00, line)
  }

  /**
   * Clearing every module's alerts and faults: each status register is
   * written all ones, then zero. The first write nobody answers ends it; when
   * all four get an answer, the four broadcast frames went out in that order.
   */
  function ClearFaultsTalk(line: Line): (t: Talk)
    ensures Extends(t.line, line)
    ensures t.outcome.Failure? ==> t.outcome.error == NoReply
    ensures t.outcome.Success? ==>
      t.line.log == line.log + [BroadcastFrame(RegAlertStatus, 0xFF), BroadcastFrame(RegAlertStatus, 0x00),
                                BroadcastFrame(RegFaultStatus, 0xFF), BroadcastFrame(RegFaultStatus, 0x00)]
  {
    var t1 := LatchTalk(RegAlertStatus, line);
    if t1.outcome.Failure? then t1
    else
      var t2 := LatchTalk(RegFaultStatus, t1.line);
      ExtendsTrans(line, t1.line, t2.line);
      AppendPairs(line.log, BroadcastFrame(RegAlertStatus, 0xFF), BroadcastFrame(RegAlertStatus, 0x00),
                  BroadcastFrame(RegFaultStatus, 0xFF), BroadcastFrame(RegFaultStatus, 0x00));
      t2
  }

  lemma AppendPairs<T>(s: seq<T>, a: T, b: T, c: T, d: T)
    ensures s + [a, b] + [c, d] == s + [a, b, c, d]
  {
  }

  /** All ones, then all zeroes, broadcast to one status register: how a latched status is cleared. */
  function LatchTalk(reg: byte, line: Line): (t: Talk)
    ensures Extends(t.line, line)
    ensures t.outcome.Failure? ==> t.outcome.error == NoReply
    ensures t.outcome.Success? ==> t.line.log == line.log + [BroadcastFrame(reg, 0xFF), BroadcastFrame(reg, 0x00)]
  {
    var t1 := BroadcastTalk(reg, 0xFF, line);
    if t1.outcome.Failure? then t1
    else
      var t2 := BroadcastTalk(reg, 0x00, t1.line);
      ExtendsTrans(line, t1.line, t2.line);
      assert line.log + [BroadcastFrame(reg, 0xFF)] + [BroadcastFrame(reg, 0x00)]
          == line.log + [BroadcastFrame(reg, 0xFF), BroadcastFrame(reg, 0x00)];
      t2
  }

  // ---------------------------------------------------------------------
  // Reading the pack.
  // ---------------------------------------------------------------------

  /** The pack figures after reading modules one by one. */
  datatype PackRun = PackRun(states: seq<ModuleState>, packVolt: real, lowTemp: real, highTemp: real,
                             outcome: Result<(), Error>, line: Line)

  ghost predicate AllWellFormed(sts: seq<ModuleState>) {
    forall k :: 0 <= k < |sts| ==> sts[k].WellFormed()
  }

  /**
   * Module `i`'s reading `run` folded into the pack figures: the module's
   * record takes the reading; if it succeeded, its voltage is added to the
   * pack voltage and its temperature extremes widen the pack's.
   */
  function Fold(p: PackRun, i: nat, run: Run): (q: PackRun)
    requires i < |p.states|
    ensures |q.states| == |p.states| && q.states[i] == run.state
    ensures forall k :: 0 <= k < |p.states| && k != i ==> q.states[k] == p.states[k]
    ensures q.outcome == run.outcome && q.line == run.line
    ensures q.lowTemp <= p.lowTemp && q.highTemp >= p.highTemp
  {
    var states := p.states[i := run.state];
    if run.outcome.Failure? then PackRun(states, p.packVolt, p.lowTemp, p.highTemp, run.outcome, run.line)
    else
      PackRun(states, p.packVolt + run.state.moduleVolt, Min(p.lowTemp, run.state.lowestTemperature),
              Max(p.highTemp, run.state.highestTemperature), run.outcome, run.line)
  }

  /**
   * Reading modules `i` onwards, one after another; the first failure ends
   * it and leaves the remaining modules unread.
   */
  function ReadFrom(p: PackRun, i: nat, kelvin: real -> real): (q: PackRun)
    requires AllWellFormed(p.states)
    ensures |q.states| == |p.states| && AllWellFormed(q.states)
    decreases |p.states| - i
  {
    if i >= |p.states| || p.outcome.Failure? then p
    else
      var q := Fold(p, i, ReadVoltTempRun(p.states[i], p.line, kelvin));
      assert AllWellFormed(q.states) by {
        forall k | 0 <= k < |q.states| ensures q.states[k].WellFormed() {
          if k != i {
            assert q.states[k] == p.states[k];
          }
        }
      }
      ReadFrom(q, i + 1, kelvin)
  }

  /** One step of the pack read: module `i` is read and folded in, and the read goes on from module `i + 1`. */
  lemma ReadFromStep(p: PackRun, i: nat, kelvin: real -> real)
    requires AllWellFormed(p.states) && i < |p.states| && p.outcome.Success?
    ensures ReadFrom(p, i, kelvin) == ReadFrom(Fold(p, i, ReadVoltTempRun(p.states[i], p.line, kelvin)), i + 1, kelvin)
  {
  }

  /** The pack read is over once every module is read or one has failed. */
  lemma ReadFromDone(p: PackRun, i: nat, kelvin: real -> real)
    requires AllWellFormed(p.states) && (i >= |p.states| || p.outcome.Failure?)
    ensures ReadFrom(p, i, kelvin) == p
  {
  }

  /**
   * Reading the whole pack: first every module's balancing is stopped with
   * one broadcast and the pack voltage starts again from 0, then each module
   * is read in turn. The temperature extremes carry over from before.
   */
  function ReadAllRun(sts: seq<ModuleState>, low: real, high: real, line: Line, kelvin: real -> real): (p: PackRun)
    requires AllWellFormed(sts)
    ensures |p.states| == |sts| && AllWellFormed(p.states)
  {
    var t := StopAllTalk(line);
    ReadFrom(PackRun(sts, 0.0, low, high, t.outcome, t.line), 0, kelvin)
  }

  /** The sum of the module voltages of the first `n` records. */
  function SumModuleVolts(sts: seq<ModuleState>, n: nat): real
    requires n <= |sts|
  {
    if n == 0 then 0.0 else SumModuleVolts(sts, n - 1) + sts[n - 1].moduleVolt
  }

  /** The pack's lowest temperature after folding in the first `n` records, starting from `low`. */
  function LowestOf(sts: seq<ModuleState>, n: nat, low: real): real
    requires n <= |sts|
  {
    if n == 0 then low else Min(LowestOf(sts, n - 1, low), sts[n - 1].lowestTemperature)
  }

  /** The pack's highest temperature after folding in the first `n` records, starting from `high`. */
  function HighestOf(sts: seq<ModuleState>, n: nat, high: real): real
    requires n <= |sts|
  {
    if n == 0 then high else Max(HighestOf(sts, n - 1, high), sts[n - 1].highestTemperature)
  }

  /**
   * The pack figures account for the first `n` modules: the pack voltage is
   * the sum of their module voltages, the pack's lowest temperature is the
   * least of `low` and their lowest temperatures and its highest the greatest
   * of `high` and their highest; so they bound every one of these.
   */
  ghost predicate Totals(p: PackRun, n: nat, low: real, high: real) {
    && n <= |p.states|
    && p.packVolt == SumModuleVolts(p.states, n)
    && p.lowTemp == LowestOf(p.states, n, low)
    && p.highTemp == HighestOf(p.states, n, high)
    && p.lowTemp <= low && p.highTemp >= high
    && forall k :: 0 <= k < n ==>
         p.lowTemp <= p.states[k].lowestTemperature && p.highTemp >= p.states[k].highestTemperature
  }

  /** The pack figures over the first `n` records depend on those records only. */
  lemma {:induction false} PrefixUnchanged(a: seq<ModuleState>, b: seq<ModuleState>, n: nat, low: real, high: real)
    requires n <= |a| && n <= |b| && forall k :: 0 <= k < n ==> a[k] == b[k]
    ensures SumModuleVolts(a, n) == SumModuleVolts(b, n)
    ensures LowestOf(a, n, low) == LowestOf(b, n, low) && HighestOf(a, n, high) == HighestOf(b, n, high)
  {
    if n > 0 {
      PrefixUnchanged(a, b, n - 1, low, high);
    }
  }

  /** A successful reading folded in extends the totals over the first `i` modules to the first `i + 1`. */
  lemma FoldTotals(p: PackRun, i: nat, run: Run, low: real, high: real)
    requires i < |p.states| && Totals(p, i, low, high)
    ensures var q := Fold(p, i, run); q.outcome.Success? ==> Totals(q, i + 1, low, high)
  {
    var q := Fold(p, i, run);
    if q.outcome.Success? {
      PrefixUnchanged(p.states, q.states, i, low, high);
    }
  }

  /** Reading on from module `i` keeps the totals, so a read that succeeds accounts for every module. */
  lemma {:induction false} ReadFromTotals(p: PackRun, i: nat, low: real, high: real, kelvin: real -> real)
    requires AllWellFormed(p.states) && i <= |p.states| && Totals(p, i, low, high)
    ensures var q := ReadFrom(p, i, kelvin); q.outcome.Success? ==> Totals(q, |q.states|, low, high)
    decreases |p.states| - i
  {
    if i < |p.states| && p.outcome.Success? {
      var run := ReadVoltTempRun(p.states[i], p.line, kelvin);
      var q := Fold(p, i, run);
      ReadFromStep(p, i, kelvin);
      FoldTotals(p, i, run, low, high);
      if q.outcome.Success? {
        ReadFromTotals(q, i + 1, low, high, kelvin);
      } else {
        ReadFromDone(q, i + 1, kelvin);
      }
    } else {
      ReadFromDone(p, i, kelvin);
    }
  }

  /**
   * After a successful read of the whole pack, the pack voltage is the sum of
   * every module's voltage, the pack's lowest temperature is the least of its
   * previous one and every module's lowest, and its highest the greatest of
   * its previous one and every module's highest.
   */
  lemma PackTotals(sts: seq<ModuleState>, low: real, high: real, line: Line, kelvin: real -> real)
    requires AllWellFormed(sts)
    ensures var p := ReadAllRun(sts, low, high, line, kelvin);
      p.outcome.Success? ==> Totals(p, |sts|, low, high)
  {
    var t := StopAllTalk(line);
    ReadFromTotals(PackRun(sts, 0.0, low, high, t.outcome, t.line), 0, low, high, kelvin);
  }

  /** Reading on from module `i`, whatever its outcome, never raises the pack's lowest temperature nor lowers its highest. */
  lemma {:induction false} ReadFromTempsMonotone(p: PackRun, i: nat, kelvin: real -> real)
    requires AllWellFormed(p.states)
    ensures var q := ReadFrom(p, i, kelvin); q.lowTemp <= p.lowTemp && q.highTemp >= p.highTemp
    decreases |p.states| - i
  {
    if i < |p.states| && p.outcome.Success? {
      var q := Fold(p, i, ReadVoltTempRun(p.states[i], p.line, kelvin));
      assert AllWellFormed(q.states) by {
        forall k | 0 <= k < |q.states| ensures q.states[k].WellFormed() {
          if k != i {
            assert q.states[k] == p.states[k];
          }
        }
      }
      ReadFromStep(p, i, kelvin);
      ReadFromTempsMonotone(q, i + 1, kelvin);
    }
  }

  /**
   * Across poll cycles the pack's lowest temperature never rises and its
   * highest never falls, even when a module's reading fails part-way.
   */
  lemma PackTempsMonotone(sts: seq<ModuleState>, low: real, high: real, line: Line, kelvin: real -> real)
    requires AllWellFormed(sts)
    ensures var p := ReadAllRun(sts, low, high, line, kelvin); p.lowTemp <= low && p.highTemp >= high
  {
    var t := StopAllTalk(line);
    ReadFromTempsMonotone(PackRun(sts, 0.0, low, high, t.outcome, t.line), 0, kelvin);
  }

  // ---------------------------------------------------------------------
  // Balancing the pack.
  // ---------------------------------------------------------------------

  /** Every module's six cell readings, in module order. */
  function PackCells(sts: seq<ModuleState>): seq<Option<real>> {
    if sts == [] then [] else PackCells(sts[..|sts| - 1]) + sts[|sts| - 1].cellVolt
  }

  predicate AllRead(cells: seq<Option<real>>) {
    forall i :: 0 <= i < |cells| ==> cells[i].Some?
  }

  /** The voltages of cells that all hold a reading. */
  function Readings(cells: seq<Option<real>>): (vs: seq<real>)
    requires AllRead(cells)
    ensures |vs| == |cells| && forall i :: 0 <= i < |cells| ==> Some(vs[i]) == cells[i]
  {
    seq(|cells|, i requires 0 <= i < |cells| => cells[i].value)
  }

  /**
   * One module's order: the balancing time, then the mask. When it goes
   * through, exactly those two frames were sent to the module, in that order.
   */
  function FlushOne(f: Flush, duration: int, line: Line): (t: Talk)
    ensures Extends(t.line, line)
    ensures t.outcome.Failure? ==> !t.outcome.error.CrcMismatch?
    ensures t.outcome.Success? ==>
      && EncodeRequest(true, [f.addr, RegBalTime as int, duration]).Success?
      && EncodeRequest(true, [f.addr, RegBalCtrl as int, f.mask as int]).Success?
      && t.line.log == line.log + [EncodeRequest(true, [f.addr, RegBalTime as int, duration]).value,
                                   EncodeRequest(true, [f.addr, RegBalCtrl as int, f.mask as int]).value]
  {
    var t := Quiet(true, [f.addr, RegBalTime as int, duration], line);
    if t.outcome.Failure? then t
    else
      var t2 := Quiet(true, [f.addr, RegBalCtrl as int, f.mask as int], t.line);
      ExtendsTrans(line, t.line, t2.line);
      t2
  }

  /**
   * The orders sent one after another; the first raised error ends them.
   * When all go through, two frames per order were sent.
   */
  function FlushTalk(fs: seq<Flush>, duration: int, line: Line): (t: Talk)
    ensures Extends(t.line, line)
    ensures t.outcome.Failure? ==> !t.outcome.error.CrcMismatch?
    ensures t.outcome.Success? ==> |t.line.log| == |line.log| + 2 * |fs|
    decreases |fs|
  {
    if fs == [] then Talk(Success(()), line)
    else
      var t := FlushTalk(fs[..|fs| - 1], duration, line);
      if t.outcome.Failure? then t
      else
        var t2 := FlushOne(fs[|fs| - 1], duration, t.line);
        ExtendsTrans(line, t.line, t2.line);
        t2
  }

  /** Once an order has failed, further orders change nothing. */
  lemma {:induction false} FlushTalkFailed(fs: seq<Flush>, hs: seq<Flush>, duration: int, line: Line)
    requires |fs| <= |hs| && hs[..|fs|] == fs
    requires FlushTalk(fs, duration, line).outcome.Failure?
    ensures FlushTalk(hs, duration, line) == FlushTalk(fs, duration, line)
    decreases |hs|
  {
    if |hs| > |fs| {
      var init := hs[..|hs| - 1];
      assert init[..|fs|] == fs;
      FlushTalkFailed(fs, init, duration, line);
    } else {
      assert hs == fs;
    }
  }

  /** The plan for the first k modules is the start of the plan for the first m. */
  lemma {:induction false} PlanPrefix(vs: seq<real>, low: real, k: nat, m: nat)
    requires k <= m && 6 * m <= |vs|
    ensures |Plan(vs, low, k)| <= |Plan(vs, low, m)| && Plan(vs, low, m)[..|Plan(vs, low, k)|] == Plan(vs, low, k)
    decreases m
  {
    if m > k {
      PlanPrefix(vs, low, k, m - 1);
      PlanStep(vs, low, m - 1);
      PrefixThrough(Plan(vs, low, k), Plan(vs, low, m - 1), Plan(vs, low, m));
    }
  }

  /** A prefix of a prefix is a prefix. */
  lemma PrefixThrough<T>(a: seq<T>, b: seq<T>, c: seq<T>)
    requires |a| <= |b| && b[..|a|] == a
    requires |b| <= |c| && c[..|b|] == b
    ensures |a| <= |c| && c[..|a|] == a
  {
    assert c[..|a|] == c[..|b|][..|a|];
  }

  /** Once an order has failed, the plan's further orders change nothing. */
  lemma FlushTalkStops(vs: seq<real>, low: real, k: nat, m: nat, duration: int, line: Line)
    requires k <= m && 6 * m <= |vs|
    requires FlushTalk(Plan(vs, low, k), duration, line).outcome.Failure?
    ensures FlushTalk(Plan(vs, low, m), duration, line) == FlushTalk(Plan(vs, low, k), duration, line)
  {
    var p, q := Plan(vs, low, k), Plan(vs, low, m);
    PlanPrefix(vs, low, k, m);
    FlushTalkFailed(p, q, duration, line);
  }

  /** The plan for one more module: its order, if it has a cell to drain, comes after the others. */
  lemma PlanStep(vs: seq<real>, low: real, m: nat)
    requires 6 * (m + 1) <= |vs|
    ensures var mask := ModuleMask(vs, low, 6 * m, 6);
      Plan(vs, low, m + 1) == Plan(vs, low, m) + if mask != 0 then [Flush(m + 1, mask)] else []
  {
  }

  /**
   * The scan has taken in the first `i` cells, cell i being cell c of the
   * module with index m: `mask` holds the drained cells of that module so
   * far, `held` the address held, and the orders of the modules before it
   * went out, ending with `r` on line `now`.
   */
  ghost predicate Scanned(vs: seq<real>, low: real, duration: int, line0: Line, i: nat, m: nat, c: nat,
                          mask: byte, held: Option<int>, r: Result<(), Error>, now: Line)
  {
    && c < 6 && Marked(vs, low, i, m, c, mask, held)
    && FlushTalk(Plan(vs, low, m), duration, line0) == Talk(r, now)
  }

  /** A module with no cell to drain adds no order. */
  lemma PlanIdle(vs: seq<real>, low: real, m: nat)
    requires 6 * (m + 1) <= |vs| && ModuleMask(vs, low, 6 * m, 6) == 0
    ensures Plan(vs, low, m + 1) == Plan(vs, low, m)
  {
    PlanStep(vs, low, m);
    assert Plan(vs, low, m) + [] == Plan(vs, low, m);
  }

  /** Sending one more order after a plan's orders. */
  lemma FlushTalkSnoc(fs: seq<Flush>, f: Flush, duration: int, line: Line)
    ensures var t := FlushTalk(fs, duration, line);
      FlushTalk(fs + [f], duration, line) == if t.outcome.Failure? then t else FlushOne(f, duration, t.line)
  {
    assert (fs + [f])[..|fs|] == fs;
  }

  /** A module with a cell to drain extends the orders sent so far by its own order. */
  lemma EndStep(vs: seq<real>, low: real, duration: int, m: nat, mask: byte,
                line: Line, prev: Result<(), Error>, now0: Line, r: Result<(), Error>, now1: Line)
    requires 6 * (m + 1) <= |vs| && mask == ModuleMask(vs, low, 6 * m, 6) && mask != 0
    requires FlushTalk(Plan(vs, low, m), duration, line) == Talk(prev, now0) && prev.Success?
    requires Talk(r, now1) == FlushOne(Flush(m + 1, mask), duration, now0)
    ensures FlushTalk(Plan(vs, low, m + 1), duration, line) == Talk(r, now1)
  {
    PlanStep(vs, low, m);
    FlushTalkSnoc(Plan(vs, low, m), Flush(m + 1, mask), duration, line);
  }

  /**
   * The scan has taken in the first `i` cells, cell i being cell c of the
   * module with index m: `mask` holds that module's drained cells among them
   * and `held` the address of the last drained cell's module.
   */
  ghost predicate Marked(vs: seq<real>, low: real, i: nat, m: nat, c: nat, mask: byte, held: Option<int>) {
    && i <= |vs| && i == 6 * m + c && c <= 6
    && mask == ModuleMask(vs, low, 6 * m, c)
    && held == LastDrained(vs, low, i)
  }

  /** A module with no cell to drain adds no order, and the scan moves on. */
  lemma IdleModuleEnded(vs: seq<real>, low: real, duration: int, line0: Line, i: nat, m: nat,
                        held: Option<int>, r: Result<(), Error>, now: Line)
    requires Marked(vs, low, i, m, 6, 0, held)
    requires FlushTalk(Plan(vs, low, m), duration, line0) == Talk(r, now)
    ensures Scanned(vs, low, duration, line0, i, m + 1, 0, 0, held, r, now)
  {
    PlanIdle(vs, low, m);
  }

  /** A scan whose last order failed has sent all it ever will of the plan. */
  lemma ScannedFails(vs: seq<real>, low: real, duration: int, line0: Line, i: nat, m: nat, c: nat,
                     mask: byte, held: Option<int>, r: Result<(), Error>, now: Line)
    requires Scanned(vs, low, duration, line0, i, m, c, mask, held, r, now) && r.Failure?
    ensures FlushTalk(Plan(vs, low, |vs| / 6), duration, line0) == Talk(r, now)
  {
    PlanFailsAt(vs, low, m, duration, line0, r, now);
  }

  /** A scan that has taken in every cell has sent the whole plan and holds the last drained cell's module. */
  lemma ScannedAll(vs: seq<real>, low: real, duration: int, line0: Line, i: nat, m: nat, c: nat,
                   mask: byte, held: Option<int>, r: Result<(), Error>, now: Line)
    requires Scanned(vs, low, duration, line0, i, m, c, mask, held, r, now) && i == |vs|
    ensures FlushTalk(Plan(vs, low, |vs| / 6), duration, line0) == Talk(r, now)
    ensures held == LastDrained(vs, low, |vs|)
  {
    CellPosition(|vs|, m, c);
  }

  /** A cell that is not a module's last leaves the module, and the orders sent, as they were. */
  lemma ScannedNext(vs: seq<real>, low: real, duration: int, line0: Line, i: nat, m: nat, c: nat,
                    mask: byte, held: Option<int>, r: Result<(), Error>, now: Line)
    requires c < 5 && Marked(vs, low, i + 1, m, c + 1, mask, held)
    requires FlushTalk(Plan(vs, low, m), duration, line0) == Talk(r, now)
    ensures Scanned(vs, low, duration, line0, i + 1, m, c + 1, mask, held, r, now)
  {
  }

  /** An order that fails leaves the whole plan's talk where it stopped. */
  lemma PlanFailsAt(vs: seq<real>, low: real, m: nat, duration: int, line: Line, r: Result<(), Error>, now: Line)
    requires 6 * m <= |vs| && r.Failure?
    requires FlushTalk(Plan(vs, low, m), duration, line) == Talk(r, now)
    ensures Talk(r, now) == FlushTalk(Plan(vs, low, |vs| / 6), duration, line)
  {
    WholeModules(|vs|, m);
    FlushTalkStops(vs, low, m, |vs| / 6, duration, line);
  }

  /**
   * Pack cell n = 6m + c is cell c of the module with index m (address m + 1);
   * the cell before it belongs to module m - 1 when c is 0, else to module m.
   */
  lemma CellPosition(n: nat, m: nat, c: nat)
    requires n == 6 * m + c && c < 6
    ensures n / 6 == m && n % 6 == c
    ensures n > 0 ==> (n - 1) / 6 + 1 == (if c == 0 then m else m + 1)
  {
  }

  /** A pack of `n` cells holds at least `k` whole modules when it has 6k cells. */
  lemma WholeModules(n: nat, k: nat)
    requires 6 * k <= n
    ensures k <= n / 6 && 6 * (n / 6) <= n
  {
  }

  /**
   * `n` reads of the balance-control register of `addr`, whose results are
   * only logged. When they all go through, `n` read frames for that register
   * were sent.
   */
  function ReadbackTalk(addr: int, n: nat, line: Line): (t: Talk)
    ensures Extends(t.line, line)
    ensures t.outcome.Failure? ==> !t.outcome.error.CrcMismatch?
    ensures t.outcome.Success? ==> |t.line.log| == |line.log| + n
    ensures t.outcome.Success? && n > 0 ==>
      var req := EncodeRequest(false, [addr, RegBalCtrl as int, 1]);
      req.Success? && forall k :: |line.log| <= k < |t.line.log| ==> t.line.log[k] == req.value
    decreases n
  {
    if n == 0 then Talk(Success(()), line)
    else
      var t := ReadbackTalk(addr, n - 1, line);
      if t.outcome.Failure? then t
      else
        var t2 := Quiet(false, [addr, RegBalCtrl as int, 1], t.line);
        ExtendsTrans(line, t.line, t2.line);
        t2
  }

  /** Once a read-back has failed, further read-backs change nothing. */
  lemma {:induction false} ReadbackStops(addr: int, n: nat, m: nat, line: Line)
    requires n <= m && ReadbackTalk(addr, n, line).outcome.Failure?
    ensures ReadbackTalk(addr, m, line) == ReadbackTalk(addr, n, line)
  {
    if m > n {
      ReadbackStops(addr, n, m - 1, line);
      ReadbackFailed(addr, m, line);
    }
  }

  /** A failed read-back ends the read-backs. */
  lemma ReadbackFailed(addr: int, m: nat, line: Line)
    requires m > 0 && ReadbackTalk(addr, m - 1, line).outcome.Failure?
    ensures ReadbackTalk(addr, m, line) == ReadbackTalk(addr, m - 1, line)
  {
  }

  /** How many times the balance-control register is read back after balancing. */
  const Readbacks: nat := 10

  /**
   * Balancing the pack: the lowest of all cell readings is taken (no cells,
   * or a cell not yet read, make that fail), each module with a cell to drain
   * gets its balancing time and mask, and the balance-control register of the
   * module of the last drained cell is read back; when no cell was drained no
   * module address was ever set, and the read-back fails on it.
   */
  function BalanceTalk(cells: seq<Option<real>>, duration: int, line: Line): (t: Talk)
    ensures cells == [] ==> t == Talk(Failure(EmptyPack), line)
    ensures cells != [] && !AllRead(cells) ==> t == Talk(Failure(NotNumeric), line)
    ensures Extends(t.line, line)
    ensures t.outcome.Failure? ==> !t.outcome.error.CrcMismatch?
  {
    if cells == [] then Talk(Failure(EmptyPack), line)
    else if !AllRead(cells) then Talk(Failure(NotNumeric), line)
    else
      var vs := Readings(cells);
      var low := MinOf(vs);
      var t := FlushTalk(Plan(vs, low, |vs| / 6), duration, line);
      if t.outcome.Failure? then t
      else
        match LastDrained(vs, low, |vs|)
        case None => Talk(Failure(Unbound), t.line)
        case Some(a) =>
          var t2 := ReadbackTalk(a, Readbacks, t.line);
          ExtendsTrans(line, t.line, t2.line);
          t2
  }

  /** Balancing whose orders failed ends where they stopped. */
  lemma BalanceStops(cells: seq<Option<real>>, duration: int, line: Line, r: Result<(), Error>, now: Line)
    requires cells != [] && AllRead(cells) && r.Failure?
    requires var vs := Readings(cells);
      FlushTalk(Plan(vs, MinOf(vs), |vs| / 6), duration, line) == Talk(r, now)
    ensures Talk(r, now) == BalanceTalk(cells, duration, line)
  {
  }

  /**
   * Balancing that got through every order goes on with the read-back from
   * the address held after the scan, or fails when none was ever set.
   */
  lemma BalanceDone(cells: seq<Option<real>>, duration: int, line: Line, prev: Result<(), Error>, mid: Line,
                    held: Option<int>, r: Result<(), Error>, now: Line)
    requires cells != [] && AllRead(cells) && prev.Success?
    requires var vs := Readings(cells);
      && FlushTalk(Plan(vs, MinOf(vs), |vs| / 6), duration, line) == Talk(prev, mid)
      && held == LastDrained(vs, MinOf(vs), |vs|)
    requires held.None? ==> Talk(r, now) == Talk(Failure(Unbound), mid)
    requires held.Some? ==> Talk(r, now) == ReadbackTalk(held.value, Readbacks, mid)
    ensures Talk(r, now) == BalanceTalk(cells, duration, line)
  {
  }

  /**
   * On a pack of whole modules whose orders all went through, the read-back
   * goes to the module of the plan's last order, and fails when the plan is
   * empty.
   */
  lemma BalanceReadsBackLastOrder(cells: seq<Option<real>>, duration: int, line: Line)
    requires cells != [] && AllRead(cells) && |cells| % 6 == 0
    ensures var vs := Readings(cells);
      var p := Plan(vs, MinOf(vs), |vs| / 6);
      var t := FlushTalk(p, duration, line);
      t.outcome.Success? ==>
        BalanceTalk(cells, duration, line)
          == if p == [] then Talk(Failure(Unbound), t.line) else ReadbackTalk(p[|p| - 1].addr, Readbacks, t.line)
  {
    var vs := Readings(cells);
    assert 6 * (|vs| / 6) == |vs|;
    LastDrainedIsLastOrder(vs, MinOf(vs), |vs| / 6);
  }

  /**
   * A pack whose every cell is within the tolerance of the lowest sends no
   * order and then fails on the read-back, since no module address was set.
   */
  lemma BalancedPackUnbound(cells: seq<Option<real>>, duration: int, line: Line)
    requires cells != [] && AllRead(cells)
    requires forall k :: 0 <= k < |cells| ==> !Selected(cells[k].value, MinOf(Readings(cells)))
    ensures BalanceTalk(cells, duration, line) == Talk(Failure(Unbound), line)
  {
    var vs := Readings(cells);
    var low := MinOf(vs);
    var mods := |vs| / 6;
    assert forall k :: 0 <= k < |vs| ==> vs[k] == cells[k].value;
    LastDrainedNone(vs, low, |vs|);
    LastDrainedNone(vs, low, 6 * mods);
    LastDrainedIsLastOrder(vs, low, mods);
  }

  /** The records discovery leaves: n cleared modules, module k with address k + 1. */
  function ClearedPack(n: nat): (sts: seq<ModuleState>)
    ensures |sts| == n && forall k :: 0 <= k < n ==> sts[k].moduleAddress == k + 1
  {
    seq(n, k => Cleared().(moduleAddress := k + 1))
  }

  /** One more module found extends the discovered records by a cleared record with the next address. */
  lemma ClearedPackSnoc(n: nat)
    ensures ClearedPack(n + 1) == ClearedPack(n) + [Cleared().(moduleAddress := n + 1)]
  {
  }

  /**
   * Records just discovered hold no cell reading, so balancing them fails at
   * the minimum with `NotNumeric` before anything is sent.
   */
  lemma DiscoveredPackNotNumeric(n: nat, duration: int, line: Line)
    requires n > 0
    ensures BalanceTalk(PackCells(ClearedPack(n)), duration, line) == Talk(Failure(NotNumeric), line)
  {
    var sts := ClearedPack(n);
    var cells := PackCells(sts);
    assert cells == PackCells(sts[..n - 1]) + Cleared().(moduleAddress := n).cellVolt;
    assert cells[|cells| - 1].None?;
  }

  // ---------------------------------------------------------------------
  // The manager.
  // ---------------------------------------------------------------------

  class ModuleManager {
    /** The bus every module is reached through. */
    const comms: Comms
    /** The modules found on the bus, module k having address k + 1. */
    var modules: seq<Module>
    /** The sum of the module voltages of the last reading. */
    var packVolt: real
    var lowestPackTemp: real
    var highestPackTemp: real
    var isFaulted: bool

    /** Distinct modules, all on this manager's bus, each with six cells and two sensors. */
    ghost predicate Valid()
      reads this`modules, modules
    {
      && (forall i, j :: 0 <= i < j < |modules| ==> modules[i] != modules[j])
      && (forall i :: 0 <= i < |modules| ==> modules[i].comms == comms && modules[i].Valid())
    }

    /** The module records as values, in module order. */
    ghost function States(): (sts: seq<ModuleState>)
      reads this`modules, modules
      ensures |sts| == |modules|
      ensures forall i :: 0 <= i < |modules| ==> sts[i] == modules[i].State()
      ensures Valid() ==> AllWellFormed(sts)
    {
      var ms := modules;
      seq(|ms|, i requires 0 <= i < |ms| reads ms => ms[i].State())
    }

    /** A manager on bus `serialConnection` with no modules yet and every pack figure at 0. */
    constructor (serialConnection: Comms)
      ensures comms == serialConnection && modules == [] && Valid()
      ensures packVolt == 0.0 && lowestPackTemp == 0.0 && highestPackTemp == 0.0 && !isFaulted
    {
      comms := serialConnection;
      modules := [];
      packVolt := 0.0;
      lowestPackTemp := 0.0;
      highestPackTemp := 0.0;
      isFaulted := false;
    }

    /** Switches off balancing on every module with one broadcast write. */
    method StopBalancing() returns (r: Result<(), Error>)
      requires comms.Idle()
      modifies comms
      ensures comms.Idle()
      ensures var t := StopAllTalk(old(comms.Now())); r == t.outcome && comms.Now() == t.line
    {
      var w := comms.Write(Broadcast, RegBalCtrl as int, 0x00);
      r := if Raised(w) then Failure(w.error) else Success(());
    }

    /** Clears every module's alerts and faults, then the pack's fault flag. */
    method ClearFaults() returns (r: Result<(), Error>)
      requires comms.Idle()
      modifies this`isFaulted, comms
      ensures comms.Idle()
      ensures var t := ClearFaultsTalk(old(comms.Now())); r == t.outcome && comms.Now() == t.line
      ensures isFaulted == (if r.Success? then false else old(isFaulted))
    {
      var w := comms.Write(Broadcast, RegAlertStatus as int, 0xFF);
      if Raised(w) {
        return Failure(w.error);
      }
      w := comms.Write(Broadcast, RegAlertStatus as int, 0x00);
      if Raised(w) {
        return Failure(w.error);
      }
      w := comms.Write(Broadcast, RegFaultStatus as int, 0xFF);
      if Raised(w) {
        return Failure(w.error);
      }
      w := comms.Write(Broadcast, RegFaultStatus as int, 0x00);
      if Raised(w) {
        return Failure(w.error);
      }
      isFaulted := false;
      r := Success(());
    }

    /** Broadcasts the address reset until a reply is exactly its acknowledgement. */
    method ResetModuleAddresses() returns (r: Result<(), Error>)
      requires comms.Idle()
      modifies comms
      ensures comms.Idle()
      ensures var t := ResetTalk(old(comms.Now())); r == t.outcome && comms.Now() == t.line
    {
      ghost var line0 := comms.Now();
      var done := false;
      r := Success(());
      while !done
        invariant comms.Idle()
        invariant !done ==> r == Success(()) && ResetTalk(comms.Now()) == ResetTalk(line0)
        invariant done ==> r == ResetTalk(line0).outcome && comms.Now() == ResetTalk(line0).line
        decreases if done then 0 else |comms.script| + 1
      {
        ghost var before := comms.Now();
        var val := comms.Write(Broadcast, RegReset as int, 0xA5);
        assert comms.Now() == Sent(before, true, ResetData);
        if Raised(val) {
          r, done := Failure(val.error), true;
        } else if val == Success(ResetAck) {
          done := true;
        } else {
          AnsweredConsumes(true, ResetData, before.script);
        }
      }
    }

    /** Writes address `addr` to the module at address 0 until its reply confirms it. */
    method ConfirmAddress(addr: int) returns (r: Result<(), Error>)
      requires comms.Idle()
      modifies comms
      ensures comms.Idle()
      ensures var t := AddressTalk(addr, old(comms.Now())); r == t.outcome && comms.Now() == t.line
    {
      ghost var line0 := comms.Now();
      var done := false;
      r := Success(());
      while !done
        invariant comms.Idle()
        invariant !done ==> r == Success(()) && AddressTalk(addr, comms.Now()) == AddressTalk(addr, line0)
        invariant done ==> r == AddressTalk(addr, line0).outcome && comms.Now() == AddressTalk(addr, line0).line
        decreases if done then 0 else |comms.script| + 1
      {
        ghost var before := comms.Now();
        var val2 := comms.Write(0, RegAddrCtrl as int, AddressCommand(addr));
        assert comms.Now() == Sent(before, true, AssignData(addr));
        if val2.Failure? {
          r, done := Failure(val2.error), true;
        } else if Confirms(val2.value, addr) {
          done := true;
        } else {
          AnsweredConsumes(true, AssignData(addr), before.script);
        }
      }
    }

    /**
     * Forgets the modules, resets every address, then probes address 0 round
     * by round: each module that answers is created, added and given the next
     * address, until a probe goes unanswered or every module address is used.
     */
    method AutoAssignModuleAddresses() returns (r: Result<(), Error>)
      requires comms.Idle()
      modifies this, comms
      ensures comms.Idle() && Valid()
      ensures var d := AutoAssignRun(MaxModuleAddr, old(comms.Now()));
        r == d.outcome && comms.Now() == d.line && |modules| == d.count
      ensures |modules| <= MaxModuleAddr && Addressed() && FoundCleared()
      ensures forall m :: m in modules ==> fresh(m)
    {
      modules := [];
      r := ResetModuleAddresses();
      if r.Success? {
        r := DiscoverModules();
      }
    }

    /**
     * The probing rounds after the reset: while a module answers and an
     * address is left, it is created, added and given the next address.
     */
    method DiscoverModules() returns (r: Result<(), Error>)
      requires comms.Idle() && modules == []
      modifies this`modules, comms
      ensures comms.Idle() && Valid()
      ensures var d := DiscoverFrom(0, MaxModuleAddr, old(comms.Now()));
        r == d.outcome && comms.Now() == d.line && |modules| == d.count
      ensures |modules| <= MaxModuleAddr && Addressed() && FoundCleared()
      ensures forall m :: m in modules ==> fresh(m)
    {
      ghost var goal := DiscoverFrom(0, MaxModuleAddr, comms.Now());
      var i, done := 0, false;
      r := Success(());
      while i < MaxModuleAddr && !done
        invariant 0 <= i <= MaxModuleAddr && |modules| == i
        invariant comms.Idle() && Valid()
        invariant FoundCleared()
        invariant forall m :: m in modules ==> fresh(m)
        invariant goal == if done then Found(i, r, comms.Now()) else DiscoverFrom(i, MaxModuleAddr, comms.Now())
        invariant !done ==> r == Success(())
        decreases MaxModuleAddr - i, !done
      {
        var answered;
        answered, r := AssignRound(i);
        if answered {
          ClearedPackSnoc(i);
          i := i + 1;
        }
        done := !answered || r.Failure?;
        if !done {
          r := Success(());
        }
      }
    }

    /**
     * One round of discovery: probes address 0 and, if a module answers,
     * creates it and gives it address i + 1.
     */
    method AssignRound(i: nat) returns (answered: bool, r: Result<(), Error>)
      requires Valid() && comms.Idle() && i == |modules| && i < MaxModuleAddr
      modifies this`modules, comms
      ensures Valid() && comms.Idle() && |modules| == (if answered then i + 1 else i)
      ensures modules == old(modules) + if answered then [modules[i]] else []
      ensures answered ==> fresh(modules[i])
      ensures States() == old(States()) + if answered then [Cleared().(moduleAddress := i + 1)] else []
      ensures !answered ==> r == Success(())
      ensures var d := DiscoverFrom(i, MaxModuleAddr, old(comms.Now()));
        if answered && r.Success? then d == DiscoverFrom(i + 1, MaxModuleAddr, comms.Now())
        else d == Found(|modules|, r, comms.Now())
    {
      ghost var before := comms.Now();
      ghost var sts0 := States();
      var val := comms.ReadNoCrc(0, 0, 1);
      ghost var next := comms.Now();
      assert next == Sent(before, false, ProbeData) && val == Outcome(false, ProbeData, before.script, false);
      assert States() == sts0;
      answered := val.Success? && Answers(val.value);
      if !answered {
        assert DiscoverFrom(i, MaxModuleAddr, before) == Found(i, Success(()), next);
        return answered, Success(());
      }
      r := Enrol(i + 1);
      assert Talk(r, comms.Now()) == AddressTalk(i + 1, next);
    }

    /** Creates the module that answered, adds it after the others and confirms its address `address`. */
    method Enrol(address: int) returns (r: Result<(), Error>)
      requires Valid() && comms.Idle()
      modifies this`modules, comms
      ensures Valid() && comms.Idle()
      ensures |modules| == |old(modules)| + 1 && modules == old(modules) + [modules[|old(modules)|]]
      ensures fresh(modules[|old(modules)|])
      ensures States() == old(States()) + [Cleared().(moduleAddress := address)]
      ensures Talk(r, comms.Now()) == AddressTalk(address, old(comms.Now()))
    {
      AddModule(address);
      ghost var sts := States();
      r := ConfirmAddress(address);
      assert States() == sts;
    }

    /** Module k has address k + 1. */
    ghost predicate Addressed()
      reads this`modules, modules
    {
      var sts := States();
      forall k :: 0 <= k < |sts| ==> sts[k].moduleAddress == k + 1
    }

    /** Module k is a cleared record with address k + 1, as discovery leaves it. */
    ghost predicate FoundCleared()
      reads this`modules, modules
    {
      States() == ClearedPack(|modules|)
    }

    /** Creates a module on this manager's bus, adds it after the others and gives it address `address`. */
    method AddModule(address: int)
      requires Valid()
      modifies this`modules
      ensures Valid() && |modules| == |old(modules)| + 1 && modules == old(modules) + [modules[|old(modules)|]]
      ensures fresh(modules[|old(modules)|])
      ensures States() == old(States()) + [Cleared().(moduleAddress := address)]
    {
      var m := new Module(comms);
      modules := modules + [m];
      m.moduleAddress := address;
    }

    /** Module `i` takes a voltage and temperature reading; the other modules are left as they were. */
    method ReadOne(i: nat, kelvin: real -> real) returns (r: Result<(), Error>)
      requires Valid() && comms.Idle() && i < |modules|
      modifies comms, modules[i]
      ensures Valid() && comms.Idle()
      ensures States() == old(States())[i := modules[i].State()]
      ensures Run(modules[i].State(), r, comms.Now()) == ReadVoltTempRun(old(modules[i].State()), old(comms.Now()), kelvin)
    {
      var mod := modules[i];
      ghost var before := States();
      r := mod.ReadVoltTemp(kelvin);
      forall j | 0 <= j < |modules| && j != i
        ensures modules[j].State() == before[j] && modules[j].Valid()
      {
        assert modules[j] != mod;
      }
    }

    /** Adds one module's voltage to the pack voltage and widens the pack's temperature extremes by its own. */
    method AddToPack(volt: real, low: real, high: real)
      requires Valid()
      modifies this`packVolt, this`lowestPackTemp, this`highestPackTemp
      ensures Valid() && States() == old(States())
      ensures packVolt == old(packVolt) + volt
      ensures lowestPackTemp == Min(old(lowestPackTemp), low) && highestPackTemp == Max(old(highestPackTemp), high)
    {
      packVolt := packVolt + volt;
      lowestPackTemp := Min(lowestPackTemp, low);
      highestPackTemp := Max(highestPackTemp, high);
    }

    /**
     * Reads module `i` and, if the reading succeeds, adds its voltage to the
     * pack voltage and widens the pack's temperature extremes by its own;
     * `p` is the pack as it stands before.
     */
    method ReadModule(i: nat, kelvin: real -> real, ghost p: PackRun) returns (r: Result<(), Error>)
      requires Valid() && comms.Idle() && i < |modules|
      requires p.states == States() && p.packVolt == packVolt && p.lowTemp == lowestPackTemp
      requires p.highTemp == highestPackTemp && p.line == comms.Now()
      modifies this`packVolt, this`lowestPackTemp, this`highestPackTemp, comms, modules[i]
      ensures Valid() && comms.Idle()
      ensures PackRun(States(), packVolt, lowestPackTemp, highestPackTemp, r, comms.Now())
        == Fold(p, i, ReadVoltTempRun(p.states[i], p.line, kelvin))
    {
      r := ReadOne(i, kelvin);
      ghost var run := ReadVoltTempRun(p.states[i], p.line, kelvin);
      assert run == Run(modules[i].State(), r, comms.Now());
      ghost var states := p.states[i := run.state];
      assert States() == states;
      if r.Failure? {
        assert Fold(p, i, run) == PackRun(states, packVolt, lowestPackTemp, highestPackTemp, r, comms.Now());
        return;
      }
      AddToPack(modules[i].moduleVolt, modules[i].lowestTemperature, modules[i].highestTemperature);
      assert Fold(p, i, run) == PackRun(states, packVolt, lowestPackTemp, highestPackTemp, r, comms.Now());
    }

    /** Reads every module in turn from the pack `p` as it stands, until one fails. */
    method ReadModules(kelvin: real -> real, ghost p: PackRun) returns (r: Result<(), Error>)
      requires Valid() && comms.Idle()
      requires p == PackRun(States(), packVolt, lowestPackTemp, highestPackTemp, Success(()), comms.Now())
      modifies this`packVolt, this`lowestPackTemp, this`highestPackTemp, comms, modules
      ensures Valid() && comms.Idle()
      ensures PackRun(States(), packVolt, lowestPackTemp, highestPackTemp, r, comms.Now()) == ReadFrom(p, 0, kelvin)
    {
      ghost var cur := p;
      r := Success(());
      for i := 0 to |modules|
        invariant Valid() && comms.Idle() && r.Success?
        invariant cur == PackRun(States(), packVolt, lowestPackTemp, highestPackTemp, r, comms.Now())
        invariant ReadFrom(cur, i, kelvin) == ReadFrom(p, 0, kelvin)
      {
        ReadFromStep(cur, i, kelvin);
        r := ReadModule(i, kelvin, cur);
        cur := PackRun(States(), packVolt, lowestPackTemp, highestPackTemp, r, comms.Now());
        if r.Failure? {
          ReadFromDone(cur, i + 1, kelvin);
          return;
        }
      }
      ReadFromDone(cur, |modules|, kelvin);
    }

    /**
     * Stops all balancing, then reads every module in turn, summing the pack
     * voltage and widening the pack's temperature extremes.
     */
    method ReadAllVoltTemp(kelvin: real -> real) returns (r: Result<(), Error>)
      requires Valid() && comms.Idle()
      modifies this`packVolt, this`lowestPackTemp, this`highestPackTemp, comms, modules
      ensures Valid() && comms.Idle()
      ensures var p := ReadAllRun(old(States()), old(lowestPackTemp), old(highestPackTemp), old(comms.Now()), kelvin);
        && States() == p.states && packVolt == p.packVolt && lowestPackTemp == p.lowTemp
        && highestPackTemp == p.highTemp && r == p.outcome && comms.Now() == p.line
    {
      ghost var sts0 := States();
      packVolt := 0.0;
      r := StopBalancing();
      assert States() == sts0;
      ghost var start := PackRun(sts0, packVolt, lowestPackTemp, highestPackTemp, r, comms.Now());
      if r.Failure? {
        ReadFromDone(start, 0, kelvin);
        return;
      }
      r := ReadModules(kelvin, start);
    }

    /** Every module's cell readings, in module order. */
    method GatherCells() returns (allCellsV: seq<Option<real>>)
      ensures allCellsV == PackCells(States())
    {
      allCellsV := [];
      for i := 0 to |modules|
        invariant allCellsV == PackCells(States()[..i])
      {
        assert States()[..i + 1][..i] == States()[..i];
        allCellsV := allCellsV + modules[i].cellVolt;
      }
      assert States()[..|modules|] == States();
    }

    /** One module's balancing order: its balancing time, then its mask. */
    method FlushModule(modAddr: int, cellBalance: byte, duration: int) returns (r: Result<(), Error>)
      requires comms.Idle()
      modifies comms
      ensures comms.Idle()
      ensures Talk(r, comms.Now()) == FlushOne(Flush(modAddr, cellBalance), duration, old(comms.Now()))
    {
      var w := comms.Write(modAddr, RegBalTime as int, duration);
      if Raised(w) {
        return Failure(w.error);
      }
      w := comms.Write(modAddr, RegBalCtrl as int, cellBalance as int);
      r := if Raised(w) then Failure(w.error) else Success(());
    }

    /**
     * The end of module `m`'s cells: a non-empty mask is sent to the address
     * held, which is then m + 1; this extends the orders sent so far by that
     * module's order, and the scan moves on to the next module with an empty
     * mask.
     */
    method EndModule(vs: seq<real>, minCellV: real, duration: int, modAddr: Option<int>, cellBalance: byte,
                     prev: Result<(), Error>, ghost i: nat, ghost m: nat, ghost line0: Line) returns (r: Result<(), Error>)
      requires comms.Idle() && prev.Success? && (cellBalance != 0 ==> modAddr == Some(m + 1))
      requires Marked(vs, minCellV, i, m, 6, cellBalance, modAddr)
      requires FlushTalk(Plan(vs, minCellV, m), duration, line0) == Talk(prev, comms.Now())
      modifies comms
      ensures comms.Idle()
      ensures Scanned(vs, minCellV, duration, line0, i, m + 1, 0, 0, modAddr, r, comms.Now())
    {
      if cellBalance != 0 {
        r := DrainModule(vs, minCellV, duration, modAddr, cellBalance, prev, i, m, line0);
      } else {
        r := prev;
        IdleModuleEnded(vs, minCellV, duration, line0, i, m, modAddr, r, comms.Now());
      }
    }

    /** A module with cells to drain: its order goes out, extending the orders sent so far. */
    method DrainModule(vs: seq<real>, minCellV: real, duration: int, modAddr: Option<int>, cellBalance: byte,
                       prev: Result<(), Error>, ghost i: nat, ghost m: nat, ghost line0: Line) returns (r: Result<(), Error>)
      requires comms.Idle() && prev.Success? && cellBalance != 0 && modAddr == Some(m + 1)
      requires Marked(vs, minCellV, i, m, 6, cellBalance, modAddr)
      requires FlushTalk(Plan(vs, minCellV, m), duration, line0) == Talk(prev, comms.Now())
      modifies comms
      ensures comms.Idle()
      ensures Scanned(vs, minCellV, duration, line0, i, m + 1, 0, 0, modAddr, r, comms.Now())
    {
      ghost var now0 := comms.Now();
      r := FlushModule(modAddr.value, cellBalance, duration);
      EndStep(vs, minCellV, duration, m, cellBalance, line0, prev, now0, r, comms.Now());
    }

    /**
     * Cell i, cell c of the module with index m, enters the scan: a cell more
     * than the tolerance above `minCellV` sets its bit in the mask and makes
     * its module's address the one held. Returns the cell's place in its
     * module.
     */
    method MarkCell(vs: seq<real>, minCellV: real, i: nat, cellBalance: byte, modAddr: Option<int>,
                    ghost m: nat, ghost c: nat)
      returns (mask: byte, held: Option<int>, cellNum: int)
      requires i < |vs| && c < 6 && Marked(vs, minCellV, i, m, c, cellBalance, modAddr)
      ensures cellNum == c
      ensures Marked(vs, minCellV, i + 1, m, c + 1, mask, held)
      ensures c == 5 && mask != 0 ==> held == Some(m + 1)
    {
      CellPosition(i, m, c);
      cellNum := i % 6;
      mask, held := cellBalance, modAddr;
      if vs[i] > minCellV + Tolerance {
        held := Some(i / 6 + 1);
        mask := mask | Bit(cellNum);
      }
      if c == 5 {
        LastDrainedInModule(vs, minCellV, m, 6);
      }
    }

    /**
     * One cell of the scan, cell c of the module with index m: the cell is
     * marked, and at the module's last cell a non-empty mask is sent and
     * cleared.
     */
    method ScanCell(vs: seq<real>, minCellV: real, duration: int, i: nat, cellBalance: byte, modAddr: Option<int>,
                    prev: Result<(), Error>, ghost m: nat, ghost c: nat, ghost line0: Line)
      returns (mask: byte, held: Option<int>, r: Result<(), Error>, ghost m2: nat, ghost c2: nat)
      requires comms.Idle() && prev.Success? && i < |vs|
      requires Scanned(vs, minCellV, duration, line0, i, m, c, cellBalance, modAddr, prev, comms.Now())
      modifies comms
      ensures comms.Idle()
      ensures Scanned(vs, minCellV, duration, line0, i + 1, m2, c2, mask, held, r, comms.Now())
    {
      var cellNum;
      mask, held, cellNum := MarkCell(vs, minCellV, i, cellBalance, modAddr, m, c);
      if cellNum == 5 {
        // only a non-empty mask is sent, and then cleared
        r := EndModule(vs, minCellV, duration, held, mask, prev, i + 1, m, line0);
        mask := 0;
        m2, c2 := m + 1, 0;
      } else {
        r := prev;
        m2, c2 := m, c + 1;
        ScannedNext(vs, minCellV, duration, line0, i, m, c, mask, held, r, comms.Now());
      }
    }

    /**
     * The scan over the cells, module by module, sending each module's
     * non-empty mask at its last cell. Returns the address held at the end:
     * that of the last drained cell's module, none if no cell was drained.
     */
    method FlushModules(vs: seq<real>, minCellV: real, duration: int) returns (r: Result<(), Error>, modAddr: Option<int>)
      requires comms.Idle()
      modifies comms
      ensures comms.Idle()
      ensures Talk(r, comms.Now()) == FlushTalk(Plan(vs, minCellV, |vs| / 6), duration, old(comms.Now()))
      ensures r.Success? ==> modAddr == LastDrained(vs, minCellV, |vs|)
    {
      ghost var line0 := comms.Now();
      // the scan is at cell c of the module with index m
      ghost var m: nat, c: nat := 0, 0;
      var cellBalance: byte := 0;
      modAddr := None;
      r := Success(());
      var i := 0;
      while i < |vs| && r.Success?
        invariant comms.Idle()
        invariant Scanned(vs, minCellV, duration, line0, i, m, c, cellBalance, modAddr, r, comms.Now())
        decreases |vs| - i
      {
        cellBalance, modAddr, r, m, c := ScanCell(vs, minCellV, duration, i, cellBalance, modAddr, r, m, c, line0);
        i := i + 1;
      }
      if r.Failure? {
        ScannedFails(vs, minCellV, duration, line0, i, m, c, cellBalance, modAddr, r, comms.Now());
      } else {
        ScannedAll(vs, minCellV, duration, line0, i, m, c, cellBalance, modAddr, r, comms.Now());
      }
    }

    /** Reads the balance-control register of `modAddr` `n` times, only for the log. */
    method ReadBack(modAddr: int, n: nat) returns (r: Result<(), Error>)
      requires comms.Idle()
      modifies comms
      ensures comms.Idle()
      ensures Talk(r, comms.Now()) == ReadbackTalk(modAddr, n, old(comms.Now()))
    {
      ghost var line0 := comms.Now();
      r := Success(());
      for j := 0 to n
        invariant comms.Idle()
        invariant ReadbackTalk(modAddr, j, line0) == Talk(Success(()), comms.Now()) && r == Success(())
      {
        var v := comms.Read(modAddr, RegBalCtrl as int, 1);
        if Raised(v) {
          ReadbackStops(modAddr, j + 1, n, line0);
          return Failure(v.error);
        }
      }
    }

    /**
     * Balancing on readings of every cell: the lowest reading is taken, each
     * module with a cell more than the tolerance above it gets its balancing
     * time and mask, and the balance-control register of the last drained
     * cell's module is read back, which fails when no cell was drained.
     */
    method BalanceReadings(allCellsV: seq<Option<real>>, duration: int) returns (r: Result<(), Error>)
      requires comms.Idle() && allCellsV != [] && AllRead(allCellsV)
      modifies comms
      ensures comms.Idle()
      ensures Talk(r, comms.Now()) == BalanceTalk(allCellsV, duration, old(comms.Now()))
    {
      ghost var line0 := comms.Now();
      var vs := Readings(allCellsV);
      var minCellV := MinOf(vs);
      var modAddr;
      r, modAddr := FlushModules(vs, minCellV, duration);
      if r.Failure? {
        BalanceStops(allCellsV, duration, line0, r, comms.Now());
        return;
      }
      ghost var prev, mid := r, comms.Now();
      if modAddr.None? {
        r := Failure(Unbound);
      } else {
        r := ReadBack(modAddr.value, Readbacks);
      }
      BalanceDone(allCellsV, duration, line0, prev, mid, modAddr, r, comms.Now());
    }

    /**
     * Balances the pack, for `duration` (5 unless given): gathers every cell
     * reading and fails when there is none or one is missing, and otherwise
     * balances on those readings.
     */
    method BalanceCells(duration: int := 5) returns (r: Result<(), Error>)
      requires comms.Idle()
      modifies comms
      ensures comms.Idle()
      ensures Talk(r, comms.Now()) == BalanceTalk(PackCells(old(States())), duration, old(comms.Now()))
    {
      var allCellsV := GatherCells();
      if allCellsV == [] {
        return Failure(EmptyPack);
      }
      if exists i | 0 <= i < |allCellsV| :: allCellsV[i].None? {
        return Failure(NotNumeric);
      }
      assert AllRead(allCellsV);
      r := BalanceReadings(allCellsV, duration);
    }
  }
}
