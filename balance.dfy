/**
 * Planning cell balancing across the pack: which cells of which module get
 * their bleed resistor switched on. Cells are numbered across the pack, six
 * per module, module `m` (from 1) holding pack cells 6(m-1) .. 6(m-1)+5.
 */
module Balance {
  import opened Wrappers
  import opened Crc
  import opened Frame

  /** Cells within this many volts of the lowest cell are left alone. */
  const Tolerance: real := 0.05

  /** A cell is drained when it stands more than the tolerance above the lowest cell. */
  predicate Selected(v: real, low: real) {
    v > low + Tolerance
  }

  /** The balance-control bits of cells 0 to 5 of a module. */
  const BitTable: seq<byte> := [0x01, 0x02, 0x04, 0x08, 0x10, 0x20]

  /** The balance-control bit of cell `k` of a module: a bit of its own among the low six. */
  function Bit(k: nat): (b: byte)
    requires k < 6
    ensures b != 0 && b & 0xC0 == 0
    ensures forall j :: 0 <= j < 6 && j != k ==> b & BitTable[j] == 0
  {
    BitTable[k]
  }

  /** One module's balancing order: its address and the mask of cells to drain. */
  datatype Flush = Flush(addr: int, mask: byte)

  /** The lowest voltage of a non-empty list. */
  function MinOf(s: seq<real>): (m: real)
    requires |s| > 0
    ensures m in s
    ensures forall i :: 0 <= i < |s| ==> m <= s[i]
  {
    if |s| == 1 then s[0]
    else
      var m := MinOf(s[..|s| - 1]);
      if s[|s| - 1] < m then s[|s| - 1] else m
  }

  /** The lowest cell is never drained. */
  lemma LowestNeverSelected(s: seq<real>)
    requires |s| > 0
    ensures exists i :: 0 <= i < |s| && !Selected(s[i], MinOf(s))
  {
    var m := MinOf(s);
    var i :| 0 <= i < |s| && s[i] == m;
    assert !Selected(s[i], m);
  }

  // ---------------------------------------------------------------------
  // The planner as intended: each cell's module and position are worked
  // out for that cell, so each module gets the mask of its own cells.
  // ---------------------------------------------------------------------

  /** The mask of the first `k` cells of the module whose first pack cell is `base`. */
  function ModuleMask(cells: seq<real>, low: real, base: nat, k: nat): (m: byte)
    requires k <= 6 && base + k <= |cells|
    ensures m & 0xC0 == 0
    decreases base + k
  {
    if k == 0 then 0
    else ModuleMask(cells, low, base, k - 1) | (if Selected(cells[base + k - 1], low) then Bit(k - 1) else 0)
  }

  /** Bit `j` of a module's mask is set exactly when its cell `j` is among those scanned and is drained. */
  lemma {:induction false} MaskBits(cells: seq<real>, low: real, base: nat, k: nat)
    requires k <= 6 && base + k <= |cells|
    ensures ModuleMask(cells, low, base, k) & 0xC0 == 0
    ensures forall j :: 0 <= j < 6 ==>
      (ModuleMask(cells, low, base, k) & Bit(j) != 0 <==> j < k && Selected(cells[base + j], low))
  {
    if k > 0 {
      MaskBits(cells, low, base, k - 1);
      var prev := ModuleMask(cells, low, base, k - 1);
      var b: byte := if Selected(cells[base + k - 1], low) then Bit(k - 1) else 0;
      forall j | 0 <= j < 6
        ensures (prev | b) & Bit(j) != 0 <==> j < k && Selected(cells[base + j], low)
      {
        assert (prev | b) & Bit(j) == (prev & Bit(j)) | (b & Bit(j));
      }
    }
  }

  /** A mask only ever names the six cells of a module: it fits in six bits. */
  lemma MaskFitsSixBits(cells: seq<real>, low: real, base: nat)
    requires base + 6 <= |cells|
    ensures ModuleMask(cells, low, base, 6) as int < 64
  {
    MaskBits(cells, low, base, 6);
    var m := ModuleMask(cells, low, base, 6);
    assert m < 64 by {
      assert m & 0xC0 == 0;
    }
  }

  /** The orders for the first `mods` modules: one per module that has a cell to drain, in address order. */
  function Plan(cells: seq<real>, low: real, mods: nat): (p: seq<Flush>)
    requires 6 * mods <= |cells|
    ensures |p| <= mods
  {
    if mods == 0 then []
    else
      var m := ModuleMask(cells, low, 6 * (mods - 1), 6);
      Plan(cells, low, mods - 1) + (if m != 0 then [Flush(mods, m)] else [])
  }

  /** Orders go to strictly increasing addresses. */
  predicate AddressesIncrease(p: seq<Flush>) {
    forall i, j :: 0 <= i < j < |p| ==> p[i].addr < p[j].addr
  }

  /**
   * A module is sent an order exactly when one of its cells is to be drained,
   * the order's mask is that module's own mask, and the orders go out in
   * strictly increasing address order.
   */
  lemma {:induction false} PlanExact(cells: seq<real>, low: real, mods: nat)
    requires 6 * mods <= |cells|
    ensures forall f :: f in Plan(cells, low, mods) <==>
      && 1 <= f.addr <= mods
      && f.mask == ModuleMask(cells, low, 6 * (f.addr - 1), 6)
      && f.mask != 0
    ensures AddressesIncrease(Plan(cells, low, mods))
  {
    if mods > 0 {
      PlanExact(cells, low, mods - 1);
      var p := Plan(cells, low, mods - 1);
      forall i | 0 <= i < |p|
        ensures p[i].addr <= mods - 1
      {
        assert p[i] in p;
      }
      var q := Plan(cells, low, mods);
      forall i, j | 0 <= i < j < |q|
        ensures q[i].addr < q[j].addr
      {
        assert q[i] == p[i];
        if j == |p| {
          assert q[j].addr == mods && p[i].addr <= mods - 1;
        } else {
          assert q[j] == p[j] && p[i].addr < p[j].addr;
        }
      }
    }
  }

  /** Every cell named in an order stands more than the tolerance above the lowest cell, and every such cell is named. */
  lemma PlanDrainsExactly(cells: seq<real>, low: real, mods: nat, f: Flush, k: nat)
    requires 6 * mods <= |cells| && f in Plan(cells, low, mods) && k < 6
    ensures 1 <= f.addr <= mods
    ensures f.mask & Bit(k) != 0 <==> Selected(cells[6 * (f.addr - 1) + k], low)
  {
    PlanExact(cells, low, mods);
    MaskBits(cells, low, 6 * (f.addr - 1), 6);
  }

  /** For one module with cells 3.70, 3.75, 3.71, 3.69, 3.72, 3.695 V only the 3.75 V cell is drained. */
  lemma PlanExample()
    ensures var cells := [3.70, 3.75, 3.71, 3.69, 3.72, 3.695];
      MinOf(cells) == 3.69 && Plan(cells, MinOf(cells), 1) == [Flush(1, 0x02)]
  {
    var cells := [3.70, 3.75, 3.71, 3.69, 3.72, 3.695];
    assert MinOf(cells) == 3.69 by {
      assert MinOf(cells[..1]) == 3.70;
      assert cells[..2][..1] == cells[..1];
      assert cells[..3][..2] == cells[..2];
      assert cells[..4][..3] == cells[..3];
      assert cells[..5][..4] == cells[..4];
      assert cells[..5] == cells[..|cells| - 1];
    }
    assert ModuleMask(cells, 3.69, 0, 6) == 0x02;
  }

  /**
   * The module address held after scanning the first `n` cells: it is set
   * only for a drained cell, so it is the module of the last drained cell,
   * and nothing when no cell so far was drained.
   */
  function LastDrained(cells: seq<real>, low: real, n: nat): Option<int>
    requires n <= |cells|
  {
    if n == 0 then None
    else if Selected(cells[n - 1], low) then Some((n - 1) / 6 + 1)
    else LastDrained(cells, low, n - 1)
  }

  /**
   * No address is held after the first `n` cells exactly when none of them is
   * drained; one that is held is the address of a module among those cells.
   */
  lemma {:induction false} LastDrainedNone(cells: seq<real>, low: real, n: nat)
    requires n <= |cells|
    ensures LastDrained(cells, low, n).None? <==> forall k :: 0 <= k < n ==> !Selected(cells[k], low)
    ensures LastDrained(cells, low, n).Some? ==> 1 <= LastDrained(cells, low, n).value <= (n - 1) / 6 + 1
  {
    if n > 0 {
      LastDrainedNone(cells, low, n - 1);
    }
  }

  /**
   * Within the module whose first pack cell is 6m, the address held after its
   * first `k` cells is that module's when its mask so far is non-empty, and
   * the one held before the module otherwise.
   */
  lemma {:induction false} LastDrainedInModule(cells: seq<real>, low: real, m: nat, k: nat)
    requires k <= 6 && 6 * m + k <= |cells|
    ensures LastDrained(cells, low, 6 * m + k) ==
      if ModuleMask(cells, low, 6 * m, k) != 0 then Some(m + 1) else LastDrained(cells, low, 6 * m)
  {
    if k > 0 {
      LastDrainedInModule(cells, low, m, k - 1);
      var prev := ModuleMask(cells, low, 6 * m, k - 1);
      if Selected(cells[6 * m + k - 1], low) {
        assert (prev | Bit(k - 1)) & Bit(k - 1) == Bit(k - 1);
        assert (6 * m + k - 1) / 6 == m;
      }
    }
  }

  /**
   * Over whole modules, the address held at the end is the address of the
   * plan's last order, and there is none exactly when the plan is empty.
   */
  lemma {:induction false} LastDrainedIsLastOrder(cells: seq<real>, low: real, mods: nat)
    requires 6 * mods <= |cells|
    ensures var p := Plan(cells, low, mods);
      LastDrained(cells, low, 6 * mods) == if p == [] then None else Some(p[|p| - 1].addr)
  {
    if mods > 0 {
      LastDrainedIsLastOrder(cells, low, mods - 1);
      LastDrainedInModule(cells, low, mods - 1, 6);
      var prev := Plan(cells, low, mods - 1);
      var mask := ModuleMask(cells, low, 6 * (mods - 1), 6);
      assert 6 * (mods - 1) + 6 == 6 * mods;
      if mask != 0 {
        assert Plan(cells, low, mods) == prev + [Flush(mods, mask)];
      } else {
        assert Plan(cells, low, mods) == prev;
      }
    }
  }

  // ---------------------------------------------------------------------
  // The planner as written: the cell's position and module are assigned
  // only when the cell is drained, so they keep the values of the last
  // drained cell, and the end-of-module test reads the position even when
  // nothing has been assigned yet.
  // ---------------------------------------------------------------------

  /** How the scan ended: the orders given and the module address it held last (none if never assigned). */
  datatype Scan = Scan(flushes: seq<Flush>, modAddr: Option<int>)

  /**
   * The scan from cell `i` on, given the mask being built, the last position
   * and module assigned, and the orders given so far. The end-of-module test
   * evaluates both of its sides, so it fails when no position was assigned.
   */
  function ScanAsWritten(cells: seq<real>, low: real, i: nat, mask: byte, cellNum: Option<int>,
                         modAddr: Option<int>, acc: seq<Flush>): (r: Result<Scan, Error>)
    requires i <= |cells| && cellNum.Some? == modAddr.Some?
    ensures r.Failure? ==> r.error == Unbound
    decreases |cells| - i
  {
    if i == |cells| then Success(Scan(acc, modAddr))
    else
      var sel := Selected(cells[i], low);
      var cn := if sel then Some(i % 6) else cellNum;
      var ma := if sel then Some(i / 6 + 1) else modAddr;
      var m := if sel then mask | Bit(i % 6) else mask;
      if cn.None? then Failure(Unbound)
      else if m != 0 && cn.value == 5 then ScanAsWritten(cells, low, i + 1, 0, cn, ma, acc + [Flush(ma.value, m)])
      else ScanAsWritten(cells, low, i + 1, m, cn, ma, acc)
  }

  /** The scan as written over a whole pack, from its first cell with nothing assigned. */
  function PlanAsWritten(cells: seq<real>, low: real): (r: Result<Scan, Error>)
    ensures r.Failure? ==> r.error == Unbound
  {
    ScanAsWritten(cells, low, 0, 0, None, None, [])
  }

  /** As written, the scan fails on the first cell unless that cell is drained. */
  lemma AsWrittenFailsUnlessFirstDrained(cells: seq<real>, low: real)
    requires |cells| > 0
    ensures PlanAsWritten(cells, low).Failure? <==> !Selected(cells[0], low)
  {
    if Selected(cells[0], low) {
      NoFailureOnceAssigned(cells, low, 1, if 0 == 5 then 0 else Bit(0), Some(0), Some(1),
                            []);
    }
  }

  /** Once a position has been assigned the scan cannot fail. */
  lemma {:induction false} NoFailureOnceAssigned(cells: seq<real>, low: real, i: nat, mask: byte, cellNum: Option<int>,
                                                 modAddr: Option<int>, acc: seq<Flush>)
    requires i <= |cells| && cellNum.Some? && modAddr.Some?
    ensures ScanAsWritten(cells, low, i, mask, cellNum, modAddr, acc).Success?
    decreases |cells| - i
  {
    if i < |cells| {
      var sel := Selected(cells[i], low);
      var cn := if sel then Some(i % 6) else cellNum;
      var ma := if sel then Some(i / 6 + 1) else modAddr;
      var m := if sel then mask | Bit(i % 6) else mask;
      if m != 0 && cn.value == 5 {
        NoFailureOnceAssigned(cells, low, i + 1, 0, cn, ma, acc + [Flush(ma.value, m)]);
      } else {
        NoFailureOnceAssigned(cells, low, i + 1, m, cn, ma, acc);
      }
    }
  }

  /** As written, a pack whose very first cell is its lowest makes the scan fail. */
  lemma AsWrittenFailsOnLowFirstCell(cells: seq<real>)
    requires |cells| > 0 && cells[0] == MinOf(cells)
    ensures PlanAsWritten(cells, MinOf(cells)) == Failure(Unbound)
  {
    AsWrittenFailsUnlessFirstDrained(cells, MinOf(cells));
  }

  /** A two-module pack whose first five cells and last cell stand high. */
  const LeakPack: seq<real> := [3.8, 3.8, 3.8, 3.8, 3.8, 3.6, 3.6, 3.6, 3.6, 3.6, 3.6, 3.8]

  /**
   * As written, module 1's mask is never sent: it is carried into module 2
   * and the whole of it is sent to module 2, while the intended plan sends
   * each module its own cells.
   */
  lemma AsWrittenMaskLeaks()
    ensures PlanAsWritten(LeakPack, 3.6) == Success(Scan([Flush(2, 0x3F)], Some(2)))
    ensures Plan(LeakPack, 3.6, 2) == [Flush(1, 0x1F), Flush(2, 0x20)]
  {
    var p := LeakPack;
    assert ModuleMask(p, 3.6, 0, 6) == 0x1F;
    assert ModuleMask(p, 3.6, 6, 6) == 0x20;
    var done := Success(Scan([Flush(2, 0x3F)], Some(2)));
    assert ScanAsWritten(p, 3.6, 12, 0, Some(5), Some(2), [Flush(2, 0x3F)]) == done;
    assert Bit(5) == 0x20 && [] + [Flush(2, 0x3F)] == [Flush(2, 0x3F)];
    assert ScanAsWritten(p, 3.6, 11, 0x1F, Some(4), Some(1), []) == done;
    assert ScanAsWritten(p, 3.6, 10, 0x1F, Some(4), Some(1), []) == done;
    assert ScanAsWritten(p, 3.6, 9, 0x1F, Some(4), Some(1), []) == done;
    assert ScanAsWritten(p, 3.6, 8, 0x1F, Some(4), Some(1), []) == done;
    assert ScanAsWritten(p, 3.6, 7, 0x1F, Some(4), Some(1), []) == done;
    assert ScanAsWritten(p, 3.6, 6, 0x1F, Some(4), Some(1), []) == done;
    assert ScanAsWritten(p, 3.6, 5, 0x1F, Some(4), Some(1), []) == done;
    assert ScanAsWritten(p, 3.6, 4, 0x0F, Some(3), Some(1), []) == done;
    assert ScanAsWritten(p, 3.6, 3, 0x07, Some(2), Some(1), []) == done;
    assert ScanAsWritten(p, 3.6, 2, 0x03, Some(1), Some(1), []) == done;
    assert ScanAsWritten(p, 3.6, 1, 0x01, Some(0), Some(1), []) == done;
  }
}
