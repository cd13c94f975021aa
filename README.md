# Tesla battery-module bus driver, modelled in Dafny

This project models the core of a Python driver for the monitor boards of
Tesla battery modules. The boards are daisy-chained on one half-duplex serial
bus. The model covers three pieces:

- **The bus client** (`crc.dfy`, `frame.dfy`, `bus.dfy`). Request frames are
  `[address byte, register, value or length, CRC on writes]`. The address byte
  is the module address shifted left, with the write bit in bit 0. The CRC is
  CRC-8 with polynomial 0x07, start value 0, not reflected, computed bit by bit.
  A reply is accepted only when its last byte is the expected CRC. For a read
  that is the CRC of the reply's own preceding bytes; for a write it is the CRC
  that went out with the request. `readNoCRC` hands back the reply unchecked.
  The serial port is the class `Comms`. It logs every frame written and holds a
  script of replies, one per transmitted frame; once the script is used up the
  line stays silent.
- **The module record** (`bmsmodule.dfy`). The class `Module` holds one board's
  six cell voltages, two temperatures, their lifetime extremes and the four
  status flag bytes. `ReadStatus`, `ReadVoltTemp` and `ClearModule` update those
  fields in place. The datatype `ModuleState` is the record as a value, and pure
  functions (`StatusRun`, `AfterVoltTemp`, `ReadVoltTempRun`) specify each
  method's new state.
- **The pack manager** (`balance.dfy`, `discovery.dfy`, `manager.dfy`). It
  resets every address until the reset is acknowledged. It then discovers the
  chain by probing address 0 and gives each answering module the next address.
  Each poll cycle stops balancing and reads every module, summing the pack
  voltage and widening the pack temperature extremes. Balancing builds one
  six-bit mask per module from a snapshot of all cell voltages. The class
  `ModuleManager` runs these steps; pure "conversation" functions (`ResetTalk`,
  `DiscoverFrom`, `ReadAllRun`, `BalanceTalk`) say what each step puts on the
  line and what it returns.

Python exceptions become `Failure` values of `Frame.Error`:

- `NoReply`: the driver indexes the last byte of an empty reply.
- `InvalidByte`: a frame field does not fit in a byte when the frame is
  converted to a byte array.
- `ShortReply`: a reply is too short for the slices read from it.
- `NotNumeric`: `min` compares a cell that has no reading yet.
- `EmptyPack`: `min` of the cells of a pack with no modules.
- `Unbound`: a name is read before anything is bound to it. That is the
  `UnboundLocalError` of `cellNum` and `modAddr` in `balanceCells`, and the
  `NameError` of `moduleAddress` in the module's own `stopBalancing`
  (BMSModule.py:96).

A CRC mismatch is the value `False` in the source. Callers that ignore a
write's result pass over it. Callers that slice the result fail, and the model
propagates `CrcMismatch` there.

Facts about the program that the model makes explicit:

- CRC-8 with polynomial 0x07, start value 0 and no final xor has residue 0:
  `Crc8(s + [Crc8(s)]) == 0` (`Crc.CrcResidue`).
- The retry loops have no attempt bound. In the model they end because the
  scripted line is finite: every answered attempt uses up one reply.
- A module failure aborts the whole poll cycle. There is no per-module
  isolation.
- `lowestPackTemp` and `highestPackTemp` start at 0.0 and are never reset
  between cycles. Only `packVolt` is recomputed from 0.
- `balanceCells` balances for 5 units of time unless told otherwise
  (`BalanceCells(duration: int := 5)`).
- After the orders, `balanceCells` reads the balance-control register back ten
  times from `modAddr`. That is the module of the last drained cell, since
  `modAddr` is only set for a drained cell.
- Modules found by discovery are new, cleared records: no cell holds a
  reading, so balancing straight after discovery fails in `min` with
  `NotNumeric` (`Manager.DiscoveredPackNotNumeric`).

Where the model departs from the code, each time logged under Findings with
both the code as written and the corrected version:

- Discovery as written runs 63 rounds, so it can hand out address 63, the
  broadcast address. The manager's `AutoAssignModuleAddresses` runs at most 62
  rounds (`MAX_MODULE_ADDR`). `Discovery.AsWrittenAssignsBroadcast` keeps the
  63-round version.
- Balancing as written carries a stale cell number and address from one module
  to the next, and fails when the pack's first cell is not drained. The
  manager's scan works out each cell's position for that cell, so each module
  is sent the mask of its own cells (`Balance.Plan`). `Balance.PlanAsWritten`
  keeps the scan as written.
- When no cell is drained, the program as written fails at the end-of-module
  test of the pack's first cell (BMSModuleManager.py:63), where `cellNum` is
  still unbound. The corrected scan gets through every cell and instead fails
  at the read-back (BMSModuleManager.py:71), where `modAddr` is unbound. The
  error is `Unbound` in both cases, and nothing is sent before it
  (`Manager.BalancedPackUnbound`, `Balance.AsWrittenFailsUnlessFirstDrained`).
- The module's own `stopBalancing` as written raises before it sends anything
  (`BmsModule.StopBalancingAsWritten`). `BmsModule.Module.StopBalancing` sends
  the intended write to the module's own address.

## Model

| member | source | states |
|---|---|---|
| Crc.Crc8 | BMSUtils.py:81-94 | the CRC of the empty sequence is 0 |
| Crc.Step8 | BMSUtils.py:88-92 | the eight shift steps for one byte send 0, and only 0, to 0 |
| Crc.GenCrc | BMSUtils.py:81-94 | the nested xor/shift loop computes exactly the CRC fold `Crc8` |
| Crc.CrcSnoc | BMSUtils.py:85-92 | the CRC is a left fold: `Crc8(s + [b]) == Step8(Crc8(s) ^ b)` |
| Crc.CrcFromSnoc | BMSUtils.py:85-92 | appending a byte runs exactly one more step of the loop, from any start value |
| Crc.CrcFromAppend | BMSUtils.py:85-92 | the CRC of a concatenation continues from the CRC of its first part |
| Crc.RoundsInjective | BMSUtils.py:88-92 | the eight shift steps are injective, so only 0 steps to 0 |
| Crc.CrcResidue | BMSUtils.py:81-94 | appending byte `c` brings the CRC to 0 iff `c` is the CRC of what precedes it |
| Crc.ResetFrameChecksum | BMSUtils.py:81-94 | the CRC of `7F 3C A5` is `0x57` |
| Frame.EncodeRequest | BMSUtils.py:96-102 | the frame exists iff every field is a byte; byte 0 is `addr*2` plus the write bit; bytes 1-2 are the register and value; a write has a 4th byte, the CRC of the first three; a read has 3 bytes |
| Frame.AddressRoundTrip | BMSUtils.py:98-100 | for addresses 0..127 the encoded address byte decodes back to the address (`b >> 1`) and the write flag (`b & 1`) |
| Frame.AddressByteRoundTrip | BMSUtils.py:98-100 | every byte is the address byte of the address and write flag it decodes to |
| Frame.ResetFrameIsAck | BMSModuleManager.py:119-121 | the broadcast reset write frame is exactly the acknowledgement `[0x7f,0x3c,0xa5,0x57]` the reset loop waits for |
| Frame.U16 | BMSUtils.py:51-52 | big-endian 16 bits: the high byte is `r / 256`, the low byte `r % 256`, and `r` lies in 0..65535 |
| Manager.BroadcastFrame | BMSUtils.py:96-102 | the broadcast write frame is address byte 0x7F, the register, the value and the CRC of those three |
| Bus.Validate | BMSUtils.py:121-131 | an accepted reply is returned unchanged; an empty reply is an error |
| Bus.ReadReplyAccepted | BMSUtils.py:122-131 | a read reply is accepted iff it is non-empty and its CRC with the trailing byte included is 0, i.e. its last byte is the CRC of the rest; otherwise it is a CRC mismatch |
| Bus.WriteReplyAccepted | BMSUtils.py:99-131 | a write reply is accepted iff it is non-empty and ends with the CRC that was transmitted; the frame's own echo is accepted |
| Bus.CorruptReplyRefused | BMSUtils.py:122-128 | the reply `02 01 04 AA BB CC DD 00` is refused as a mismatch against the recomputed CRC `0x76`, payload not returned |
| Bus.AfterReply | BMSUtils.py:116-117 | each transmitted frame uses up one scripted reply |
| Bus.Comms.constructor | BMSUtils.py:56-66 | a port with nothing sent, nothing waiting and the given replies to come |
| Bus.Comms.Tx | BMSUtils.py:96-107 | a bad field sends nothing and fails; otherwise exactly the encoded frame is logged, the next reply arrives, and the CRC sent (0 for a read) is returned |
| Bus.Comms.Receive | BMSUtils.py:113-117 | every waiting byte is read out, in order, leaving the port empty |
| Bus.Comms.SendData | BMSUtils.py:109-131 | one transaction: the frame is logged, one reply is used up, and the result is the CRC-validated reply |
| Bus.Comms.SendDataNoCrc | BMSUtils.py:133-144 | the same transaction returning the reply unchecked |
| Bus.Comms.Read | BMSUtils.py:147-148 | a CRC-checked read of `numBytes` from a register of a module |
| Bus.Comms.ReadNoCrc | BMSUtils.py:150-151 | the same read with the reply unchecked |
| Bus.Comms.Write | BMSUtils.py:153-154 | a write whose reply must end with the transmitted CRC |
| BmsModule.Cleared | BMSModule.py:75-93 | the cleared record: six cells and two sensors with no reading, lowest cells 200.0, highest cells 0.0, temperatures 200.0 / -100.0, module voltage 200.0 / 0.0, flags and address 0 |
| BmsModule.StatusApplied | BMSModule.py:29-31 | the four flags become reply bytes 3..6 iff the reply has at least 7 bytes, else the unpacking fails |
| BmsModule.CellsRead | BMSModule.py:49-50 | cells are decoded until the first one whose two bytes are missing |
| BmsModule.CellsApplied | BMSModule.py:48-53 | decoding cells keeps the record's six-cell shape |
| BmsModule.CellsAppliedStep | BMSModule.py:49-53 | decoding cell n sets its voltage, widens its extremes to it and adds it to the running module sum, nothing else |
| BmsModule.ThermistorOhms | BMSModule.py:55-61 | the resistance formula of both sensors, `(1.78 / ((code + offset) / divisor) - 3.57) * 1000`, is positive, so that the logarithm taken of it is defined, exactly when `code + offset < 1.78 * divisor / 3.57`; it never falls to -3570 ohms |
| BmsModule.ThermistorFalls | BMSModule.py:55-61 | for either calibration a higher raw code never gives a higher resistance |
| BmsModule.TemperaturesApplied | BMSModule.py:55-66 | the temperature step changes only the two temperatures and the temperature extremes |
| BmsModule.AfterVoltTemp | BMSModule.py:44-66 | decoding an ADC reply keeps the record's shape and its address; what it decodes is stated by the lemmas below |
| BmsModule.ExtremesMonotone | BMSModule.py:46-66 | after any reading, lowest cell, module and temperature values never rise and highest never fall |
| BmsModule.CellsDecodedWithinExtremes | BMSModule.py:49-52 | after a complete reading, cell i is `u16(buf[5+2i:7+2i]) * 0.000381493` and lies between that cell's lifetime extremes |
| BmsModule.ChannelsDecodedWithinExtremes | BMSModule.py:45-66 | after a complete reading the module channel is `u16(buf[3:5]) * 0.0020346293922562`; `Temperature1` and `Temperature2` are the kelvin conversion of bytes 17..18 (offset 2, divisor 33046) and 19..20 (offset 9, divisor 33068) less 273.15; `temperatures` holds the two, and each of the three readings lies between its extremes |
| BmsModule.ModuleVoltIsCellSum | BMSModule.py:48-53 | after a complete reading the module voltage is the sum of the six new cell voltages |
| BmsModule.PrefixSum | BMSModule.py:49-53 | the running sum over the first n cells equals the sum of their decoded readings |
| BmsModule.ScalesMonotone | BMSModule.py:45-50 | raw code 0 reads 0 V on both scales, and a larger code never reads lower |
| BmsModule.FirstReadingReplacesSentinels | BMSModule.py:45-52 | the first complete reading after a clear sets every cell's lowest and highest to its reading, and the module's to the module-voltage channel |
| BmsModule.ReadingBelowSentinel | BMSModule.py:45-50 | every scaled 16-bit code lies in [0, 200) |
| BmsModule.AnsweredConsumes | BMSUtils.py:109-131 | a request that raised nothing used up one reply, so retry loops make progress |
| BmsModule.Quiet | BMSUtils.py:96-131 | a request whose result is ignored extends the line, and a CRC mismatch never stops it |
| BmsModule.QuietOutcome | BMSUtils.py:96-131 | such a request fails with `InvalidByte` when its frame cannot be built, with `NoReply` when nothing answers, and otherwise goes through |
| BmsModule.ConfigTalk | BMSModule.py:37-41 | the three configuration writes extend the line, a CRC mismatch never stops them, and when they go through for an address below 128 exactly three frames were sent |
| BmsModule.StatusRun | BMSModule.py:29-31 | the status read keeps the record's shape and address |
| BmsModule.PhaseRun | BMSModule.py:33-66 | the configuration writes never change the record |
| BmsModule.Phases | BMSModule.py:33-66 | the phases of a reading keep the record's shape and address |
| BmsModule.AdcRun | BMSModule.py:44-66 | the ADC read keeps the record's shape and address |
| BmsModule.MeasureRun | BMSModule.py:36-66 | the measurement keeps the record's shape and address |
| BmsModule.ReadVoltTempRun | BMSModule.py:33-66 | a whole reading keeps the record's shape and address |
| BmsModule.MeasureSteps | BMSModule.py:36-66 | a measurement fails as its configuration writes fail, record untouched, and is otherwise the ADC read |
| BmsModule.ReadingSteps | BMSModule.py:33-34 | a reading is the status read, then the measurement from the flags it read |
| BmsModule.StopBalancingAsWritten | BMSModule.py:95-96 | as written the module's stop fails and leaves the log as it was |
| BmsModule.StopBalancingReachesModule | BMSModule.py:95-96 | as written the stop fails before sending anything; as intended it sends exactly one frame, a write of 0 to the module's own balance-control register |
| BmsModule.Module.constructor | BMSModule.py:70-73 | a new record holds the given bus and is cleared |
| BmsModule.Module.ClearModule | BMSModule.py:75-93 | the record becomes `Cleared()` |
| BmsModule.Module.ReadStatus | BMSModule.py:29-31 | the flags and bus follow `StatusRun` |
| BmsModule.Module.DecodeCell | BMSModule.py:50-53 | one pass of the cell loop moves the record from `CellsApplied` over n cells to `CellsApplied` over n + 1 |
| BmsModule.Module.DecodeCells | BMSModule.py:48-53 | the cell loop leaves the record at `CellsApplied` over the cells present, and reports whether all six were |
| BmsModule.Module.ApplyVoltTemp | BMSModule.py:45-66 | the record after decoding equals `AfterVoltTemp`, and the result says whether the reply was complete |
| BmsModule.Module.ApplyTemperatures | BMSModule.py:55-66 | the record after the temperature part equals `TemperaturesApplied`, and the result says whether both sensors were there |
| BmsModule.Module.StartConversion | BMSModule.py:36-41 | the three configuration writes go out in order; a CRC mismatch is ignored and a raised error stops them |
| BmsModule.Module.StopBalancing | BMSModule.py:95-96 | the corrected stop writes 0 to the module's own balance-control register |
| BmsModule.Module.Measure | BMSModule.py:36-66 | the configuration writes and the ADC read leave the record and bus at `MeasureRun` |
| BmsModule.Module.ReadVoltTemp | BMSModule.py:33-66 | the record, result and bus follow `ReadVoltTempRun` |
| Balance.Bit | BMSModuleManager.py:60 | the bit of cell k is non-zero, within the low six bits, and disjoint from every other cell's bit |
| Balance.MinOf | BMSModuleManager.py:51 | the minimum is one of the voltages and no voltage is below it |
| Balance.ModuleMask | BMSModuleManager.py:55-60 | a module's mask never sets the two top bits |
| Balance.LowestNeverSelected | BMSModuleManager.py:47-55 | some cell, the lowest, is never drained, because the tolerance is positive |
| Balance.MaskBits | BMSModuleManager.py:53-60 | bit j of a module's mask is set iff cell j was scanned and stands more than 0.05 V above the minimum |
| Balance.MaskFitsSixBits | BMSModuleManager.py:57-60 | a module's mask is below 64 |
| Balance.Plan | BMSModuleManager.py:54-68 | at most one order per module; `PlanExact` gives the orders exactly |
| Balance.PlanExact | BMSModuleManager.py:54-68 | a module gets an order iff its mask is non-zero, the order carries that module's own mask and address `i//6 + 1`, and orders go out in increasing address order |
| Balance.PlanDrainsExactly | BMSModuleManager.py:54-68 | in every order, the bit of cell k is set iff that cell is more than the tolerance above the minimum |
| Balance.PlanExample | BMSModuleManager.py:44-68 | for cells 3.70, 3.75, 3.71, 3.69, 3.72, 3.695 the minimum is 3.69 and the only order is mask `0b000010` to module 1 |
| Balance.LastDrainedNone | BMSModuleManager.py:55-59 | no address is held after the first n cells iff none of them is drained; one held is that of a module among those cells |
| Balance.LastDrainedInModule | BMSModuleManager.py:55-59 | within a module, the address held is that module's once one of its cells is drained, and the earlier one before that |
| Balance.LastDrainedIsLastOrder | BMSModuleManager.py:54-71 | over whole modules, the address held at the end is that of the plan's last order, and none iff the plan is empty |
| Balance.ScanAsWritten | BMSModuleManager.py:53-68 | the scan as written can only fail by reading an unassigned variable |
| Balance.PlanAsWritten | BMSModuleManager.py:53-68 | the scan as written over a whole pack can only fail by reading an unassigned name |
| Balance.AsWrittenFailsUnlessFirstDrained | BMSModuleManager.py:54-63 | as written, the scan fails iff the pack's first cell is not drained |
| Balance.NoFailureOnceAssigned | BMSModuleManager.py:54-68 | as written, once a cell number has been assigned the scan cannot fail |
| Balance.AsWrittenFailsOnLowFirstCell | BMSModuleManager.py:51-63 | as written, a pack whose first cell is its lowest always fails |
| Balance.AsWrittenMaskLeaks | BMSModuleManager.py:54-68 | as written, module 1's mask is carried into module 2 and sent there whole; the corrected plan sends each module its own mask |
| Discovery.ResetSteps | BMSModuleManager.py:117-123 | reset: an exhausted line fails for want of a reply, the exact acknowledgement ends it, any other reply means one more try |
| Discovery.ResetTalk | BMSModuleManager.py:117-123 | the reset loop sends at least one frame, extends the line, and a CRC mismatch only means another try |
| Discovery.ResetSendsOnlyReset | BMSModuleManager.py:119-122 | the reset puts at least one frame on the line, and every frame it sends is the broadcast reset frame |
| Discovery.DiscoverFrom | BMSModuleManager.py:129-141 | discovery from round i creates at least i and at most `limit` modules |
| Discovery.AutoAssignRun | BMSModuleManager.py:125-141 | reset then discovery creates at most `limit` modules |
| Discovery.AddressTalk | BMSModuleManager.py:135-139 | the address loop extends the line, sends at least one frame when the address command fits in a byte, and succeeds only then |
| Discovery.AddressConfirmed | BMSModuleManager.py:135-139 | a reply `[0x81, 0x3B, addr + 0x80, ...]` ends the address loop at once, with the address frame to address 0 sent |
| Discovery.ChainRound | BMSModuleManager.py:129-139 | in a chain, one round is an answered probe and a confirmed address write |
| Discovery.ChainEnd | BMSModuleManager.py:130-141 | a probe that gets no reply at all stops discovery successfully with the modules found so far |
| Discovery.DiscoverySteps | BMSModuleManager.py:129-141 | with a round left the probe goes out; no reply, or a reply not starting `[0x80, 0, 1]`, ends discovery successfully with the modules found so far and the probe as the only frame sent; an answer creates one more module |
| Discovery.ChainDiscovered | BMSModuleManager.py:125-141 | a chain of n answering modules yields exactly n modules with every reply used up, and after the frames already logged the log holds, module by module in chain order, the probe followed by the frame giving that module its address (`ChainLogged`) |
| Discovery.ChainLastAssigned | BMSModuleManager.py:129-138 | in a chain logged in order, the last frame gives module n its address |
| Discovery.AsWrittenAssignsBroadcast | BMSModuleManager.py:129-138 | as written, with 63 rounds, a 63-module chain is given addresses up to 63, the broadcast address |
| Manager.Fold | BMSModuleManager.py:84-91 | folding a reading in changes only module i, never raises the pack's lowest temperature nor lowers its highest |
| Manager.ReadFrom | BMSModuleManager.py:82-91 | reading on keeps every record well formed |
| Manager.ReadAllRun | BMSModuleManager.py:77-91 | a poll cycle keeps the number of records and their shape |
| Manager.FoldTotals | BMSModuleManager.py:89-91 | a successful module reading extends the voltage sum and the temperature minimum and maximum by that module |
| Manager.PrefixUnchanged | BMSModuleManager.py:89-91 | the pack voltage and temperature figures over the first n records depend on those records only |
| Manager.ReadFromTotals | BMSModuleManager.py:82-91 | a successful poll loop from module i on accounts for every module: the voltage sum and the exact temperature minimum and maximum (`LowestOf`, `HighestOf`) |
| Manager.PackTotals | BMSModuleManager.py:77-91 | after a successful poll cycle `packVolt` is the sum of every `moduleVolt`, `lowestPackTemp` is exactly the least of its previous value and every module's lowest temperature, and `highestPackTemp` exactly the greatest of its previous value and every module's highest |
| Manager.ReadFromTempsMonotone | BMSModuleManager.py:82-91 | whatever the outcome, the poll loop never raises the pack's lowest temperature nor lowers its highest |
| Manager.PackTempsMonotone | BMSModuleManager.py:77-91 | across poll cycles `lowestPackTemp` never increases and `highestPackTemp` never decreases |
| Manager.Readings | BMSModuleManager.py:46-51 | when every cell holds a reading, the voltages are those readings in order |
| Manager.BroadcastTalk | BMSUtils.py:153-154 | a broadcast write puts its one frame on the line, uses up one reply, and fails only when nothing answers |
| Manager.StopAllTalk | BMSModuleManager.py:93-94 | stopping all balancing sends one broadcast write of 0 to the balance-control register and fails iff nothing answers |
| Manager.LatchTalk | BMSModuleManager.py:110-113 | clearing one status register fails only for want of a reply; otherwise exactly the broadcast writes of 0xFF then 0 were sent |
| Manager.ClearFaultsTalk | BMSModuleManager.py:108-115 | clearing faults fails only for want of a reply; otherwise exactly the four broadcast writes were sent, in order |
| Manager.FlushOne | BMSModuleManager.py:64-67 | one order, when it goes through, sent exactly the balancing-time write then the mask write, both to the order's module |
| Manager.FlushTalk | BMSModuleManager.py:54-68 | the orders in turn: a CRC mismatch never stops them, and when they all go through two frames per order were sent |
| Manager.FlushTalkFailed | BMSModuleManager.py:63-68 | once some orders have failed, any longer list of orders that starts with them ends the same way |
| Manager.PlanPrefix | BMSModuleManager.py:54-68 | the plan for the first k modules is a prefix of the plan for the first m |
| Manager.PlanIdle | BMSModuleManager.py:63 | a module with no cell to drain adds no order |
| Manager.FlushTalkStops | BMSModuleManager.py:57-68 | once an order has failed, later modules' orders change nothing |
| Manager.EndStep | BMSModuleManager.py:63-68 | a module with a non-empty mask extends the orders sent by its own |
| Manager.PlanFailsAt | BMSModuleManager.py:63-68 | a failed order ends the whole plan's conversation where it stopped |
| Manager.CellPosition | BMSModuleManager.py:57-59 | pack cell 6m + c is cell c of the module with address m + 1 |
| Manager.WholeModules | BMSModuleManager.py:54 | a pack of 6k cells holds k whole modules |
| Manager.ReadbackStops | BMSModuleManager.py:70-72 | once a read-back has failed, further read-backs change nothing |
| Manager.ReadbackTalk | BMSModuleManager.py:70-71 | n read-backs: a CRC mismatch never stops them, and when they all go through exactly n frames were sent, each the read of the balance-control register of the address |
| Manager.BalanceStops | BMSModuleManager.py:51-68 | balancing whose orders failed ends where they stopped |
| Manager.BalanceDone | BMSModuleManager.py:51-72 | balancing that got through every order goes on with the ten read-backs of the last drained cell's module; with no cell drained, the corrected scan fails with `Unbound` at the read-back |
| Manager.BalanceTalk | BMSModuleManager.py:44-72 | no cells fails with `EmptyPack` and a cell with no reading with `NotNumeric`, both before anything is sent; balancing only extends the line and a CRC mismatch never stops it |
| Manager.BalanceReadsBackLastOrder | BMSModuleManager.py:59-71 | on whole modules whose orders all went through, the read-back goes to the module of the plan's last order, and fails with `Unbound` when the plan is empty |
| Manager.BalancedPackUnbound | BMSModuleManager.py:53-71 | with the corrected scan, a pack with every cell within the tolerance of the lowest sends nothing and fails with `Unbound` at the read-back; the code as written fails with the same error earlier, at line 63 |
| Manager.DiscoveredPackNotNumeric | BMSModuleManager.py:44-51 | the records discovery leaves hold no cell reading, so balancing them fails in `min` with `NotNumeric` and sends nothing |
| Manager.ModuleManager.States | BMSModuleManager.py:20 | the records as values, one per module, in module order |
| Manager.ModuleManager.constructor | BMSModuleManager.py:12-24 | a manager on the given bus, no modules, pack figures at 0, not faulted |
| Manager.ModuleManager.StopBalancing | BMSModuleManager.py:93-94 | one broadcast write of 0 to the balance-control register |
| Manager.ModuleManager.ClearFaults | BMSModuleManager.py:108-115 | four broadcast writes: alert status 0xFF then 0, fault status 0xFF then 0; then the fault flag is cleared |
| Manager.ModuleManager.ResetModuleAddresses | BMSModuleManager.py:117-123 | the reset is broadcast until the reply is exactly the acknowledgement; result and bus follow `ResetTalk` |
| Manager.ModuleManager.ConfirmAddress | BMSModuleManager.py:135-139 | the address write to address 0 repeats until the reply starts `[0x81, 0x3B, addr + 0x80]` |
| Manager.ModuleManager.AutoAssignModuleAddresses | BMSModuleManager.py:125-142 | the module list is emptied, addresses reset, modules discovered as `AutoAssignRun` says; every module found is a new record, cleared apart from its address k + 1, and there are at most 62 |
| Manager.ModuleManager.DiscoverModules | BMSModuleManager.py:128-141 | the probing rounds follow `DiscoverFrom`; the records are exactly `ClearedPack`: module k new, cleared, with address k + 1 |
| Manager.ModuleManager.AssignRound | BMSModuleManager.py:130-139 | a probe answered `[0x80, 0, 1]` appends one new module, cleared with address i + 1, and confirms its address, the modules before it untouched; any other reply ends discovery and changes no record |
| Manager.ModuleManager.AddModule | BMSModuleManager.py:133-134 | a fresh cleared module with the given address is appended, the others untouched |
| Manager.ModuleManager.Enrol | BMSModuleManager.py:133-139 | a new cleared module with the address is appended, the others untouched, and the address loop runs as `AddressTalk` says |
| Manager.ModuleManager.ReadOne | BMSModuleManager.py:82-84 | module i takes a reading; every other record is unchanged |
| Manager.ModuleManager.AddToPack | BMSModuleManager.py:89-91 | the pack voltage grows by the module voltage and the pack temperature extremes widen to the module's, the records untouched |
| Manager.ModuleManager.ReadModule | BMSModuleManager.py:84-91 | module i's reading is folded into the pack figures as `Fold` says |
| Manager.ModuleManager.ReadModules | BMSModuleManager.py:82-91 | the loop over the modules follows `ReadFrom` |
| Manager.ModuleManager.ReadAllVoltTemp | BMSModuleManager.py:77-91 | the poll cycle: pack voltage from 0, broadcast stop, each module read and folded in; records, figures, result and bus follow `ReadAllRun` |
| Manager.ModuleManager.GatherCells | BMSModuleManager.py:46-50 | every module's six cell readings, in module order |
| Manager.ModuleManager.FlushModule | BMSModuleManager.py:63-68 | a balance-duration write followed by a balance-control write with the mask |
| Manager.ModuleManager.EndModule | BMSModuleManager.py:62-68 | at a module's last cell a non-empty mask is sent, extending the orders of the plan by one module |
| Manager.ModuleManager.DrainModule | BMSModuleManager.py:63-68 | a module with cells to drain is sent its order, extending the orders sent by that module's order of the plan |
| Manager.ModuleManager.MarkCell | BMSModuleManager.py:55-60 | after one more cell the mask and the address held are still `ModuleMask` and `LastDrained` over the cells seen, and a module with a non-zero mask after its sixth cell holds that module's address |
| Manager.ModuleManager.ScanCell | BMSModuleManager.py:54-68 | one cell of the scan keeps the mask equal to `ModuleMask` and the address held equal to `LastDrained` (only a drained cell sets it); at a module's last cell the orders sent grow by that module's order |
| Manager.ModuleManager.FlushModules | BMSModuleManager.py:53-68 | the scan over all cells sends exactly the orders of `Plan` and, when they all go through, ends holding the address of the last drained cell's module, none if no cell was drained |
| Manager.ModuleManager.ReadBack | BMSModuleManager.py:70-72 | n reads of the balance-control register, stopping at a raised error |
| Manager.ModuleManager.BalanceReadings | BMSModuleManager.py:51-72 | balancing on readings of every cell is exactly `BalanceTalk`: the orders of `Plan`, then the read-backs from the last drained cell's module |
| Manager.ModuleManager.BalanceCells | BMSModuleManager.py:44-72 | with `duration` 5 unless given, balancing fails with `EmptyPack` on a pack with no cells and `NotNumeric` on a cell with no reading, sending nothing; otherwise it sends each module its own mask and reads back from the last drained cell's module, as `BalanceTalk` says |

## Findings

| source | as written | input that shows it | evidently intended | confidence | as-written member | corrected member |
|---|---|---|---|---|---|---|
| BMSModuleManager.py:57-63 | `cellNum` and `modAddr` are assigned only for drained cells, so a module with no drained last cell carries its mask into the next module | cells `3.8×5, 3.6×6, 3.8`, minimum 3.6: module 1 gets nothing, module 2 gets `0x3F` | each module is sent the mask of its own cells | high, not executed | Balance.AsWrittenMaskLeaks | Balance.PlanExact |
| BMSModuleManager.py:63 | `&` evaluates both sides, so `cellNum` is read before assignment when the first cell is not drained | any pack whose first cell is its lowest | the end-of-module test works whatever cell comes first | high, not executed | Balance.AsWrittenFailsUnlessFirstDrained | Balance.PlanDrainsExactly |
| BMSModuleManager.py:129 | 63 discovery rounds can give the 63rd module address 63, the broadcast address | a chain of 63 answering modules | addresses stay in 1..62 (`MAX_MODULE_ADDR`) | medium, not executed | Discovery.AsWrittenAssignsBroadcast | Manager.ModuleManager.AutoAssignModuleAddresses |
| BMSModule.py:96 | `moduleAddress` is not bound in the method, so the stop raises before anything is sent | any call | write 0 to the module's own balance-control register | high, not executed | BmsModule.StopBalancingReachesModule | BmsModule.Module.StopBalancing |

## Left out

- Opening the serial port, the baud rate, the read timeout, `inWaiting` polling and every `time.sleep` delay. The port is an oracle: each frame sent receives the next scripted reply as one block.
- The singleton `Comms` wrapper and its attribute forwarding. The model passes one `Comms` object explicitly.
- The thermistor conversion from ohms to kelvin (logarithm and cube). It is the parameter `kelvin`, and the domain error of a non-positive resistance is not modelled: `ThermistorOhms` states the codes at which it would arise (`code + offset >= 1.78 * divisor / 3.57`), and the model still applies `kelvin` there. The resistance formula and its two calibration sets are modelled exactly.
- Floating-point rounding of the voltage scales. Voltages are exact reals.
- Logging calls, the print helpers `printh`, `test` and `readADCs`, and the hardware test script `teslabms.py`.
- `sleepBoards` and `wakeBoards`. They use a register name that is not defined anywhere, so they fail before sending.
- The manager's own startup (`__init__` opens a fixed port, then runs discovery, fault clearing, one poll and one balancing) and the module-level instance. Each of those four operations is modelled on its own.
- Fields the core never reads (`IgnoreCell`, `exists`, `sensor`, `scells`, `Pstring`, `LowCellVolt`, `HighCellVolt`, `lowestPackVolt`, `highestPackVolt`, `batteryID`, `spack`).
- The class-level list defaults shared between instances. Each record's lists are values of its own, so the aliasing never arises.
- A bus that answers forever without acknowledging. The retry loops end because the scripted replies run out.
- Bytes of one reply arriving split across transactions. A reply is exactly what the oracle scripted for its frame.
