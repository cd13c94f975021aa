/**
 * Finding the modules on the bus: the broadcast reset of every module's
 * address, then rounds of probing address 0, where the next module still
 * unaddressed answers, and giving it the next address.
 */
module Discovery {
  import opened Wrappers
  import opened Crc
  import opened Frame
  import opened Bus
  import opened BmsModule

  /** The request of the broadcast address reset. */
  const ResetData: seq<int> := [Broadcast, RegReset as int, 0xA5]

  /**
   * The reset, repeated until the reply is exactly the acknowledgement: a CRC
   * mismatch or any other reply means another try, a raised error ends it.
   */
  function ResetTalk(line: Line): (t: Talk)
    ensures Extends(t.line, line) && |t.line.log| > |line.log|
    ensures t.outcome.Failure? ==> !t.outcome.error.CrcMismatch?
    decreases |line.script|
  {
    var o := Outcome(true, ResetData, line.script, true);
    var next := Sent(line, true, ResetData);
    if Raised(o) then Talk(Failure(o.error), next)
    else if o == Success(ResetAck) then Talk(Success(()), next)
    else
      AnsweredConsumes(true, ResetData, line.script);
      var t := ResetTalk(next);
      ExtendsTrans(line, next, t.line);
      t
  }

  /**
   * The reset in one step: an exhausted line fails for want of a reply, the
   * exact acknowledgement ends it, and any other reply is one more try.
   */
  lemma ResetSteps(log: seq<seq<byte>>, rx: seq<byte>, rest: Script)
    ensures ResetTalk(Line(log, [])) == Talk(Failure(NoReply), Line(log + [ResetAck], []))
    ensures ResetTalk(Line(log, [ResetAck] + rest)) == Talk(Success(()), Line(log + [ResetAck], rest))
    ensures rx != [] && rx != ResetAck ==>
      ResetTalk(Line(log, [rx] + rest)) == ResetTalk(Line(log + [ResetAck], rest))
  {
    ResetFrameIsAck();
    assert ([rx] + rest)[1..] == rest;
    assert ([ResetAck] + rest)[1..] == rest;
  }

  /** Every frame the reset puts on the line is the reset frame itself; at least one goes out. */
  lemma {:induction false} ResetSendsOnlyReset(line: Line)
    ensures var t := ResetTalk(line);
      && |t.line.log| > |line.log| && t.line.log[..|line.log|] == line.log
      && forall i :: |line.log| <= i < |t.line.log| ==> t.line.log[i] == ResetAck
    decreases |line.script|
  {
    ResetFrameIsAck();
    var o := Outcome(true, ResetData, line.script, true);
    var next := Sent(line, true, ResetData);
    assert next.log == line.log + [ResetAck];
    if !Raised(o) && o != Success(ResetAck) {
      AnsweredConsumes(true, ResetData, line.script);
      ResetSendsOnlyReset(next);
      var t := ResetTalk(next);
      assert t == ResetTalk(line);
      forall i | |line.log| <= i < |t.line.log|
        ensures t.line.log[i] == ResetAck
      {
        if i == |line.log| {
          assert t.line.log[i] == t.line.log[..|next.log|][i] == next.log[i];
        }
      }
    } else {
      assert ResetTalk(line).line == next;
    }
  }

  /** The value written to the address-control register: the address with the set-address bit 0x80 (an or, as the address is below 0x80). */
  function AddressCommand(addr: int): int {
    addr + 0x80
  }

  /** The request giving the module at address 0 the address `addr`. */
  function AssignData(addr: int): seq<int> {
    [0, RegAddrCtrl as int, AddressCommand(addr)]
  }

  /** Whether a reply starts with the confirmation of the new address. */
  predicate Confirms(rx: seq<byte>, addr: int) {
    |rx| >= 3 && rx[0] == 0x81 && rx[1] == RegAddrCtrl && rx[2] as int == AddressCommand(addr)
  }

  /**
   * Giving address `addr` to the module at address 0, repeated until the
   * reply confirms it. A refused reply cannot be sliced and ends it.
   */
  function AddressTalk(addr: int, line: Line): (t: Talk)
    ensures Extends(t.line, line)
    ensures IsByte(AddressCommand(addr)) ==> |t.line.log| > |line.log|
    ensures t.outcome.Success? ==> IsByte(AddressCommand(addr))
    decreases |line.script|
  {
    var o := Outcome(true, AssignData(addr), line.script, true);
    var next := Sent(line, true, AssignData(addr));
    if o.Failure? then Talk(Failure(o.error), next)
    else if Confirms(o.value, addr) then Talk(Success(()), next)
    else
      AnsweredConsumes(true, AssignData(addr), line.script);
      var t := AddressTalk(addr, next);
      ExtendsTrans(line, next, t.line);
      t
  }

  /** The probe: a read of one byte from register 0 at address 0, in a three-byte frame, taken without a CRC check. */
  const ProbeData: seq<int> := [0, RegDevStatus as int, 1]

  /** Whether a probe reply starts with the answer of an unaddressed module. */
  predicate Answers(rx: seq<byte>) {
    |rx| >= 3 && rx[..3] == [0x80, 0x00, 0x01]
  }

  /** How discovery ended: the modules created, the result and the line. */
  datatype Found = Found(count: nat, outcome: Result<(), Error>, line: Line)

  /**
   * The probing rounds from round `i` on, with at most `limit` rounds: while a
   * module answers the probe, the next module is created and given address
   * i + 1; the first silent probe ends discovery. A module is counted as soon
   * as it is created, before its address is confirmed.
   */
  function DiscoverFrom(i: nat, limit: nat, line: Line): (d: Found)
    ensures i <= d.count && (i <= limit ==> d.count <= limit)
    decreases limit - i
  {
    if i >= limit then Found(i, Success(()), line)
    else
      var o := Outcome(false, ProbeData, line.script, false);
      var next := Sent(line, false, ProbeData);
      if !(o.Success? && Answers(o.value)) then Found(i, Success(()), next)
      else
        var a := AddressTalk(i + 1, next);
        if a.outcome.Failure? then Found(i + 1, a.outcome, a.line)
        else DiscoverFrom(i + 1, limit, a.line)
  }

  /**
   * The probing rounds step by step. With a round left, the probe goes out;
   * no reply, or a reply that is not the answer of an unaddressed module, ends
   * discovery at once, successfully, with the modules found so far; an answer
   * creates the next module.
   */
  lemma DiscoverySteps(i: nat, limit: nat, log: seq<seq<byte>>, rx: seq<byte>, rest: Script)
    requires i < limit
    ensures var probe := EncodeRequest(false, ProbeData);
      && probe.Success?
      && DiscoverFrom(i, limit, Line(log, [])) == Found(i, Success(()), Line(log + [probe.value], []))
      && (!Answers(rx) ==>
            DiscoverFrom(i, limit, Line(log, [rx] + rest)) == Found(i, Success(()), Line(log + [probe.value], rest)))
      && (Answers(rx) ==> DiscoverFrom(i, limit, Line(log, [rx] + rest)).count > i)
  {
    assert ([rx] + rest)[1..] == rest;
  }

  /** Discovery as a whole: the reset, then at most `limit` probing rounds. */
  function AutoAssignRun(limit: nat, line: Line): (d: Found)
    ensures d.count <= limit
  {
    var reset := ResetTalk(line);
    if reset.outcome.Failure? then Found(0, reset.outcome, reset.line)
    else DiscoverFrom(0, limit, reset.line)
  }

  /** The number of probing rounds as written: one for every address 0 to 62, used as addresses 1 to 63. */
  const AsWrittenRounds: nat := 63

  // ---------------------------------------------------------------------
  // A chain of modules that all answer.
  // ---------------------------------------------------------------------

  /** The answer of an unaddressed module to the probe. */
  const ProbeReply: seq<byte> := [0x80, 0x00, 0x01]

  /** The frame that gives address `addr`. */
  function AssignFrame(addr: int): seq<byte>
    requires 0 <= addr < 0x80
  {
    var v := ToByte(AddressCommand(addr));
    [0x01, RegAddrCtrl, v, Crc8([0x01, RegAddrCtrl, v])]
  }

  /** The confirmation of address `addr`, ending with the CRC of the request. */
  function ConfirmReply(addr: int): seq<byte>
    requires 0 <= addr < 0x80
  {
    var v := ToByte(AddressCommand(addr));
    [0x81, RegAddrCtrl, v, Crc8([0x01, RegAddrCtrl, v])]
  }

  /** The replies of modules i + 1 .. n to their probe and address rounds. */
  function ChainReplies(i: nat, n: nat): Script
    requires n < 0x80
    decreases n - i
  {
    if i >= n then [] else [ProbeReply, ConfirmReply(i + 1)] + ChainReplies(i + 1, n)
  }

  /** A confirming reply ends the address round at once, with the address frame sent. */
  lemma AddressConfirmed(addr: int, log: seq<seq<byte>>, rest: Script)
    requires 0 <= addr < 0x80
    ensures AddressTalk(addr, Line(log, [ConfirmReply(addr)] + rest)) ==
      Talk(Success(()), Line(log + [AssignFrame(addr)], rest))
  {
    var frame := EncodeRequest(true, AssignData(addr)).value;
    assert frame[..3] == [0x01, RegAddrCtrl, ToByte(AddressCommand(addr))];
    assert frame == AssignFrame(addr);
    assert ([ConfirmReply(addr)] + rest)[1..] == rest;
  }

  /** One round of a chain: the probe is answered and the address confirmed. */
  lemma ChainRound(i: nat, n: nat, limit: nat, log: seq<seq<byte>>)
    requires i < n <= limit && n < 0x80
    ensures var log2 := log + [EncodeRequest(false, ProbeData).value, AssignFrame(i + 1)];
      DiscoverFrom(i, limit, Line(log, ChainReplies(i, n))) == DiscoverFrom(i + 1, limit, Line(log2, ChainReplies(i + 1, n)))
  {
    var line := Line(log, ChainReplies(i, n));
    var rest := ChainReplies(i + 1, n);
    assert line.script == [ProbeReply, ConfirmReply(i + 1)] + rest;
    var next := Sent(line, false, ProbeData);
    assert next.log == log + [EncodeRequest(false, ProbeData).value];
    assert next.script == [ConfirmReply(i + 1)] + rest;
    assert Answers(NextReply(line.script));
    AddressConfirmed(i + 1, next.log, rest);
    assert next.log + [AssignFrame(i + 1)] == log + [EncodeRequest(false, ProbeData).value, AssignFrame(i + 1)];
  }

  /** The end of a chain: the next probe goes unanswered, or no rounds are left. */
  lemma ChainEnd(n: nat, limit: nat, log: seq<seq<byte>>)
    requires n <= limit
    ensures var d := DiscoverFrom(n, limit, Line(log, []));
      && d.count == n && d.outcome == Success(()) && d.line.script == []
      && d.line.log[..|log|] == log
  {
  }

  /**
   * From index `start` on, `frames` holds the rounds of modules i + 1 .. n in
   * chain order: each a probe followed by the frame giving that module's address.
   */
  ghost predicate ChainLogged(frames: seq<seq<byte>>, start: nat, i: nat, n: nat)
    requires i <= n < 0x80
    decreases n - i
  {
    if i == n then start <= |frames|
    else
      && start + 2 <= |frames|
      && frames[start] == EncodeRequest(false, ProbeData).value
      && frames[start + 1] == AssignFrame(i + 1)
      && ChainLogged(frames, start + 2, i + 1, n)
  }

  /** The last round of a logged chain gives module n its address. */
  lemma {:induction false} ChainLastAssigned(frames: seq<seq<byte>>, start: nat, i: nat, n: nat)
    requires i < n < 0x80 && ChainLogged(frames, start, i, n)
    ensures start + 2 * (n - i) <= |frames|
    ensures frames[start + 2 * (n - i) - 1] == AssignFrame(n)
    decreases n - i
  {
    if i + 1 < n {
      ChainLastAssigned(frames, start + 2, i + 1, n);
    }
  }

  /**
   * A chain of modules i + 1 .. n, all answering, is discovered in full: n
   * modules, with every reply used up, and in chain order: after the frames
   * already logged, each module's round is a probe followed by the frame
   * giving it its address.
   */
  lemma {:induction false} ChainDiscovered(i: nat, n: nat, limit: nat, log: seq<seq<byte>>)
    requires i <= n <= limit && n < 0x80
    ensures var d := DiscoverFrom(i, limit, Line(log, ChainReplies(i, n)));
      && d.count == n && d.outcome == Success(()) && d.line.script == []
      && |log| <= |d.line.log| && d.line.log[..|log|] == log
      && ChainLogged(d.line.log, |log|, i, n)
    decreases n - i
  {
    if i < n {
      var probe := EncodeRequest(false, ProbeData).value;
      ChainRound(i, n, limit, log);
      var log2 := log + [probe, AssignFrame(i + 1)];
      ChainDiscovered(i + 1, n, limit, log2);
      var frames := DiscoverFrom(i + 1, limit, Line(log2, ChainReplies(i + 1, n))).line.log;
      assert frames[..|log|] == frames[..|log2|][..|log|];
      assert frames[|log|] == frames[..|log2|][|log|] == probe;
      assert frames[|log| + 1] == frames[..|log2|][|log| + 1] == AssignFrame(i + 1);
    } else {
      ChainEnd(n, limit, log);
    }
  }

  /**
   * As written, with 63 rounds, a chain of 63 modules is discovered in full
   * and the last module is given address 63, which is the broadcast address.
   */
  lemma AsWrittenAssignsBroadcast(log: seq<seq<byte>>)
    ensures var d := AutoAssignRun(AsWrittenRounds, Line(log, [ResetAck] + ChainReplies(0, 63)));
      && d.count == 63 && d.outcome == Success(())
      && AssignFrame(Broadcast) in d.line.log
  {
    ResetSteps(log, [], ChainReplies(0, 63));
    ChainDiscovered(0, 63, 63, log + [ResetAck]);
    var d := AutoAssignRun(AsWrittenRounds, Line(log, [ResetAck] + ChainReplies(0, 63)));
    ChainLastAssigned(d.line.log, |log| + 1, 0, 63);
  }
}
