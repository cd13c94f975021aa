/**
 * The bus client: one request frame out, whatever bytes come back in, and the
 * CRC check on the reply. The serial line is an oracle holding the replies the
 * attached modules give, one per transmitted frame, in order; once they are
 * used up the line stays silent.
 */
module Bus {
  import opened Crc
  import opened Frame
  import opened Wrappers

  type Script = seq<seq<byte>>

  /** The reply the line delivers next: nothing when no module answers any more. */
  function NextReply(script: Script): seq<byte> {
    if script == [] then [] else script[0]
  }

  /** The replies still to come after the next one. */
  function AfterReply(script: Script): (rest: Script)
    ensures script != [] ==> |rest| < |script|
  {
    if script == [] then [] else script[1..]
  }

  /**
   * The checksum a reply must end with: for a read, the CRC of the reply's own
   * preceding bytes; for a write, the CRC that went out with the request.
   */
  function ExpectedCrc(write: bool, frame: seq<byte>, rx: seq<byte>): byte
    requires write ==> |frame| == 4
    requires rx != []
  {
    if write then frame[3] else Crc8(rx[..|rx| - 1])
  }

  /** What the driver makes of the bytes received after `frame`. */
  function Validate(write: bool, frame: seq<byte>, rx: seq<byte>): (r: Result<seq<byte>, Error>)
    requires write ==> |frame| == 4
    ensures r.Success? ==> r.value == rx
    ensures rx == [] ==> r == Failure(NoReply)
  {
    if rx == [] then Failure(NoReply)
    else if rx[|rx| - 1] != ExpectedCrc(write, frame, rx) then
      Failure(CrcMismatch(rx[|rx| - 1], ExpectedCrc(write, frame, rx)))
    else Success(rx)
  }

  /**
   * A read reply is accepted exactly when the CRC of the whole reply, its
   * trailing CRC byte included, is 0; otherwise it is refused as a mismatch.
   */
  lemma ReadReplyAccepted(frame: seq<byte>, rx: seq<byte>)
    ensures Validate(false, frame, rx).Success? <==> rx != [] && Crc8(rx) == 0
    ensures rx != [] && Crc8(rx) != 0 ==> Validate(false, frame, rx).error.CrcMismatch?
  {
    if rx != [] {
      var body := rx[..|rx| - 1];
      assert rx == body + [rx[|rx| - 1]];
      CrcResidue(body, rx[|rx| - 1]);
    }
  }

  /**
   * A write reply is accepted exactly when it ends with the CRC of the three
   * request bytes; in particular the module's echo of the frame is accepted.
   */
  lemma WriteReplyAccepted(data: seq<int>, rx: seq<byte>)
    requires |data| == 3 && EncodeRequest(true, data).Success?
    ensures var frame := EncodeRequest(true, data).value;
      && (Validate(true, frame, rx).Success? <==> rx != [] && rx[|rx| - 1] == Crc8(frame[..3]))
      && Validate(true, frame, frame) == Success(frame)
  {
  }

  /** The byte steps taken over the corrupted reply below. */
  lemma CorruptReplySteps()
    ensures Step8(0x00 ^ 0x02) == 0x0E && Step8(0x0E ^ 0x01) == 0x2D && Step8(0x2D ^ 0x04) == 0xDF
    ensures Step8(0xDF ^ 0xAA) == 0x4C && Step8(0x4C ^ 0xBB) == 0xCB && Step8(0xCB ^ 0xCC) == 0x15
    ensures Step8(0x15 ^ 0xDD) == 0x76
  {
    assert Step8(0x02) == 0x0E && Step8(0x0F) == 0x2D && Step8(0x29) == 0xDF;
    assert Step8(0x75) == 0x4C && Step8(0xF7) == 0xCB;
    assert Rounds(0x07, 8) == Rounds(0x0E, 7) == Rounds(0x1C, 6) == Rounds(0x38, 5) == Rounds(0x70, 4);
    assert Rounds(0x70, 4) == Rounds(0xE0, 3) == Rounds(0xC7, 2) == Rounds(0x89, 1) == 0x15;
    assert Step8(0xC8) == 0x76;
  }

  /** A reply whose trailing byte is not the CRC of the rest is refused, payload and all. */
  lemma CorruptReplyRefused()
    ensures Validate(false, [0x02, 0x01, 0x04], [0x02, 0x01, 0x04, 0xAA, 0xBB, 0xCC, 0xDD, 0x00])
         == Failure(CrcMismatch(0x00, 0x76))
  {
    var body: seq<byte> := [0x02, 0x01, 0x04, 0xAA, 0xBB, 0xCC, 0xDD];
    var rx: seq<byte> := [0x02, 0x01, 0x04, 0xAA, 0xBB, 0xCC, 0xDD, 0x00];
    assert rx[..|rx| - 1] == body;
    CorruptReplySteps();
    calc {
      Crc8(body);
      CrcFrom(0x0E, body[1..]);
      CrcFrom(0x2D, body[2..]);
      CrcFrom(0xDF, body[3..]);
      CrcFrom(0x4C, body[4..]);
      CrcFrom(0xCB, body[5..]);
      CrcFrom(0x15, body[6..]);
      CrcFrom(0x76, body[7..]);
      0x76;
    }
  }

  /** The frames a request puts on the line: none when a field does not fit in a byte. */
  function SentBy(write: bool, data: seq<int>): seq<seq<byte>>
    requires |data| == 3
  {
    if EncodeRequest(write, data).Success? then [EncodeRequest(write, data).value] else []
  }

  /** The replies left after a request: one is used up when a frame went out. */
  function ScriptAfter(write: bool, data: seq<int>, script: Script): Script
    requires |data| == 3
  {
    if EncodeRequest(write, data).Success? then AfterReply(script) else script
  }

  /** What a request returns, with (`check`) or without the CRC check on the reply. */
  function Outcome(write: bool, data: seq<int>, script: Script, check: bool): Result<seq<byte>, Error>
    requires |data| == 3
  {
    match EncodeRequest(write, data)
    case Failure(e) => Failure(e)
    case Success(frame) => if check then Validate(write, frame, NextReply(script)) else Success(NextReply(script))
  }

  /** What the bus shows: every frame sent so far and the replies still to come. */
  datatype Line = Line(log: seq<seq<byte>>, script: Script)

  /**
   * The line `after` follows on from `before`: every frame logged before is
   * still logged, in place, and no reply has come back into the script.
   */
  predicate Extends(after: Line, before: Line) {
    |before.log| <= |after.log| && after.log[..|before.log|] == before.log && |after.script| <= |before.script|
  }

  lemma ExtendsTrans(a: Line, b: Line, c: Line)
    requires Extends(b, a) && Extends(c, b)
    ensures Extends(c, a)
  {
    assert c.log[..|a.log|] == c.log[..|b.log|][..|a.log|];
  }

  /** The line after one request: its frame, if it could be built, is logged and has used up a reply. */
  function Sent(line: Line, write: bool, data: seq<int>): (next: Line)
    requires |data| == 3
    ensures Extends(next, line)
    ensures |next.log| == |line.log| + (if EncodeRequest(write, data).Success? then 1 else 0)
  {
    Line(line.log + SentBy(write, data), ScriptAfter(write, data, line.script))
  }

  /** The serial port, with the modules on the far side of it. */
  class Comms {
    /** Every frame written to the line, oldest first. */
    var sent: seq<seq<byte>>
    /** The replies the modules will give to the next frames, one per frame. */
    var script: Script
    /** Bytes received and not yet read out of the port. */
    var inbound: seq<byte>

    /** Between transactions nothing is left waiting in the port. */
    ghost predicate Idle()
      reads this
    {
      inbound == []
    }

    /** The line as it stands. */
    ghost function Now(): Line
      reads this
    {
      Line(sent, script)
    }

    constructor (replies: Script)
      ensures Idle() && sent == [] && script == replies
    {
      sent := [];
      script := replies;
      inbound := [];
    }

    /**
     * Builds the frame from `data` = [module address, register, value or
     * length]: the address is shifted left, writes get the write bit and a
     * trailing CRC. Returns the CRC sent (0 for a read). A field that does not
     * fit in a byte stops the transmission before anything is written.
     */
    method Tx(write: bool, data: seq<int>) returns (r: Result<byte, Error>)
      requires |data| == 3
      modifies this
      ensures EncodeRequest(write, data).Failure? ==>
        r == Failure(InvalidByte) && sent == old(sent) && script == old(script) && inbound == old(inbound)
      ensures EncodeRequest(write, data).Success? ==>
        var frame := EncodeRequest(write, data).value;
        && sent == old(sent) + [frame]
        && inbound == old(inbound) + NextReply(old(script))
        && script == AfterReply(old(script))
        && r == Success(if write then frame[3] else 0)
    {
      var frame := data[0 := data[0] * 2];
      if write {
        // bit 0 is clear after the shift, so setting the write bit adds one
        frame := frame[0 := frame[0] + 1];
      }
      assert frame == [AddressField(data[0], write), data[1], data[2]];
      if !(0 <= frame[0] < 256 && 0 <= frame[1] < 256 && 0 <= frame[2] < 256) {
        return Failure(InvalidByte);
      }
      var bytes: seq<byte> := [ToByte(frame[0]), ToByte(frame[1]), ToByte(frame[2])];
      var crc: byte := 0;
      if write {
        crc := GenCrc(bytes);
        bytes := bytes + [crc];
      }
      assert bytes == EncodeRequest(write, data).value;
      sent := sent + [bytes];
      // the addressed modules answer on the line
      inbound := inbound + NextReply(script);
      script := AfterReply(script);
      r := Success(crc);
    }

    /** Reads out, byte by byte, everything waiting in the port. */
    method Receive() returns (rx: seq<byte>)
      modifies this`inbound
      ensures rx == old(inbound) && Idle()
    {
      rx := [];
      while inbound != []
        invariant rx + inbound == old(inbound)
        decreases |inbound|
      {
        rx := rx + [inbound[0]];
        inbound := inbound[1..];
      }
    }

    /** One transaction whose reply must end with the expected CRC. */
    method SendData(write: bool, data: seq<int>) returns (r: Result<seq<byte>, Error>)
      requires Idle() && |data| == 3
      modifies this
      ensures Idle()
      ensures sent == old(sent) + SentBy(write, data)
      ensures script == ScriptAfter(write, data, old(script))
      ensures r == Outcome(write, data, old(script), true)
    {
      var t := Tx(write, data);
      if t.Failure? {
        return Failure(t.error);
      }
      var crc := t.value;
      ghost var frame := EncodeRequest(write, data).value;
      var rxData := Receive();
      assert rxData == NextReply(old(script));
      if !write && rxData != [] {
        crc := GenCrc(rxData[..|rxData| - 1]);
      }
      if rxData == [] {
        return Failure(NoReply);
      }
      var rxCrc := rxData[|rxData| - 1];
      if rxCrc != crc {
        return Failure(CrcMismatch(rxCrc, crc));
      }
      r := Success(rxData);
    }

    /** One transaction whose reply is handed back unchecked. */
    method SendDataNoCrc(write: bool, data: seq<int>) returns (r: Result<seq<byte>, Error>)
      requires Idle() && |data| == 3
      modifies this
      ensures Idle()
      ensures sent == old(sent) + SentBy(write, data)
      ensures script == ScriptAfter(write, data, old(script))
      ensures r == Outcome(write, data, old(script), false)
    {
      var t := Tx(write, data);
      if t.Failure? {
        return Failure(t.error);
      }
      var rxData := Receive();
      assert rxData == NextReply(old(script));
      r := Success(rxData);
    }

    /** Reads `numBytes` from register `address` of module `moduleAddress`. */
    method Read(moduleAddress: int, address: int, numBytes: int) returns (r: Result<seq<byte>, Error>)
      requires Idle()
      modifies this
      ensures Idle()
      ensures sent == old(sent) + SentBy(false, [moduleAddress, address, numBytes])
      ensures script == ScriptAfter(false, [moduleAddress, address, numBytes], old(script))
      ensures r == Outcome(false, [moduleAddress, address, numBytes], old(script), true)
    {
      r := SendData(false, [moduleAddress, address, numBytes]);
    }

    /** The same read, without checking the reply's CRC (used while discovering modules). */
    method ReadNoCrc(moduleAddress: int, address: int, numBytes: int) returns (r: Result<seq<byte>, Error>)
      requires Idle()
      modifies this
      ensures Idle()
      ensures sent == old(sent) + SentBy(false, [moduleAddress, address, numBytes])
      ensures script == ScriptAfter(false, [moduleAddress, address, numBytes], old(script))
      ensures r == Outcome(false, [moduleAddress, address, numBytes], old(script), false)
    {
      r := SendDataNoCrc(false, [moduleAddress, address, numBytes]);
    }

    /** Writes `data` to register `address` of module `moduleAddress`. */
    method Write(moduleAddress: int, address: int, data: int) returns (r: Result<seq<byte>, Error>)
      requires Idle()
      modifies this
      ensures Idle()
      ensures sent == old(sent) + SentBy(true, [moduleAddress, address, data])
      ensures script == ScriptAfter(true, [moduleAddress, address, data], old(script))
      ensures r == Outcome(true, [moduleAddress, address, data], old(script), true)
    {
      r := SendData(true, [moduleAddress, address, data]);
    }
  }
}
