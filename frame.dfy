/**
 * The request frame: [address byte, register, value or length, CRC on writes].
 * The address byte is 0bBAAAAAAW: a six-bit module address shifted left by one,
 * the write bit in bit 0 and the "blocking" bit on top.
 */
module Frame {
  import opened Crc
  import opened Wrappers

  // Register map of the module's monitor chip (the subset the driver uses).
  const RegDevStatus: byte := 0x00
  const RegGpai: byte := 0x01
  const RegAlertStatus: byte := 0x20
  const RegFaultStatus: byte := 0x21
  const RegCovFault: byte := 0x22
  const RegCuvFault: byte := 0x23
  const RegAdcCtrl: byte := 0x30
  const RegIoCtrl: byte := 0x31
  const RegBalCtrl: byte := 0x32
  const RegBalTime: byte := 0x33
  const RegAdcConv: byte := 0x34
  const RegAddrCtrl: byte := 0x3B
  const RegReset: byte := 0x3C

  const MaxModuleAddr: int := 0x3E
  /** Every module accepts frames sent to this address. */
  const Broadcast: int := 0x3F

  /** Why a bus operation did not hand back a reply. */
  datatype Error =
    | InvalidByte                               // a frame field does not fit in a byte
    | NoReply                                   // nothing arrived, so there is no CRC byte to check
    | CrcMismatch(received: byte, expected: byte) // the reply's last byte is not the expected CRC
    | ShortReply                                // a validated reply is too short for the fields read from it
    | NotNumeric                                // a cell with no reading yet is compared with a voltage
    | EmptyPack                                 // the lowest voltage of no cells at all is asked for
    | Unbound                                   // a variable is read before anything was assigned to it

  /** The integer the driver puts in the first frame byte: address shifted left, write bit in bit 0. */
  function AddressField(addr: int, write: bool): int {
    addr * 2 + (if write then 1 else 0)
  }

  predicate IsByte(x: int) {
    0 <= x < 256
  }

  /** The byte holding a value known to fit. */
  function ToByte(x: int): (b: byte)
    requires 0 <= x < 256
    ensures b as int == x
  {
    ByteValue(x);
    x as byte
  }

  /**
   * The frame for `data` = [module address, register, value or length]. It fails,
   * as the conversion to a byte array does, when a field is not a byte.
   */
  function EncodeRequest(write: bool, data: seq<int>): (r: Result<seq<byte>, Error>)
    requires |data| == 3
    ensures r.Success? <==> IsByte(AddressField(data[0], write)) && IsByte(data[1]) && IsByte(data[2])
    ensures r.Failure? ==> r.error == InvalidByte
    ensures r.Success? ==>
      && |r.value| == (if write then 4 else 3)
      && r.value[0] as int == AddressField(data[0], write)
      && r.value[1] as int == data[1] && r.value[2] as int == data[2]
      && (write ==> r.value[3] == Crc8(r.value[..3]))
  {
    var a := AddressField(data[0], write);
    if !(IsByte(a) && IsByte(data[1]) && IsByte(data[2])) then
      Failure(InvalidByte)
    else
      var head: seq<byte> := [ToByte(a), ToByte(data[1]), ToByte(data[2])];
      Success(if write then head + [Crc8(head)] else head)
  }

  /** The module address a first frame byte carries. */
  function AddressOf(b: byte): int {
    (b / 2) as int
  }

  /** Whether a first frame byte carries the write bit. */
  function IsWrite(b: byte): bool {
    b & 1 == 1
  }

  /**
   * The address byte decodes back to the address and the write bit for every
   * address the frame can carry, and every address in 0..127 can be carried.
   */
  lemma AddressRoundTrip(addr: int, write: bool, reg: int, value: int)
    requires 0 <= addr < 128 && IsByte(reg) && IsByte(value)
    ensures EncodeRequest(write, [addr, reg, value]).Success?
    ensures AddressOf(EncodeRequest(write, [addr, reg, value]).value[0]) == addr
    ensures IsWrite(EncodeRequest(write, [addr, reg, value]).value[0]) == write
  {
    var b := EncodeRequest(write, [addr, reg, value]).value[0];
    assert b as int == AddressField(addr, write);
    AddressByteBits(addr, write);
  }

  lemma AddressByteBits(addr: int, write: bool)
    requires 0 <= addr < 128
    ensures AddressOf(ToByte(AddressField(addr, write))) == addr
    ensures IsWrite(ToByte(AddressField(addr, write))) == write
  {
  }

  /** And in the other direction: every byte is the address byte of what it decodes to. */
  lemma AddressByteRoundTrip(b: byte)
    ensures AddressField(AddressOf(b), IsWrite(b)) == b as int
  {
  }

  /** The broadcast reset frame, and the exact bytes that acknowledge it (its own echo). */
  const ResetAck: seq<byte> := [0x7F, 0x3C, 0xA5, 0x57]

  lemma ResetFrameIsAck()
    ensures EncodeRequest(true, [Broadcast, RegReset as int, 0xA5]) == Success(ResetAck)
  {
    var head: seq<byte> := [ToByte(AddressField(Broadcast, true)), ToByte(RegReset as int), ToByte(0xA5)];
    assert head == [0x7F, 0x3C, 0xA5];
    ResetFrameChecksum();
    assert head + [Crc8(head)] == ResetAck;
  }

  /** A big-endian 16-bit value from the first two bytes. */
  function U16(data: seq<byte>): (r: int)
    requires |data| >= 2
    ensures 0 <= r < 0x1_0000
    ensures r / 256 == data[0] as int && r % 256 == data[1] as int
  {
    data[0] as int * 256 + data[1] as int
  }
}
