/**
 * The CRC-8 that protects every bus frame: polynomial 0x07, initial value 0,
 * not reflected, no final xor, computed one bit at a time.
 */
module Crc {

  /** A byte on the wire. */
  type byte = bv8

  /** A value that fits in a byte keeps its value as a byte. */
  lemma ByteValue(x: int)
    requires 0 <= x < 256
    ensures (x as byte) as int == x
  {
  }

  const Generator: byte := 0x07

  /**
   * One bit step: shift left (on a byte, doubling is the shift masked to
   * 8 bits), folding the polynomial in when the top bit falls out.
   */
  function Shift(c: byte): byte {
    if c & 0x80 != 0 then (c * 2) ^ Generator else c * 2
  }

  /** `n` bit steps in a row. */
  function Rounds(c: byte, n: nat): byte
    decreases n
  {
    if n == 0 then c else Rounds(Shift(c), n - 1)
  }

  /** The eight bit steps run for every input byte; only 0 steps to 0. */
  function Step8(c: byte): (r: byte)
    ensures r == 0 <==> c == 0
  {
    RoundsInjective(c, 0, 8);
    assert Rounds(0, 8) == 0;
    Rounds(c, 8)
  }

  /** The CRC loop started from accumulator `acc`, consuming `s` left to right. */
  function CrcFrom(acc: byte, s: seq<byte>): byte
    decreases |s|
  {
    if s == [] then acc else CrcFrom(Step8(acc ^ s[0]), s[1..])
  }

  /** The checksum of a byte sequence. */
  function Crc8(s: seq<byte>): (r: byte)
    ensures s == [] ==> r == 0
  {
    CrcFrom(0, s)
  }

  /** The checksum loop, as the driver runs it: one xor per byte, then eight shift steps. */
  method GenCrc(data: seq<byte>) returns (crc: byte)
    ensures crc == Crc8(data)
  {
    crc := 0;
    for j := 0 to |data|
      invariant CrcFrom(crc, data[j..]) == Crc8(data)
    {
      crc := crc ^ data[j];
      ghost var start := crc;
      for i := 0 to 8
        invariant Rounds(crc, 8 - i) == Step8(start)
      {
        if crc & 0x80 != 0 {
          crc := (crc * 2) ^ Generator;
        } else {
          crc := crc * 2;
        }
      }
    }
  }

  /** Appending one byte runs exactly one more step of the loop. */
  lemma {:induction false} CrcFromSnoc(acc: byte, s: seq<byte>, b: byte)
    ensures CrcFrom(acc, s + [b]) == Step8(CrcFrom(acc, s) ^ b)
    decreases |s|
  {
    if s == [] {
      assert s + [b] == [b];
    } else {
      assert (s + [b])[1..] == s[1..] + [b];
      CrcFromSnoc(Step8(acc ^ s[0]), s[1..], b);
    }
  }

  /** The checksum is a left fold of the byte step. */
  lemma CrcSnoc(s: seq<byte>, b: byte)
    ensures Crc8(s + [b]) == Step8(Crc8(s) ^ b)
  {
    CrcFromSnoc(0, s, b);
  }

  /** Checksumming two pieces one after the other is checksumming their concatenation. */
  lemma {:induction false} CrcFromAppend(acc: byte, s: seq<byte>, t: seq<byte>)
    ensures CrcFrom(acc, s + t) == CrcFrom(CrcFrom(acc, s), t)
    decreases |s|
  {
    if s == [] {
      assert s + t == t;
    } else {
      assert (s + t)[1..] == s[1..] + t;
      CrcFromAppend(Step8(acc ^ s[0]), s[1..], t);
    }
  }

  /** A bit step loses no information: it is injective. */
  lemma ShiftInjective(a: byte, b: byte)
    ensures Shift(a) == Shift(b) ==> a == b
  {
  }

  /** So is the whole byte step; in particular only 0 steps to 0. */
  lemma {:induction false} RoundsInjective(a: byte, b: byte, n: nat)
    ensures Rounds(a, n) == Rounds(b, n) ==> a == b
    decreases n
  {
    if n > 0 {
      RoundsInjective(Shift(a), Shift(b), n - 1);
      ShiftInjective(a, b);
    }
  }

  /**
   * Zero residue: with no final xor and a zero start, the checksum of a
   * sequence followed by its own checksum is 0, and a byte `c` appended to `s`
   * brings the checksum to 0 only when `c` is the checksum of `s`.
   */
  lemma CrcResidue(s: seq<byte>, c: byte)
    ensures Crc8(s + [c]) == 0 <==> c == Crc8(s)
  {
    CrcSnoc(s, c);
  }

  /** The acknowledgement of the broadcast reset, 7F 3C A5, carries the checksum 0x57. */
  lemma ResetFrameChecksum()
    ensures Crc8([0x7F, 0x3C, 0xA5]) == 0x57
  {
    var s: seq<byte> := [0x7F, 0x3C, 0xA5];
    assert Step8(0x7F) == 0x7A;
    assert Step8(0x7A ^ 0x3C) == 0xD5;
    assert Step8(0xD5 ^ 0xA5) == 0x57;
    assert s[1..][1..][1..] == [];
  }
}
