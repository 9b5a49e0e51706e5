/** The Modbus RTU checksum, as described in section 2.5.1.2 and Appendix B
    of the MODBUS over Serial Line Specification and Implementation Guide
    V1.02: CRC-16 with initial value 0xFFFF and reflected polynomial 0xA001,
    sent low octet first. The C routine `modbus_crc16` lives in a header that
    is not part of this model; both engines only ever use "the CRC of these
    octets", so properties below depend on nothing more. */
module Crc {
  import opened Bytes

  const INITIAL: bv16 := 0xFFFF
  const POLYNOMIAL: bv16 := 0xA001

  /** k rounds of shift-right, folding the polynomial in when a one drops out. */
  function Shift(crc: bv16, k: nat): bv16
    decreases k
  {
    if k == 0 then crc
    else Shift(if crc & 1 == 1 then (crc >> 1) ^ POLYNOMIAL else crc >> 1, k - 1)
  }

  function Fold(crc: bv16, bytes: seq<byte>): bv16
    decreases |bytes|
  {
    if |bytes| == 0 then crc
    else Fold(Shift(crc ^ (bytes[0] as bv16), 8), bytes[1..])
  }

  function Crc16(bytes: seq<byte>): u16
  {
    Fold(INITIAL, bytes) as int
  }

  /** The two trailing octets of a frame: CRC low octet, then high octet. */
  function Trailer(bytes: seq<byte>): (r: seq<byte>)
    ensures |r| == 2
  {
    [Lo(Crc16(bytes)), Hi(Crc16(bytes))]
  }

  /** The trailer read back as a word, high octet last, is the checksum. */
  lemma TrailerWord(bytes: seq<byte>)
    ensures Word(Trailer(bytes)[1], Trailer(bytes)[0]) == Crc16(bytes)
  {
    WordOfHalves(Crc16(bytes));
  }

  /** A frame body with its checksum appended. */
  function Seal(body: seq<byte>): (r: seq<byte>)
    ensures |r| == |body| + 2 && r[..|body|] == body
    ensures forall i :: 0 <= i < |body| ==> r[i] == body[i]
  {
    body + Trailer(body)
  }

  /** A sealed frame passes the check: the checksum a receiver recomputes
      over everything but the trailer is the one in the trailer. */
  lemma SealIntact(body: seq<byte>)
    ensures Intact(Seal(body))
  {
    var r := Seal(body);
    assert r[..|r| - 2] == body;
    assert r[|r| - 2..] == Trailer(body);
    TrailerWord(body);
  }

  /** The last two octets are the CRC (low first) of all the octets before them. */
  predicate Intact(frame: seq<byte>)
  {
    |frame| >= 2 && Word(frame[|frame| - 1], frame[|frame| - 2]) == Crc16(frame[..|frame| - 2])
  }

  /** A frame without its two CRC octets (empty when it is shorter). */
  function WithoutCrc(frame: seq<byte>): seq<byte>
  {
    if |frame| >= 2 then frame[..|frame| - 2] else []
  }

  lemma FoldHead(crc: bv16, bytes: seq<byte>, next: bv16)
    requires |bytes| > 0 && Shift(crc ^ (bytes[0] as bv16), 8) == next
    ensures Fold(crc, bytes) == Fold(next, bytes[1..])
  {}

  /** The published example frame of the Modbus serial-line guide:
      01 03 00 00 00 01 carries the checksum octets 84 0A. The frame is a
      parameter so that the checksum is evaluated one octet at a time. */
  lemma ReadHoldingExampleChecksum(f: seq<byte>)
    requires f == [0x01, 0x03, 0x00, 0x00, 0x00, 0x01]
    ensures Trailer(f) == [0x84, 0x0A]
  {
    assert Shift(0xFFFF ^ 0x01, 8) == 0x807E;
    FoldHead(INITIAL, f, 0x807E);
    var f1 := f[1..];
    assert Shift(0x807E ^ 0x03, 8) == 0x2140;
    FoldHead(0x807E, f1, 0x2140);
    var f2 := f1[1..];
    assert Shift(0x2140 ^ 0x00, 8) == 0xF020;
    FoldHead(0x2140, f2, 0xF020);
    var f3 := f2[1..];
    assert Shift(0xF020 ^ 0x00, 8) == 0xD8F1;
    FoldHead(0xF020, f3, 0xD8F1);
    var f4 := f3[1..];
    assert Shift(0xD8F1 ^ 0x00, 8) == 0x8419;
    FoldHead(0xD8F1, f4, 0x8419);
    var f5 := f4[1..];
    assert Shift(0x8419 ^ 0x01, 8) == 0x0A84;
    FoldHead(0x8419, f5, 0x0A84);
    assert f5[1..] == [];
    assert Crc16(f) == 0x0A84;
  }
}
