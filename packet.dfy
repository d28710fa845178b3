/**
 * The public header of a gQUIC packet (quic/packet.py): the public flags byte,
 * the 8-byte connection id, the 4-byte protocol version and the packet number,
 * whose width the flags select and whose bytes are read little-endian.
 */
module Packet {

  import opened Wrappers
  import opened Bytes

  const PublicFlagVersion: bv8 := 0x01
  const PublicFlagReset: bv8 := 0x02
  const PublicFlagDiversificationNonce: bv8 := 0x04
  const PublicFlagConnectionId8Bytes: bv8 := 0x08
  const PublicFlagPacketNumber1Byte: bv8 := 0x00
  const PublicFlagPacketNumber2Byte: bv8 := 0x10
  const PublicFlagPacketNumber4Byte: bv8 := 0x20
  const PublicFlagPacketNumber6Byte: bv8 := 0x30

  /** The protocol version a fresh header carries, `b'Q035'`. */
  const DefaultVersion: seq<Byte> := [0x51, 0x30, 0x33, 0x35]

  /** `has_version`: the version bit of the flags is set. */
  function HasVersion(flags: Byte): (r: bool)
    ensures r <==> flags % 2 == 1
  {
    (flags as bv8) & PublicFlagVersion != 0
  }

  /** The packet-number width for each value 0 .. 3 of bits 4-5 of the flags. */
  function LengthForCode(code: nat): nat
    requires code < 4
  {
    [1, 2, 4, 6][code]
  }

  /**
   * `packet_number_length`: twice the packet-number bits, shifted down by 4,
   * with 0 read as 1. It is the width for bits 4-5 of the flags, and nothing
   * else in the flags matters.
   */
  function PacketNumberLength(flags: Byte): (r: nat)
    ensures r == LengthForCode(PacketNumberCode(flags))
    ensures r in {1, 2, 4, 6}
  {
    var masked := flags as bv8 & 0x30;
    assert masked == 0x00 || masked == 0x10 || masked == 0x20 || masked == 0x30;
    var length := 2 * masked as int / 16;
    if length == 0 then 1 else length
  }

  /** Bits 4-5 of the flags, the packet-number length code. */
  function PacketNumberCode(flags: Byte): (r: nat)
    ensures r < 4
  {
    ((flags as bv8 >> 4) & 3) as int
  }

  /** The four packet-number flag values select 1, 2, 4 and 6 bytes. */
  lemma PacketNumberLengths()
    ensures PacketNumberLength(PublicFlagPacketNumber1Byte as Byte) == 1
    ensures PacketNumberLength(PublicFlagPacketNumber2Byte as Byte) == 2
    ensures PacketNumberLength(PublicFlagPacketNumber4Byte as Byte) == 4
    ensures PacketNumberLength(PublicFlagPacketNumber6Byte as Byte) == 6
  {
  }

  // ---------------------------------------------------------------------------
  // The packet number: `reduce(lambda nr, byte: (nr << 8) | byte, reversed(...), 0)`.

  /** One step of the fold: the low 8 bits of `nr << 8` are zero, so `| byte` adds the byte. */
  function ShiftIn(nr: nat, byte: Byte): (r: nat)
    ensures r % 256 == byte && r / 256 == nr
  {
    nr * 256 + byte
  }

  /** The fold from the left over the bytes, starting from acc. */
  function FoldShiftIn(acc: nat, bs: seq<Byte>): (r: nat)
    ensures acc * Pow256(|bs|) <= r < (acc + 1) * Pow256(|bs|)
    decreases |bs|
  {
    if bs == [] then acc
    else
      var r := FoldShiftIn(ShiftIn(acc, bs[0]), bs[1..]);
      ShiftInScale(acc, bs[0], Pow256(|bs| - 1), r);
      r
  }

  /** What lies between the bounds for `ShiftIn(acc, b)` at scale p lies between those for acc at scale 256p. */
  lemma ShiftInScale(acc: nat, b: Byte, p: nat, r: nat)
    requires ShiftIn(acc, b) * p <= r < (ShiftIn(acc, b) + 1) * p
    ensures acc * (256 * p) <= r < (acc + 1) * (256 * p)
  {
    assert ShiftIn(acc, b) * p == acc * (256 * p) + b * p;
    assert (ShiftIn(acc, b) + 1) * p == acc * (256 * p) + (b + 1) * p;
    assert (b + 1) * p <= 256 * p;
  }

  function Reversed<T>(s: seq<T>): (r: seq<T>)
    ensures |r| == |s| && forall i :: 0 <= i < |r| ==> r[i] == s[|s| - 1 - i]
  {
    if s == [] then [] else Reversed(s[1..]) + [s[0]]
  }

  /** Folding one more byte at the end shifts everything before it up by a byte. */
  lemma {:induction false} FoldShiftInSnoc(acc: nat, bs: seq<Byte>, b: Byte)
    ensures FoldShiftIn(acc, bs + [b]) == ShiftIn(FoldShiftIn(acc, bs), b)
    decreases |bs|
  {
    if bs != [] {
      assert (bs + [b])[1..] == bs[1..] + [b];
      FoldShiftInSnoc(ShiftIn(acc, bs[0]), bs[1..], b);
    }
  }

  /** The fold over the reversed bytes reads them little-endian. */
  lemma {:induction false} FoldReversedIsLe(s: seq<Byte>)
    ensures FoldShiftIn(0, Reversed(s)) == LeValue(s)
  {
    if s != [] {
      FoldReversedIsLe(s[1..]);
      FoldShiftInSnoc(0, Reversed(s[1..]), s[0]);
    }
  }

  /**
   * `parse_packet_number`: the bytes at offset .. offset + n (fewer where the
   * data ends first) read little-endian, a number below 256^n.
   */
  function ParsePacketNumber(data: seq<Byte>, offset: nat, n: nat): (r: nat)
    ensures r == LeValue(Slice(data, offset, offset + n))
    ensures r < Pow256(n)
  {
    var bytes := Slice(data, offset, offset + n);
    FoldReversedIsLe(bytes);
    Pow256Monotone(|bytes|, n);
    FoldShiftIn(0, Reversed(bytes))
  }

  lemma ParsePacketNumberExample()
    ensures ParsePacketNumber([0x18, 1, 2, 3, 4, 5, 6, 7, 8, 0x51, 0x30, 0x32, 0x35, 0x34, 0x12], 13, 2) == 0x1234
  {
    var data: seq<Byte> := [0x18, 1, 2, 3, 4, 5, 6, 7, 8, 0x51, 0x30, 0x32, 0x35, 0x34, 0x12];
    assert Slice(data, 13, 15) == [0x34, 0x12];
    assert LeValue([0x12]) == 0x12;
  }

  // ---------------------------------------------------------------------------

  /** `PublicHeader`: the fields of a packet's public header. */
  class PublicHeader {
    var publicFlags: Byte
    var connectionId: seq<Byte>
    var protocolVersion: seq<Byte>
    var diversificationNonces: seq<seq<Byte>>
    var packetNumber: nat

    /** A header with the version, 8-byte connection id and nonce flags and a 1-byte packet number. */
    constructor ()
      ensures publicFlags == 0x0d && HasVersion(publicFlags) && PacketNumberLength(publicFlags) == 1
      ensures connectionId == [] && protocolVersion == DefaultVersion
      ensures diversificationNonces == [] && packetNumber == 0
    {
      publicFlags := (PublicFlagVersion | PublicFlagConnectionId8Bytes
        | PublicFlagDiversificationNonce | PublicFlagPacketNumber1Byte) as Byte;
      connectionId := [];
      protocolVersion := DefaultVersion;
      diversificationNonces := [];
      packetNumber := 0;
    }
  }

  /**
   * `parse_public_header`: None where `data[0]` raises IndexError; otherwise a
   * fresh header with the flags, the connection id at 1 .. 9, the version at
   * 9 .. 13 (read whether or not the version flag is set) and the packet number
   * at 13, as wide as the flags say. The nonces keep their empty default.
   */
  method ParsePublicHeader(data: seq<Byte>) returns (r: Option<PublicHeader>)
    ensures r.None? <==> |data| == 0
    ensures r.Some? ==>
      && fresh(r.value)
      && r.value.publicFlags == data[0]
      && r.value.connectionId == Slice(data, 1, 9)
      && r.value.protocolVersion == Slice(data, 9, 13)
      && r.value.packetNumber == LeValue(Slice(data, 13, 13 + PacketNumberLength(data[0])))
      && r.value.packetNumber < Pow256(PacketNumberLength(data[0]))
      && r.value.diversificationNonces == []
  {
    if |data| == 0 {
      return None;
    }
    var header := new PublicHeader();
    header.publicFlags := data[0];
    header.connectionId := Slice(data, 1, 9);
    header.protocolVersion := Slice(data, 9, 13);
    header.packetNumber := ParsePacketNumber(data, 13, PacketNumberLength(header.publicFlags));
    return Some(header);
  }
}
