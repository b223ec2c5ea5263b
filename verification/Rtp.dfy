/** The restricted RTP subset of `ParseRTP` (a fixed 12-byte header, section 5.1
    of RFC 3550), together with the sender-side encoder it must invert. */
module Rtp {
  import opened Bytes

  type uint16 = x: int | 0 <= x < 0x1_0000
  type uint32 = x: int | 0 <= x < 0x1_0000_0000

  const HEADER_SIZE := 12
  const H265_PAYLOAD_TYPE: byte := 96

  datatype ErrorCode =
    | DemuxFailed
    | MediaTimeout
    | WSSConnectFailed

  datatype Result<+T> = Ok(value: T) | Err(code: ErrorCode)

  datatype Packet = Packet(sequenceNumber: uint16, timestamp: uint32, marker: bool, payload: seq<byte>)

  /** Anything but version 2, no padding, no extension, no CSRC list, payload
      type 96 and a non-empty payload is refused. */
  function ParseRTP(packet: seq<byte>): Result<Packet> {
    if |packet| < HEADER_SIZE || packet[0] >> 6 != 2 then
      Err(DemuxFailed)
    else if packet[0] & 0x3f != 0 || packet[1] & 0x7f != H265_PAYLOAD_TYPE then
      Err(DemuxFailed)
    else if |packet| == HEADER_SIZE then
      Err(DemuxFailed)
    else
      Ok(Packet(
           BigEndian16(packet[2], packet[3]),
           BigEndian16(packet[4], packet[5]) * 0x1_0000 + BigEndian16(packet[6], packet[7]),
           packet[1] & 0x80 != 0,
           packet[HEADER_SIZE..]))
  }

  function BigEndian16(high: byte, low: byte): uint16 {
    high as int * 0x100 + low as int
  }

  /** A sender's packet: bytes 8 to 11 are the synchronization source, which the
      receiver ignores. */
  function Encode(p: Packet, ssrc: seq<byte>): seq<byte>
    requires |ssrc| == 4
  {
    [0x80, 96 | (if p.marker then 0x80 else 0)]
    + Bytes16(p.sequenceNumber)
    + Bytes16(p.timestamp / 0x1_0000) + Bytes16(p.timestamp % 0x1_0000)
    + ssrc
    + p.payload
  }

  function Bytes16(x: uint16): (b: seq<byte>)
    ensures |b| == 2
  {
    [ToByte(x / 0x100), ToByte(x % 0x100)]
  }

  lemma DivMod(high: int, low: int)
    requires 0 <= low < 0x100
    ensures (high * 0x100 + low) / 0x100 == high && (high * 0x100 + low) % 0x100 == low
  {
  }

  lemma Bytes16RoundTrip(x: uint16)
    ensures BigEndian16(Bytes16(x)[0], Bytes16(x)[1]) == x
  {
  }

  lemma BigEndian16RoundTrip(high: byte, low: byte)
    ensures Bytes16(BigEndian16(high, low)) == [high, low]
  {
    ToByteOf(high, BigEndian16(high, low) / 0x100) by { DivMod(high as int, low as int); }
    ToByteOf(low, BigEndian16(high, low) % 0x100) by { DivMod(high as int, low as int); }
  }

  /** Decoding what a sender encodes gives the packet back. */
  lemma ParseEncode(p: Packet, ssrc: seq<byte>)
    requires |ssrc| == 4 && p.payload != []
    ensures ParseRTP(Encode(p, ssrc)) == Ok(p)
  {
    var e := Encode(p, ssrc);
    Bytes16RoundTrip(p.sequenceNumber);
    Bytes16RoundTrip(p.timestamp / 0x1_0000);
    Bytes16RoundTrip(p.timestamp % 0x1_0000);
    assert e[2..4] == Bytes16(p.sequenceNumber);
    assert e[4..6] == Bytes16(p.timestamp / 0x1_0000);
    assert e[6..8] == Bytes16(p.timestamp % 0x1_0000);
    assert e[HEADER_SIZE..] == p.payload;
    MarkerBits(p.marker);
  }

  lemma MarkerBits(marker: bool)
    ensures var b: byte := H265_PAYLOAD_TYPE | (if marker then 0x80 else 0);
            b & 0x7f == H265_PAYLOAD_TYPE && (b & 0x80 != 0 <==> marker)
  {
  }

  /** The accepted packets are exactly the encodings of packets with a payload:
      whatever is accepted re-encodes to the very bytes that were read. */
  lemma EncodeParse(bytes: seq<byte>)
    ensures ParseRTP(bytes).Ok? <==>
            exists p: Packet, ssrc: seq<byte> | |ssrc| == 4 && p.payload != [] :: bytes == Encode(p, ssrc)
    ensures ParseRTP(bytes).Ok? ==> bytes == Encode(ParseRTP(bytes).value, bytes[8..12])
  {
    if ParseRTP(bytes).Ok? {
      var p := ParseRTP(bytes).value;
      BigEndian16RoundTrip(bytes[2], bytes[3]);
      BigEndian16RoundTrip(bytes[4], bytes[5]);
      BigEndian16RoundTrip(bytes[6], bytes[7]);
      FirstTwoBytes(bytes[0], bytes[1]);
      var e := Encode(p, bytes[8..12]);
      assert p.timestamp / 0x1_0000 == BigEndian16(bytes[4], bytes[5]);
      assert p.timestamp % 0x1_0000 == BigEndian16(bytes[6], bytes[7]);
      assert bytes == bytes[0..2] + bytes[2..4] + bytes[4..6] + bytes[6..8] + bytes[8..12] + bytes[12..];
      assert bytes[0..2] == [bytes[0], bytes[1]];
      assert bytes[2..4] == [bytes[2], bytes[3]];
      assert bytes[4..6] == [bytes[4], bytes[5]];
      assert bytes[6..8] == [bytes[6], bytes[7]];
      assert bytes == e;
    }
    forall p: Packet, ssrc: seq<byte> | |ssrc| == 4 && p.payload != [] && bytes == Encode(p, ssrc)
      ensures ParseRTP(bytes).Ok?
    {
      ParseEncode(p, ssrc);
    }
  }

  lemma FirstTwoBytes(b0: byte, b1: byte)
    requires b0 >> 6 == 2 && b0 & 0x3f == 0 && b1 & 0x7f == H265_PAYLOAD_TYPE
    ensures b0 == 0x80
    ensures b1 == H265_PAYLOAD_TYPE | (if b1 & 0x80 != 0 then 0x80 else 0)
  {
  }
}
