/** Reassembly of H.265 NAL units from single-NAL packets and Fragmentation
    Units (sections 4.4.1 and 4.4.3 of RFC 7798).  `FeedH265` on an `Assembly`
    is the specification of the class `Depacketizer`, which keeps the source's
    fields and resets. */
module Depacketizers {
  import opened Bytes
  import opened Rtp

  const AP_TYPE: byte := 48
  const FU_TYPE: byte := 49
  const PACI_TYPE: byte := 50
  const DEFAULT_MAX_FU_BYTES := 0x40_0000
  const MAX_INT := 0x7fff_ffff_ffff_ffff
  const START_CODE: seq<byte> := [0, 0, 0, 1]

  /** `nal == []` means that a Fragmentation Unit is still being assembled. */
  datatype DepacketizedNAL = DepacketizedNAL(nal: seq<byte>, timestamp: uint32, marker: bool)

  datatype Assembly =
    | Idle
    | Active(nextSeq: uint16, indicator: (byte, byte), fuType: byte, timestamp: uint32, buffer: seq<byte>)

  function NalType(headerByte: byte): byte {
    (headerByte >> 1) & 0x3f
  }

  predicate StartBit(fuHeader: byte) {
    fuHeader & 0x80 != 0
  }

  predicate EndBit(fuHeader: byte) {
    fuHeader & 0x40 != 0
  }

  function HeaderType(fuHeader: byte): byte {
    fuHeader & 0x3f
  }

  /** The NAL header rebuilt from the two-byte indicator and the type carried by
      the FU header. */
  function RebuiltHeader(indicator: (byte, byte), fuType: byte): seq<byte> {
    [(fuType << 1) | (indicator.0 & 0x81), indicator.1]
  }

  predicate Reserved(nalType: byte) {
    nalType == AP_TYPE || nalType == FU_TYPE || nalType == PACI_TYPE
  }

  function AnnexB(nal: seq<byte>): seq<byte> {
    START_CODE + nal
  }

  /** The smaller of the configured limit and the largest NAL whose Annex B form
      has a length that fits a 64-bit `int`. */
  function Limit(maxBytes: nat): nat {
    if maxBytes > MAX_INT - 4 then MAX_INT - 4 else maxBytes
  }

  predicate FitsNALBytes(maxBytes: nat, prefix: nat, suffix: nat) {
    prefix <= Limit(maxBytes) && suffix <= Limit(maxBytes) - prefix
  }

  function NextSeq(sequence: uint16): uint16 {
    (sequence + 1) % 0x1_0000
  }

  // ----- specification of one packet ------------------------------------------------

  function FeedH265(a: Assembly, maxBytes: nat, sequence: uint16, timestamp: uint32, payload: seq<byte>)
    : (Assembly, Result<seq<byte>>)
  {
    if |payload| < 2 || NalType(payload[0]) == AP_TYPE || NalType(payload[0]) == PACI_TYPE then
      (Idle, Err(DemuxFailed))
    else if NalType(payload[0]) != FU_TYPE then
      (Idle, if FitsNALBytes(maxBytes, 0, |payload|) then Ok(AnnexB(payload)) else Err(DemuxFailed))
    else if |payload| < 4 then
      (Idle, Err(DemuxFailed))
    else
      FeedFU(a, maxBytes, sequence, timestamp, payload)
  }

  function FeedFU(a: Assembly, maxBytes: nat, sequence: uint16, timestamp: uint32, payload: seq<byte>)
    : (Assembly, Result<seq<byte>>)
    requires |payload| >= 4
  {
    var start, end := StartBit(payload[2]), EndBit(payload[2]);
    var fuType := HeaderType(payload[2]);
    var fragment := payload[3..];
    var indicator := (payload[0], payload[1]);
    if start then
      if Reserved(fuType) || !FitsNALBytes(maxBytes, 2, |fragment|) then
        (Idle, Err(DemuxFailed))
      else
        Finish(end, Active(NextSeq(sequence), indicator, fuType, timestamp,
                           RebuiltHeader(indicator, fuType) + fragment))
    else if !a.Active? || sequence != a.nextSeq || indicator != a.indicator
            || fuType != a.fuType || timestamp != a.timestamp
            || !FitsNALBytes(maxBytes, |a.buffer|, |fragment|) then
      (Idle, Err(DemuxFailed))
    else
      Finish(end, a.(nextSeq := NextSeq(sequence), buffer := a.buffer + fragment))
  }

  function Finish(end: bool, a: Assembly): (Assembly, Result<seq<byte>>)
    requires a.Active?
  {
    if end then (Idle, Ok(AnnexB(a.buffer))) else (a, Ok([]))
  }

  function FeedRTP(a: Assembly, maxBytes: nat, packet: seq<byte>): (Assembly, Result<DepacketizedNAL>) {
    match ParseRTP(packet)
    case Err(code) => (Idle, Err(code))
    case Ok(rtp) =>
      var (next, r) := FeedH265(a, maxBytes, rtp.sequenceNumber, rtp.timestamp, rtp.payload);
      match r
      case Err(code) => (next, Err(code))
      case Ok(nal) => (next, Ok(DepacketizedNAL(nal, rtp.timestamp, rtp.marker)))
  }

  /** The start code, a two-byte header of a type that is not 48, 49 or 50, and a size
      within the limit. */
  predicate IsNAL(nal: seq<byte>, maxBytes: nat) {
    && 6 <= |nal| <= maxBytes + 4 && nal[..4] == [0, 0, 0, 1]
    && TypeBits(nal[4]) != 48 && TypeBits(nal[4]) != 49 && TypeBits(nal[4]) != 50
  }

  /** From a state whose buffer is in order, any packet leads to such a state, and what is
      emitted is a NAL of that shape. */
  lemma EmittedShape(a: Assembly, maxBytes: nat, packet: seq<byte>)
    requires a.Active? ==> ValidBuffer(a, maxBytes)
    ensures var (next, r) := FeedRTP(a, maxBytes, packet);
            && (next.Active? ==> ValidBuffer(next, maxBytes) && r.Ok? && r.value.nal == [])
            && (r.Ok? && r.value.nal != [] ==> IsNAL(r.value.nal, maxBytes))
  {
    if ParseRTP(packet).Ok? && |ParseRTP(packet).value.payload| >= 4 {
      RebuiltHeaderType(ParseRTP(packet).value.payload[0], ParseRTP(packet).value.payload[2]);
    }
  }

  /** Whatever is refused is refused with one code, and drops what was being assembled. */
  lemma RefusedIsDemuxFailed(a: Assembly, maxBytes: nat, packet: seq<byte>)
    ensures var (next, r) := FeedRTP(a, maxBytes, packet);
            r.Err? ==> r == Err(DemuxFailed) && next == Idle
  {
  }

  predicate ValidBuffer(a: Assembly, maxBytes: nat)
    requires a.Active?
  {
    2 <= |a.buffer| <= Limit(maxBytes) && !Reserved(NalType(a.buffer[0]))
  }

  lemma RebuiltHeaderType(indicator: byte, fuHeader: byte)
    ensures NalType((HeaderType(fuHeader) << 1) | (indicator & 0x81)) == HeaderType(fuHeader)
  {
  }

  // ----- the class --------------------------------------------------------------------

  class Depacketizer {
    var fuActive: bool
    var nextSeq: uint16
    var fuIndicator: (byte, byte)
    var fuType: byte
    var fuTimestamp: uint32
    var buffer: seq<byte>
    const maxBytes: nat

    ghost predicate Valid()
      reads this
    {
      !fuActive ==> nextSeq == 0 && fuIndicator == (0, 0) && fuType == 0 && fuTimestamp == 0 && buffer == []
    }

    ghost function Assembling(): Assembly
      reads this
    {
      if fuActive then Active(nextSeq, fuIndicator, fuType, fuTimestamp, buffer) else Idle
    }

    constructor ()
      ensures Valid() && Assembling() == Idle && maxBytes == 4 * 1024 * 1024
    {
      fuActive, nextSeq, fuIndicator, fuType, fuTimestamp, buffer := false, 0, (0, 0), 0, 0, [];
      maxBytes := DEFAULT_MAX_FU_BYTES;
    }

    constructor WithMaxBytes(limit: int)
      ensures Valid() && Assembling() == Idle && maxBytes == if limit < 0 then 0 else limit
    {
      fuActive, nextSeq, fuIndicator, fuType, fuTimestamp, buffer := false, 0, (0, 0), 0, 0, [];
      maxBytes := if limit < 0 then 0 else limit;
    }

    method FeedRTPWithMetadata(packet: seq<byte>) returns (r: Result<DepacketizedNAL>)
      requires Valid()
      modifies this
      ensures Valid()
      ensures (Assembling(), r) == FeedRTP(old(Assembling()), maxBytes, packet)
    {
      var rtp := ParseRTP(packet);
      if rtp.Err? {
        Reset();
        return Err(rtp.code);
      }
      var nal := Feed(rtp.value.sequenceNumber, rtp.value.timestamp, rtp.value.payload);
      if nal.Err? {
        return Err(nal.code);
      }
      return Ok(DepacketizedNAL(nal.value, rtp.value.timestamp, rtp.value.marker));
    }

    method Feed(sequence: uint16, timestamp: uint32, payload: seq<byte>) returns (r: Result<seq<byte>>)
      requires Valid()
      modifies this
      ensures Valid()
      ensures (Assembling(), r) == FeedH265(old(Assembling()), maxBytes, sequence, timestamp, payload)
    {
      if |payload| < 2 {
        Reset();
        return Err(DemuxFailed);
      }
      var nalType := NalType(payload[0]);
      if nalType == AP_TYPE || nalType == PACI_TYPE {
        Reset();
        return Err(DemuxFailed);
      }
      if nalType != FU_TYPE {
        if fuActive {
          Reset();
        }
        if !FitsNALBytes(maxBytes, 0, |payload|) {
          return Err(DemuxFailed);
        }
        return Ok(AnnexB(payload));
      }
      if |payload| < 4 {
        Reset();
        return Err(DemuxFailed);
      }
      r := FeedFragment(sequence, timestamp, payload);
    }

    method FeedFragment(sequence: uint16, timestamp: uint32, payload: seq<byte>) returns (r: Result<seq<byte>>)
      requires Valid() && |payload| >= 4
      modifies this
      ensures Valid()
      ensures (Assembling(), r) == FeedFU(old(Assembling()), maxBytes, sequence, timestamp, payload)
    {
      var start, end := StartBit(payload[2]), EndBit(payload[2]);
      var headerType := HeaderType(payload[2]);
      var fragment := payload[3..];
      if start {
        if fuActive {
          Reset();
        }
        if Reserved(headerType) {
          Reset();
          return Err(DemuxFailed);
        }
        if !FitsNALBytes(maxBytes, 2, |fragment|) {
          Reset();
          return Err(DemuxFailed);
        }
        buffer := RebuiltHeader((payload[0], payload[1]), headerType);
        buffer := buffer + fragment;
        fuActive := true;
        nextSeq := NextSeq(sequence);
        fuIndicator := (payload[0], payload[1]);
        fuType := headerType;
        fuTimestamp := timestamp;
        if !end {
          return Ok([]);
        }
        r := FinishFU();
        return;
      }
      if !fuActive || sequence != nextSeq {
        Reset();
        return Err(DemuxFailed);
      }
      if payload[0] != fuIndicator.0 || payload[1] != fuIndicator.1 || headerType != fuType ||
          timestamp != fuTimestamp {
        Reset();
        return Err(DemuxFailed);
      }
      if !FitsNALBytes(maxBytes, |buffer|, |fragment|) {
        Reset();
        return Err(DemuxFailed);
      }
      buffer := buffer + fragment;
      nextSeq := NextSeq(sequence);
      if !end {
        return Ok([]);
      }
      r := FinishFU();
    }

    method FinishFU() returns (r: Result<seq<byte>>)
      modifies this
      ensures Valid() && Assembling() == Idle && r == Ok(AnnexB(old(buffer)))
    {
      r := Ok(AnnexB(buffer));
      Reset();
    }

    method Reset()
      modifies this
      ensures Valid() && Assembling() == Idle
    {
      fuActive := false;
      nextSeq := 0;
      fuIndicator := (0, 0);
      fuType := 0;
      fuTimestamp := 0;
      buffer := [];
    }
  }
}
