/** A sender's packet stream, a network that loses packets, and what the
    depacketizer makes of the packets that arrive. */
module LossSafety {
  import opened Bytes
  import opened Rtp
  import opened Depacketizers

  // ----- the sender -------------------------------------------------------------------

  /** One NAL unit as sent: in a single packet when `fragments == []`, otherwise
      as Fragmentation Units carrying `fragments` in order.  Only the last packet
      of a NAL carries the marker. */
  datatype SentNAL = SentNAL(nal: seq<byte>, fragments: seq<seq<byte>>, timestamp: uint32, marker: bool) {
    ghost predicate WellFormed() {
      && |nal| >= 2
      && TypeBits(nal[0]) != 48 && TypeBits(nal[0]) != 49 && TypeBits(nal[0]) != 50
      && (fragments != [] ==> [] !in fragments && Concat(fragments) == nal[2..])
    }

    function Count(): nat
      ensures Count() >= 1
    {
      if fragments == [] then 1 else |fragments|
    }

    function Payload(f: nat): seq<byte>
      requires |nal| >= 2 && f < Count()
    {
      if fragments == [] then nal
      else [FuIndicator(nal[0]), nal[1], FuHeader(TypeBits(nal[0]), f == 0, f == Count() - 1)] + fragments[f]
    }
  }

  function FuIndicator(header: byte): byte {
    (header & 0x81) | (49 << 1)
  }

  function FuHeader(nalType: byte, start: bool, end: bool): byte {
    (if start then 0x80 else 0) | (if end then 0x40 else 0) | nalType
  }

  function Concat(parts: seq<seq<byte>>): seq<byte> {
    if parts == [] then [] else Concat(parts[..|parts| - 1]) + parts[|parts| - 1]
  }

  type Stream = seq<SentNAL>

  /** As a receiver hands it on. */
  function StartCoded(nal: seq<byte>): seq<byte> {
    [0, 0, 0, 1] + nal
  }

  /** Within the limit, and short enough for its length with the start code to be an `int`. */
  predicate Fits(maxBytes: nat, length: nat) {
    length <= maxBytes && length + 4 < 0x8000_0000_0000_0000
  }

  ghost predicate WellFormed(stream: Stream) {
    forall n | 0 <= n < |stream| :: stream[n].WellFormed()
  }

  /** Number of packets sent before NAL `n`. */
  function Offset(stream: Stream, n: nat): nat
    requires n <= |stream|
  {
    if n == 0 then 0 else Offset(stream, n - 1) + stream[n - 1].Count()
  }

  /** A packet of the stream: fragment `f` of NAL `n`. */
  datatype Tag = Tag(n: nat, f: nat)

  predicate InStream(stream: Stream, t: Tag) {
    t.n < |stream| && t.f < stream[t.n].Count()
  }

  function Position(stream: Stream, t: Tag): nat
    requires InStream(stream, t)
  {
    Offset(stream, t.n) + t.f
  }

  function SequenceNumber(stream: Stream, first: uint16, t: Tag): uint16
    requires InStream(stream, t)
  {
    (first + Position(stream, t)) % 0x1_0000
  }

  function PacketOf(stream: Stream, first: uint16, t: Tag): Packet
    requires InStream(stream, t) && |stream[t.n].nal| >= 2
  {
    var s := stream[t.n];
    Packet(SequenceNumber(stream, first, t), s.timestamp, s.marker && t.f == s.Count() - 1, s.Payload(t.f))
  }

  // ----- the network and the receiver --------------------------------------------------

  /** The sequence number comes round to the awaited one after these losses. */
  predicate Wraps(lost: nat) {
    lost > 0 && lost % 0x1_0000 == 0
  }

  /** What arrives: packets of the stream in sending order, any number of them lost in
      a row except a positive multiple of 65536. */
  ghost predicate Delivered(stream: Stream, tags: seq<Tag>) {
    && (forall i | 0 <= i < |tags| :: InStream(stream, tags[i]))
    && (forall i, j | 0 <= i && j == i + 1 < |tags| ::
          var p, q := Position(stream, tags[i]), Position(stream, tags[j]);
          p < q && !Wraps(q - p - 1))
  }

  function Receive(a: Assembly, maxBytes: nat, packets: seq<seq<byte>>): Assembly {
    if packets == [] then a
    else FeedRTP(Receive(a, maxBytes, packets[..|packets| - 1]), maxBytes, packets[|packets| - 1]).0
  }

  ghost function Arrived(stream: Stream, first: uint16, tags: seq<Tag>, ssrc: seq<byte>): seq<seq<byte>>
    requires WellFormed(stream) && |ssrc| == 4
    requires forall i | 0 <= i < |tags| :: InStream(stream, tags[i])
  {
    seq(|tags|, i requires 0 <= i < |tags| => Encode(PacketOf(stream, first, tags[i]), ssrc))
  }

  // ----- what the receiver should be doing ----------------------------------------------

  /** The last packets to arrive are fragments 0 to `f` of NAL `n`, all of them. */
  predicate AllArrived(tags: seq<Tag>, n: nat, f: nat) {
    f < |tags| && forall i | 0 <= i <= f :: tags[|tags| - 1 - f + i] == Tag(n, i)
  }

  function Reassembled(s: SentNAL, f: nat): seq<byte>
    requires |s.nal| >= 2 && f < |s.fragments|
  {
    s.nal[..2] + Concat(s.fragments[..f + 1])
  }

  ghost predicate Assembling(stream: Stream, maxBytes: nat, tags: seq<Tag>)
    requires WellFormed(stream) && Delivered(stream, tags)
  {
    && tags != []
    && var t := tags[|tags| - 1];
    var s := stream[t.n];
    && s.fragments != []
    && t.f < s.Count() - 1
    && AllArrived(tags, t.n, t.f)
    && Fits(maxBytes, |Reassembled(s, t.f)|)
  }

  ghost function ExpectedState(stream: Stream, first: uint16, maxBytes: nat, tags: seq<Tag>): Assembly
    requires WellFormed(stream) && Delivered(stream, tags)
  {
    if !Assembling(stream, maxBytes, tags) then Idle
    else
      var t := tags[|tags| - 1];
      var s := stream[t.n];
      Active(NextSeq(SequenceNumber(stream, first, t)), (FuIndicator(s.nal[0]), s.nal[1]), NalType(s.nal[0]),
             s.timestamp, Reassembled(s, t.f))
  }

  /** A NAL comes out exactly when its last packet arrives straight after all its
      other packets and it is within the size limit. */
  ghost predicate Emits(stream: Stream, maxBytes: nat, tags: seq<Tag>)
    requires WellFormed(stream) && Delivered(stream, tags) && tags != []
  {
    var t := tags[|tags| - 1];
    var s := stream[t.n];
    t.f == s.Count() - 1 && AllArrived(tags, t.n, t.f) && Fits(maxBytes, |s.nal|)
  }

  // ----- facts about fragments -----------------------------------------------------------

  lemma FuBits(header: byte, start: bool, end: bool)
    requires !Reserved(TypeBits(header))
    ensures NalType(header) == TypeBits(header)
    ensures NalType(FuIndicator(header)) == FU_TYPE
    ensures StartBit(FuHeader(TypeBits(header), start, end)) == start
    ensures EndBit(FuHeader(TypeBits(header), start, end)) == end
    ensures HeaderType(FuHeader(TypeBits(header), start, end)) == NalType(header)
    ensures (NalType(header) << 1) | (FuIndicator(header) & 0x81) == header
  {
  }

  lemma {:induction false} ConcatSplit(parts: seq<seq<byte>>, k: nat)
    requires k <= |parts|
    ensures Concat(parts) == Concat(parts[..k]) + Concat(parts[k..])
    decreases |parts|
  {
    if k == |parts| {
      assert parts[..k] == parts;
    } else {
      var front := parts[..|parts| - 1];
      ConcatSplit(front, k);
      assert front[..k] == parts[..k];
      assert parts[k..][..|parts| - 1 - k] == front[k..];
    }
  }

  /** A prefix of the fragments rebuilds a prefix of the NAL; all of them rebuild it. */
  lemma ReassembledPrefix(s: SentNAL, f: nat)
    requires s.WellFormed() && f < |s.fragments|
    ensures Reassembled(s, f) <= s.nal
    ensures f == |s.fragments| - 1 ==> Reassembled(s, f) == s.nal
    ensures f > 0 ==> Reassembled(s, f) == Reassembled(s, f - 1) + s.fragments[f]
  {
    ConcatSplit(s.fragments, f + 1);
    assert s.nal == s.nal[..2] + s.nal[2..];
    if f == |s.fragments| - 1 {
      assert s.fragments[..f + 1] == s.fragments;
    }
    if f > 0 {
      assert s.fragments[..f + 1][..f] == s.fragments[..f];
    }
  }

  // ----- positions and sequence numbers --------------------------------------------------

  lemma {:induction false} OffsetStep(stream: Stream, m: nat, n: nat)
    requires m < n <= |stream|
    ensures Offset(stream, m) + stream[m].Count() <= Offset(stream, n)
    decreases n - m
  {
    if m + 1 < n {
      OffsetStep(stream, m + 1, n);
    }
  }

  /** A position identifies the packet. */
  lemma PositionInjective(stream: Stream, t: Tag, u: Tag)
    requires InStream(stream, t) && InStream(stream, u)
    requires Position(stream, t) == Position(stream, u)
    ensures t == u
  {
    if t.n < u.n {
      OffsetStep(stream, t.n, u.n);
    } else if u.n < t.n {
      OffsetStep(stream, u.n, t.n);
    }
  }

  /** Unless the sequence number comes round in between, the awaited number means the
      awaited packet. */
  lemma AwaitedPacket(stream: Stream, first: uint16, t: Tag, u: Tag)
    requires InStream(stream, t) && InStream(stream, u) && t.f + 1 < stream[t.n].Count()
    requires Position(stream, t) < Position(stream, u)
    requires !Wraps(Position(stream, u) - Position(stream, t) - 1)
    ensures SequenceNumber(stream, first, u) == NextSeq(SequenceNumber(stream, first, t)) <==> u == Tag(t.n, t.f + 1)
  {
    var next := Tag(t.n, t.f + 1);
    ModularSuccessor(first + Position(stream, t), first + Position(stream, u));
    if Position(stream, u) == Position(stream, next) {
      PositionInjective(stream, u, next);
    }
  }

  lemma ModularSuccessor(p: nat, q: nat)
    requires p < q
    ensures q % 0x1_0000 == (p % 0x1_0000 + 1) % 0x1_0000 <==> (q - p - 1) % 0x1_0000 == 0
  {
  }

  // ----- one step of the receiver ---------------------------------------------------------

  lemma FeedSent(a: Assembly, maxBytes: nat, stream: Stream, first: uint16, t: Tag, ssrc: seq<byte>)
    requires WellFormed(stream) && InStream(stream, t) && |ssrc| == 4
    ensures FeedRTP(a, maxBytes, Encode(PacketOf(stream, first, t), ssrc)) == FeedTag(stream, first, maxBytes, t, a)
  {
    var p := PacketOf(stream, first, t);
    assert p.payload != [];
    ParseEncode(p, ssrc);
  }

  lemma FeedFragmentOf(a: Assembly, maxBytes: nat, stream: Stream, first: uint16, t: Tag)
    requires WellFormed(stream) && InStream(stream, t) && stream[t.n].fragments != []
    ensures var p := PacketOf(stream, first, t);
            var s := stream[t.n];
            var indicator := (FuIndicator(s.nal[0]), s.nal[1]);
            FeedH265(a, maxBytes, p.sequenceNumber, p.timestamp, p.payload) ==
            if t.f == 0 then
              if |Reassembled(s, 0)| > Limit(maxBytes) then (Idle, Err(DemuxFailed))
              else Finish(s.Count() == 1, Active(NextSeq(p.sequenceNumber), indicator, NalType(s.nal[0]), s.timestamp,
                                                 Reassembled(s, 0)))
            else if !a.Active? || p.sequenceNumber != a.nextSeq || indicator != a.indicator
                    || NalType(s.nal[0]) != a.fuType || s.timestamp != a.timestamp
                    || !FitsNALBytes(maxBytes, |a.buffer|, |s.fragments[t.f]|) then
              (Idle, Err(DemuxFailed))
            else
              Finish(t.f == s.Count() - 1,
                     a.(nextSeq := NextSeq(p.sequenceNumber), buffer := a.buffer + s.fragments[t.f]))
  {
    var p := PacketOf(stream, first, t);
    var s := stream[t.n];
    FuBits(s.nal[0], t.f == 0, t.f == s.Count() - 1);
    assert s.fragments[t.f] != [];
    assert p.payload[3..] == s.fragments[t.f];
    if t.f == 0 {
      assert s.fragments[..1] == [s.fragments[0]];
      assert s.fragments[..1][..0] == [];
      assert Concat(s.fragments[..1]) == s.fragments[0];
      assert RebuiltHeader((FuIndicator(s.nal[0]), s.nal[1]), NalType(s.nal[0])) == s.nal[..2];
    }
  }

  lemma DeliveredPrefix(stream: Stream, tags: seq<Tag>, k: nat)
    requires Delivered(stream, tags) && k <= |tags|
    ensures Delivered(stream, tags[..k])
  {
  }

  lemma AllArrivedStep(tags: seq<Tag>, n: nat, f: nat)
    requires tags != [] && f > 0
    ensures AllArrived(tags, n, f) <==> tags[|tags| - 1] == Tag(n, f) && AllArrived(tags[..|tags| - 1], n, f - 1)
  {
    var front := tags[..|tags| - 1];
    if tags[|tags| - 1] == Tag(n, f) && AllArrived(front, n, f - 1) {
      forall i | 0 <= i <= f
        ensures tags[|tags| - 1 - f + i] == Tag(n, i)
      {
        if i < f {
          assert front[|front| - 1 - (f - 1) + i] == Tag(n, i);
        }
      }
    }
    if AllArrived(tags, n, f) {
      assert tags[|tags| - 1 - f + f] == Tag(n, f);
      forall i | 0 <= i <= f - 1
        ensures front[|front| - 1 - (f - 1) + i] == Tag(n, i)
      {
        assert tags[|tags| - 1 - f + i] == Tag(n, i);
      }
    }
  }

  /** One packet moves the expected state to the expected state, and what comes
      out is what should. */
  ghost predicate GoodStep(stream: Stream, first: uint16, maxBytes: nat, tags: seq<Tag>,
                           result: (Assembly, Result<DepacketizedNAL>))
    requires WellFormed(stream) && Delivered(stream, tags) && tags != []
  {
    && result.0 == ExpectedState(stream, first, maxBytes, tags)
    && Correct(stream, maxBytes, tags, result.1)
  }

  lemma SingleStep(stream: Stream, first: uint16, maxBytes: nat, tags: seq<Tag>, a: Assembly)
    requires WellFormed(stream) && Delivered(stream, tags) && tags != []
    requires stream[tags[|tags| - 1].n].fragments == []
    ensures GoodStep(stream, first, maxBytes, tags, FeedTag(stream, first, maxBytes, tags[|tags| - 1], a))
  {
    var t := tags[|tags| - 1];
    assert AllArrived(tags, t.n, 0);
  }

  lemma FirstFragmentStep(stream: Stream, first: uint16, maxBytes: nat, tags: seq<Tag>, a: Assembly)
    requires WellFormed(stream) && Delivered(stream, tags) && tags != []
    requires stream[tags[|tags| - 1].n].fragments != [] && tags[|tags| - 1].f == 0
    ensures GoodStep(stream, first, maxBytes, tags, FeedTag(stream, first, maxBytes, tags[|tags| - 1], a))
  {
    var t := tags[|tags| - 1];
    FeedFragmentOf(a, maxBytes, stream, first, t);
    ReassembledPrefix(stream[t.n], 0);
    assert AllArrived(tags, t.n, 0);
  }

  lemma ContinuationStep(stream: Stream, first: uint16, maxBytes: nat, tags: seq<Tag>)
    requires WellFormed(stream) && Delivered(stream, tags) && tags != []
    requires stream[tags[|tags| - 1].n].fragments != [] && tags[|tags| - 1].f > 0
    ensures Delivered(stream, tags[..|tags| - 1])
    ensures GoodStep(stream, first, maxBytes, tags,
                     FeedTag(stream, first, maxBytes, tags[|tags| - 1],
                             ExpectedState(stream, first, maxBytes, tags[..|tags| - 1])))
  {
    var front := tags[..|tags| - 1];
    var t := tags[|tags| - 1];
    DeliveredPrefix(stream, tags, |tags| - 1);
    assert tags == front + [t];
    ContinuationOutcome(stream, first, maxBytes, front, t);
    OutcomeIsGood(stream, first, maxBytes, tags);
  }

  /** What a fragment that is not the first does. */
  ghost function Outcome(stream: Stream, first: uint16, maxBytes: nat, front: seq<Tag>, t: Tag)
    : (Assembly, Result<DepacketizedNAL>)
    requires WellFormed(stream) && InStream(stream, t) && t.f > 0 && stream[t.n].fragments != []
  {
    var s := stream[t.n];
    if !AllArrived(front, t.n, t.f - 1) || |Reassembled(s, t.f)| > Limit(maxBytes) then
      (Idle, Err(DemuxFailed))
    else if t.f == s.Count() - 1 then
      (Idle, Ok(DepacketizedNAL(AnnexB(Reassembled(s, t.f)), s.timestamp, s.marker)))
    else
      (Active(NextSeq(SequenceNumber(stream, first, t)), (FuIndicator(s.nal[0]), s.nal[1]), NalType(s.nal[0]),
              s.timestamp, Reassembled(s, t.f)),
       Ok(DepacketizedNAL([], s.timestamp, false)))
  }

  lemma OutcomeIsGood(stream: Stream, first: uint16, maxBytes: nat, tags: seq<Tag>)
    requires WellFormed(stream) && Delivered(stream, tags) && tags != []
    requires stream[tags[|tags| - 1].n].fragments != [] && tags[|tags| - 1].f > 0
    ensures GoodStep(stream, first, maxBytes, tags,
                     Outcome(stream, first, maxBytes, tags[..|tags| - 1], tags[|tags| - 1]))
  {
    var t := tags[|tags| - 1];
    ReassembledPrefix(stream[t.n], t.f);
    AllArrivedStep(tags, t.n, t.f);
  }

  lemma ContinuationOutcome(stream: Stream, first: uint16, maxBytes: nat, front: seq<Tag>, t: Tag)
    requires WellFormed(stream) && Delivered(stream, front + [t]) && InStream(stream, t)
    requires Delivered(stream, front) && t.f > 0 && stream[t.n].fragments != []
    ensures FeedTag(stream, first, maxBytes, t, ExpectedState(stream, first, maxBytes, front)) ==
            Outcome(stream, first, maxBytes, front, t)
  {
    var s := stream[t.n];
    FeedFragmentOf(ExpectedState(stream, first, maxBytes, front), maxBytes, stream, first, t);
    ContinuationAccepted(stream, first, maxBytes, front, t);
    ReassembledPrefix(s, t.f);
  }

  /** The receiver's reaction to packet `t` of the stream. */
  ghost function FeedTag(stream: Stream, first: uint16, maxBytes: nat, t: Tag, a: Assembly)
    : (Assembly, Result<DepacketizedNAL>)
    requires WellFormed(stream) && InStream(stream, t)
  {
    var p := PacketOf(stream, first, t);
    var (next, r) := FeedH265(a, maxBytes, p.sequenceNumber, p.timestamp, p.payload);
    (next, if r.Ok? then Ok(DepacketizedNAL(r.value, p.timestamp, p.marker)) else Err(r.code))
  }

  lemma ExpectedStep(stream: Stream, first: uint16, maxBytes: nat, tags: seq<Tag>, ssrc: seq<byte>)
    requires WellFormed(stream) && Delivered(stream, tags) && tags != [] && |ssrc| == 4
    ensures Delivered(stream, tags[..|tags| - 1])
    ensures GoodStep(stream, first, maxBytes, tags,
                     FeedRTP(ExpectedState(stream, first, maxBytes, tags[..|tags| - 1]), maxBytes,
                             Encode(PacketOf(stream, first, tags[|tags| - 1]), ssrc)))
  {
    var t := tags[|tags| - 1];
    DeliveredPrefix(stream, tags, |tags| - 1);
    var before := ExpectedState(stream, first, maxBytes, tags[..|tags| - 1]);
    FeedSent(before, maxBytes, stream, first, t, ssrc);
    if stream[t.n].fragments == [] {
      SingleStep(stream, first, maxBytes, tags, before);
    } else if t.f == 0 {
      FirstFragmentStep(stream, first, maxBytes, tags, before);
    } else {
      ContinuationStep(stream, first, maxBytes, tags);
    }
  }

  /** A fragment that is not the first is accepted exactly when the fragments
      before it all arrived, right before it, and the NAL still fits. */
  lemma ContinuationAccepted(stream: Stream, first: uint16, maxBytes: nat, front: seq<Tag>, t: Tag)
    requires WellFormed(stream) && Delivered(stream, front + [t]) && InStream(stream, t)
    requires Delivered(stream, front) && t.f > 0 && stream[t.n].fragments != []
    ensures var a := ExpectedState(stream, first, maxBytes, front);
            var s := stream[t.n];
            && (a.Active? && SequenceNumber(stream, first, t) == a.nextSeq <==>
                AllArrived(front, t.n, t.f - 1) && |Reassembled(s, t.f - 1)| <= Limit(maxBytes))
            && (AllArrived(front, t.n, t.f - 1) && |Reassembled(s, t.f - 1)| <= Limit(maxBytes) ==>
                  a == Active(SequenceNumber(stream, first, t), (FuIndicator(s.nal[0]), s.nal[1]),
                              NalType(s.nal[0]), s.timestamp, Reassembled(s, t.f - 1)))
  {
    if front != [] {
      var u := front[|front| - 1];
      var tags := front + [t];
      assert tags[|tags| - 1] == t && tags[|tags| - 2] == u;
      if u.f + 1 < stream[u.n].Count() {
        AwaitedPacket(stream, first, u, t);
      }
      if AllArrived(front, t.n, t.f - 1) {
        assert front[|front| - 1 - (t.f - 1) + (t.f - 1)] == Tag(t.n, t.f - 1);
      }
    }
  }

  ghost predicate Correct(stream: Stream, maxBytes: nat, tags: seq<Tag>, r: Result<DepacketizedNAL>)
    requires WellFormed(stream) && Delivered(stream, tags) && tags != []
  {
    var s := stream[tags[|tags| - 1].n];
    r == if Emits(stream, maxBytes, tags) then Ok(DepacketizedNAL(StartCoded(s.nal), s.timestamp, s.marker))
         else if Assembling(stream, maxBytes, tags) then Ok(DepacketizedNAL([], s.timestamp, false))
         else Err(DemuxFailed)
  }

  lemma ReceiveLast(a: Assembly, stream: Stream, first: uint16, maxBytes: nat, tags: seq<Tag>, ssrc: seq<byte>)
    requires WellFormed(stream) && |ssrc| == 4 && tags != []
    requires forall i | 0 <= i < |tags| :: InStream(stream, tags[i])
    ensures Receive(a, maxBytes, Arrived(stream, first, tags, ssrc)) ==
            FeedRTP(Receive(a, maxBytes, Arrived(stream, first, tags[..|tags| - 1], ssrc)), maxBytes,
                    Encode(PacketOf(stream, first, tags[|tags| - 1]), ssrc)).0
  {
    var packets := Arrived(stream, first, tags, ssrc);
    assert packets[..|packets| - 1] == Arrived(stream, first, tags[..|tags| - 1], ssrc);
  }

  // ----- main results -------------------------------------------------------------------------

  lemma {:induction false} ReceiveExpected(stream: Stream, first: uint16, maxBytes: nat, tags: seq<Tag>,
                                           ssrc: seq<byte>)
    requires WellFormed(stream) && Delivered(stream, tags) && |ssrc| == 4
    ensures Receive(Idle, maxBytes, Arrived(stream, first, tags, ssrc)) == ExpectedState(stream, first, maxBytes, tags)
    decreases |tags|
  {
    if tags != [] {
      var front := tags[..|tags| - 1];
      DeliveredPrefix(stream, tags, |tags| - 1);
      hide FeedRTP, ExpectedState, PacketOf;
      ReceiveLast(Idle, stream, first, maxBytes, tags, ssrc);
      ReceiveExpected(stream, first, maxBytes, front, ssrc);
      ExpectedNext(stream, first, maxBytes, tags, ssrc);
    }
  }

  lemma ExpectedNext(stream: Stream, first: uint16, maxBytes: nat, tags: seq<Tag>, ssrc: seq<byte>)
    requires WellFormed(stream) && Delivered(stream, tags) && tags != [] && |ssrc| == 4
    requires Delivered(stream, tags[..|tags| - 1])
    ensures FeedRTP(ExpectedState(stream, first, maxBytes, tags[..|tags| - 1]), maxBytes,
                    Encode(PacketOf(stream, first, tags[|tags| - 1]), ssrc)).0
            == ExpectedState(stream, first, maxBytes, tags)
  {
    ExpectedStep(stream, first, maxBytes, tags, ssrc);
  }

  /** Loss safety and completeness, for every stream, first sequence number,
      size limit and loss pattern: the packet arriving as number `i` makes the
      depacketizer emit a NAL exactly when it is the last packet of a NAL all of
      whose packets arrived and which fits; and then the output is that very NAL
      with its own timestamp and marker.  Any other packet is either absorbed
      into the NAL being assembled or answered with an error. */
  lemma LossSafe(stream: Stream, first: uint16, maxBytes: nat, tags: seq<Tag>, ssrc: seq<byte>, i: nat)
    requires WellFormed(stream) && Delivered(stream, tags) && |ssrc| == 4 && i < |tags|
    ensures Delivered(stream, tags[..i + 1])
    ensures var packets := Arrived(stream, first, tags, ssrc);
            Correct(stream, maxBytes, tags[..i + 1],
                    FeedRTP(Receive(Idle, maxBytes, packets[..i]), maxBytes, packets[i]).1)
  {
    var packets := Arrived(stream, first, tags, ssrc);
    var seen := tags[..i + 1];
    DeliveredPrefix(stream, tags, i + 1);
    DeliveredPrefix(stream, tags, i);
    assert packets[..i] == Arrived(stream, first, tags[..i], ssrc);
    assert seen[..|seen| - 1] == tags[..i];
    ReceiveExpected(stream, first, maxBytes, tags[..i], ssrc);
    ExpectedStep(stream, first, maxBytes, seen, ssrc);
  }

  /** Emissions keep the sending order and never repeat a NAL. */
  lemma EmittedInOrder(stream: Stream, maxBytes: nat, tags: seq<Tag>, i: nat, j: nat)
    requires WellFormed(stream) && Delivered(stream, tags) && i < j < |tags|
    requires Delivered(stream, tags[..i + 1]) && Emits(stream, maxBytes, tags[..i + 1])
    requires Delivered(stream, tags[..j + 1]) && Emits(stream, maxBytes, tags[..j + 1])
    ensures tags[i].n < tags[j].n
  {
    PositionsIncrease(stream, tags, i, j);
    if tags[j].n < tags[i].n {
      OffsetStep(stream, tags[j].n, tags[i].n);
    }
  }

  lemma {:induction false} PositionsIncrease(stream: Stream, tags: seq<Tag>, i: nat, j: nat)
    requires Delivered(stream, tags) && i < j < |tags|
    ensures Position(stream, tags[i]) < Position(stream, tags[j])
    decreases j - i
  {
    if i + 1 < j {
      PositionsIncrease(stream, tags, i + 1, j);
    }
  }

  // ----- round trip from any state --------------------------------------------------------------

  ghost function Send(s: SentNAL, first: uint16, ssrc: seq<byte>): seq<seq<byte>>
    requires s.WellFormed() && |ssrc| == 4
  {
    seq(s.Count(), f requires 0 <= f < s.Count() => Encode(PacketOf([s], first, Tag(0, f)), ssrc))
  }

  lemma {:induction false} StartForgets(a: Assembly, maxBytes: nat, s: SentNAL, first: uint16, ssrc: seq<byte>, i: nat)
    requires s.WellFormed() && |ssrc| == 4 && 0 < i <= s.Count()
    ensures Receive(a, maxBytes, Send(s, first, ssrc)[..i]) == Receive(Idle, maxBytes, Send(s, first, ssrc)[..i])
  {
    var packets := Send(s, first, ssrc)[..i];
    assert packets[..i - 1] == Send(s, first, ssrc)[..i - 1];
    if i == 1 {
      assert packets[..0] == [];
      StartIgnoresState(a, maxBytes, s, first, ssrc);
    } else {
      StartForgets(a, maxBytes, s, first, ssrc, i - 1);
    }
  }

  lemma StartIgnoresState(a: Assembly, maxBytes: nat, s: SentNAL, first: uint16, ssrc: seq<byte>)
    requires s.WellFormed() && |ssrc| == 4
    ensures FeedRTP(a, maxBytes, Send(s, first, ssrc)[0]) == FeedRTP(Idle, maxBytes, Send(s, first, ssrc)[0])
  {
    FeedSent(a, maxBytes, [s], first, Tag(0, 0), ssrc);
    FeedSent(Idle, maxBytes, [s], first, Tag(0, 0), ssrc);
    if s.fragments != [] {
      FeedFragmentOf(a, maxBytes, [s], first, Tag(0, 0));
      FeedFragmentOf(Idle, maxBytes, [s], first, Tag(0, 0));
    }
  }

  /** Any NAL that fits, cut in any way, numbered from any sequence number and fed
      to a depacketizer in any state: nothing comes out before the last packet,
      no packet is refused, and the last one yields the start code and the NAL. */
  lemma RoundTrip(a: Assembly, maxBytes: nat, s: SentNAL, first: uint16, ssrc: seq<byte>, i: nat)
    requires s.WellFormed() && |ssrc| == 4 && Fits(maxBytes, |s.nal|) && i < s.Count()
    ensures FeedRTP(Receive(a, maxBytes, Send(s, first, ssrc)[..i]), maxBytes, Send(s, first, ssrc)[i]).1
            == Ok(if i < s.Count() - 1 then DepacketizedNAL([], s.timestamp, false)
                  else DepacketizedNAL(StartCoded(s.nal), s.timestamp, s.marker))
    ensures Receive(a, maxBytes, Send(s, first, ssrc)) == Idle
  {
    RoundTripFromIdle(maxBytes, s, first, ssrc, i);
    if i == 0 {
      assert Send(s, first, ssrc)[..0] == [];
      StartIgnoresState(a, maxBytes, s, first, ssrc);
    } else {
      StartForgets(a, maxBytes, s, first, ssrc, i);
    }
    StartForgets(a, maxBytes, s, first, ssrc, s.Count());
    assert Send(s, first, ssrc)[..s.Count()] == Send(s, first, ssrc);
  }

  ghost function Tags(s: SentNAL): seq<Tag> {
    seq(s.Count(), f requires 0 <= f < s.Count() => Tag(0, f))
  }

  lemma RoundTripFromIdle(maxBytes: nat, s: SentNAL, first: uint16, ssrc: seq<byte>, i: nat)
    requires s.WellFormed() && |ssrc| == 4 && Fits(maxBytes, |s.nal|) && i < s.Count()
    ensures FeedRTP(Receive(Idle, maxBytes, Send(s, first, ssrc)[..i]), maxBytes, Send(s, first, ssrc)[i]).1
            == Ok(if i < s.Count() - 1 then DepacketizedNAL([], s.timestamp, false)
                  else DepacketizedNAL(StartCoded(s.nal), s.timestamp, s.marker))
    ensures Receive(Idle, maxBytes, Send(s, first, ssrc)) == Idle
  {
    var tags := Tags(s);
    AllSentArrive(s);
    assert Send(s, first, ssrc) == Arrived([s], first, tags, ssrc);
    ReceiveExpected([s], first, maxBytes, tags, ssrc);
    LossSafe([s], first, maxBytes, tags, ssrc, i);
    var before := Receive(Idle, maxBytes, Send(s, first, ssrc)[..i]);
    CorrectWhenAllSent(maxBytes, s, i, FeedRTP(before, maxBytes, Send(s, first, ssrc)[i]).1);
  }

  lemma CorrectWhenAllSent(maxBytes: nat, s: SentNAL, i: nat, r: Result<DepacketizedNAL>)
    requires s.WellFormed() && Fits(maxBytes, |s.nal|) && i < s.Count()
    requires Delivered([s], Tags(s)[..i + 1]) && Correct([s], maxBytes, Tags(s)[..i + 1], r)
    ensures r == Ok(if i < s.Count() - 1 then DepacketizedNAL([], s.timestamp, false)
                    else DepacketizedNAL(StartCoded(s.nal), s.timestamp, s.marker))
  {
    AllSentArriveUpTo(s, i);
    if s.fragments != [] {
      ReassembledPrefix(s, i);
    }
    var tags := Tags(s)[..i + 1];
    assert tags[|tags| - 1] == Tag(0, i);
  }

  lemma AllSentArrive(s: SentNAL)
    requires s.WellFormed()
    ensures Delivered([s], Tags(s))
  {
  }

  lemma AllSentArriveUpTo(s: SentNAL, i: nat)
    requires s.WellFormed() && i < s.Count()
    ensures AllArrived(Tags(s)[..i + 1], 0, i)
  {
  }

  // ----- any input at all --------------------------------------------------------------------------

  /** Whatever bytes a new depacketizer is fed, well-formed or not: its buffer stays in
      order, and whatever it emits is a NAL within the limit. */
  lemma {:induction false} AnyInputShape(maxBytes: nat, packets: seq<seq<byte>>, packet: seq<byte>)
    ensures var a := Receive(Idle, maxBytes, packets);
            var r := FeedRTP(a, maxBytes, packet).1;
            && (a.Active? ==> ValidBuffer(a, maxBytes))
            && (r.Ok? && r.value.nal != [] ==> IsNAL(r.value.nal, maxBytes))
    decreases |packets|
  {
    hide FeedRTP, ValidBuffer, IsNAL;
    if packets != [] {
      AnyInputShape(maxBytes, packets[..|packets| - 1], packets[|packets| - 1]);
      EmittedShape(Receive(Idle, maxBytes, packets[..|packets| - 1]), maxBytes, packets[|packets| - 1]);
    }
    EmittedShape(Receive(Idle, maxBytes, packets), maxBytes, packet);
  }

  // ----- what is accepted at all -----------------------------------------------------------------

  /** The receiver cannot tell a fragment from the one it awaits: the NAL it assembles
      has the same header bytes and timestamp, and the fragment still fits. */
  predicate LooksAwaited(a: Assembly, maxBytes: nat, s: SentNAL, f: nat)
    requires |s.nal| >= 2 && f < |s.fragments|
  {
    && a.Active? && a.indicator == (FuIndicator(s.nal[0]), s.nal[1]) && a.fuType == TypeBits(s.nal[0])
    && a.timestamp == s.timestamp && Fits(maxBytes, |a.buffer| + |s.fragments[f]|)
  }

  /** Packet `f` of a NAL is welcome: it is a whole NAL that fits, or a first fragment that
      fits, or looks like the fragment awaited and has its number. */
  ghost predicate Welcome(a: Assembly, maxBytes: nat, s: SentNAL, f: nat, sequence: uint16)
    requires s.WellFormed() && f < s.Count()
  {
    if s.fragments == [] then Fits(maxBytes, |s.nal|)
    else if f == 0 then Fits(maxBytes, 2 + |s.fragments[0]|)
    else LooksAwaited(a, maxBytes, s, f) && sequence == a.nextSeq
  }

  ghost predicate SentAs(s: SentNAL, f: nat, timestamp: uint32, payload: seq<byte>) {
    s.WellFormed() && f < s.Count() && s.timestamp == timestamp && s.Payload(f) == payload
  }

  lemma WelcomeIsFed(a: Assembly, maxBytes: nat, sequence: uint16, timestamp: uint32, payload: seq<byte>,
                     s: SentNAL, f: nat)
    requires SentAs(s, f, timestamp, payload)
    ensures FeedH265(a, maxBytes, sequence, timestamp, payload).1.Ok? <==> Welcome(a, maxBytes, s, f, sequence)
  {
    if s.fragments != [] {
      var first := (sequence - f) % 0x1_0000;
      SameNumber(sequence, f);
      assert PacketOf([s], first, Tag(0, f)).sequenceNumber == sequence;
      FeedFragmentOf(a, maxBytes, [s], first, Tag(0, f));
      assert f == 0 ==> s.fragments[..1] == [s.fragments[0]] && Concat(s.fragments[..1][..0]) == [];
      hide FeedH265;
    }
  }

  lemma SameNumber(sequence: uint16, f: nat)
    ensures ((sequence - f) % 0x1_0000 + f) % 0x1_0000 == sequence
  {
  }

  /** Fragments that make `fragment` number `f` of them, first or last as wanted. */
  lemma AmongFragments(fragment: seq<byte>, start: bool, end: bool) returns (fragments: seq<seq<byte>>, f: nat)
    requires fragment != []
    ensures f < |fragments| && fragments[f] == fragment && [] !in fragments
    ensures (f == 0 <==> start) && (f == |fragments| - 1 <==> end)
  {
    f := if start then 0 else 1;
    fragments := (if start then [] else [[0]]) + [fragment] + if end then [] else [[0]];
  }

  lemma HeaderBits(indicator: byte, fuHeader: byte)
    requires NalType(indicator) == FU_TYPE
    ensures var header := (HeaderType(fuHeader) << 1) | (indicator & 0x81);
            && TypeBits(header) == HeaderType(fuHeader) && FuIndicator(header) == indicator
            && FuHeader(HeaderType(fuHeader), StartBit(fuHeader), EndBit(fuHeader)) == fuHeader
  {
  }

  lemma FragmentIsSent(timestamp: uint32, payload: seq<byte>) returns (s: SentNAL, f: nat)
    requires |payload| >= 4 && NalType(payload[0]) == FU_TYPE && !Reserved(HeaderType(payload[2]))
    ensures SentAs(s, f, timestamp, payload)
  {
    var fragments;
    fragments, f := AmongFragments(payload[3..], StartBit(payload[2]), EndBit(payload[2]));
    HeaderBits(payload[0], payload[2]);
    var header := [(HeaderType(payload[2]) << 1) | (payload[0] & 0x81), payload[1]];
    s := SentNAL(header + Concat(fragments), fragments, timestamp, false);
    assert s.nal[2..] == Concat(fragments);
    assert s.Payload(f) == payload;
  }

  lemma FedIsSent(a: Assembly, maxBytes: nat, sequence: uint16, timestamp: uint32, payload: seq<byte>)
    returns (s: SentNAL, f: nat)
    requires a.Active? ==> !Reserved(a.fuType)
    requires FeedH265(a, maxBytes, sequence, timestamp, payload).1.Ok?
    ensures SentAs(s, f, timestamp, payload)
  {
    if NalType(payload[0]) == FU_TYPE {
      s, f := FragmentIsSent(timestamp, payload);
    } else {
      s, f := SentNAL(payload, [], timestamp, false), 0;
    }
  }

  lemma {:induction false} AssembledType(maxBytes: nat, packets: seq<seq<byte>>)
    ensures var a := Receive(Idle, maxBytes, packets);
            a.Active? ==> !Reserved(a.fuType)
    decreases |packets|
  {
    if packets != [] {
      AssembledType(maxBytes, packets[..|packets| - 1]);
    }
  }

  /** Whatever bytes came before, well-formed or not: bytes are accepted if and only if they
      are the encoding of a packet of some NAL that is welcome. */
  lemma AcceptedIsSent(maxBytes: nat, packets: seq<seq<byte>>, packet: seq<byte>)
    ensures var a := Receive(Idle, maxBytes, packets);
            FeedRTP(a, maxBytes, packet).1.Ok? <==>
            exists p: Packet, ssrc: seq<byte>, s: SentNAL, f: nat | |ssrc| == 4 && p.payload != [] ::
              && packet == Encode(p, ssrc) && SentAs(s, f, p.timestamp, p.payload)
              && Welcome(a, maxBytes, s, f, p.sequenceNumber)
  {
    var a := Receive(Idle, maxBytes, packets);
    AssembledType(maxBytes, packets);
    EncodeParse(packet);
    hide Receive, FeedH265, Encode, Welcome;
    if FeedRTP(a, maxBytes, packet).1.Ok? {
      var p := ParseRTP(packet).value;
      var s, f := FedIsSent(a, maxBytes, p.sequenceNumber, p.timestamp, p.payload);
      WelcomeIsFed(a, maxBytes, p.sequenceNumber, p.timestamp, p.payload, s, f);
      assert packet == Encode(p, packet[8..12]) && p.payload != [];
    }
    forall p: Packet, ssrc: seq<byte>, s: SentNAL, f: nat | |ssrc| == 4 && p.payload != [] && packet == Encode(p, ssrc)
        && SentAs(s, f, p.timestamp, p.payload) && Welcome(a, maxBytes, s, f, p.sequenceNumber)
      ensures FeedRTP(a, maxBytes, packet).1.Ok?
    {
      ParseEncode(p, ssrc);
      WelcomeIsFed(a, maxBytes, p.sequenceNumber, p.timestamp, p.payload, s, f);
    }
  }

  // ----- which losses splice ---------------------------------------------------------------------

  /** Any receiver takes a fragment that is not a first one exactly when the number is
      the awaited one and the fragment looks it. */
  lemma ContinuationFed(a: Assembly, maxBytes: nat, stream: Stream, first: uint16, t: Tag, ssrc: seq<byte>)
    requires WellFormed(stream) && InStream(stream, t) && |ssrc| == 4
    requires stream[t.n].fragments != [] && t.f > 0
    ensures var s := stream[t.n];
            var end := t.f == s.Count() - 1;
            FeedRTP(a, maxBytes, Encode(PacketOf(stream, first, t), ssrc)).1 ==
            if LooksAwaited(a, maxBytes, s, t.f) && SequenceNumber(stream, first, t) == a.nextSeq then
              Ok(DepacketizedNAL(if end then StartCoded(a.buffer + s.fragments[t.f]) else [], s.timestamp,
                                 s.marker && end))
            else Err(DemuxFailed)
  {
    FeedSent(a, maxBytes, stream, first, t, ssrc);
    FeedFragmentOf(a, maxBytes, stream, first, t);
  }

  /** After any losses that do not wrap, and then any number of losses in a row: a
      fragment that is not the first of its NAL is taken for the awaited one exactly
      when it looks like it and the losses are a multiple of 65536.  With none lost
      it is the awaited one; otherwise it is another, and its data is appended. */
  lemma TakenForAwaited(stream: Stream, first: uint16, maxBytes: nat, tags: seq<Tag>, t: Tag, ssrc: seq<byte>)
    requires WellFormed(stream) && Delivered(stream, tags) && tags != [] && InStream(stream, t) && |ssrc| == 4
    requires Position(stream, tags[|tags| - 1]) < Position(stream, t)
    requires stream[t.n].fragments != [] && t.f > 0
    ensures var u := tags[|tags| - 1];
            var s, lost := stream[t.n], Position(stream, t) - Position(stream, u) - 1;
            var a := Receive(Idle, maxBytes, Arrived(stream, first, tags, ssrc));
            var r := FeedRTP(a, maxBytes, Encode(PacketOf(stream, first, t), ssrc)).1;
            && (r.Ok? <==> LooksAwaited(a, maxBytes, s, t.f) && lost % 0x1_0000 == 0)
            && (r.Ok? ==> (lost == 0 <==> t == Tag(u.n, u.f + 1)))
            && (r.Ok? && t.f == s.Count() - 1 ==> r.value.nal == StartCoded(a.buffer + s.fragments[t.f]))
  {
    hide FeedRTP, Receive, LooksAwaited, PacketOf;
    var u := tags[|tags| - 1];
    var a := Receive(Idle, maxBytes, Arrived(stream, first, tags, ssrc));
    ReceiveExpected(stream, first, maxBytes, tags, ssrc);
    ContinuationFed(a, maxBytes, stream, first, t, ssrc);
    OnlyActiveAwaits(a, maxBytes, stream[t.n], t.f);
    if a.Active? {
      AwaitedAfter(stream, first, maxBytes, tags, t);
    }
  }

  lemma OnlyActiveAwaits(a: Assembly, maxBytes: nat, s: SentNAL, f: nat)
    requires |s.nal| >= 2 && f < |s.fragments|
    ensures LooksAwaited(a, maxBytes, s, f) ==> a.Active?
  {
  }

  /** While the receiver is assembling, a later packet has the awaited number exactly
      after a multiple of 65536 losses. */
  lemma AwaitedAfter(stream: Stream, first: uint16, maxBytes: nat, tags: seq<Tag>, t: Tag)
    requires WellFormed(stream) && Delivered(stream, tags) && tags != [] && InStream(stream, t)
    requires Position(stream, tags[|tags| - 1]) < Position(stream, t)
    requires ExpectedState(stream, first, maxBytes, tags).Active?
    ensures var u := tags[|tags| - 1];
            var lost := Position(stream, t) - Position(stream, u) - 1;
            && (SequenceNumber(stream, first, t) == ExpectedState(stream, first, maxBytes, tags).nextSeq <==>
                lost % 0x1_0000 == 0)
            && (lost == 0 <==> t == Tag(u.n, u.f + 1))
  {
    hide AllArrived, Reassembled, Offset;
    var u := tags[|tags| - 1];
    ModularSuccessor(first + Position(stream, u), first + Position(stream, t));
    if Position(stream, t) == Position(stream, Tag(u.n, u.f + 1)) {
      PositionInjective(stream, t, Tag(u.n, u.f + 1));
    }
  }

  function TwoFragments(x: byte, y: byte): SentNAL {
    SentNAL([2, 1, x, y], [[x], [y]], 0, true)
  }

  const FILLER := SentNAL([2, 1], [], 0, true)

  function SpliceStream(fillers: nat): Stream {
    [TwoFragments(10, 11)] + seq(fillers, _ => FILLER) + [TwoFragments(20, 21)]
  }

  lemma {:induction false} SpliceOffset(fillers: nat, k: nat)
    requires 1 <= k <= fillers + 1
    ensures Offset(SpliceStream(fillers), k) == k + 1
  {
    var stream := SpliceStream(fillers);
    if k == 1 {
      assert stream[0] == TwoFragments(10, 11);
      assert Offset(stream, 0) == 0;
    } else {
      SpliceOffset(fillers, k - 1);
      assert stream[k - 1] == FILLER;
    }
  }

  lemma TwoFragmentsWellFormed(x: byte, y: byte)
    ensures TwoFragments(x, y).WellFormed()
    ensures Reassembled(TwoFragments(x, y), 0) == [2, 1, x]
  {
    assert [[x], [y]][..1] == [[x]];
    assert [[x]][..0] == [];
    assert Concat([[x]]) == [x];
    assert Concat([[x], [y]]) == [x, y];
  }

  lemma SpliceStreamWellFormed(fillers: nat)
    ensures WellFormed(SpliceStream(fillers))
    ensures InStream(SpliceStream(fillers), Tag(0, 0)) && Position(SpliceStream(fillers), Tag(0, 0)) == 0
    ensures InStream(SpliceStream(fillers), Tag(fillers + 1, 1))
    ensures Position(SpliceStream(fillers), Tag(fillers + 1, 1)) == fillers + 3
  {
    var stream := SpliceStream(fillers);
    TwoFragmentsWellFormed(10, 11);
    TwoFragmentsWellFormed(20, 21);
    assert stream[0] == TwoFragments(10, 11) && stream[fillers + 1] == TwoFragments(20, 21);
    assert FILLER.WellFormed();
    assert forall n | 0 < n <= fillers :: stream[n] == FILLER;
    SpliceOffset(fillers, fillers + 1);
  }

  lemma SpliceFirst(fillers: nat, ssrc: seq<byte>)
    requires |ssrc| == 4 && WellFormed(SpliceStream(fillers))
    ensures Receive(Idle, DEFAULT_MAX_FU_BYTES, [Encode(PacketOf(SpliceStream(fillers), 0, Tag(0, 0)), ssrc)])
            == Active(1, (FuIndicator(2), 1), NalType(2), 0, [2, 1, 10])
  {
    var stream, t := SpliceStream(fillers), Tag(0, 0);
    assert stream[0] == TwoFragments(10, 11);
    FeedSent(Idle, DEFAULT_MAX_FU_BYTES, stream, 0, t, ssrc);
    FeedFragmentOf(Idle, DEFAULT_MAX_FU_BYTES, stream, 0, t);
    TwoFragmentsWellFormed(10, 11);
    ReceiveOne(Idle, DEFAULT_MAX_FU_BYTES, Encode(PacketOf(stream, 0, t), ssrc));
  }

  lemma ReceiveOne(a: Assembly, maxBytes: nat, packet: seq<byte>)
    ensures Receive(a, maxBytes, [packet]) == FeedRTP(a, maxBytes, packet).0
  {
    assert [packet][..0] == [];
  }

  lemma SpliceSecond(fillers: nat, ssrc: seq<byte>)
    requires |ssrc| == 4 && WellFormed(SpliceStream(fillers)) && (fillers + 2) % 0x1_0000 == 0
    requires InStream(SpliceStream(fillers), Tag(fillers + 1, 1))
    requires Position(SpliceStream(fillers), Tag(fillers + 1, 1)) == fillers + 3
    ensures FeedRTP(Active(1, (FuIndicator(2), 1), NalType(2), 0, [2, 1, 10]), DEFAULT_MAX_FU_BYTES,
                    Encode(PacketOf(SpliceStream(fillers), 0, Tag(fillers + 1, 1)), ssrc)).1
            == Ok(DepacketizedNAL(StartCoded([2, 1, 10, 21]), 0, true))
  {
    var stream, u := SpliceStream(fillers), Tag(fillers + 1, 1);
    var a := Active(1, (FuIndicator(2), 1), NalType(2), 0, [2, 1, 10]);
    assert stream[fillers + 1] == TwoFragments(20, 21);
    assert SequenceNumber(stream, 0, u) == 1;
    hide FeedRTP, PacketOf, SequenceNumber, Position, FuIndicator, NalType;
    ContinuationFed(a, DEFAULT_MAX_FU_BYTES, stream, 0, u, ssrc);
    assert [2 as byte, 1, 10] + [21] == [2, 1, 10, 21];
  }

  /** Some stream, of which two packets arrive with `lost` packets lost in between,
      makes the receiver emit a NAL that nobody sent. */
  ghost predicate Splices(lost: nat, ssrc: seq<byte>)
    requires |ssrc| == 4
  {
    exists stream, t, u :: SplicedBy(stream, t, u, lost, ssrc)
  }

  ghost predicate SplicedBy(stream: Stream, t: Tag, u: Tag, lost: nat, ssrc: seq<byte>)
    requires |ssrc| == 4
  {
    && WellFormed(stream) && InStream(stream, t) && InStream(stream, u)
    && Position(stream, u) == Position(stream, t) + lost + 1
    && var a := Receive(Idle, DEFAULT_MAX_FU_BYTES, [Encode(PacketOf(stream, 0, t), ssrc)]);
       var r := FeedRTP(a, DEFAULT_MAX_FU_BYTES, Encode(PacketOf(stream, 0, u), ssrc)).1;
       && r.Ok? && r.value.nal != []
       && forall n | 0 <= n < |stream| :: StartCoded(stream[n].nal) != r.value.nal
  }

  /** For every positive multiple of 65536 there is such a stream: the number comes
      round, and halves of two different NALs leave as one. */
  lemma SpliceAfterWrap(lost: nat, ssrc: seq<byte>) returns (stream: Stream, t: Tag, u: Tag)
    requires |ssrc| == 4 && Wraps(lost)
    ensures SplicedBy(stream, t, u, lost, ssrc)
  {
    var fillers := lost - 2;
    stream, t, u := SpliceStream(fillers), Tag(0, 0), Tag(fillers + 1, 1);
    SpliceStreamWellFormed(fillers);
    SpliceFirst(fillers, ssrc);
    SpliceSecond(fillers, ssrc);
    NobodySent(fillers);
  }

  /** The losses that `Delivered` excludes are exactly those that can splice. */
  lemma SplicesExactlyWhenWrapping(lost: nat, ssrc: seq<byte>)
    requires |ssrc| == 4
    ensures Splices(lost, ssrc) <==> Wraps(lost)
  {
    if Wraps(lost) {
      var stream, t, u := SpliceAfterWrap(lost, ssrc);
    } else {
      forall stream, t, u ensures !SplicedBy(stream, t, u, lost, ssrc) {
        if SplicedBy(stream, t, u, lost, ssrc) {
          NoSplice(stream, t, u, lost, ssrc);
        }
      }
    }
  }

  lemma NoSplice(stream: Stream, t: Tag, u: Tag, lost: nat, ssrc: seq<byte>)
    requires |ssrc| == 4 && !Wraps(lost) && WellFormed(stream) && InStream(stream, t) && InStream(stream, u)
    requires Position(stream, u) == Position(stream, t) + lost + 1
    ensures !SplicedBy(stream, t, u, lost, ssrc)
  {
    hide FeedRTP, Receive, PacketOf, Position, Emits, Assembling;
    var tags := [t, u];
    LossSafe(stream, 0, DEFAULT_MAX_FU_BYTES, tags, ssrc, 1);
    assert tags[..2] == tags && tags[1] == u;
    var packets := Arrived(stream, 0, tags, ssrc);
    assert packets[..1] == [Encode(PacketOf(stream, 0, t), ssrc)];
  }

  lemma NobodySent(fillers: nat)
    ensures forall n | 0 <= n < |SpliceStream(fillers)| ::
              StartCoded(SpliceStream(fillers)[n].nal) != StartCoded([2, 1, 10, 21])
  {
    var stream, spliced := SpliceStream(fillers), StartCoded([2, 1, 10, 21]);
    assert spliced[6] == 10 && spliced[7] == 21;
    forall n | 0 <= n < |stream|
      ensures StartCoded(stream[n].nal) != spliced
    {
      var sent := StartCoded(stream[n].nal);
      if n == 0 {
        assert sent[7] == 11;
      } else if n == fillers + 1 {
        assert sent[6] == 20;
      } else {
        assert |sent| == 6;
      }
    }
  }
}
