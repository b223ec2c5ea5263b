/** From the sender to the decoder: what a capture hands over, in terms of the NAL
    units that were sent. */
module SentMedia {
  import opened Bytes
  import opened Rtp
  import opened Depacketizers
  import opened LossSafety
  import opened Capture
  import opened AccessUnits

  /** The messages that carry the packets that arrive. */
  ghost function Inbox(stream: Stream, first: uint16, tags: seq<Tag>, ssrc: seq<byte>): (inbox: seq<Read>)
    requires WellFormed(stream) && |ssrc| == 4
    requires forall i | 0 <= i < |tags| :: InStream(stream, tags[i])
    ensures |inbox| == |tags|
  {
    var packets := Arrived(stream, first, tags, ssrc);
    seq(|packets|, i requires 0 <= i < |packets| => Message(true, packets[i]))
  }

  lemma InboxPrefix(stream: Stream, first: uint16, tags: seq<Tag>, ssrc: seq<byte>, n: nat)
    requires WellFormed(stream) && |ssrc| == 4 && n <= |tags|
    requires forall i | 0 <= i < |tags| :: InStream(stream, tags[i])
    ensures Inbox(stream, first, tags, ssrc)[..n] == Inbox(stream, first, tags[..n], ssrc)
    ensures n < |tags| ==>
              Inbox(stream, first, tags, ssrc)[n] == Message(true, Encode(PacketOf(stream, first, tags[n]), ssrc))
  {
  }

  /** `units` are the NALs of the stream at the increasing indices `sent`. */
  ghost predicate SentUnits(stream: Stream, sent: seq<nat>, units: seq<Unit>) {
    && |sent| == |units|
    && (forall i, j | 0 <= i && j == i + 1 < |sent| :: sent[i] < sent[j])
    && forall i | 0 <= i < |sent| ::
         && sent[i] < |stream|
         && units[i] == DepacketizedNAL(StartCoded(stream[sent[i]].nal), stream[sent[i]].timestamp,
                                        stream[sent[i]].marker)
  }

  ghost predicate UpToLast(stream: Stream, sent: seq<nat>, tags: seq<Tag>) {
    sent != [] ==>
      && tags != [] && InStream(stream, tags[|tags| - 1])
      && var t := tags[|tags| - 1];
      sent[|sent| - 1] < t.n || (sent[|sent| - 1] == t.n && t.f == stream[t.n].Count() - 1)
  }

  lemma {:induction false} UnitsAreSent(stream: Stream, first: uint16, tags: seq<Tag>, ssrc: seq<byte>)
    returns (sent: seq<nat>)
    requires WellFormed(stream) && Delivered(stream, tags) && |ssrc| == 4
    requires Demux(Inbox(stream, first, tags, ssrc)).Demuxed?
    ensures var d := Demux(Inbox(stream, first, tags, ssrc));
            && SentUnits(stream, sent, d.units)
            && d.assembly == ExpectedState(stream, first, DEFAULT_MAX_FU_BYTES, tags)
    ensures UpToLast(stream, sent, tags)
    decreases |tags|
  {
    hide FeedRTP, ExpectedState, SentUnits, UpToLast, Inbox;
    if tags == [] {
      sent := NothingSent(stream, first);
    } else {
      var front := tags[..|tags| - 1];
      DeliveredPrefix(stream, tags, |tags| - 1);
      InboxPrefix(stream, first, tags, ssrc, |tags| - 1);
      var before := UnitsAreSent(stream, first, front, ssrc);
      DemuxLast(stream, first, tags, ssrc);
      sent := SentStep(stream, tags, before, Demux(Inbox(stream, first, front, ssrc)).units);
    }
  }

  lemma NothingSent(stream: Stream, first: uint16) returns (sent: seq<nat>)
    requires WellFormed(stream)
    ensures SentUnits(stream, sent, []) && UpToLast(stream, sent, [])
    ensures ExpectedState(stream, first, DEFAULT_MAX_FU_BYTES, []) == Idle
  {
    sent := [];
  }

  lemma SentStep(stream: Stream, tags: seq<Tag>, before: seq<nat>, units: seq<Unit>) returns (sent: seq<nat>)
    requires WellFormed(stream) && Delivered(stream, tags) && tags != []
    requires SentUnits(stream, before, units) && UpToLast(stream, before, tags[..|tags| - 1])
    ensures SentUnits(stream, sent, UnitsAfter(stream, tags, units)) && UpToLast(stream, sent, tags)
  {
    hide Emits, SentUnits, UpToLast;
    var t := tags[|tags| - 1];
    StillUpToLast(stream, before, tags);
    sent := before;
    if Emits(stream, DEFAULT_MAX_FU_BYTES, tags) {
      EmitsAtTheEnd(stream, tags);
      OneMoreSent(stream, before, units, t.n);
      sent := before + [t.n];
      EndsWithLast(stream, sent, tags);
    }
  }

  lemma StillUpToLast(stream: Stream, before: seq<nat>, tags: seq<Tag>)
    requires Delivered(stream, tags) && tags != [] && UpToLast(stream, before, tags[..|tags| - 1])
    ensures UpToLast(stream, before, tags) && (before != [] ==> before[|before| - 1] < tags[|tags| - 1].n)
  {
    if before != [] {
      LaterNAL(stream, tags[|tags| - 2], tags[|tags| - 1]);
    }
  }

  lemma EndsWithLast(stream: Stream, sent: seq<nat>, tags: seq<Tag>)
    requires Delivered(stream, tags) && tags != [] && sent != [] && sent[|sent| - 1] == tags[|tags| - 1].n
    requires tags[|tags| - 1].f == stream[tags[|tags| - 1].n].Count() - 1
    ensures UpToLast(stream, sent, tags)
  {
  }

  lemma OneMoreSent(stream: Stream, before: seq<nat>, units: seq<Unit>, n: nat)
    requires SentUnits(stream, before, units) && n < |stream| && (before != [] ==> before[|before| - 1] < n)
    ensures SentUnits(stream, before + [n],
                      units + [DepacketizedNAL(StartCoded(stream[n].nal), stream[n].timestamp, stream[n].marker)])
  {
    hide StartCoded;
  }

  lemma EmitsAtTheEnd(stream: Stream, tags: seq<Tag>)
    requires WellFormed(stream) && Delivered(stream, tags) && tags != []
    requires Emits(stream, DEFAULT_MAX_FU_BYTES, tags)
    ensures tags[|tags| - 1].f == stream[tags[|tags| - 1].n].Count() - 1
  {
  }

  ghost function UnitsAfter(stream: Stream, tags: seq<Tag>, units: seq<Unit>): seq<Unit>
    requires WellFormed(stream) && Delivered(stream, tags) && tags != []
  {
    var s := stream[tags[|tags| - 1].n];
    if Emits(stream, DEFAULT_MAX_FU_BYTES, tags)
    then units + [DepacketizedNAL(StartCoded(s.nal), s.timestamp, s.marker)]
    else units
  }

  lemma DemuxLast(stream: Stream, first: uint16, tags: seq<Tag>, ssrc: seq<byte>)
    requires WellFormed(stream) && Delivered(stream, tags) && |ssrc| == 4 && tags != []
    requires Delivered(stream, tags[..|tags| - 1])
    requires Demux(Inbox(stream, first, tags, ssrc)).Demuxed?
    requires var d := Demux(Inbox(stream, first, tags[..|tags| - 1], ssrc));
             d.Demuxed? && d.assembly == ExpectedState(stream, first, DEFAULT_MAX_FU_BYTES, tags[..|tags| - 1])
    ensures Demux(Inbox(stream, first, tags, ssrc)) ==
            Demuxed(ExpectedState(stream, first, DEFAULT_MAX_FU_BYTES, tags),
                    UnitsAfter(stream, tags, Demux(Inbox(stream, first, tags[..|tags| - 1], ssrc)).units))
  {
    hide FeedRTP, ExpectedState, Emits, Encode, PacketOf, Assembling, Inbox, SequenceNumber;
    InboxPrefix(stream, first, tags, ssrc, |tags| - 1);
    ExpectedStep(stream, first, DEFAULT_MAX_FU_BYTES, tags, ssrc);
  }

  lemma LaterNAL(stream: Stream, t: Tag, u: Tag)
    requires InStream(stream, t) && InStream(stream, u) && Position(stream, t) < Position(stream, u)
    ensures t.n <= u.n && (t.n == u.n ==> t.f < u.f)
  {
    if u.n < t.n {
      OffsetStep(stream, u.n, t.n);
    }
  }

  /** Whichever packets the network loses (but no positive multiple of 65536 in a row),
      the media handed to the decoder is made of whole NAL units that were sent, in
      sending order: it is the first decodable access unit of the units that got
      through, behind the latest parameter sets among them. */
  lemma DecodedMediaWasSent(stream: Stream, first: uint16, tags: seq<Tag>, ssrc: seq<byte>, media: seq<byte>)
    returns (sent: seq<nat>, units: seq<Unit>)
    requires WellFormed(stream) && Delivered(stream, tags) && |ssrc| == 4
    requires OutcomeOf(Run(Inbox(stream, first, tags, ssrc)).1) == Decode(media)
    ensures SentUnits(stream, sent, units) && units != []
    ensures FirstVerdict(units, |units| - 1, Decode(media))
    ensures media == Media(units, |units| - 1)
  {
    hide Run, FeedRTP, Inbox, Demux, SentUnits, FirstVerdict, ExpectedState, UpToLast;
    var messages := Inbox(stream, first, tags, ssrc);
    var n := DecodesAfter(messages, media);
    DeliveredPrefix(stream, tags, n);
    InboxPrefix(stream, first, tags, ssrc, n);
    sent := UnitsAreSent(stream, first, tags[..n], ssrc);
    units := Demux(messages[..n]).units;
    VerdictIsMedia(units, media);
  }

  lemma VerdictIsMedia(units: seq<Unit>, media: seq<byte>)
    requires units != [] && FirstVerdict(units, |units| - 1, Decode(media))
    ensures media == Media(units, |units| - 1)
  {
  }
}
