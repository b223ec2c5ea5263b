/** Without losses nothing is lost: a capture sees every NAL unit of the stream and decides
    as on the sender's own units. */
module WholeStream {
  import opened Bytes
  import opened Rtp
  import opened Depacketizers
  import opened LossSafety
  import opened Capture
  import opened AccessUnits
  import opened SentMedia

  /** The packets of the stream in sending order, from the first one on, none left out. */
  ghost predicate InSequence(stream: Stream, tags: seq<Tag>) {
    forall i | 0 <= i < |tags| :: InStream(stream, tags[i]) && Position(stream, tags[i]) == i
  }

  ghost predicate NothingLost(stream: Stream, tags: seq<Tag>) {
    InSequence(stream, tags) && |tags| == Offset(stream, |stream|)
  }

  /** Every NAL is within the limit of a new depacketizer. */
  ghost predicate WithinLimit(stream: Stream) {
    forall n | 0 <= n < |stream| :: |stream[n].nal| <= DEFAULT_MAX_FU_BYTES
  }

  function UnitOf(s: SentNAL): Unit {
    DepacketizedNAL(StartCoded(s.nal), s.timestamp, s.marker)
  }

  /** The units of the first `n` NALs as sent. */
  function UnitsOf(stream: Stream, n: nat): (units: seq<Unit>)
    requires n <= |stream|
    ensures |units| == n
  {
    seq(n, i requires 0 <= i < n => UnitOf(stream[i]))
  }

  /** How many NALs are complete once these packets have arrived. */
  ghost function Complete(stream: Stream, tags: seq<Tag>): nat
    requires InSequence(stream, tags)
  {
    if tags == [] then 0
    else
      var t := tags[|tags| - 1];
      if t.f == stream[t.n].Count() - 1 then t.n + 1 else t.n
  }

  lemma InSequenceIsDelivered(stream: Stream, tags: seq<Tag>)
    requires InSequence(stream, tags)
    ensures Delivered(stream, tags)
  {
  }

  lemma AllBeforeArrived(stream: Stream, tags: seq<Tag>)
    requires InSequence(stream, tags) && tags != []
    ensures AllArrived(tags, tags[|tags| - 1].n, tags[|tags| - 1].f)
  {
    var t := tags[|tags| - 1];
    assert t.f < |tags|;
    forall i | 0 <= i <= t.f ensures tags[|tags| - 1 - t.f + i] == Tag(t.n, i) {
      PositionInjective(stream, tags[|tags| - 1 - t.f + i], Tag(t.n, i));
    }
  }

  /** Each packet completes its NAL or is absorbed. */
  lemma CompletesOrAbsorbed(stream: Stream, tags: seq<Tag>)
    requires WellFormed(stream) && WithinLimit(stream) && InSequence(stream, tags) && tags != []
    ensures Delivered(stream, tags)
    ensures var t := tags[|tags| - 1];
            if t.f == stream[t.n].Count() - 1 then Emits(stream, DEFAULT_MAX_FU_BYTES, tags)
            else Assembling(stream, DEFAULT_MAX_FU_BYTES, tags)
    ensures var t := tags[|tags| - 1];
            Emits(stream, DEFAULT_MAX_FU_BYTES, tags) ==> t.f == stream[t.n].Count() - 1
  {
    hide AllArrived, Reassembled, Position, Offset;
    InSequenceIsDelivered(stream, tags);
    AllBeforeArrived(stream, tags);
    var t := tags[|tags| - 1];
    if t.f < stream[t.n].Count() - 1 {
      ReassembledPrefix(stream[t.n], t.f);
    }
  }

  /** Before the first packet of a NAL, all NALs before it are complete. */
  lemma CompleteBefore(stream: Stream, tags: seq<Tag>)
    requires InSequence(stream, tags) && tags != []
    ensures InSequence(stream, tags[..|tags| - 1])
    ensures Complete(stream, tags[..|tags| - 1]) == tags[|tags| - 1].n
  {
    var front, t := tags[..|tags| - 1], tags[|tags| - 1];
    if front == [] {
      assert Offset(stream, t.n) == 0;
    } else {
      var u := front[|front| - 1];
      if t.f > 0 {
        PositionInjective(stream, u, Tag(t.n, t.f - 1));
      } else {
        assert t.n > 0;
        PositionInjective(stream, u, Tag(t.n - 1, stream[t.n - 1].Count() - 1));
      }
    }
  }

  lemma OneMoreUnit(stream: Stream, n: nat)
    requires n < |stream|
    ensures UnitsOf(stream, n + 1) == UnitsOf(stream, n) + [UnitOf(stream[n])]
  {
    hide UnitOf;
  }

  /** The last packet is not refused. */
  lemma LastIsTaken(stream: Stream, first: uint16, tags: seq<Tag>, ssrc: seq<byte>)
    requires WellFormed(stream) && WithinLimit(stream) && InSequence(stream, tags) && tags != [] && |ssrc| == 4
    requires Delivered(stream, tags[..|tags| - 1])
    ensures FeedRTP(ExpectedState(stream, first, DEFAULT_MAX_FU_BYTES, tags[..|tags| - 1]), DEFAULT_MAX_FU_BYTES,
                    Encode(PacketOf(stream, first, tags[|tags| - 1]), ssrc)).1.Ok?
  {
    CompletesOrAbsorbed(stream, tags);
    hide FeedRTP, ExpectedState, Emits, Encode, PacketOf, Assembling, InSequence, WithinLimit;
    ExpectedStep(stream, first, DEFAULT_MAX_FU_BYTES, tags, ssrc);
  }

  lemma DemuxStep(messages: seq<Read>, packet: seq<byte>)
    requires messages != [] && messages[|messages| - 1] == Message(true, packet)
    requires var d := Demux(messages[..|messages| - 1]);
             d.Demuxed? && FeedRTP(d.assembly, DEFAULT_MAX_FU_BYTES, packet).1.Ok?
    ensures Demux(messages).Demuxed?
  {
    hide FeedRTP;
  }

  lemma DemuxesOn(stream: Stream, first: uint16, tags: seq<Tag>, ssrc: seq<byte>)
    requires WellFormed(stream) && WithinLimit(stream) && InSequence(stream, tags) && tags != [] && |ssrc| == 4
    requires Delivered(stream, tags[..|tags| - 1])
    requires var d := Demux(Inbox(stream, first, tags[..|tags| - 1], ssrc));
             d.Demuxed? && d.assembly == ExpectedState(stream, first, DEFAULT_MAX_FU_BYTES, tags[..|tags| - 1])
    ensures Demux(Inbox(stream, first, tags, ssrc)).Demuxed?
  {
    hide FeedRTP, ExpectedState, Encode, PacketOf, Inbox, Demux, Position, WithinLimit;
    InboxPrefix(stream, first, tags, ssrc, |tags| - 1);
    LastIsTaken(stream, first, tags, ssrc);
    DemuxStep(Inbox(stream, first, tags, ssrc), Encode(PacketOf(stream, first, tags[|tags| - 1]), ssrc));
  }

  /** While nothing is lost, the units seen are exactly the NALs whose last packet has
      arrived. */
  lemma {:induction false} CompleteUnits(stream: Stream, first: uint16, tags: seq<Tag>, ssrc: seq<byte>)
    requires WellFormed(stream) && WithinLimit(stream) && InSequence(stream, tags) && |ssrc| == 4
    ensures Complete(stream, tags) <= |stream| && Delivered(stream, tags)
    ensures Demux(Inbox(stream, first, tags, ssrc)) ==
            Demuxed(ExpectedState(stream, first, DEFAULT_MAX_FU_BYTES, tags), UnitsOf(stream, Complete(stream, tags)))
    decreases |tags|
  {
    InSequenceIsDelivered(stream, tags);
    if tags != [] {
      var front, t := tags[..|tags| - 1], tags[|tags| - 1];
      CompleteBefore(stream, tags);
      CompletesOrAbsorbed(stream, tags);
      hide ExpectedState, Emits, Assembling, Inbox, Demux, UnitsOf, Position, Delivered;
      CompleteUnits(stream, first, front, ssrc);
      DemuxesOn(stream, first, tags, ssrc);
      DemuxLast(stream, first, tags, ssrc);
      OneMoreUnit(stream, t.n);
    }
  }

  lemma CompleteAtTheEnd(stream: Stream, tags: seq<Tag>)
    requires NothingLost(stream, tags)
    ensures Complete(stream, tags) == |stream|
  {
    if stream != [] {
      var last := Tag(|stream| - 1, stream[|stream| - 1].Count() - 1);
      assert Position(stream, last) == |tags| - 1;
      PositionInjective(stream, tags[|tags| - 1], last);
    } else {
      assert tags == [];
    }
  }

  /** What the units decide: the first verdict, or none. */
  lemma {:induction false} UnitsDecide(us: seq<Unit>, n: nat, outcome: Outcome)
    requires n <= |us| && outcome != Waiting
    ensures RunUnits(us, n) == Stopped(outcome) <==> exists k | 0 <= k < n :: FirstVerdict(us, k, outcome)
    ensures RunUnits(us, n).Going? <==> forall k | 0 <= k < n :: Verdict(us, k) == Waiting
  {
    hide Verdict, FeedUnit;
    if n > 0 {
      UnitsDecide(us, n - 1, outcome);
      if RunUnits(us, n - 1).Going? {
        RunMeansVerdict(us, n);
        assert FirstVerdict(us, n - 1, outcome) <==> Verdict(us, n - 1) == outcome;
      } else {
        assert RunUnits(us, n) == RunUnits(us, n - 1);
        assert !FirstVerdict(us, n - 1, outcome);
      }
    }
  }

  /** When nothing is lost, a capture of the whole stream ends exactly at the first unit of
      the sender's own NALs that has a verdict: it hands over the first decodable access
      unit sent, unless a unit too large comes first. */
  lemma CaptureOfWholeStream(stream: Stream, first: uint16, tags: seq<Tag>, ssrc: seq<byte>, outcome: Outcome)
    requires WellFormed(stream) && WithinLimit(stream) && NothingLost(stream, tags) && |ssrc| == 4
    requires outcome != Waiting
    ensures Run(Inbox(stream, first, tags, ssrc)).1 == Stopped(outcome) <==>
            exists k | 0 <= k < |stream| :: FirstVerdict(UnitsOf(stream, |stream|), k, outcome)
  {
    hide Run, Demux, Inbox, FirstVerdict, UnitsOf, RunUnits, ExpectedState;
    CompleteUnits(stream, first, tags, ssrc);
    CompleteAtTheEnd(stream, tags);
    var us := UnitsOf(stream, |stream|);
    RunIsRunUnits(Inbox(stream, first, tags, ssrc));
    UnitsDecide(us, |us|, outcome);
  }
}
