/** What the capture loop means: access units as maximal groups of NAL units,
    without the loop's running state. */
module AccessUnits {
  import opened Bytes
  import opened Rtp
  import opened Depacketizers
  import opened Capture

  // ----- kinds of NAL units, by the numbers of RFC 7798 and H.265 ------------------------

  /** The type of a unit that starts with a start code, from bits 1 to 6 of the byte behind
      it; 255 for what is too short or starts otherwise. */
  function Kind(u: Unit): byte {
    if |u.nal| >= 6 && u.nal[..4] == [0, 0, 0, 1] then TypeBits(u.nal[4]) else 255
  }

  /** A video, sequence or picture parameter set. */
  predicate IsSet(u: Unit) {
    32 <= Kind(u) <= 34
  }

  /** An intra random access point. */
  predicate IsKey(u: Unit) {
    16 <= Kind(u) <= 21
  }

  /** The loop's own classification agrees. */
  lemma KindAgrees(u: Unit)
    ensures H265NALType(u.nal) == Kind(u)
    ensures IsParameterSet(u) <==> IsSet(u)
    ensures SetIndex(u) == if Kind(u) == 32 then 0 else if Kind(u) == 33 then 1 else if Kind(u) == 34 then 2 else -1
    ensures IsKeyFrame(u.nal) <==> IsKey(u)
  {
  }

  // ----- groups of NAL units ------------------------------------------------------------

  /** The media units (all but parameter sets) from `g` to `k` share one timestamp,
      and none before `k` carries the marker. */
  ghost predicate Together(us: seq<Unit>, g: nat, k: nat)
    requires g <= k < |us|
  {
    forall i | g <= i <= k && !IsSet(us[i]) ::
      us[i].timestamp == us[k].timestamp && (i < k ==> !us[i].marker)
  }

  /** `g` is as early as a group that ends with unit `k` can start. */
  ghost predicate MaximalGroup(us: seq<Unit>, g: nat, k: nat)
    requires k < |us|
  {
    g <= k && Together(us, g, k) && forall h | 0 <= h < g :: !Together(us, h, k)
  }

  ghost function GroupStart(us: seq<Unit>, k: nat): (g: nat)
    requires k < |us|
    ensures MaximalGroup(us, g, k)
  {
    GroupStartFrom(us, k, k)
  }

  ghost function GroupStartFrom(us: seq<Unit>, g: nat, k: nat): (h: nat)
    requires g <= k < |us| && Together(us, g, k)
    ensures h <= g && MaximalGroup(us, h, k)
    decreases g
  {
    if g == 0 then 0
    else if Together(us, g - 1, k) then GroupStartFrom(us, g - 1, k)
    else g
  }

  /** The media units among `us[g..n]`, one after the other. */
  function Collect(us: seq<Unit>, g: nat, n: nat): seq<byte>
    requires g <= n <= |us|
    decreases n
  {
    if g == n then [] else Collect(us, g, n - 1) + if IsSet(us[n - 1]) then [] else us[n - 1].nal
  }

  ghost predicate HasKeyFrame(us: seq<Unit>, g: nat, n: nat)
    requires g <= n <= |us|
  {
    exists i | g <= i < n :: IsKey(us[i])
  }

  /** The latest parameter set of the given kind among the first `n` units. */
  function Latest(us: seq<Unit>, n: nat, kind: byte): seq<byte>
    requires n <= |us|
  {
    if n == 0 then [] else if Kind(us[n - 1]) == kind then us[n - 1].nal else Latest(us, n - 1, kind)
  }

  function LatestSets(us: seq<Unit>, n: nat): ParameterSets
    requires n <= |us|
  {
    [Latest(us, n, 32), Latest(us, n, 33), Latest(us, n, 34)]
  }

  /** Unit `k` completes a decodable access unit. */
  ghost predicate Decodable(us: seq<Unit>, k: nat)
    requires k < |us|
  {
    && !IsSet(us[k]) && us[k].marker && HasKeyFrame(us, GroupStart(us, k), k + 1)
    && Latest(us, k, 32) != [] && Latest(us, k, 33) != [] && Latest(us, k, 34) != []
  }

  ghost function Media(us: seq<Unit>, k: nat): seq<byte>
    requires k < |us|
  {
    Latest(us, k, 32) + Latest(us, k, 33) + Latest(us, k, 34) + Collect(us, GroupStart(us, k), k + 1)
  }

  const EIGHT_MIB := 8 * 1024 * 1024

  ghost predicate TooLarge(us: seq<Unit>, k: nat)
    requires k < |us|
  {
    if IsSet(us[k]) then |us[k].nal| > EIGHT_MIB
    else
      || |Collect(us, GroupStart(us, k), k + 1)| > EIGHT_MIB
      || (Decodable(us, k) && |Media(us, k)| > EIGHT_MIB)
  }

  /** What unit `k` brings about when no earlier unit ended the capture. */
  ghost function Verdict(us: seq<Unit>, k: nat): Outcome
    requires k < |us|
  {
    if TooLarge(us, k) then Failed(DemuxFailed)
    else if Decodable(us, k) then Decode(Media(us, k))
    else Waiting
  }

  // ----- the loop's state means the open group -----------------------------------------

  function RunUnits(us: seq<Unit>, n: nat): Progress
    requires n <= |us|
  {
    if n == 0 then Going(NO_SETS, NO_AU)
    else
      var p := RunUnits(us, n - 1);
      if p.Stopped? then p else FeedUnit(p.sets, p.au, us[n - 1])
  }

  function LastMedia(us: seq<Unit>, n: nat): (m: int)
    requires n <= |us|
    ensures -1 <= m < n && (m >= 0 ==> !IsSet(us[m]))
    ensures forall i | m < i < n :: IsSet(us[i])
  {
    if n == 0 then -1 else if !IsSet(us[n - 1]) then n - 1 else LastMedia(us, n - 1)
  }

  ghost function OpenAU(us: seq<Unit>, n: nat): AU
    requires n <= |us|
  {
    var m := LastMedia(us, n);
    if m < 0 || us[m].marker then NO_AU
    else
      var g := GroupStart(us, m);
      AU(true, us[m].timestamp, HasKeyFrame(us, g, n), Collect(us, g, n))
  }

  lemma {:induction false} CollectParameterSets(us: seq<Unit>, g: nat, m: nat, n: nat)
    requires g <= m <= n <= |us| && forall i | m <= i < n :: IsSet(us[i])
    ensures Collect(us, g, n) == Collect(us, g, m)
    ensures HasKeyFrame(us, g, n) == HasKeyFrame(us, g, m)
  {
    if m < n {
      CollectParameterSets(us, g, m, n - 1);
      assert !IsKey(us[n - 1]);
    }
  }

  /** A media unit either starts a new group or extends the open one. */
  lemma GroupExtends(us: seq<Unit>, n: nat)
    requires n < |us| && !IsSet(us[n])
    ensures var m := LastMedia(us, n);
            GroupStart(us, n) ==
            if m < 0 || us[m].marker || us[m].timestamp != us[n].timestamp then m + 1 else GroupStart(us, m)
  {
    var m, g := LastMedia(us, n), GroupStart(us, n);
    if m < 0 || us[m].marker || us[m].timestamp != us[n].timestamp {
      assert Together(us, m + 1, n);
    } else {
      assert forall h | 0 <= h <= m :: Together(us, h, n) <==> Together(us, h, m);
      assert Together(us, m, n);
      assert Together(us, GroupStart(us, m), n);
      assert g <= m;
    }
  }

  lemma OpenAUStep(us: seq<Unit>, n: nat)
    requires n < |us| && !IsSet(us[n])
    ensures var au, g := OpenAU(us, n), GroupStart(us, n);
            var open := if !au.active || au.timestamp == us[n].timestamp then au else NO_AU;
            && open.bytes + us[n].nal == Collect(us, g, n + 1)
            && ((open.hasKeyFrame || IsKey(us[n])) == HasKeyFrame(us, g, n + 1))
  {
    var m, g := LastMedia(us, n), GroupStart(us, n);
    GroupExtends(us, n);
    if m < 0 || us[m].marker || us[m].timestamp != us[n].timestamp {
      CollectParameterSets(us, g, g, n);
    }
    HasKeyFrameStep(us, g, n);
  }

  lemma HasKeyFrameStep(us: seq<Unit>, g: nat, n: nat)
    requires g <= n < |us|
    ensures HasKeyFrame(us, g, n + 1) <==> HasKeyFrame(us, g, n) || IsKey(us[n])
  {
    if HasKeyFrame(us, g, n) {
      var i :| g <= i < n && IsKey(us[i]);
      assert g <= i < n + 1;
    }
  }

  /** As long as no verdict has been reached, the loop holds the latest parameter
      sets and the open group; the first verdict is its result. */
  lemma {:induction false} RunMeansVerdict(us: seq<Unit>, n: nat)
    requires n <= |us| && forall k | 0 <= k < n - 1 :: Verdict(us, k) == Waiting
    ensures RunUnits(us, n) ==
            if n == 0 || Verdict(us, n - 1) == Waiting then Going(LatestSets(us, n), OpenAU(us, n))
            else Stopped(Verdict(us, n - 1))
  {
    if n == 0 {
      assert LatestSets(us, 0) == NO_SETS;
    } else {
      RunMeansVerdict(us, n - 1);
      var k, u := n - 1, us[n - 1];
      if IsSet(u) {
        assert LatestSets(us, n) == LatestSets(us, k)[SetIndex(u) := u.nal];
        OpenAUSurvives(us, n);
      } else {
        OpenAUStep(us, k);
        assert LatestSets(us, n) == LatestSets(us, k);
        assert Media(us, k) == Combined(LatestSets(us, k), Collect(us, GroupStart(us, k), n));
      }
    }
  }

  lemma OpenAUSurvives(us: seq<Unit>, n: nat)
    requires 0 < n <= |us| && IsSet(us[n - 1])
    ensures OpenAU(us, n) == OpenAU(us, n - 1)
  {
    var m := LastMedia(us, n);
    if m >= 0 {
      CollectParameterSets(us, GroupStart(us, m), n - 1, n);
    }
  }

  // ----- from messages to units ----------------------------------------------------------

  datatype Demuxed = Broken | Demuxed(assembly: Assembly, units: seq<Unit>)

  /** The units completed by the messages; `Broken` once a read failed, was not
      binary or could not be depacketized. */
  function Demux(messages: seq<Read>): Demuxed {
    if messages == [] then Demuxed(Idle, [])
    else
      var front, last := Demux(messages[..|messages| - 1]), messages[|messages| - 1];
      if front.Broken? || !last.Message? || !last.binary then Broken
      else
        var (a, r) := FeedRTP(front.assembly, DEFAULT_MAX_FU_BYTES, last.data);
        if r.Err? then Broken
        else Demuxed(a, if r.value.nal == [] then front.units else front.units + [r.value])
  }

  lemma {:induction false} RunUnitsPrefix(us: seq<Unit>, more: seq<Unit>, n: nat)
    requires n <= |us|
    ensures RunUnits(us + more, n) == RunUnits(us, n)
  {
    if n > 0 {
      RunUnitsPrefix(us, more, n - 1);
      assert (us + more)[n - 1] == us[n - 1];
    }
  }

  lemma {:induction false} RunIsRunUnits(messages: seq<Read>)
    requires Demux(messages).Demuxed?
    ensures var us := Demux(messages).units;
            && Run(messages).1 == RunUnits(us, |us|)
            && (Run(messages).1.Going? ==> Run(messages).0 == Demux(messages).assembly)
    decreases |messages|
  {
    hide FeedUnit;
    if messages != [] {
      var front := messages[..|messages| - 1];
      RunIsRunUnits(front);
      var before, us := Demux(front).units, Demux(messages).units;
      if us != before {
        var u := us[|before|];
        assert us == before + [u];
        RunUnitsPrefix(before, [u], |before|);
        var p := Run(front).1;
        assert RunUnits(us, |before|) == p;
        if p.Going? {
          assert u.nal != [];
          assert FeedRead(Run(front).0, p.sets, p.au, messages[|messages| - 1]).1 == FeedUnit(p.sets, p.au, u);
        }
      }
    }
  }

  /** `k` is the first unit with a verdict. */
  ghost predicate FirstVerdict(us: seq<Unit>, k: nat, outcome: Outcome) {
    k < |us| && Verdict(us, k) == outcome && outcome != Waiting && forall j | 0 <= j < k :: Verdict(us, j) == Waiting
  }

  /** A capture hands `media` to the decoder exactly when some of the messages,
      all well received, end with the unit that reaches the first verdict, and that
      verdict is to decode `media`. */
  lemma CaptureMeaning(messages: seq<Read>, media: seq<byte>)
    ensures OutcomeOf(Run(messages).1) == Decode(media) <==>
            exists n | 0 <= n <= |messages| ::
              && Demux(messages[..n]).Demuxed?
              && var us := Demux(messages[..n]).units;
              us != [] && FirstVerdict(us, |us| - 1, Decode(media))
  {
    hide Run, Demux, FirstVerdict;
    if OutcomeOf(Run(messages).1) == Decode(media) {
      var n := DecodesAfter(messages, media);
    }
    forall n | 0 <= n <= |messages| && Demux(messages[..n]).Demuxed? && Demux(messages[..n]).units != []
               && FirstVerdict(Demux(messages[..n]).units, |Demux(messages[..n]).units| - 1, Decode(media))
      ensures OutcomeOf(Run(messages).1) == Decode(media)
    {
      StopsAtFirstVerdict(messages[..n], Decode(media));
      StopsFor(messages, n);
    }
  }

  lemma StopsAtFirstVerdict(messages: seq<Read>, outcome: Outcome)
    requires Demux(messages).Demuxed? && Demux(messages).units != []
    requires FirstVerdict(Demux(messages).units, |Demux(messages).units| - 1, outcome)
    ensures Run(messages).1 == Stopped(outcome)
  {
    var us := Demux(messages).units;
    RunIsRunUnits(messages);
    RunMeansVerdict(us, |us|);
  }

  lemma {:induction false} DecodesAfter(messages: seq<Read>, media: seq<byte>) returns (n: nat)
    requires OutcomeOf(Run(messages).1) == Decode(media)
    ensures n <= |messages| && Demux(messages[..n]).Demuxed? && Demux(messages[..n]).units != []
    ensures FirstVerdict(Demux(messages[..n]).units, |Demux(messages[..n]).units| - 1, Decode(media))
    decreases |messages|
  {
    hide FeedRTP, FeedUnit, Verdict;
    var front := messages[..|messages| - 1];
    if Run(front).1.Stopped? {
      n := DecodesAfter(front, media);
      assert front[..n] == messages[..n];
    } else {
      n := |messages|;
      assert messages[..n] == messages;
      GoingIsDemuxed(front);
      RunIsRunUnits(front);
      RunIsRunUnits(messages);
      var before, us := Demux(front).units, Demux(messages).units;
      NoVerdictWhileGoing(before, us);
      RunMeansVerdict(us, |us|);
    }
  }

  lemma {:induction false} GoingIsDemuxed(messages: seq<Read>)
    requires Run(messages).1.Going?
    ensures Demux(messages).Demuxed? && Demux(messages).assembly == Run(messages).0
    decreases |messages|
  {
    if messages != [] {
      GoingIsDemuxed(messages[..|messages| - 1]);
    }
  }

  lemma {:induction false} GoingBefore(us: seq<Unit>, k: nat, n: nat)
    requires k <= n <= |us| && RunUnits(us, n).Going?
    ensures RunUnits(us, k).Going?
  {
    if k < n {
      GoingBefore(us, k, n - 1);
    }
  }

  lemma NoVerdictWhileGoing(before: seq<Unit>, us: seq<Unit>)
    requires before <= us && |us| <= |before| + 1 && RunUnits(before, |before|).Going?
    ensures RunUnits(us, |before|).Going?
    ensures forall k | 0 <= k < |before| :: Verdict(us, k) == Waiting
  {
    assert us == before + us[|before|..];
    RunUnitsPrefix(before, us[|before|..], |before|);
    WaitingWhileGoing(us, |before|);
  }

  lemma {:induction false} WaitingWhileGoing(us: seq<Unit>, n: nat)
    requires n <= |us| && RunUnits(us, n).Going?
    ensures forall k | 0 <= k < n :: Verdict(us, k) == Waiting
  {
    if n > 0 {
      GoingBefore(us, n - 1, n);
      WaitingWhileGoing(us, n - 1);
      RunMeansVerdict(us, n);
    }
  }

  // ----- how a capture fails, and when it goes on -----------------------------------------

  /** The messages are well received and no unit among them has a verdict. */
  ghost predicate Undecided(messages: seq<Read>) {
    var d := Demux(messages);
    d.Demuxed? && forall k | 0 <= k < |d.units| :: Verdict(d.units, k) == Waiting
  }

  /** Message `n` is the first to end the capture, with this code: the deadline with the
      media timeout, a failed read with the connection failure, and with the demux
      failure a message that is no binary one or is refused, or a unit too large. */
  ghost predicate FailsAt(messages: seq<Read>, n: nat, code: ErrorCode) {
    && n < |messages| && Undecided(messages[..n])
    && match messages[n]
       case DeadlineExceeded => code == MediaTimeout
       case ReadFailed => code == WSSConnectFailed
       case Message(_, _) =>
         && code == DemuxFailed
         && (Demux(messages[..n + 1]).Broken? || CompletesTooLarge(Demux(messages[..n]).units, messages[..n + 1]))
  }

  /** The last message completes one more unit, and with it more than 8 MiB. */
  ghost predicate CompletesTooLarge(before: seq<Unit>, messages: seq<Read>) {
    && Demux(messages).Demuxed? && |Demux(messages).units| == |before| + 1
    && TooLarge(Demux(messages).units, |before|)
  }

  lemma UndecidedIsGoing(messages: seq<Read>)
    ensures Run(messages).1.Going? <==> Undecided(messages)
  {
    hide Run, Demux, Verdict;
    if Run(messages).1.Going? {
      GoingIsDemuxed(messages);
      RunIsRunUnits(messages);
      WaitingWhileGoing(Demux(messages).units, |Demux(messages).units|);
    }
    if Undecided(messages) {
      RunIsRunUnits(messages);
      RunMeansVerdict(Demux(messages).units, |Demux(messages).units|);
    }
  }

  /** What a message brings about that is not well received. */
  lemma BrokenFails(messages: seq<Read>)
    requires messages != [] && Run(messages[..|messages| - 1]).1.Going? && Demux(messages).Broken?
    ensures Run(messages).1 == Stopped(Failed(match messages[|messages| - 1]
                                              case DeadlineExceeded => MediaTimeout
                                              case ReadFailed => WSSConnectFailed
                                              case Message(_, _) => DemuxFailed))
  {
    var front, last := messages[..|messages| - 1], messages[|messages| - 1];
    GoingIsDemuxed(front);
    if last.Message? {
      RefusedIsDemuxFailed(Run(front).0, DEFAULT_MAX_FU_BYTES, last.data);
    }
    hide FeedRTP, FeedUnit;
  }

  lemma UnitsGrow(messages: seq<Read>)
    requires messages != [] && Demux(messages).Demuxed?
    ensures var before := Demux(messages[..|messages| - 1]);
            && before.Demuxed? && before.units <= Demux(messages).units && |Demux(messages).units| <= |before.units| + 1
            && messages[|messages| - 1].Message?
  {
    hide FeedRTP;
  }

  /** What one more message brings about that is well received. */
  lemma ReceivedDecides(messages: seq<Read>, code: ErrorCode)
    requires messages != [] && Run(messages[..|messages| - 1]).1.Going? && Demux(messages).Demuxed?
    ensures Demux(messages[..|messages| - 1]).Demuxed?
    ensures Run(messages).1 == Stopped(Failed(code)) <==>
            code == DemuxFailed && CompletesTooLarge(Demux(messages[..|messages| - 1]).units, messages)
  {
    var front := messages[..|messages| - 1];
    UnitsGrow(messages);
    var before, us := Demux(front).units, Demux(messages).units;
    GoingIsDemuxed(front);
    RunIsRunUnits(front);
    RunIsRunUnits(messages);
    hide Run, Demux, TooLarge, Decodable, FeedUnit;
    if |us| > |before| {
      NoVerdictWhileGoing(before, us);
      RunMeansVerdict(us, |us|);
    } else {
      assert us == before;
    }
  }

  lemma FailsWithLast(messages: seq<Read>, code: ErrorCode)
    requires messages != [] && Run(messages[..|messages| - 1]).1.Going?
    ensures Run(messages).1 == Stopped(Failed(code)) <==> FailsAt(messages, |messages| - 1, code)
  {
    hide Run, Demux, Undecided, CompletesTooLarge;
    assert messages[..|messages| - 1 + 1] == messages;
    UndecidedIsGoing(messages[..|messages| - 1]);
    if Demux(messages).Broken? {
      BrokenFails(messages);
      BrokenIsNotTooLarge(messages);
    } else {
      UnitsGrow(messages);
      ReceivedDecides(messages, code);
    }
  }

  lemma BrokenIsNotTooLarge(messages: seq<Read>)
    requires Demux(messages).Broken?
    ensures forall us :: !CompletesTooLarge(us, messages)
  {
  }

  /** A capture fails with a code exactly when some message is the first to end it, with
      that code. */
  lemma FailureMeaning(messages: seq<Read>, code: ErrorCode)
    ensures OutcomeOf(Run(messages).1) == Failed(code) <==>
            exists n | 0 <= n < |messages| :: FailsAt(messages, n, code)
  {
    hide Run, FailsAt;
    if OutcomeOf(Run(messages).1) == Failed(code) {
      var n := StopsAfter(messages);
      assert messages[..n + 1][..n] == messages[..n];
      FailsWithLast(messages[..n + 1], code);
      SameFailure(messages, n, code);
    }
    if n :| 0 <= n < |messages| && FailsAt(messages, n, code) {
      SameFailure(messages, n, code);
      FailsAfterGoing(messages, n, code);
      FailsWithLast(messages[..n + 1], code);
      StopsFor(messages, n + 1);
    }
  }

  lemma SameFailure(messages: seq<Read>, n: nat, code: ErrorCode)
    requires n < |messages|
    ensures messages[..n + 1][..n] == messages[..n]
    ensures FailsAt(messages[..n + 1], n, code) <==> FailsAt(messages, n, code)
  {
    assert messages[..n + 1][..n] == messages[..n];
    assert messages[..n + 1][..n + 1] == messages[..n + 1];
    hide Demux, Undecided, CompletesTooLarge;
  }

  lemma FailsAfterGoing(messages: seq<Read>, n: nat, code: ErrorCode)
    requires FailsAt(messages, n, code)
    ensures Run(messages[..n]).1.Going?
  {
    UndecidedIsGoing(messages[..n]);
  }

  /** The message after which a stopped capture stopped. */
  lemma {:induction false} StopsAfter(messages: seq<Read>) returns (n: nat)
    requires Run(messages).1.Stopped?
    ensures n < |messages| && Run(messages[..n]).1.Going? && Run(messages[..n + 1]) == Run(messages)
    decreases |messages|
  {
    var front := messages[..|messages| - 1];
    if Run(front).1.Stopped? {
      n := StopsAfter(front);
      assert front[..n] == messages[..n] && front[..n + 1] == messages[..n + 1];
    } else {
      n := |messages| - 1;
      assert messages[..n + 1] == messages;
    }
  }

  /** It is still waiting exactly when all messages are well received without a verdict. */
  lemma WaitingMeaning(messages: seq<Read>)
    ensures OutcomeOf(Run(messages).1) == Waiting <==> Undecided(messages)
  {
    UndecidedIsGoing(messages);
    StoppedIsNotWaiting(messages);
    hide Run, Undecided;
  }

  lemma {:induction false} StoppedIsNotWaiting(messages: seq<Read>)
    ensures Run(messages).1 != Stopped(Waiting)
    decreases |messages|
  {
    if messages != [] {
      StoppedIsNotWaiting(messages[..|messages| - 1]);
    }
  }

  lemma {:induction false} LatestOfKind(us: seq<Unit>, n: nat, kind: byte) returns (i: nat)
    requires n <= |us| && Latest(us, n, kind) != []
    ensures i < n && Kind(us[i]) == kind && us[i].nal == Latest(us, n, kind)
    ensures forall j | i < j < n :: Kind(us[j]) != kind
  {
    if Kind(us[n - 1]) == kind {
      i := n - 1;
    } else {
      i := LatestOfKind(us, n - 1, kind);
    }
  }

  /** The media starts with the last video, sequence and picture parameter sets before unit `k`. */
  ghost predicate StartsWithSets(us: seq<Unit>, k: nat, media: seq<byte>, v: nat, s: nat, p: nat)
    requires k < |us|
  {
    && v < k && s < k && p < k
    && Kind(us[v]) == 32 && Kind(us[s]) == 33 && Kind(us[p]) == 34
    && us[v].nal + us[s].nal + us[p].nal <= media
    && forall j | 0 <= j < k ::
         (v < j ==> Kind(us[j]) != 32) && (s < j ==> Kind(us[j]) != 33) && (p < j ==> Kind(us[j]) != 34)
  }

  lemma SetsComeFirst(us: seq<Unit>, k: nat) returns (v: nat, s: nat, p: nat)
    requires k < |us| && Decodable(us, k)
    ensures StartsWithSets(us, k, Media(us, k), v, s, p)
  {
    hide Kind, GroupStart, Collect, Latest;
    v := LatestOfKind(us, k, 32);
    s := LatestOfKind(us, k, 33);
    p := LatestOfKind(us, k, 34);
  }

  /** Whatever is handed to the decoder stays within 8 MiB, starts with the three sets and
      ends with a group that has a key frame. */
  lemma DecodedWithinBounds(us: seq<Unit>, k: nat)
    requires k < |us| && Verdict(us, k).Decode?
    ensures 0 < |Verdict(us, k).media| <= 8 * 1024 * 1024
    ensures exists v, s, p :: StartsWithSets(us, k, Verdict(us, k).media, v, s, p)
    ensures exists g, i | 0 <= g <= i <= k :: MaximalGroup(us, g, k) && 16 <= Kind(us[i]) <= 21
  {
    var g := GroupStart(us, k);
    var i :| g <= i < k + 1 && IsKey(us[i]);
    var v, s, p := SetsComeFirst(us, k);
    hide Kind, StartsWithSets, Latest, Collect;
  }
}
