/** The loop of `WebSocketJPEGCapture.Capture` up to the Annex B bytes handed to
    the decoder: depacketize, retain parameter sets, group NAL units into access
    units, stop at the first decodable one. */
module Capture {
  import opened Bytes
  import opened Rtp
  import opened Depacketizers

  const MAX_ANNEX_B_BYTES := 0x80_0000

  /** One `connection.Read`. */
  datatype Read =
    | Message(binary: bool, data: seq<byte>)
    | DeadlineExceeded
    | ReadFailed

  /** `Waiting` means that all the given messages were consumed without a result. */
  datatype Outcome = Waiting | Failed(code: ErrorCode) | Decode(media: seq<byte>)

  type Unit = DepacketizedNAL

  function H265NALType(nal: seq<byte>): byte {
    if |nal| < 6 || nal[..4] != START_CODE then 0xff else NalType(nal[4])
  }

  predicate IsKeyFrame(nal: seq<byte>) {
    16 <= H265NALType(nal) <= 21
  }

  /** 0, 1 and 2 for a video, sequence and picture parameter set; -1 otherwise. */
  function ParameterSetIndex(nalType: byte): (index: int)
    ensures -1 <= index < 3
  {
    if nalType == 32 then 0 else if nalType == 33 then 1 else if nalType == 34 then 2 else -1
  }

  function SetIndex(u: Unit): (index: int)
    ensures -1 <= index < 3
  {
    ParameterSetIndex(H265NALType(u.nal))
  }

  predicate IsParameterSet(u: Unit) {
    SetIndex(u) >= 0
  }

  // ----- specification of one read ------------------------------------------------------

  type ParameterSets = s: seq<seq<byte>> | |s| == 3 witness [[], [], []]

  const NO_SETS: ParameterSets := [[], [], []]

  datatype AU = AU(active: bool, timestamp: uint32, hasKeyFrame: bool, bytes: seq<byte>)

  const NO_AU := AU(false, 0, false, [])

  datatype Progress = Going(sets: ParameterSets, au: AU) | Stopped(outcome: Outcome)

  predicate HasAll(sets: ParameterSets) {
    sets[0] != [] && sets[1] != [] && sets[2] != []
  }

  function Combined(sets: ParameterSets, unitBytes: seq<byte>): seq<byte> {
    sets[0] + sets[1] + sets[2] + unitBytes
  }

  function FeedUnit(sets: ParameterSets, au: AU, u: Unit): Progress {
    var index := SetIndex(u);
    if index >= 0 then
      if |u.nal| > MAX_ANNEX_B_BYTES then Stopped(Failed(DemuxFailed)) else Going(sets[index := u.nal], au)
    else
      var open := if !au.active || au.timestamp == u.timestamp then au else NO_AU;
      if |u.nal| > MAX_ANNEX_B_BYTES - |open.bytes| then Stopped(Failed(DemuxFailed))
      else
        var grown := AU(true, u.timestamp, open.hasKeyFrame || IsKeyFrame(u.nal), open.bytes + u.nal);
        if !u.marker then Going(sets, grown)
        else if grown.hasKeyFrame && HasAll(sets) then
          var media := Combined(sets, grown.bytes);
          Stopped(if 0 < |media| <= MAX_ANNEX_B_BYTES then Decode(media) else Failed(DemuxFailed))
        else Going(sets, NO_AU)
  }

  function FeedRead(a: Assembly, sets: ParameterSets, au: AU, read: Read): (Assembly, Progress) {
    match read
    case DeadlineExceeded => (a, Stopped(Failed(MediaTimeout)))
    case ReadFailed => (a, Stopped(Failed(WSSConnectFailed)))
    case Message(binary, data) =>
      if !binary then (a, Stopped(Failed(DemuxFailed)))
      else
        var (next, r) := FeedRTP(a, DEFAULT_MAX_FU_BYTES, data);
        match r
        case Err(code) => (next, Stopped(Failed(code)))
        case Ok(u) => (next, if u.nal == [] then Going(sets, au) else FeedUnit(sets, au, u))
  }

  /** The capture after `messages`, unless it stopped before the last of them. */
  function Run(messages: seq<Read>): (Assembly, Progress) {
    if messages == [] then (Idle, Going(NO_SETS, NO_AU))
    else
      var (a, p) := Run(messages[..|messages| - 1]);
      if p.Stopped? then (a, p) else FeedRead(a, p.sets, p.au, messages[|messages| - 1])
  }

  function OutcomeOf(p: Progress): Outcome {
    if p.Stopped? then p.outcome else Waiting
  }

  // ----- the imperative capture -----------------------------------------------------------

  class AccessUnit {
    var timestamp: uint32
    var active: bool
    var hasKeyFrame: bool
    var bytes: seq<byte>

    ghost function Value(): AU
      reads this
    {
      AU(active, timestamp, hasKeyFrame, bytes)
    }

    constructor ()
      ensures Value() == NO_AU
    {
      timestamp, active, hasKeyFrame, bytes := 0, false, false, [];
    }

    predicate AcceptsTimestamp(t: uint32)
      reads this
    {
      !active || timestamp == t
    }

    method Append(t: uint32, nal: seq<byte>, keyFrame: bool)
      modifies this
      ensures active && timestamp == (if old(active) then old(timestamp) else t)
      ensures bytes == old(bytes) + nal && hasKeyFrame == (old(hasKeyFrame) || keyFrame)
    {
      if !active {
        active := true;
        timestamp := t;
      }
      bytes := bytes + nal;
      hasKeyFrame := hasKeyFrame || keyFrame;
    }

    method Reset()
      modifies this
      ensures Value() == NO_AU
    {
      bytes := [];
      active := false;
      hasKeyFrame := false;
      timestamp := 0;
    }
  }

  /** Each parameter set is checked before it is counted in, so once the first one is
      `total` stays within the limit; a unit above it is refused at once. */
  method CombineAccessUnit(sets: ParameterSets, unitBytes: seq<byte>) returns (media: seq<byte>, ok: bool)
    ensures ok <==> 0 < |Combined(sets, unitBytes)| <= MAX_ANNEX_B_BYTES
    ensures media == if ok then Combined(sets, unitBytes) else []
  {
    var total := |unitBytes|;
    for i := 0 to 3
      invariant total == |unitBytes| + LengthOf(sets, i) && (i > 0 ==> total <= MAX_ANNEX_B_BYTES)
    {
      LengthGrows(sets, i + 1);
      LengthGrows(sets, i);
      if |sets[i]| > MAX_ANNEX_B_BYTES - total {
        return [], false;
      }
      total := total + |sets[i]|;
    }
    LengthGrows(sets, 3);
    if total == 0 {
      return [], false;
    }
    media := [];
    for i := 0 to 3
      invariant media == if i == 0 then [] else if i == 1 then sets[0] else if i == 2 then sets[0] + sets[1]
                         else sets[0] + sets[1] + sets[2]
    {
      media := media + sets[i];
    }
    media := media + unitBytes;
    ok := true;
  }

  ghost function LengthOf(sets: ParameterSets, n: nat): nat
    requires n <= 3
  {
    if n == 0 then 0 else LengthOf(sets, n - 1) + |sets[n - 1]|
  }

  lemma {:induction false} LengthGrows(sets: ParameterSets, n: nat)
    requires n <= 3
    ensures LengthOf(sets, n) <= LengthOf(sets, 3) == |sets[0]| + |sets[1]| + |sets[2]|
    decreases 3 - n
  {
    if n < 3 {
      LengthGrows(sets, n + 1);
    } else {
      assert LengthOf(sets, 1) == |sets[0]|;
      assert LengthOf(sets, 2) == |sets[0]| + |sets[1]|;
    }
  }

  /** The part of the loop body that follows a completed NAL. */
  method HandleUnit(sets: ParameterSets, au: AccessUnit, u: Unit) returns (next: ParameterSets, outcome: Outcome)
    requires |au.bytes| <= MAX_ANNEX_B_BYTES
    modifies au
    ensures FeedUnit(sets, old(au.Value()), u)
            == if outcome == Waiting then Going(next, au.Value()) else Stopped(outcome)
    ensures outcome == Waiting ==> |au.bytes| <= MAX_ANNEX_B_BYTES
  {
    next, outcome := sets, Waiting;
    var index := ParameterSetIndex(H265NALType(u.nal));
    if index >= 0 {
      if |u.nal| > MAX_ANNEX_B_BYTES {
        return sets, Failed(DemuxFailed);
      }
      return sets[index := u.nal], Waiting;
    }
    if !au.AcceptsTimestamp(u.timestamp) {
      au.Reset();
    }
    if |u.nal| > MAX_ANNEX_B_BYTES - |au.bytes| {
      return sets, Failed(DemuxFailed);
    }
    au.Append(u.timestamp, u.nal, IsKeyFrame(u.nal));
    if !u.marker {
      return;
    }
    if au.hasKeyFrame && HasAll(sets) {
      var media, ok := CombineAccessUnit(sets, au.bytes);
      if !ok {
        return sets, Failed(DemuxFailed);
      }
      return sets, Decode(media);
    }
    au.Reset();
  }

  method CaptureMedia(messages: seq<Read>) returns (r: Outcome)
    ensures r == OutcomeOf(Run(messages).1)
  {
    hide FeedRTP, FeedUnit;
    var depacketizer := new Depacketizer();
    var sets: ParameterSets := NO_SETS;
    var au := new AccessUnit();
    var i := 0;
    assert messages[..0] == [];
    while i < |messages|
      invariant 0 <= i <= |messages| && depacketizer.Valid() && depacketizer.maxBytes == DEFAULT_MAX_FU_BYTES
      invariant fresh(depacketizer) && fresh(au)
      invariant Run(messages[..i]) == (depacketizer.Assembling(), Going(sets, au.Value()))
      invariant |au.bytes| <= MAX_ANNEX_B_BYTES
    {
      var read := messages[i];
      assert messages[..i + 1][..i] == messages[..i];
      StopsFor(messages, i + 1);
      i := i + 1;
      match read {
        case DeadlineExceeded => return Failed(MediaTimeout);
        case ReadFailed => return Failed(WSSConnectFailed);
        case Message(binary, data) =>
          if !binary {
            return Failed(DemuxFailed);
          }
          var fed := depacketizer.FeedRTPWithMetadata(data);
          if fed.Err? {
            return Failed(fed.code);
          }
          if fed.value.nal == [] {
            continue;
          }
          var outcome;
          sets, outcome := HandleUnit(sets, au, fed.value);
          if outcome != Waiting {
            return outcome;
          }
      }
    }
    assert messages[..i] == messages;
    return Waiting;
  }

  /** A stopped capture stays stopped: later reads are never looked at. */
  lemma {:induction false} StopsFor(messages: seq<Read>, n: nat)
    requires n <= |messages|
    ensures Run(messages[..n]).1.Stopped? ==> Run(messages) == Run(messages[..n])
    decreases |messages|
  {
    if n == |messages| {
      assert messages[..n] == messages;
    } else {
      var front := messages[..|messages| - 1];
      StopsFor(front, n);
      assert front[..n] == messages[..n];
    }
  }
}
