/** The snapshot backfill: each camera is skipped or captured and stored, and three
    connection failures in a row open the circuit. */
module SnapshotBackfill {
  import opened Bytes
  import opened Decimals
  import SnapshotTransaction

  datatype ErrorCode =
    | Succeeded
    | AuthorizationFailed
    | WSSConnectFailed
    | WSSConnectTimeout
    | MediaTimeout
    | DemuxFailed
    | DecodeFailed
    | ThumbnailInvalid
    | OSSUploadFailed

  datatype JPEG = JPEG(bytes: seq<byte>, contentType: string, width: int, height: int)

  datatype Candidate = Candidate(tenantID: int, cameraID: int)

  datatype Summary = Summary(selected: int, skipped: int, succeeded: int, failed: int, failures: map<ErrorCode, int>)

  datatype End = Completed | CircuitOpen | Interrupted | BadOptions

  /** How the world answers for one camera: whether the existence check and the rest
      between captures work, what the capture gives, whether the upload works. */
  datatype Answers = Answers(opens: bool, closes: bool, rests: bool, capture: Capture, uploads: bool)

  datatype Capture = Captured(jpeg: JPEG) | Failed(code: ErrorCode)

  /** What became of one camera. */
  datatype Outcome = Skipped | Attempted(code: ErrorCode)

  const SECOND := 1_000_000_000
  const MAX_CONSECUTIVE_FAILURES := 3
  const MAX_JPEG_BYTES := 0x10_0000
  const MAX_THUMBNAIL_EDGE := 640

  predicate IsCircuitFailure(code: ErrorCode) {
    code == AuthorizationFailed || code == WSSConnectFailed || code == WSSConnectTimeout
  }

  /** The codes a capture may report; everything else is a failure to decode. */
  function WhitelistCaptureCode(code: ErrorCode): ErrorCode {
    if code == Succeeded || code == OSSUploadFailed then DecodeFailed else code
  }

  predicate ValidBackfillJPEG(jpeg: JPEG) {
    && 0 < |jpeg.bytes| <= MAX_JPEG_BYTES && jpeg.contentType == "image/jpeg"
    && 0 < jpeg.width <= MAX_THUMBNAIL_EDGE && 0 < jpeg.height <= MAX_THUMBNAIL_EDGE
  }

  function FormatPositiveID(value: int): string {
    if value <= 0 then "0" else Decimal(value)
  }

  function ObjectKey(c: Candidate): string {
    "nvr-camera-snapshots/" + FormatPositiveID(c.tenantID) + "/" + FormatPositiveID(c.cameraID) + ".jpg"
  }

  // ----- one camera ------------------------------------------------------------------------------

  type Objects = map<string, JPEG>

  /** What handling one camera may do to the objects. */
  predicate Handled(before: Objects, after: Objects, c: Candidate, answers: Answers, force: bool, outcome: Outcome) {
    match outcome
    case Skipped => !force && ObjectKey(c) in before && after == before
    case Attempted(code) =>
      && (force || ObjectKey(c) !in before)
      && match answers.capture
         case Failed(failure) => code == WhitelistCaptureCode(failure) && after == before
         case Captured(jpeg) =>
           if !ValidBackfillJPEG(jpeg) then code == ThumbnailInvalid && after == before
           else if !answers.uploads then code == OSSUploadFailed && after == before
           else code == Succeeded && after == before[ObjectKey(c) := jpeg]
  }

  /** Whether the run stops at this camera because a check or the rest before a
      further capture fails. */
  predicate Interrupts(before: Objects, c: Candidate, answers: Answers, force: bool, captured: bool) {
    if !force && !answers.opens then true
    else if !force && ObjectKey(c) in before then !answers.closes
    else captured && !answers.rests
  }

  // ----- the circuit -------------------------------------------------------------------------------

  function Attempts(outcomes: seq<Outcome>): seq<ErrorCode> {
    if outcomes == [] then []
    else
      var last := outcomes[|outcomes| - 1];
      Attempts(outcomes[..|outcomes| - 1]) + (if last.Skipped? then [] else [last.code])
  }

  /** The last three attempts were circuit failures; skipped cameras are not looked at. */
  predicate Trips(outcomes: seq<Outcome>) {
    var codes := Attempts(outcomes);
    |codes| >= MAX_CONSECUTIVE_FAILURES &&
    forall i | |codes| - MAX_CONSECUTIVE_FAILURES <= i < |codes| :: IsCircuitFailure(codes[i])
  }

  /** Before this outcome the circuit never opened. */
  predicate NotBefore(outcomes: seq<Outcome>) {
    forall k | 0 <= k < |outcomes| :: !Trips(outcomes[..k])
  }

  /** Exactly the last `n` attempts failed to connect. */
  predicate Streak(codes: seq<ErrorCode>, n: nat) {
    && n <= |codes|
    && (forall i | |codes| - n <= i < |codes| :: IsCircuitFailure(codes[i]))
    && (n < |codes| ==> !IsCircuitFailure(codes[|codes| - n - 1]))
  }

  function NextStreak(n: nat, outcome: Outcome): nat {
    if outcome.Skipped? then n else if IsCircuitFailure(outcome.code) then n + 1 else 0
  }

  // ----- counting ------------------------------------------------------------------------------------

  function FailureCount(failures: map<ErrorCode, int>, code: ErrorCode): int {
    if code in failures then failures[code] else 0
  }

  /** The sum of the counts of all codes. */
  function TotalFailures(failures: map<ErrorCode, int>): int {
    FailureCount(failures, Succeeded) + FailureCount(failures, AuthorizationFailed)
    + FailureCount(failures, WSSConnectFailed) + FailureCount(failures, WSSConnectTimeout)
    + FailureCount(failures, MediaTimeout) + FailureCount(failures, DemuxFailed)
    + FailureCount(failures, DecodeFailed) + FailureCount(failures, ThumbnailInvalid)
    + FailureCount(failures, OSSUploadFailed)
  }

  function Times(outcomes: seq<Outcome>, outcome: Outcome): nat {
    multiset(outcomes)[outcome]
  }

  /** The summary tells what became of the cameras handled so far, each counted once. */
  predicate Tells(summary: Summary, outcomes: seq<Outcome>) {
    && summary.skipped + summary.succeeded + summary.failed == |outcomes|
    && summary.skipped == Times(outcomes, Skipped)
    && summary.succeeded == Times(outcomes, Attempted(Succeeded))
    && summary.failed == TotalFailures(summary.failures)
    && forall code :: FailureCount(summary.failures, code) ==
                      if code == Succeeded then 0 else Times(outcomes, Attempted(code))
  }

  // ----- a run -----------------------------------------------------------------------------------------

  /** The cameras of a run and what the world answers for each. */
  datatype Job = Job(candidates: seq<Candidate>, answers: seq<Answers>, force: bool)

  /** What happened so far; `stores[i]` is what was stored before camera `i`. */
  datatype Trail = Trail(stores: seq<Objects>, outcomes: seq<Outcome>) {
    function Then(after: Objects, outcome: Outcome): Trail {
      Trail(stores + [after], outcomes + [outcome])
    }
  }

  /** Whether any of the first `i` cameras was attempted. */
  predicate Begun(outcomes: seq<Outcome>, i: nat)
    requires i <= |outcomes|
  {
    Attempts(outcomes[..i]) != []
  }

  predicate StepAt(job: Job, i: nat, before: Objects, after: Objects, captured: bool, outcome: Outcome)
    requires i < |job.candidates| == |job.answers|
  {
    && !Interrupts(before, job.candidates[i], job.answers[i], job.force, captured)
    && Handled(before, after, job.candidates[i], job.answers[i], job.force, outcome)
  }

  /** Camera `i` of the run went as it should. */
  ghost predicate StepOf(job: Job, trail: Trail, i: nat)
    requires i < |trail.outcomes| <= |job.candidates| == |job.answers| && |trail.stores| == |trail.outcomes| + 1
  {
    StepAt(job, i, trail.stores[i], trail.stores[i + 1], Begun(trail.outcomes, i), trail.outcomes[i])
  }

  ghost predicate Ran(job: Job, trail: Trail, before: Objects, after: Objects) {
    && |trail.outcomes| <= |job.candidates| == |job.answers| && |trail.stores| == |trail.outcomes| + 1
    && trail.stores[0] == before && trail.stores[|trail.outcomes|] == after
    && forall i | 0 <= i < |trail.outcomes| :: StepOf(job, trail, i)
  }

  lemma RanNext(job: Job, trail: Trail, before: Objects, now: Objects, after: Objects, outcome: Outcome)
    requires Ran(job, trail, before, now)
    requires var i := |trail.outcomes|;
             i < |job.candidates| && StepAt(job, i, now, after, Attempts(trail.outcomes) != [], outcome)
    ensures Ran(job, trail.Then(after, outcome), before, after)
  {
    hide StepAt;
    var longer := trail.Then(after, outcome);
    forall i | 0 <= i < |longer.outcomes| ensures StepOf(job, longer, i) {
      assert longer.outcomes[..i] == trail.outcomes[..i];
      if i < |trail.outcomes| {
        assert StepOf(job, trail, i);
      } else {
        assert trail.outcomes[..i] == trail.outcomes;
      }
    }
  }

  lemma SkippedIsStep(job: Job, i: nat, objects: Objects, captured: bool)
    requires i < |job.candidates| == |job.answers|
    requires ObjectKey(job.candidates[i]) in objects && job.answers[i].opens && job.answers[i].closes && !job.force
    ensures StepAt(job, i, objects, objects, captured, Skipped)
  {
  }

  lemma InterruptsAt(job: Job, i: nat, objects: Objects, captured: bool)
    requires i < |job.candidates| == |job.answers|
    ensures var a, stored := job.answers[i], ObjectKey(job.candidates[i]) in objects;
            Interrupts(objects, job.candidates[i], a, job.force, captured) ==
            (if !job.force && !a.opens then true else if !job.force && stored then !a.closes else captured && !a.rests)
  {
  }

  function OrDefault(duration: int, default: int): int {
    if duration == 0 then default else duration
  }

  predicate OptionsAccepted(timeout: int, interval: int) {
    0 < OrDefault(timeout, 20 * SECOND) <= 20 * SECOND && 2 * SECOND <= OrDefault(interval, 2 * SECOND)
  }

  /** The circuit is closed after `n` failures to connect in a row. */
  predicate Closed(outcomes: seq<Outcome>, n: nat, captured: bool) {
    && Streak(Attempts(outcomes), n) && n < MAX_CONSECUTIVE_FAILURES
    && NotBefore(outcomes) && !Trips(outcomes)
    && captured == (Attempts(outcomes) != [])
  }

  /** Where a run stands after `i` cameras, the circuit still closed. */
  ghost predicate Underway(job: Job, trail: Trail, i: nat, before: Objects, now: Objects, summary: Summary,
                           consecutive: nat, captured: bool)
  {
    && |trail.outcomes| == i && Ran(job, trail, before, now) && Closed(trail.outcomes, consecutive, captured)
    && summary.selected == |job.candidates| && Tells(summary, trail.outcomes)
  }

  ghost predicate StoppedAt(job: Job, trail: Trail, i: nat, now: Objects) {
    && i < |job.candidates| == |job.answers|
    && Interrupts(now, job.candidates[i], job.answers[i], job.force, Attempts(trail.outcomes) != [])
  }

  /** What a run that was let in returns. */
  ghost predicate Finished(job: Job, trail: Trail, before: Objects, after: Objects, summary: Summary, end: End) {
    && Ran(job, trail, before, after)
    && (end == CircuitOpen <==> Trips(trail.outcomes)) && NotBefore(trail.outcomes)
    && (end == Interrupted ==> StoppedAt(job, trail, |trail.outcomes|, after))
    && (end == Completed ==> |trail.outcomes| == |job.candidates|)
    && end != BadOptions
    && summary.selected == |job.candidates| && Tells(summary, trail.outcomes)
  }

  class BackfillService {
    var objects: Objects

    constructor (objects: Objects)
      ensures this.objects == objects
    {
      this.objects := objects;
    }

    method ProcessCandidate(c: Candidate, answers: Answers, ghost force: bool) returns (code: ErrorCode)
      requires force || ObjectKey(c) !in objects
      modifies this
      ensures Handled(old(objects), objects, c, answers, force, Attempted(code))
    {
      match answers.capture
      case Failed(failure) => return WhitelistCaptureCode(failure);
      case Captured(jpeg) =>
        if !ValidBackfillJPEG(jpeg) {
          return ThumbnailInvalid;
        }
        if !answers.uploads {
          return OSSUploadFailed;
        }
        objects := objects[ObjectKey(c) := jpeg];
        return Succeeded;
    }

    method Run(candidates: seq<Candidate>, answers: seq<Answers>, timeout: int, interval: int, force: bool)
      returns (summary: Summary, end: End, ghost trail: Trail)
      requires |answers| == |candidates|
      modifies this
      ensures end == BadOptions <==> !OptionsAccepted(timeout, interval)
      ensures end == BadOptions ==> objects == old(objects) && summary == Summary(0, 0, 0, 0, map[])
      ensures end != BadOptions ==>
                Finished(Job(candidates, answers, force), trail, old(objects), objects, summary, end)
    {
      if OrDefault(timeout, 20 * SECOND) <= 0 || OrDefault(timeout, 20 * SECOND) > 20 * SECOND
         || OrDefault(interval, 2 * SECOND) < 2 * SECOND {
        return Summary(0, 0, 0, 0, map[]), BadOptions, Trail([objects], []);
      }
      summary, end, trail := CaptureAll(candidates, answers, force);
    }

    method CaptureAll(candidates: seq<Candidate>, answers: seq<Answers>, force: bool)
      returns (summary: Summary, end: End, ghost trail: Trail)
      requires |answers| == |candidates|
      modifies this
      ensures Finished(Job(candidates, answers, force), trail, old(objects), objects, summary, end)
    {
      hide Underway, Interrupts, StepAt, Finished, Ran, Handled, ObjectKey;
      hide Trail.Then, Counted, NextStreak, IsCircuitFailure, FailureCount;
      ghost var job := Job(candidates, answers, force);
      trail := Trail([objects], []);
      summary := Summary(|candidates|, 0, 0, 0, map[]);
      NothingYet(job, objects);
      var consecutive := 0;
      var captured := false;
      for i := 0 to |candidates|
        invariant Underway(job, trail, i, old(objects), objects, summary, consecutive, captured)
      {
        Stopped(job, trail, i, old(objects), objects, summary, consecutive, captured);
        InterruptsAt(job, i, objects, captured);
        var c := candidates[i];
        if !force {
          if !answers[i].opens {
            return summary, Interrupted, trail;
          }
          if ObjectKey(c) in objects {
            if !answers[i].closes {
              return summary, Interrupted, trail;
            }
            SkippedIsStep(job, i, objects, captured);
            Next(job, trail, i, old(objects), objects, summary, consecutive, captured, objects, Skipped);
            StreakCases(consecutive, Succeeded);
            CountedCases(summary, Succeeded);
            summary := summary.(skipped := summary.skipped + 1);
            trail := trail.Then(objects, Skipped);
            continue;
          }
        }
        if captured && !answers[i].rests {
          return summary, Interrupted, trail;
        }
        ghost var was, rested := objects, captured;
        captured := true;
        var code := ProcessCandidate(c, answers[i], force);
        HandledIsStep(job, i, was, objects, rested, Attempted(code));
        Next(job, trail, i, old(objects), was, summary, consecutive, rested, objects, Attempted(code));
        StreakCases(consecutive, code);
        trail := trail.Then(objects, Attempted(code));
        CountedCases(summary, code);
        if code == Succeeded {
          summary := summary.(succeeded := summary.succeeded + 1);
          consecutive := 0;
          continue;
        }
        summary := summary.(failed := summary.failed + 1,
          failures := summary.failures[code := FailureCount(summary.failures, code) + 1]);
        if IsCircuitFailure(code) {
          consecutive := consecutive + 1;
          if consecutive >= MAX_CONSECUTIVE_FAILURES {
            return summary, CircuitOpen, trail;
          }
        } else {
          consecutive := 0;
        }
      }
      Stopped(job, trail, |candidates|, old(objects), objects, summary, consecutive, captured);
      return summary, Completed, trail;
    }
  }

  lemma NothingYet(job: Job, objects: Objects)
    requires |job.candidates| == |job.answers|
    ensures Underway(job, Trail([objects], []), 0, objects, objects,
                     Summary(|job.candidates|, 0, 0, 0, map[]), 0, false)
  {
    assert Attempts([]) == [];
  }

  lemma Stopped(job: Job, trail: Trail, i: nat, before: Objects, now: Objects, summary: Summary, consecutive: nat,
                captured: bool)
    requires Underway(job, trail, i, before, now, summary, consecutive, captured)
    ensures i == |job.candidates| ==> Finished(job, trail, before, now, summary, Completed)
    ensures i < |job.candidates| == |job.answers| &&
              Interrupts(now, job.candidates[i], job.answers[i], job.force, captured) ==>
              Finished(job, trail, before, now, summary, Interrupted)
    ensures consecutive < MAX_CONSECUTIVE_FAILURES
  {
    assert captured == (Attempts(trail.outcomes) != []);
    hide Trips, NotBefore, Streak, Tells, Interrupts;
  }

  lemma HandledIsStep(job: Job, i: nat, before: Objects, after: Objects, captured: bool, outcome: Outcome)
    requires i < |job.candidates| == |job.answers|
    requires Handled(before, after, job.candidates[i], job.answers[i], job.force, outcome)
    requires !Interrupts(before, job.candidates[i], job.answers[i], job.force, captured)
    ensures StepAt(job, i, before, after, captured, outcome)
  {
  }

  /** The counters after one more camera. */
  function Counted(summary: Summary, outcome: Outcome): Summary {
    if outcome.Skipped? then summary.(skipped := summary.skipped + 1)
    else if outcome.code == Succeeded then summary.(succeeded := summary.succeeded + 1)
    else summary.(failed := summary.failed + 1,
      failures := summary.failures[outcome.code := FailureCount(summary.failures, outcome.code) + 1])
  }

  lemma CountedCases(summary: Summary, code: ErrorCode)
    ensures Counted(summary, Skipped) == summary.(skipped := summary.skipped + 1)
    ensures Counted(summary, Attempted(code)) ==
            if code == Succeeded then summary.(succeeded := summary.succeeded + 1)
            else summary.(failed := summary.failed + 1,
              failures := summary.failures[code := FailureCount(summary.failures, code) + 1])
  {
  }

  lemma FailuresNext(failures: map<ErrorCode, int>, code: ErrorCode)
    ensures var next := failures[code := FailureCount(failures, code) + 1];
            && TotalFailures(next) == TotalFailures(failures) + 1
            && forall c :: FailureCount(next, c) == FailureCount(failures, c) + if c == code then 1 else 0
  {
  }

  lemma TimesNext(outcomes: seq<Outcome>, outcome: Outcome)
    ensures forall o :: Times(outcomes + [outcome], o) == Times(outcomes, o) + if o == outcome then 1 else 0
  {
  }

  lemma TellsFailure(summary: Summary, outcomes: seq<Outcome>, code: ErrorCode)
    requires Tells(summary, outcomes) && code != Succeeded
    ensures Tells(summary.(failed := summary.failed + 1,
                    failures := summary.failures[code := FailureCount(summary.failures, code) + 1]),
                  outcomes + [Attempted(code)])
  {
    FailuresNext(summary.failures, code);
    TimesNext(outcomes, Attempted(code));
    hide TotalFailures, FailureCount, Times;
  }

  lemma TellsNext(summary: Summary, outcomes: seq<Outcome>, outcome: Outcome)
    requires Tells(summary, outcomes)
    ensures Tells(Counted(summary, outcome), outcomes + [outcome])
    ensures Counted(summary, outcome).selected == summary.selected
  {
    hide Tells, FailureCount;
    if outcome.Skipped? {
      TellsSkip(summary, outcomes);
    } else if outcome.code == Succeeded {
      TellsSuccess(summary, outcomes);
    } else {
      TellsFailure(summary, outcomes, outcome.code);
    }
  }

  lemma TellsSkip(summary: Summary, outcomes: seq<Outcome>)
    requires Tells(summary, outcomes)
    ensures Tells(summary.(skipped := summary.skipped + 1), outcomes + [Skipped])
  {
    TimesNext(outcomes, Skipped);
    hide TotalFailures, FailureCount, Times;
  }

  lemma TellsSuccess(summary: Summary, outcomes: seq<Outcome>)
    requires Tells(summary, outcomes)
    ensures Tells(summary.(succeeded := summary.succeeded + 1), outcomes + [Attempted(Succeeded)])
  {
    TimesNext(outcomes, Attempted(Succeeded));
    hide TotalFailures, FailureCount, Times;
  }

  lemma StreakNext(codes: seq<ErrorCode>, n: nat, code: ErrorCode)
    requires Streak(codes, n)
    ensures Streak(codes + [code], NextStreak(n, Attempted(code)))
  {
    var all := codes + [code];
    assert forall i | 0 <= i < |codes| :: all[i] == codes[i];
  }

  lemma StreakTrips(outcomes: seq<Outcome>, n: nat)
    requires Streak(Attempts(outcomes), n)
    ensures Trips(outcomes) <==> n >= MAX_CONSECUTIVE_FAILURES
  {
    hide Attempts;
    var codes := Attempts(outcomes);
    if n < MAX_CONSECUTIVE_FAILURES <= |codes| {
      assert !IsCircuitFailure(codes[|codes| - n - 1]);
    }
  }

  lemma AttemptsNext(outcomes: seq<Outcome>, outcome: Outcome)
    ensures Attempts(outcomes + [outcome]) == Attempts(outcomes) + if outcome.Skipped? then [] else [outcome.code]
    ensures outcome.Skipped? ==> Attempts(outcomes + [outcome]) == Attempts(outcomes)
  {
    var all := outcomes + [outcome];
    assert all[..|all| - 1] == outcomes;
  }

  lemma NotBeforeNext(outcomes: seq<Outcome>, outcome: Outcome)
    requires NotBefore(outcomes) && !Trips(outcomes)
    ensures NotBefore(outcomes + [outcome])
  {
    hide Trips;
    var all := outcomes + [outcome];
    forall k | 0 <= k < |all| ensures !Trips(all[..k]) {
      assert all[..k] == outcomes[..k];
      assert outcomes[..|outcomes|] == outcomes;
    }
  }

  lemma ClosedNext(outcomes: seq<Outcome>, outcome: Outcome, n: nat, captured: bool)
    requires Closed(outcomes, n, captured)
    ensures var next, all := NextStreak(n, outcome), outcomes + [outcome];
            if next >= MAX_CONSECUTIVE_FAILURES then Trips(all) && NotBefore(all)
            else Closed(all, next, captured || outcome.Attempted?)
  {
    hide Trips, Streak, NextStreak, NotBefore, Attempts;
    StreakCases(n, Succeeded);
    AttemptsNext(outcomes, outcome);
    NotBeforeNext(outcomes, outcome);
    if outcome.Attempted? {
      StreakNext(Attempts(outcomes), n, outcome.code);
    }
    StreakTrips(outcomes + [outcome], NextStreak(n, outcome));
  }

  lemma Next(job: Job, trail: Trail, i: nat, before: Objects, now: Objects, summary: Summary, consecutive: nat,
             captured: bool, after: Objects, outcome: Outcome)
    requires Underway(job, trail, i, before, now, summary, consecutive, captured) &&
               i < |job.candidates| == |job.answers|
    requires StepAt(job, i, now, after, captured, outcome)
    ensures var next := NextStreak(consecutive, outcome);
            if next >= MAX_CONSECUTIVE_FAILURES then
              Finished(job, trail.Then(after, outcome), before, after, Counted(summary, outcome), CircuitOpen)
            else
              Underway(job, trail.Then(after, outcome), i + 1, before, after, Counted(summary, outcome), next,
                       captured || outcome.Attempted?)
  {
    hide Closed, Ran, StepAt, Trips, NotBefore, Tells, Attempts, NextStreak, Counted, StoppedAt;
    CapturedMeans(trail.outcomes, consecutive, captured);
    TellsNext(summary, trail.outcomes, outcome);
    ClosedNext(trail.outcomes, outcome, consecutive, captured);
    RanNext(job, trail, before, now, after, outcome);
    ThenOutcomes(trail, after, outcome);
  }

  lemma CapturedMeans(outcomes: seq<Outcome>, n: nat, captured: bool)
    requires Closed(outcomes, n, captured)
    ensures captured == (Attempts(outcomes) != [])
  {
  }

  lemma ThenOutcomes(trail: Trail, after: Objects, outcome: Outcome)
    ensures trail.Then(after, outcome).outcomes == trail.outcomes + [outcome]
    ensures |trail.outcomes + [outcome]| == |trail.outcomes| + 1
  {
  }

  lemma StreakCases(n: nat, code: ErrorCode)
    ensures NextStreak(n, Skipped) == n
    ensures NextStreak(n, Attempted(code)) == if IsCircuitFailure(code) then n + 1 else 0
    ensures !IsCircuitFailure(Succeeded)
  {
  }

  // ----- main results ------------------------------------------------------------------------------------

  /** Where in the run the circuit opens: at three attempts that each failed to be let in, to
      connect or to connect in time, with nothing but skipped cameras between and after. */
  predicate ThreeInARow(outcomes: seq<Outcome>, i: nat, j: nat, k: nat) {
    && i < j < k < |outcomes|
    && CircuitAt(outcomes, i) && CircuitAt(outcomes, j) && CircuitAt(outcomes, k)
    && forall m | i < m < |outcomes| && m != j && m != k :: outcomes[m].Skipped?
  }

  predicate CircuitAt(outcomes: seq<Outcome>, i: nat)
    requires i < |outcomes|
  {
    outcomes[i] in {Attempted(AuthorizationFailed), Attempted(WSSConnectFailed), Attempted(WSSConnectTimeout)}
  }

  lemma {:induction false} SkipsAddNothing(outcomes: seq<Outcome>, k: nat)
    requires k <= |outcomes| && forall m | k <= m < |outcomes| :: outcomes[m].Skipped?
    ensures Attempts(outcomes) == Attempts(outcomes[..k])
    decreases |outcomes|
  {
    if k == |outcomes| {
      assert outcomes[..k] == outcomes;
    } else {
      var front := outcomes[..|outcomes| - 1];
      SkipsAddNothing(front, k);
      assert front[..k] == outcomes[..k];
    }
  }

  lemma AttemptThenSkips(outcomes: seq<Outcome>, k: nat)
    requires k < |outcomes| && outcomes[k].Attempted? && forall m | k < m < |outcomes| :: outcomes[m].Skipped?
    ensures Attempts(outcomes) == Attempts(outcomes[..k]) + [outcomes[k].code]
  {
    var upto := outcomes[..k + 1];
    SkipsAddNothing(outcomes, k + 1);
    assert upto[..|upto| - 1] == outcomes[..k];
  }

  lemma LastThree(outcomes: seq<Outcome>, i: nat, j: nat, k: nat)
    requires i < j < k < |outcomes| && outcomes[i].Attempted? && outcomes[j].Attempted? && outcomes[k].Attempted?
    requires forall m | i < m < |outcomes| && m != j && m != k :: outcomes[m].Skipped?
    ensures Attempts(outcomes) == Attempts(outcomes[..i]) + [outcomes[i].code, outcomes[j].code, outcomes[k].code]
  {
    hide Attempts;
    AttemptThenSkips(outcomes, k);
    AttemptThenSkips(outcomes[..k], j);
    assert outcomes[..k][..j] == outcomes[..j];
    AttemptThenSkips(outcomes[..j], i);
    assert outcomes[..j][..i] == outcomes[..i];
  }

  lemma {:induction false} LastAttempt(outcomes: seq<Outcome>) returns (k: nat)
    requires Attempts(outcomes) != []
    ensures k < |outcomes| && outcomes[k].Attempted? && forall m | k < m < |outcomes| :: outcomes[m].Skipped?
    ensures Attempts(outcomes) == Attempts(outcomes[..k]) + [outcomes[k].code]
  {
    k := |outcomes| - 1;
    if outcomes[k].Skipped? {
      var front := outcomes[..k];
      k := LastAttempt(front);
      assert front[..k] == outcomes[..k];
    }
  }

  /** The circuit opens exactly at three attempts in a row that failed to connect. */
  lemma TripsIsThreeInARow(outcomes: seq<Outcome>)
    ensures Trips(outcomes) <==> exists i, j, k :: ThreeInARow(outcomes, i, j, k)
  {
    hide Attempts;
    if Trips(outcomes) {
      var k := LastAttempt(outcomes);
      var j := LastAttempt(outcomes[..k]);
      assert outcomes[..k][..j] == outcomes[..j];
      var i := LastAttempt(outcomes[..j]);
      assert outcomes[..j][..i] == outcomes[..i];
      LastThree(outcomes, i, j, k);
      EndsWith(Attempts(outcomes), Attempts(outcomes[..i]), outcomes[i].code, outcomes[j].code, outcomes[k].code);
      assert ThreeInARow(outcomes, i, j, k);
    }
    forall i: nat, j: nat, k: nat | ThreeInARow(outcomes, i, j, k) ensures Trips(outcomes) {
      LastThree(outcomes, i, j, k);
      EndsWith(Attempts(outcomes), Attempts(outcomes[..i]), outcomes[i].code, outcomes[j].code, outcomes[k].code);
    }
  }

  /** A run that was let in ends with an open circuit exactly after the first such three; any
      other code, and success, breaks the row. */
  lemma CircuitMeaning(job: Job, trail: Trail, before: Objects, after: Objects, summary: Summary, end: End)
    requires Finished(job, trail, before, after, summary, end)
    ensures end == CircuitOpen <==> exists i, j, k :: ThreeInARow(trail.outcomes, i, j, k)
    ensures forall n, i, j, k | 0 <= n < |trail.outcomes| :: !ThreeInARow(trail.outcomes[..n], i, j, k)
  {
    hide Trips, ThreeInARow, Ran, Tells, StoppedAt;
    TripsIsThreeInARow(trail.outcomes);
    forall n, i: nat, j: nat, k: nat | 0 <= n < |trail.outcomes| ensures !ThreeInARow(trail.outcomes[..n], i, j, k) {
      assert !Trips(trail.outcomes[..n]);
      TripsIsThreeInARow(trail.outcomes[..n]);
    }
  }

  /** It is interrupted only by a check, of an object that may be there, that fails to open or
      to close, or by a rest between two captures that fails. */
  lemma InterruptionMeaning(job: Job, trail: Trail, before: Objects, after: Objects, summary: Summary, end: End)
    requires Finished(job, trail, before, after, summary, end) && end == Interrupted
    ensures var i := |trail.outcomes|;
            && i < |job.candidates| == |job.answers|
            && var a, stored := job.answers[i], ObjectKey(job.candidates[i]) in after;
               || (!job.force && (!a.opens || (stored && !a.closes)))
               || ((job.force || !stored) && !a.rests && exists k | 0 <= k < i :: trail.outcomes[k].Attempted?)
  {
    hide ObjectKey, Ran, Trips, NotBefore, Tells;
    if Attempts(trail.outcomes) != [] {
      var k := LastAttempt(trail.outcomes);
    }
  }

  /** A picture to keep: at most 1 MiB and 640 pixels on either edge. */
  predicate Keepable(jpeg: JPEG) {
    && 1 <= |jpeg.bytes| <= 1024 * 1024 && jpeg.contentType == "image/jpeg"
    && 1 <= jpeg.width <= 640 && 1 <= jpeg.height <= 640
  }

  /** What the code of an attempt means: success exactly for a picture to keep that is
      uploaded, and then it is stored; an invalid picture and a failed upload have codes
      of their own, and a capture that fails otherwise reports its own code, or the
      failure to decode where it has no business reporting another. */
  lemma AttemptMeaning(before: Objects, after: Objects, c: Candidate, answers: Answers, force: bool, code: ErrorCode)
    requires Handled(before, after, c, answers, force, Attempted(code))
    ensures force || ObjectKey(c) !in before
    ensures code == Succeeded <==> answers.capture.Captured? && Keepable(answers.capture.jpeg) && answers.uploads
    ensures after == if code == Succeeded then before[ObjectKey(c) := answers.capture.jpeg] else before
    ensures code == OSSUploadFailed <==>
            answers.capture.Captured? && Keepable(answers.capture.jpeg) && !answers.uploads
    ensures code == ThumbnailInvalid <==>
            answers.capture == Failed(ThumbnailInvalid)
            || (answers.capture.Captured? && !Keepable(answers.capture.jpeg))
    ensures code == DecodeFailed <==>
            answers.capture in {Failed(DecodeFailed), Failed(Succeeded), Failed(OSSUploadFailed)}
    ensures code in {AuthorizationFailed, WSSConnectFailed, WSSConnectTimeout, MediaTimeout, DemuxFailed} ==>
              answers.capture == Failed(code)
  {
    hide ObjectKey;
  }

  /** Options of 0 stand for 20 and 2 seconds; the timeout may be shorter and the rest longer. */
  lemma OptionsMeaning(timeout: int, interval: int)
    ensures OptionsAccepted(timeout, interval) <==>
            0 <= timeout <= 20_000_000_000 && (interval == 0 || interval >= 2_000_000_000)
  {
  }

  lemma EndsWith(codes: seq<ErrorCode>, front: seq<ErrorCode>, a: ErrorCode, b: ErrorCode, c: ErrorCode)
    requires codes == front + [a, b, c]
    ensures |codes| >= 3
    ensures (forall i | |codes| - 3 <= i < |codes| :: IsCircuitFailure(codes[i])) <==>
            IsCircuitFailure(a) && IsCircuitFailure(b) && IsCircuitFailure(c)
  {
    var n := |front|;
    assert codes[n] == a && codes[n + 1] == b && codes[n + 2] == c;
  }

  /** Stored objects stay stored. */
  lemma {:induction false} StoresGrow(job: Job, trail: Trail, before: Objects, after: Objects, i: nat, j: nat)
    requires Ran(job, trail, before, after) && i <= j <= |trail.outcomes|
    ensures trail.stores[i].Keys <= trail.stores[j].Keys
    decreases j - i
  {
    if i < j {
      StoresGrow(job, trail, before, after, i, j - 1);
      assert StepOf(job, trail, j - 1);
    }
  }

  /** A run that is not forced skips every camera that an earlier run, forced or not,
      stored, as long as nothing was deleted in between. */
  lemma RerunSkipsStored(first: Job, trail: Trail, before: Objects, between: Objects,
                         rerun: Job, trail': Trail, between': Objects, after: Objects, i: nat, j: nat)
    requires Ran(first, trail, before, between) && Ran(rerun, trail', between', after)
    requires between.Keys <= between'.Keys && !rerun.force
    requires i < |trail.outcomes| && trail.outcomes[i] == Attempted(Succeeded)
    requires j < |trail'.outcomes| && rerun.candidates[j] == first.candidates[i]
    ensures trail'.outcomes[j] == Skipped
  {
    hide ObjectKey;
    StoresGrow(first, trail, before, between, i + 1, |trail.outcomes|);
    StoresGrow(rerun, trail', between', after, 0, j);
    assert StepOf(first, trail, i) && StepOf(rerun, trail', j);
  }

  /** The monitor finds what the backfill stores: both name a camera's object alike
      exactly where the IDs are not negative. */
  lemma KeysAgree(c: Candidate)
    ensures ObjectKey(c) == SnapshotTransaction.SnapshotObjectKey(c.tenantID, c.cameraID) <==>
            c.tenantID >= 0 && c.cameraID >= 0
  {
    var t := if c.tenantID < 0 then 0 else c.tenantID;
    var n := if c.cameraID < 0 then 0 else c.cameraID;
    assert Decimal(0) == "0";
    assert ObjectKey(c) == SnapshotTransaction.SnapshotObjectKey(t, n);
    if ObjectKey(c) == SnapshotTransaction.SnapshotObjectKey(c.tenantID, c.cameraID) {
      SnapshotTransaction.KeyInjective(t, n, c.tenantID, c.cameraID);
    }
  }
}
