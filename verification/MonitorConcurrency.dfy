/** How many monitor streams a user may hold at once: the slot counters and the
    play and disable requests that take and give back slots, in any interleaving. */
module MonitorConcurrency {
  import opened Strings

  datatype Slots = Slots(active: nat, max: nat)

  type Counters = map<string, Slots>

  function UserKey(userID: string): string {
    if TrimSpace(userID) == "" then "anonymous" else TrimSpace(userID)
  }

  function Limit(isAdmin: bool): nat {
    if isAdmin then 20 else 15
  }

  /** A user without an entry holds nothing. */
  function Active(counters: Counters, user: string): nat {
    if user in counters then counters[user].active else 0
  }

  predicate Admits(counters: Counters, userID: string, isAdmin: bool) {
    Active(counters, UserKey(userID)) < Limit(isAdmin)
  }

  /** A refused request keeps the count but leaves its own limit in the entry. */
  function Acquired(counters: Counters, userID: string, isAdmin: bool): Counters {
    var taken := if Admits(counters, userID, isAdmin) then 1 else 0;
    counters[UserKey(userID) := Slots(Active(counters, UserKey(userID)) + taken, Limit(isAdmin))]
  }

  function Released(counters: Counters, userID: string): Counters {
    var user, active := UserKey(userID), Active(counters, UserKey(userID));
    if active <= 0 then counters
    else if active == 1 then counters - {user}
    else counters[user := counters[user].(active := active - 1)]
  }

  datatype Outcome = Rejected | LimitReached(active: int, max: int) | ProviderFailed | AuditUnavailable | Playing

  /** When a play request gets which answer; a refusal for the limit tells count and limit. */
  predicate Answers(counters: Counters, valid: bool, userID: string, isAdmin: bool, answered: bool, audited: bool,
                    outcome: Outcome) {
    var count, max := Active(counters, UserKey(userID)), if isAdmin then 20 else 15;
    && (outcome == Rejected <==> !valid)
    && (outcome == LimitReached(count, max) <==> valid && count >= max)
    && (outcome == ProviderFailed <==> valid && count < max && !answered)
    && (outcome == AuditUnavailable <==> valid && count < max && answered && !audited)
    && (outcome == Playing <==> valid && count < max && answered && audited)
  }

  /** User IDs share their slots exactly when they are the same but for white space around
      them; a blank one counts as "anonymous". */
  lemma SharedSlots(a: string, b: string)
    ensures UserKey(a) == UserKey(b) <==>
            || TrimSpace(a) == TrimSpace(b)
            || (TrimSpace(a) == "" && TrimSpace(b) == "anonymous")
            || (TrimSpace(a) == "anonymous" && TrimSpace(b) == "")
  {
    hide TrimSpace;
  }

  class Service {
    var concurrency: Counters

    constructor ()
      ensures concurrency == map[]
    {
      concurrency := map[];
    }

    method AcquireConcurrency(userID: string, isAdmin: bool) returns (outcome: Outcome)
      modifies this
      ensures concurrency == Acquired(old(concurrency), userID, isAdmin)
      ensures concurrency[UserKey(userID)].max == if isAdmin then 20 else 15
      ensures outcome == if Admits(old(concurrency), userID, isAdmin) then Playing
                         else LimitReached(Active(old(concurrency), UserKey(userID)), Limit(isAdmin))
    {
      var user := TrimSpace(userID);
      if user == "" {
        user := "anonymous";
      }
      var maxCount := 15;
      if isAdmin {
        maxCount := 20;
      }
      if user !in concurrency {
        concurrency := concurrency[user := Slots(0, 0)];
      }
      concurrency := concurrency[user := concurrency[user].(max := maxCount)];
      if concurrency[user].active >= maxCount {
        return LimitReached(concurrency[user].active, maxCount);
      }
      concurrency := concurrency[user := concurrency[user].(active := concurrency[user].active + 1)];
      return Playing;
    }

    method ReleaseConcurrency(userID: string)
      modifies this
      ensures concurrency == Released(old(concurrency), userID)
    {
      var user := TrimSpace(userID);
      if user == "" {
        user := "anonymous";
      }
      if user !in concurrency || concurrency[user].active <= 0 {
        return;
      }
      concurrency := concurrency[user := concurrency[user].(active := concurrency[user].active - 1)];
      if concurrency[user].active == 0 {
        concurrency := concurrency - {user};
      }
    }

    /** `GetLiveURL` and `GetPlaybackURL`: `valid` is what the channel and time
        checks say, `answered` whether the provider gave a URL. */
    method GetURL(valid: bool, userID: string, isAdmin: bool, answered: bool) returns (outcome: Outcome)
      modifies this
      ensures outcome == Playing <==> valid && Admits(old(concurrency), userID, isAdmin) && answered
      ensures Answers(old(concurrency), valid, userID, isAdmin, answered, true, outcome)
      ensures forall u :: Active(concurrency, u) ==
                          Active(old(concurrency), u) + (if outcome == Playing && u == UserKey(userID) then 1 else 0)
    {
      if !valid {
        return Rejected;
      }
      outcome := AcquireConcurrency(userID, isAdmin);
      if outcome != Playing {
        return;
      }
      if !answered {
        ReleaseConcurrency(userID);
        return ProviderFailed;
      }
    }

    /** A play request from start to end: a slot stays taken exactly when the URL
        reaches the client. */
    method Play(valid: bool, userID: string, isAdmin: bool, answered: bool, audited: bool) returns (outcome: Outcome)
      modifies this
      ensures outcome == Playing <==> valid && Admits(old(concurrency), userID, isAdmin) && answered && audited
      ensures Answers(old(concurrency), valid, userID, isAdmin, answered, audited, outcome)
      ensures forall u :: Active(concurrency, u) ==
                          Active(old(concurrency), u) + (if outcome == Playing && u == UserKey(userID) then 1 else 0)
    {
      outcome := GetURL(valid, userID, isAdmin, answered);
      if outcome == Playing && !audited {
        ReleaseConcurrency(userID);
        return AuditUnavailable;
      }
    }

    /** `DisableURL` gives the slot back even when the channel is not valid or the
        provider fails. */
    method DisableURL(valid: bool, userID: string, disabled: bool) returns (ok: bool)
      modifies this
      ensures ok == (valid && disabled)
      ensures concurrency == Released(old(concurrency), userID)
    {
      if !valid {
        ReleaseConcurrency(userID);
        return false;
      }
      ReleaseConcurrency(userID);
      return disabled;
    }
  }

  // ----- requests in any order ------------------------------------------------------------------

  /** Where a play request stands; each phase change is one atomic step. */
  datatype Phase = Refused | InFlight | Answered | Live | Ended

  datatype Request = Request(userID: string, isAdmin: bool, phase: Phase) {
    predicate Holds(user: string) {
      UserKey(userID) == user && (phase == InFlight || phase == Answered || phase == Live)
    }
  }

  /** The counters beside every request that reached them so far. */
  datatype World = World(counters: Counters, requests: seq<Request>)

  datatype Step =
    | Arrive(userID: string, isAdmin: bool)
    | ProviderFails(i: nat)
    | ProviderAnswers(i: nat)
    | AuditFails(i: nat)
    | AuditRecorded(i: nat)
    | Disable(i: nat)
    | DisableNothing(userID: string)

  predicate At(w: World, i: nat, phase: Phase) {
    i < |w.requests| && w.requests[i].phase == phase
  }

  predicate Enabled(w: World, step: Step) {
    match step
    case Arrive(_, _) | DisableNothing(_) => true
    case ProviderFails(i) => At(w, i, InFlight)
    case ProviderAnswers(i) => At(w, i, InFlight)
    case AuditFails(i) => At(w, i, Answered)
    case AuditRecorded(i) => At(w, i, Answered)
    case Disable(i) => At(w, i, Live)
  }

  function Move(w: World, i: nat, phase: Phase): World
    requires i < |w.requests|
  {
    w.(requests := w.requests[i := w.requests[i].(phase := phase)])
  }

  function GiveBack(w: World, i: nat): World
    requires i < |w.requests|
  {
    Move(w, i, Ended).(counters := Released(w.counters, w.requests[i].userID))
  }

  function Next(w: World, step: Step): World
    requires Enabled(w, step)
  {
    match step
    case Arrive(userID, isAdmin) =>
      var phase := if Admits(w.counters, userID, isAdmin) then InFlight else Refused;
      World(Acquired(w.counters, userID, isAdmin), w.requests + [Request(userID, isAdmin, phase)])
    case ProviderFails(i) => GiveBack(w, i)
    case ProviderAnswers(i) => Move(w, i, Answered)
    case AuditFails(i) => GiveBack(w, i)
    case AuditRecorded(i) => Move(w, i, Live)
    case Disable(i) => GiveBack(w, i)
    case DisableNothing(userID) => w.(counters := Released(w.counters, userID))
  }

  /** Where the steps lead from an empty service. */
  function WorldAfter(steps: seq<Step>): World {
    if steps == [] then World(map[], [])
    else
      var last := |steps| - 1;
      var before := WorldAfter(steps[..last]);
      if Enabled(before, steps[last]) then Next(before, steps[last]) else before
  }

  predicate Possible(steps: seq<Step>) {
    steps == [] || (Possible(steps[..|steps| - 1]) && Enabled(WorldAfter(steps[..|steps| - 1]), steps[|steps| - 1]))
  }

  /** A disable of no live URL of this user. */
  predicate IsStray(step: Step, user: string) {
    step.DisableNothing? && UserKey(step.userID) == user
  }

  function Strays(steps: seq<Step>, user: string): nat {
    if steps == [] then 0
    else Strays(steps[..|steps| - 1], user) + (if IsStray(steps[|steps| - 1], user) then 1 else 0)
  }

  /** What a play request does as number `i` when no other request comes between. */
  function OwnSteps(i: nat, userID: string, isAdmin: bool, admitted: bool, answered: bool, audited: bool): seq<Step> {
    var arrived := [Arrive(userID, isAdmin)];
    if !admitted then arrived
    else if !answered then arrived + [ProviderFails(i)]
    else arrived + [ProviderAnswers(i)] + [if audited then AuditRecorded(i) else AuditFails(i)]
  }

  /** At any moment of any run, the steps of one play request without interruption are
      possible and do to every count what `Play` does. */
  lemma PlayOnItsOwn(front: seq<Step>, userID: string, isAdmin: bool, answered: bool, audited: bool)
    requires Possible(front)
    ensures var before := WorldAfter(front);
            var admitted := Admits(before.counters, userID, isAdmin);
            var steps := front + OwnSteps(|before.requests|, userID, isAdmin, admitted, answered, audited);
            var after := WorldAfter(steps);
            && Possible(steps)
            && |after.requests| == |before.requests| + 1 && after.requests[..|before.requests|] == before.requests
            && (after.requests[|before.requests|].phase == Live <==> admitted && answered && audited)
            && forall u :: Active(after.counters, u) == Active(before.counters, u) +
                 (if admitted && answered && audited && u == UserKey(userID) then 1 else 0)
  {
    hide Possible, WorldAfter, UserKey;
    var before := WorldAfter(front);
    var i, admitted := |before.requests|, Admits(before.counters, userID, isAdmin);
    var steps := OneMore(front, Arrive(userID, isAdmin));
    if admitted && !answered {
      steps := OneMore(steps, ProviderFails(i));
      assert steps == front + OwnSteps(i, userID, isAdmin, admitted, answered, audited);
    } else if admitted {
      steps := OneMore(steps, ProviderAnswers(i));
      steps := OneMore(steps, if audited then AuditRecorded(i) else AuditFails(i));
      assert steps == front + OwnSteps(i, userID, isAdmin, admitted, answered, audited);
    }
  }

  // ----- slots held -----------------------------------------------------------------------------------

  /** In-flight requests and live URLs of a user. */
  function Held(requests: seq<Request>, user: string): nat {
    if requests == [] then 0
    else (if requests[0].Holds(user) then 1 else 0) + Held(requests[1..], user)
  }

  lemma {:induction false} HeldAppend(requests: seq<Request>, r: Request, user: string)
    ensures Held(requests + [r], user) == Held(requests, user) + (if r.Holds(user) then 1 else 0)
  {
    if requests != [] {
      assert (requests + [r])[1..] == requests[1..] + [r];
      HeldAppend(requests[1..], r, user);
    }
  }

  lemma {:induction false} HeldUpdate(requests: seq<Request>, i: nat, r: Request, user: string)
    requires i < |requests|
    ensures Held(requests[i := r], user) ==
            Held(requests, user) - (if requests[i].Holds(user) then 1 else 0) + (if r.Holds(user) then 1 else 0)
  {
    if i > 0 {
      assert requests[i := r][1..] == requests[1..][i - 1 := r];
      HeldUpdate(requests[1..], i - 1, r, user);
    } else {
      assert requests[i := r][1..] == requests[1..];
    }
  }

  predicate EverAdmin(requests: seq<Request>, user: string) {
    exists i | 0 <= i < |requests| :: UserKey(requests[i].userID) == user && requests[i].isAdmin
  }

  // ----- invariants -------------------------------------------------------------------------------------

  /** Entries stay between 1 and the highest limit their user was given, and no
      counter exceeds what its user holds. */
  predicate Sound(w: World, user: string) {
    && (user in w.counters ==>
          1 <= w.counters[user].active <= Limit(EverAdmin(w.requests, user)))
    && Active(w.counters, user) <= Held(w.requests, user)
  }

  lemma ReleasedActive(counters: Counters, userID: string, user: string)
    ensures Active(Released(counters, userID), user) ==
            Active(counters, user) - (if user == UserKey(userID) && Active(counters, user) > 0 then 1 else 0)
    ensures user in Released(counters, userID) ==>
              user in counters && (counters[user].active >= 1 ==> Released(counters, userID)[user].active >= 1)
  {
  }

  lemma MoveKeepsAdmins(w: World, i: nat, phase: Phase, user: string)
    requires i < |w.requests|
    ensures EverAdmin(Move(w, i, phase).requests, user) == EverAdmin(w.requests, user)
  {
    var after := Move(w, i, phase).requests;
    assert forall j | 0 <= j < |after| ::
        after[j].userID == w.requests[j].userID && after[j].isAdmin == w.requests[j].isAdmin;
  }

  lemma ArriveKeepsSound(w: World, userID: string, isAdmin: bool, user: string)
    requires Sound(w, user)
    ensures Sound(Next(w, Arrive(userID, isAdmin)), user)
  {
    var after := Next(w, Arrive(userID, isAdmin));
    var r := after.requests[|w.requests|];
    HeldAppend(w.requests, r, user);
    assert forall i | 0 <= i < |w.requests| :: after.requests[i] == w.requests[i];
    assert EverAdmin(w.requests, user) ==> EverAdmin(after.requests, user);
    assert UserKey(userID) == user && isAdmin ==> EverAdmin(after.requests, user);
  }

  lemma GiveBackKeepsSound(w: World, i: nat, user: string)
    requires i < |w.requests| && w.requests[i].Holds(UserKey(w.requests[i].userID))
    requires Sound(w, user)
    ensures Sound(GiveBack(w, i), user)
  {
    var r := w.requests[i];
    HeldUpdate(w.requests, i, r.(phase := Ended), user);
    MoveKeepsAdmins(w, i, Ended, user);
    if UserKey(r.userID) == user {
      ReleasedActive(w.counters, r.userID, user);
    }
  }

  lemma MoveKeepsSound(w: World, i: nat, phase: Phase, user: string)
    requires i < |w.requests| && w.requests[i].Holds(UserKey(w.requests[i].userID))
    requires phase == Answered || phase == Live
    requires Sound(w, user)
    ensures Sound(Move(w, i, phase), user)
  {
    HeldUpdate(w.requests, i, w.requests[i].(phase := phase), user);
    MoveKeepsAdmins(w, i, phase, user);
  }

  lemma StepKeepsSound(w: World, step: Step, user: string)
    requires Enabled(w, step) && Sound(w, user)
    ensures Sound(Next(w, step), user)
  {
    match step
    case Arrive(userID, isAdmin) => ArriveKeepsSound(w, userID, isAdmin, user);
    case ProviderFails(i) => GiveBackKeepsSound(w, i, user);
    case ProviderAnswers(i) => MoveKeepsSound(w, i, Answered, user);
    case AuditFails(i) => GiveBackKeepsSound(w, i, user);
    case AuditRecorded(i) => MoveKeepsSound(w, i, Live, user);
    case Disable(i) => GiveBackKeepsSound(w, i, user);
    case DisableNothing(userID) =>
      if UserKey(userID) == user {
        ReleasedActive(w.counters, userID, user);
      }
  }

  /** A request of this user ends and gives its slot back. */
  predicate EndsRequest(w: World, step: Step, user: string) {
    && (step.ProviderFails? || step.AuditFails? || step.Disable?)
    && step.i < |w.requests| && UserKey(w.requests[step.i].userID) == user
  }

  /** How many slots too few are counted: one more for every stray disable that finds an
      entry, one less for every request that ends and finds none. */
  function Debt(steps: seq<Step>, user: string): int {
    if steps == [] then 0
    else
      var front, last := steps[..|steps| - 1], steps[|steps| - 1];
      var counted := user in WorldAfter(front).counters;
      Debt(front, user)
      + (if IsStray(last, user) && counted then 1 else 0)
      - (if EndsRequest(WorldAfter(front), last, user) && !counted then 1 else 0)
  }

  /** What the count falls short of what is held. */
  function Gap(w: World, user: string): int {
    Held(w.requests, user) - Active(w.counters, user)
  }

  lemma MoveMovesGap(w: World, i: nat, phase: Phase, user: string)
    requires At(w, i, InFlight) || At(w, i, Answered)
    requires phase == Answered || phase == Live
    ensures Gap(Move(w, i, phase), user) == Gap(w, user)
  {
    HeldUpdate(w.requests, i, w.requests[i].(phase := phase), user);
  }

  lemma GiveBackMovesGap(w: World, i: nat, user: string)
    requires i < |w.requests| && w.requests[i].Holds(UserKey(w.requests[i].userID)) && Sound(w, user)
    ensures Gap(GiveBack(w, i), user) ==
            Gap(w, user) - if UserKey(w.requests[i].userID) == user && user !in w.counters then 1 else 0
  {
    HeldUpdate(w.requests, i, w.requests[i].(phase := Ended), user);
  }

  lemma StepMovesGap(w: World, step: Step, user: string)
    requires Enabled(w, step) && Sound(w, user)
    ensures var counted := user in w.counters;
            Gap(Next(w, step), user) ==
            Gap(w, user) + (if IsStray(step, user) && counted then 1 else 0)
            - (if EndsRequest(w, step, user) && !counted then 1 else 0)
  {
    match step
    case Arrive(userID, isAdmin) => HeldAppend(w.requests, Next(w, step).requests[|w.requests|], user);
    case ProviderFails(i) => GiveBackMovesGap(w, i, user);
    case ProviderAnswers(i) => MoveMovesGap(w, i, Answered, user);
    case AuditFails(i) => GiveBackMovesGap(w, i, user);
    case AuditRecorded(i) => MoveMovesGap(w, i, Live, user);
    case Disable(i) => GiveBackMovesGap(w, i, user);
    case DisableNothing(userID) =>
  }

  lemma {:induction false} RunIsSound(steps: seq<Step>, user: string)
    requires Possible(steps)
    ensures Sound(WorldAfter(steps), user)
    ensures Gap(WorldAfter(steps), user) == Debt(steps, user)
    ensures 0 <= Debt(steps, user) <= Strays(steps, user)
  {
    hide Sound, Next, Enabled, EndsRequest, Gap;
    if steps == [] {
      EmptyIsSound(user);
    } else {
      var front, last := steps[..|steps| - 1], steps[|steps| - 1];
      RunIsSound(front, user);
      StepKeepsSound(WorldAfter(front), last, user);
      SoundMeans(WorldAfter(steps), user);
      StepMovesGap(WorldAfter(front), last, user);
    }
  }

  lemma EmptyIsSound(user: string)
    ensures Sound(World(map[], []), user) && Gap(World(map[], []), user) == 0
  {
  }

  lemma SoundMeans(w: World, user: string)
    requires Sound(w, user)
    ensures Active(w.counters, user) <= Limit(EverAdmin(w.requests, user)) <= 20
    ensures user in w.counters ==> Active(w.counters, user) >= 1
    ensures Gap(w, user) >= 0
  {
  }

  // ----- main results ---------------------------------------------------------------------------------------

  /** In every run, disables of nothing included: a stored count lies between 1 and
      20, or 15 for a user who never came as admin, and never exceeds what is held. */
  lemma CountersBounded(steps: seq<Step>, user: string)
    requires Possible(steps)
    ensures var w := WorldAfter(steps);
            && (user in w.counters ==> 1 <= w.counters[user].active <= 20)
            && (user in w.counters && !EverAdmin(w.requests, user) ==> w.counters[user].active <= 15)
            && Active(w.counters, user) <= Held(w.requests, user)
  {
    hide WorldAfter;
    RunIsSound(steps, user);
  }

  /** When only live URLs of a user are disabled, the count is exactly what the user
      holds, so a request is refused exactly when its user already holds the limit. */
  lemma CountersExact(steps: seq<Step>, userID: string, isAdmin: bool)
    requires Possible(steps) && Strays(steps, UserKey(userID)) == 0
    ensures var w, user := WorldAfter(steps), UserKey(userID);
            && Active(w.counters, user) == Held(w.requests, user)
            && (Admits(w.counters, userID, isAdmin) <==> Held(w.requests, user) < Limit(isAdmin))
            && Held(w.requests, user) <= Limit(EverAdmin(w.requests, user))
  {
    hide WorldAfter;
    RunIsSound(steps, UserKey(userID));
  }

  /** When nothing is held, no entry is left behind. */
  lemma NothingLeaks(steps: seq<Step>)
    requires Possible(steps)
    requires forall user :: Held(WorldAfter(steps).requests, user) == 0
    ensures WorldAfter(steps).counters == map[]
  {
    forall user ensures user !in WorldAfter(steps).counters {
      RunIsSound(steps, user);
    }
  }

  /** With stray disables, at every moment of every run: what a user holds is the count
      plus the strays that found an entry, less the requests that ended finding none.
      So each stray admits at most one stream above the limit. */
  lemma HeldIsCountPlusDebt(steps: seq<Step>, user: string)
    requires Possible(steps)
    ensures var w := WorldAfter(steps);
            && Held(w.requests, user) == Active(w.counters, user) + Debt(steps, user)
            && 0 <= Debt(steps, user) <= Strays(steps, user)
            && Held(w.requests, user) <= Limit(EverAdmin(w.requests, user)) + Strays(steps, user)
  {
    hide WorldAfter, Sound, EverAdmin, Limit;
    RunIsSound(steps, user);
    SoundMeans(WorldAfter(steps), user);
  }

  predicate ExactAt(steps: seq<Step>, n: nat, user: string)
    requires n <= |steps|
  {
    Gap(WorldAfter(steps[..n]), user) == 0
  }

  /** The stray finds nothing to take away. */
  predicate Harmless(steps: seq<Step>, n: nat, user: string)
    requires n < |steps|
  {
    IsStray(steps[n], user) ==> user !in WorldAfter(steps[..n]).counters
  }

  /** The count is exact all the way exactly when every stray disable came when its user
      had no entry. */
  lemma {:induction false} ExactAllTheWay(steps: seq<Step>, user: string)
    requires Possible(steps)
    ensures (forall n | 0 <= n <= |steps| :: ExactAt(steps, n, user)) <==>
            (forall n | 0 <= n < |steps| :: Harmless(steps, n, user))
  {
    hide ExactAt, Harmless;
    if steps == [] {
      EmptyIsExact(user);
    } else {
      var last := |steps| - 1;
      var front := steps[..last];
      ExactAllTheWay(front, user);
      forall n | 0 <= n <= last
        ensures ExactAt(steps, n, user) <==> ExactAt(front, n, user)
        ensures n < last ==> (Harmless(steps, n, user) <==> Harmless(front, n, user))
      {
        SamePrefix(steps, n, user);
      }
      if ExactAt(steps, last, user) {
        LastStepExact(steps, user);
      }
    }
  }

  lemma EmptyIsExact(user: string)
    ensures ExactAt([], 0, user)
  {
    EmptyIsSound(user);
  }

  lemma SamePrefix(steps: seq<Step>, n: nat, user: string)
    requires n < |steps|
    ensures var front := steps[..|steps| - 1];
            && (ExactAt(steps, n, user) <==> ExactAt(front, n, user))
            && (n < |front| ==> (Harmless(steps, n, user) <==> Harmless(front, n, user)))
  {
    assert steps[..|steps| - 1][..n] == steps[..n];
  }

  lemma LastStepExact(steps: seq<Step>, user: string)
    requires Possible(steps) && steps != []
    requires ExactAt(steps, |steps| - 1, user)
    ensures ExactAt(steps, |steps|, user) <==> Harmless(steps, |steps| - 1, user)
  {
    var front, last := steps[..|steps| - 1], steps[|steps| - 1];
    assert steps[..|steps|] == steps;
    RunIsSound(front, user);
    StepMovesGap(WorldAfter(front), last, user);
    if EndsRequest(WorldAfter(front), last, user) {
      EndsCounted(WorldAfter(front), last, user);
    }
    hide Sound, Next, Enabled, EndsRequest, Gap, IsStray;
  }

  /** Who holds something is counted, where the count is exact. */
  lemma EndsCounted(w: World, step: Step, user: string)
    requires Enabled(w, step) && EndsRequest(w, step, user) && Gap(w, user) == 0
    ensures user in w.counters
  {
    HeldUpdate(w.requests, step.i, w.requests[step.i].(phase := Ended), user);
  }

  // ----- a run that exceeds the limit -----------------------------------------------------------------------

  /** `n` arrivals of a user who is no administrator. */
  lemma {:induction false} Arrivals(n: nat) returns (steps: seq<Step>)
    requires n <= 15
    ensures Possible(steps) && Strays(steps, "u") == 0
    ensures Held(WorldAfter(steps).requests, "u") == n == Active(WorldAfter(steps).counters, "u")
  {
    steps := [];
    if n > 0 {
      var front := Arrivals(n - 1);
      steps := OneMore(front, Arrive("u", false));
      Admitted(WorldAfter(front));
    }
  }

  lemma OneMore(front: seq<Step>, step: Step) returns (steps: seq<Step>)
    requires Possible(front) && Enabled(WorldAfter(front), step)
    ensures steps == front + [step] && Possible(steps) && WorldAfter(steps) == Next(WorldAfter(front), step)
    ensures forall user :: Strays(steps, user) == Strays(front, user) + if IsStray(step, user) then 1 else 0
  {
    hide Enabled, Next;
    steps := front + [step];
    assert steps[..|steps| - 1] == front;
  }

  lemma TrimmedUser()
    ensures UserKey("u") == "u"
  {
    var lo, hi := TrimSpaceIsSlice("u");
    assert !IsSpace("u"[0]);
  }

  lemma Admitted(w: World)
    requires Active(w.counters, "u") < 15
    ensures var after := Next(w, Arrive("u", false));
            && Held(after.requests, "u") == Held(w.requests, "u") + 1
            && Active(after.counters, "u") == Active(w.counters, "u") + 1
  {
    TrimmedUser();
    HeldAppend(w.requests, Request("u", false, InFlight), "u");
  }

  /** The bound is reached: for every number of stray disables there is a run after which
      a user with the limit of 15 holds that many streams more. */
  lemma {:induction false} StraysExceedLimit(strays: nat) returns (steps: seq<Step>)
    ensures Possible(steps) && Strays(steps, "u") == strays
    ensures Active(WorldAfter(steps).counters, "u") == 15
    ensures Held(WorldAfter(steps).requests, "u") == 15 + strays
  {
    if strays == 0 {
      steps := Arrivals(15);
    } else {
      var front := StraysExceedLimit(strays - 1);
      hide WorldAfter, Possible, Next;
      TrimmedUser();
      var middle := OneMore(front, DisableNothing("u"));
      StrayTakes(WorldAfter(front));
      steps := OneMore(middle, Arrive("u", false));
      Admitted(WorldAfter(middle));
    }
  }

  lemma StrayTakes(w: World)
    requires Active(w.counters, "u") == 15
    ensures var after := Next(w, DisableNothing("u"));
            Active(after.counters, "u") == 14 && Held(after.requests, "u") == Held(w.requests, "u")
  {
    TrimmedUser();
  }
}
