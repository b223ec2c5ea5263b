/** Login sessions of `memoryAuthSessionStore`: 30 minutes idle, 8 hours in all.
    Times are nanoseconds.  A session is keyed by its token: the hash in between is
    taken to be injective.  Every operation carries the time it acts on (the
    caller's `now`, or the wall clock when that is the zero time). */
module AuthSession {
  import opened Options

  const SECOND := 1_000_000_000
  const MILLISECOND := 1_000_000
  const IDLE := 30 * 60 * SECOND
  const ABSOLUTE := 8 * 3600 * SECOND

  datatype Session = Session(
    userID: int,
    ssoSubject: string,
    createdAt: int,
    lastActivity: int,
    expiresAt: int,
    revokedAt: Option<int>)

  type Sessions = map<string, Session>

  datatype Verdict = Active | IdleTimeout | AbsoluteTimeout

  datatype Status = Status(idleRemainingMS: int, absoluteRemainingMS: int)

  datatype StatusResult = Remaining(status: Status) | Refused(verdict: Verdict)

  datatype Op =
    | Create(token: string, userID: int, ssoSubject: string, now: int)
    | Touch(token: string, userID: int, now: int)
    | Revoke(token: string, userID: int, now: int)

  datatype Response = Created(token: string) | ReauthenticationRequired | Touched(verdict: Verdict) | Revoked

  // ----- fingerprints ------------------------------------------------------------------

  const FINGERPRINT_PREFIX := "jwt-sha256:v1:"

  predicate IsHex(c: char) {
    '0' <= c <= '9' || 'a' <= c <= 'f' || 'A' <= c <= 'F'
  }

  predicate IsFingerprint(value: string) {
    && |value| == |FINGERPRINT_PREFIX| + 64
    && value[..|FINGERPRINT_PREFIX|] == FINGERPRINT_PREFIX
    && forall i | |FINGERPRINT_PREFIX| <= i < |value| :: IsHex(value[i])
  }

  /** The prefix and the 64 hexadecimal digits of a SHA-256 hash. */
  lemma FingerprintFormat(value: string)
    ensures IsFingerprint(value) <==>
            && |value| == 78 && value[..14] == "jwt-sha256:v1:"
            && forall i | 14 <= i < 78 :: value[i] in "0123456789abcdefABCDEF"
  {
    forall c ensures IsHex(c) <==> c in "0123456789abcdefABCDEF" {
      HexDigits(c);
    }
    hide IsHex;
  }

  lemma HexDigits(c: char)
    ensures IsHex(c) <==> c in "0123456789abcdefABCDEF"
  {
    assert IsHex(c) ==> c in "0123456789" || c in "abcdef" || c in "ABCDEF";
    assert "0123456789abcdefABCDEF" == "0123456789" + "abcdef" + "ABCDEF";
  }

  predicate Consumed(sessions: Sessions, userID: int, ssoSubject: string) {
    exists t | t in sessions :: sessions[t].userID == userID && sessions[t].ssoSubject == ssoSubject
  }

  // ----- specification of the operations -----------------------------------------------

  function Min(a: int, b: int): int {
    if a < b then a else b
  }

  function NewSession(userID: int, ssoSubject: string, now: int): Session {
    Session(userID, ssoSubject, now, now, now + IDLE, None)
  }

  predicate Owned(sessions: Sessions, token: string, userID: int) {
    token in sessions && sessions[token].userID == userID && sessions[token].revokedAt == None
  }

  function RowVerdict(row: Session, now: int): Verdict {
    if now >= row.createdAt + ABSOLUTE then AbsoluteTimeout
    else if now >= row.expiresAt || now >= row.lastActivity + IDLE then IdleTimeout
    else Active
  }

  function TouchedRow(row: Session, now: int): Session {
    if now > row.lastActivity
    then row.(lastActivity := now, expiresAt := Min(now + IDLE, row.createdAt + ABSOLUTE))
    else row
  }

  function TouchVerdict(sessions: Sessions, token: string, userID: int, now: int): Verdict {
    if Owned(sessions, token, userID) then RowVerdict(sessions[token], now) else IdleTimeout
  }

  function Apply(sessions: Sessions, op: Op): (Sessions, Response) {
    match op
    case Create(token, userID, subject, now) =>
      if IsFingerprint(subject) && Consumed(sessions, userID, subject) then (sessions, ReauthenticationRequired)
      else (sessions[token := NewSession(userID, subject, now)], Response.Created(token))
    case Touch(token, userID, now) =>
      var verdict := TouchVerdict(sessions, token, userID, now);
      (if verdict == Active then sessions[token := TouchedRow(sessions[token], now)] else sessions, Touched(verdict))
    case Revoke(token, userID, now) =>
      (if Owned(sessions, token, userID) then sessions[token := sessions[token].(revokedAt := Some(now))] else sessions,
       Revoked)
  }

  /** `Duration.Milliseconds`: division that truncates toward zero. */
  function Milliseconds(d: int): int {
    if d >= 0 then d / MILLISECOND else -((-d) / MILLISECOND)
  }

  function StatusOf(sessions: Sessions, token: string, userID: int, now: int): StatusResult {
    if !Owned(sessions, token, userID) then Refused(IdleTimeout)
    else
      var row := sessions[token];
      var status := Status(Min(Milliseconds(row.expiresAt - now), Milliseconds(row.lastActivity + IDLE - now)),
                           Milliseconds(row.createdAt + ABSOLUTE - now));
      if status.absoluteRemainingMS <= 0 then Refused(AbsoluteTimeout)
      else if status.idleRemainingMS <= 0 then Refused(IdleTimeout)
      else Remaining(status)
  }

  // ----- the store -------------------------------------------------------------------------

  class MemoryAuthSessionStore {
    var sessions: Sessions

    constructor ()
      ensures sessions == map[]
    {
      sessions := map[];
    }

    method CreateAuthSession(token: string, userID: int, ssoSubject: string, now: int) returns (r: Response)
      modifies this
      ensures (sessions, r) == Apply(old(sessions), Create(token, userID, ssoSubject, now))
    {
      if IsFingerprint(ssoSubject) {
        var unseen := sessions.Keys;
        while unseen != {}
          invariant unseen <= sessions.Keys
          invariant forall t | t in sessions.Keys - unseen ::
                      sessions[t].userID != userID || sessions[t].ssoSubject != ssoSubject
        {
          var t :| t in unseen;
          if sessions[t].userID == userID && sessions[t].ssoSubject == ssoSubject {
            return ReauthenticationRequired;
          }
          unseen := unseen - {t};
        }
      }
      sessions := sessions[token := Session(userID, ssoSubject, now, now, now + IDLE, None)];
      return Response.Created(token);
    }

    method TouchAuthSession(token: string, userID: int, now: int) returns (r: Response)
      modifies this
      ensures (sessions, r) == Apply(old(sessions), Touch(token, userID, now))
    {
      if token !in sessions || sessions[token].userID != userID || sessions[token].revokedAt != None {
        return Touched(IdleTimeout);
      }
      var session := sessions[token];
      if now >= session.createdAt + ABSOLUTE {
        return Touched(AbsoluteTimeout);
      }
      if now >= session.expiresAt || now >= session.lastActivity + IDLE {
        return Touched(IdleTimeout);
      }
      if now > session.lastActivity {
        session := session.(lastActivity := now, expiresAt := now + IDLE);
        var deadline := session.createdAt + ABSOLUTE;
        if session.expiresAt > deadline {
          session := session.(expiresAt := deadline);
        }
      }
      sessions := sessions[token := session];
      return Touched(Active);
    }

    method RevokeAuthSession(token: string, userID: int, now: int)
      modifies this
      ensures sessions == Apply(old(sessions), Revoke(token, userID, now)).0
    {
      if token in sessions && sessions[token].userID == userID && sessions[token].revokedAt == None {
        sessions := sessions[token := sessions[token].(revokedAt := Some(now))];
      }
    }

    method GetAuthSessionStatus(token: string, userID: int, now: int) returns (r: StatusResult)
      ensures r == StatusOf(sessions, token, userID, now)
    {
      if token !in sessions || sessions[token].userID != userID || sessions[token].revokedAt != None {
        return Refused(IdleTimeout);
      }
      var row := sessions[token];
      var remaining := Milliseconds(row.expiresAt - now);
      var absolute := Milliseconds(row.createdAt + ABSOLUTE - now);
      var idle := Milliseconds(row.lastActivity + IDLE - now);
      if idle < remaining {
        remaining := idle;
      }
      if absolute <= 0 {
        return Refused(AbsoluteTimeout);
      }
      if remaining <= 0 {
        return Refused(IdleTimeout);
      }
      return Remaining(Status(remaining, absolute));
    }
  }

  // ----- runs ----------------------------------------------------------------------------------

  /** The sessions after the first `n` operations, starting from none. */
  function Exec(ops: seq<Op>, n: nat): Sessions
    requires n <= |ops|
  {
    if n == 0 then map[] else Apply(Exec(ops, n - 1), ops[n - 1]).0
  }

  function ResponseAt(ops: seq<Op>, i: nat): Response
    requires i < |ops|
  {
    Apply(Exec(ops, i), ops[i]).1
  }

  /** The row invariant on which the refinement of the SQL store rests. */
  predicate RowOK(row: Session) {
    && row.createdAt <= row.lastActivity < row.createdAt + ABSOLUTE
    && row.expiresAt == Min(row.lastActivity + IDLE, row.createdAt + ABSOLUTE)
  }

  ghost predicate RowsOK(sessions: Sessions) {
    forall t | t in sessions :: RowOK(sessions[t])
  }

  lemma {:induction false} ReachableRowsOK(ops: seq<Op>, n: nat)
    requires n <= |ops|
    ensures RowsOK(Exec(ops, n))
  {
    if n > 0 {
      ReachableRowsOK(ops, n - 1);
    }
  }

  // ----- what a touch means, in terms of the history alone ---------------------------------------

  /** Among the first `n` operations, number `j` is the last successful creation of `token`. */
  ghost predicate Birth(ops: seq<Op>, n: nat, token: string, j: nat) {
    && j < n <= |ops| && CreatesAt(ops, token, j)
    && forall k | j < k < n :: !CreatesAt(ops, token, k)
  }

  predicate CreatesAt(ops: seq<Op>, token: string, j: nat)
    requires j < |ops|
  {
    ops[j].Create? && ops[j].token == token && ResponseAt(ops, j).Created?
  }

  /** Operation `m` is the creation itself or a later touch that was answered `Active`. */
  ghost predicate Activity(ops: seq<Op>, n: nat, token: string, j: nat, m: int)
    requires n <= |ops|
  {
    j <= m < n && (m == j || (ops[m].Touch? && ops[m].token == token && ResponseAt(ops, m) == Touched(Active)))
  }

  ghost predicate RevokedSince(ops: seq<Op>, n: nat, token: string, j: nat)
    requires j < n <= |ops|
  {
    exists k | j < k < n :: RevokesAt(ops, token, ops[j].userID, k)
  }

  predicate RevokesAt(ops: seq<Op>, token: string, userID: int, k: nat)
    requires k < |ops|
  {
    ops[k].Revoke? && ops[k].token == token && ops[k].userID == userID
  }

  /** The stored row says what the history says. */
  ghost predicate RowMatches(ops: seq<Op>, n: nat, token: string, j: nat, row: Session)
    requires Birth(ops, n, token, j)
  {
    && row.userID == ops[j].userID && row.ssoSubject == ops[j].ssoSubject && row.createdAt == ops[j].now
    && (row.revokedAt != None <==> RevokedSince(ops, n, token, j))
    && (exists m :: Activity(ops, n, token, j, m) && ops[m].now == row.lastActivity)
    && (forall m | Activity(ops, n, token, j, m) :: ops[m].now <= row.lastActivity)
  }

  lemma {:induction false} History(ops: seq<Op>, n: nat, token: string) returns (j: int)
    requires n <= |ops|
    ensures token !in Exec(ops, n) ==> forall k :: !Birth(ops, n, token, k)
    ensures token in Exec(ops, n) ==>
              0 <= j && Birth(ops, n, token, j) && RowMatches(ops, n, token, j, Exec(ops, n)[token])
  {
    if n == 0 {
      j := -1;
    } else {
      j := History(ops, n - 1, token);
      if CreatesAt(ops, token, n - 1) {
        j := n - 1;
        assert Activity(ops, n, token, n - 1, n - 1);
      } else if token in Exec(ops, n) {
        HistoryStep(ops, n, token, j);
      } else {
        forall k: nat
          ensures !Birth(ops, n, token, k)
        {
          assert !Birth(ops, n - 1, token, k);
        }
      }
    }
  }

  /** What one operation does to the row of a session that it does not create. */
  lemma RowAfter(sessions: Sessions, op: Op, token: string)
    requires token in sessions && !(op.Create? && op.token == token && Apply(sessions, op).1.Created?)
    ensures token in Apply(sessions, op).0
    ensures var row, after := sessions[token], Apply(sessions, op).0[token];
            && after.userID == row.userID && after.ssoSubject == row.ssoSubject && after.createdAt == row.createdAt
            && after.lastActivity == (
                 if op.Touch? && op.token == token && Apply(sessions, op).1 == Touched(Active) &&
                    op.now > row.lastActivity
                 then op.now else row.lastActivity)
            && (after.revokedAt != None <==>
                  row.revokedAt != None || (op.Revoke? && op.token == token && op.userID == row.userID))
  {
    hide IsFingerprint, Consumed, RowVerdict;
  }

  lemma HistoryStep(ops: seq<Op>, n: nat, token: string, j: nat)
    requires 0 < n <= |ops| && !CreatesAt(ops, token, n - 1)
    requires Birth(ops, n - 1, token, j) && token in Exec(ops, n - 1)
    requires RowMatches(ops, n - 1, token, j, Exec(ops, n - 1)[token])
    ensures Birth(ops, n, token, j) && token in Exec(ops, n) && RowMatches(ops, n, token, j, Exec(ops, n)[token])
  {
    var before, row, op := Exec(ops, n - 1)[token], Exec(ops, n)[token], ops[n - 1];
    RevokedStep(ops, n, token, j);
    RowAfter(Exec(ops, n - 1), op, token);
    hide Apply;
    var m :| Activity(ops, n - 1, token, j, m) && ops[m].now == before.lastActivity;
    assert Activity(ops, n, token, j, m);
    if Activity(ops, n, token, j, n - 1) {
      assert ops[m].now == row.lastActivity || ops[n - 1].now == row.lastActivity;
    } else {
      assert row.lastActivity == before.lastActivity;
    }
    forall i | Activity(ops, n, token, j, i)
      ensures ops[i].now <= row.lastActivity
    {
      assert i < n - 1 ==> Activity(ops, n - 1, token, j, i);
    }
  }

  lemma RevokedStep(ops: seq<Op>, n: nat, token: string, j: nat)
    requires j < n - 1 < |ops|
    ensures RevokedSince(ops, n, token, j) <==>
            RevokedSince(ops, n - 1, token, j) || RevokesAt(ops, token, ops[j].userID, n - 1)
  {
  }

  const MINUTES_30 := 1_800_000_000_000
  const HOURS_8 := 28_800_000_000_000

  /** Told by the history alone, in every run and whatever the clock does: a touch
      succeeds exactly when the token was created for this user and not revoked
      since, the creation is less than 8 hours ago, and the creation or some
      successful touch is less than 30 minutes ago. */
  lemma TouchMeaning(ops: seq<Op>, n: nat, token: string, userID: int, now: int)
    requires n <= |ops|
    ensures TouchVerdict(Exec(ops, n), token, userID, now) == Active <==>
            exists j: nat, m: nat ::
              && Birth(ops, n, token, j) && ops[j].userID == userID && !RevokedSince(ops, n, token, j)
              && Activity(ops, n, token, j, m)
              && now < ops[j].now + HOURS_8 && now < ops[m].now + MINUTES_30
  {
    var birth := History(ops, n, token);
    ReachableRowsOK(ops, n);
    if token in Exec(ops, n) {
      var row := Exec(ops, n)[token];
      var last :| Activity(ops, n, token, birth, last) && ops[last].now == row.lastActivity;
      forall j: nat, m: nat | Birth(ops, n, token, j) && Activity(ops, n, token, j, m)
        ensures j == birth && ops[m].now <= row.lastActivity
      {
        BirthUnique(ops, n, token, j, birth);
      }
    }
  }

  /** A refusal reports the absolute timeout exactly when the token was created for this
      user 8 hours ago or earlier and not revoked since; every other refusal is idle. */
  lemma RefusalMeaning(ops: seq<Op>, n: nat, token: string, userID: int, now: int)
    requires n <= |ops|
    ensures TouchVerdict(Exec(ops, n), token, userID, now) == AbsoluteTimeout <==>
            exists j: nat ::
              && Birth(ops, n, token, j) && ops[j].userID == userID && !RevokedSince(ops, n, token, j)
              && now >= ops[j].now + HOURS_8
  {
    var birth := History(ops, n, token);
    if token in Exec(ops, n) {
      forall j: nat | Birth(ops, n, token, j) ensures j == birth {
        BirthUnique(ops, n, token, j, birth);
      }
    }
  }

  /** Operation `m` is the latest activity of the session born at `j`. */
  ghost predicate LatestActivity(ops: seq<Op>, n: nat, token: string, j: nat, m: nat)
    requires n <= |ops|
  {
    Activity(ops, n, token, j, m) && forall i | Activity(ops, n, token, j, i) :: ops[i].now <= ops[m].now
  }

  /** The whole milliseconds up to a deadline; 0 or less from the last one on. */
  predicate Left(deadline: int, now: int, ms: int) {
    ms * 1_000_000 <= deadline - now < (ms + 1) * 1_000_000
  }

  /** Told by the history alone: a status is given exactly while a millisecond is left, and
      tells the time to 30 minutes after the last activity, or to the end of the 8 hours
      if that is sooner, and the time to the end of the 8 hours. */
  lemma StatusMeaning(ops: seq<Op>, n: nat, token: string, userID: int, now: int, idle: int, absolute: int)
    requires n <= |ops|
    ensures StatusOf(Exec(ops, n), token, userID, now) == Remaining(Status(idle, absolute)) <==>
            exists j: nat, m: nat ::
              && Birth(ops, n, token, j) && ops[j].userID == userID && !RevokedSince(ops, n, token, j)
              && LatestActivity(ops, n, token, j, m)
              && idle > 0 && absolute > 0 && Left(ops[j].now + HOURS_8, now, absolute)
              && Left(Min(ops[m].now + MINUTES_30, ops[j].now + HOURS_8), now, idle)
  {
    var birth := History(ops, n, token);
    ReachableRowsOK(ops, n);
    if token in Exec(ops, n) {
      var row := Exec(ops, n)[token];
      hide Apply, StatusOf, Left, RowOK;
      var last :| Activity(ops, n, token, birth, last) && ops[last].now == row.lastActivity;
      assert LatestActivity(ops, n, token, birth, last);
      forall j: nat, m: nat | Birth(ops, n, token, j) && LatestActivity(ops, n, token, j, m)
        ensures j == birth && ops[m].now == row.lastActivity
      {
        BirthUnique(ops, n, token, j, birth);
      }
      hide Exec, Birth, Activity, LatestActivity, RevokedSince;
      StatusOfRow(Exec(ops, n), token, userID, now, idle, absolute);
    }
  }

  lemma StatusOfRow(sessions: Sessions, token: string, userID: int, now: int, idle: int, absolute: int)
    requires token in sessions && RowOK(sessions[token])
    ensures var row := sessions[token];
            StatusOf(sessions, token, userID, now) == Remaining(Status(idle, absolute)) <==>
            && row.userID == userID && row.revokedAt == None && idle > 0 && absolute > 0
            && Left(row.createdAt + HOURS_8, now, absolute)
            && Left(Min(row.lastActivity + MINUTES_30, row.createdAt + HOURS_8), now, idle)
  {
    var row := sessions[token];
    LeftIs(row.createdAt + ABSOLUTE, now, absolute);
    LeftIs(row.expiresAt, now, idle);
    MillisecondsMonotone(row.expiresAt - now, row.lastActivity + IDLE - now);
    MillisecondsPositive(row.createdAt + ABSOLUTE - now);
    MillisecondsPositive(row.expiresAt - now);
    hide Milliseconds, Left;
  }

  lemma LeftIs(deadline: int, now: int, ms: int)
    ensures ms > 0 ==> (Left(deadline, now, ms) <==> Milliseconds(deadline - now) == ms)
  {
  }

  lemma MillisecondsMonotone(d: int, e: int)
    requires d <= e
    ensures Milliseconds(d) <= Milliseconds(e)
  {
  }

  /** Told by the history alone: a creation is refused exactly when it is one with a
      fingerprint that the last creation of some token used for the same user. */
  lemma RefusedCreation(ops: seq<Op>, n: nat)
    requires n < |ops| && ops[n].Create?
    ensures ResponseAt(ops, n) == ReauthenticationRequired <==>
            && IsFingerprint(ops[n].ssoSubject)
            && exists token, j: nat ::
                 Birth(ops, n, token, j) && ops[j].userID == ops[n].userID && ops[j].ssoSubject == ops[n].ssoSubject
  {
    var sessions := Exec(ops, n);
    hide IsFingerprint;
    if t :| t in sessions && sessions[t].userID == ops[n].userID && sessions[t].ssoSubject == ops[n].ssoSubject {
      var j := History(ops, n, t);
    }
    if token, j: nat :| Birth(ops, n, token, j) && ops[j].userID == ops[n].userID
                        && ops[j].ssoSubject == ops[n].ssoSubject {
      var k := History(ops, n, token);
      BirthUnique(ops, n, token, j, k);
      assert sessions[token].userID == ops[n].userID && sessions[token].ssoSubject == ops[n].ssoSubject;
    }
  }

  lemma BirthUnique(ops: seq<Op>, n: nat, token: string, j: nat, k: nat)
    requires Birth(ops, n, token, j) && Birth(ops, n, token, k)
    ensures j == k
  {
  }

  // ----- safety over runs ----------------------------------------------------------------------------

  /** No operation between `i` and `n` creates `token`. */
  predicate NotRecreated(ops: seq<Op>, token: string, i: nat, n: nat)
    requires i <= n <= |ops|
  {
    forall k | i <= k < n :: !CreatesAt(ops, token, k)
  }

  /** From `i` on, a session never gets younger, never regains a lost deadline, and
      stays revoked once it is revoked, even if the clock runs backwards. */
  lemma {:induction false} NeverRegresses(ops: seq<Op>, token: string, i: nat, n: nat)
    requires i <= n <= |ops| && token in Exec(ops, i) && NotRecreated(ops, token, i, n)
    ensures token in Exec(ops, n)
    ensures var before, after := Exec(ops, i)[token], Exec(ops, n)[token];
            && after.userID == before.userID && after.ssoSubject == before.ssoSubject
            && after.createdAt == before.createdAt
            && after.lastActivity >= before.lastActivity && after.expiresAt >= before.expiresAt
            && (before.revokedAt != None ==> after == before)
  {
    if i < n {
      NeverRegresses(ops, token, i, n - 1);
      ReachableRowsOK(ops, n - 1);
      assert !CreatesAt(ops, token, n - 1);
      RowStep(Exec(ops, n - 1), ops[n - 1], token);
    }
  }

  predicate Recreates(sessions: Sessions, op: Op, token: string) {
    op.Create? && op.token == token && Apply(sessions, op).1.Created?
  }

  lemma RowStep(sessions: Sessions, op: Op, token: string)
    requires token in sessions && RowOK(sessions[token]) && !Recreates(sessions, op, token)
    ensures token in Apply(sessions, op).0
    ensures var before, after := sessions[token], Apply(sessions, op).0[token];
            && after.userID == before.userID && after.ssoSubject == before.ssoSubject
            && after.createdAt == before.createdAt
            && after.lastActivity >= before.lastActivity && after.expiresAt >= before.expiresAt
            && (before.revokedAt != None ==> after == before)
  {
  }

  /** A refused touch stays refused at any later time, whatever operation comes in between. */
  lemma RefusedStep(sessions: Sessions, op: Op, token: string, userID: int, later: int)
    requires !Recreates(sessions, op, token) && op.now <= later
    requires TouchVerdict(sessions, token, userID, op.now) != Active
    ensures TouchVerdict(Apply(sessions, op).0, token, userID, later) != Active
  {
  }

  /** Under a clock that never runs backwards, a refused session is refused forever. */
  lemma {:induction false} RefusedForever(ops: seq<Op>, token: string, userID: int, i: nat, n: nat)
    requires i < n < |ops| && NotRecreated(ops, token, i, n)
    requires ops[i] == Touch(token, userID, ops[i].now) && ResponseAt(ops, i) != Touched(Active)
    requires ops[n] == Touch(token, userID, ops[n].now)
    requires forall j, k | i <= j < k <= n :: ops[j].now <= ops[k].now
    ensures ResponseAt(ops, n) != Touched(Active)
  {
    StaysRefused(ops, token, userID, i, n);
  }

  lemma {:induction false} StaysRefused(ops: seq<Op>, token: string, userID: int, i: nat, n: nat)
    requires i < n < |ops| && NotRecreated(ops, token, i, n)
    requires ops[i] == Touch(token, userID, ops[i].now) && ResponseAt(ops, i) != Touched(Active)
    requires forall j, k | i <= j < k <= n :: ops[j].now <= ops[k].now
    ensures TouchVerdict(Exec(ops, n), token, userID, ops[n].now) != Active
  {
    if i + 1 < n {
      StaysRefused(ops, token, userID, i, n - 1);
    }
    assert ops[n - 1].now <= ops[n].now && !CreatesAt(ops, token, n - 1);
    RefusedStep(Exec(ops, n - 1), ops[n - 1], token, userID, ops[n].now);
  }

  /** With fresh tokens, a credential fingerprint opens at most one session per
      user, in any run: not even after that session expired or was revoked. */
  lemma {:induction false} FingerprintUsedOnce(ops: seq<Op>, i: nat, j: nat)
    requires i < j < |ops| && ops[i].Create? && ops[j].Create?
    requires ResponseAt(ops, i).Created? && IsFingerprint(ops[i].ssoSubject)
    requires ops[i].userID == ops[j].userID && ops[i].ssoSubject == ops[j].ssoSubject
    requires forall k | i < k < j && ops[k].Create? :: ops[k].token != ops[i].token
    ensures ResponseAt(ops, j) == ReauthenticationRequired
  {
    NeverRegresses(ops, ops[i].token, i + 1, j);
    assert Exec(ops, j)[ops[i].token].userID == ops[i].userID;
  }

  /** The status endpoint agrees with touch as long as at least one millisecond
      remains. */
  lemma StatusAgreesWithTouch(sessions: Sessions, token: string, userID: int, now: int)
    requires RowsOK(sessions)
    ensures StatusOf(sessions, token, userID, now).Remaining? <==>
            && TouchVerdict(sessions, token, userID, now) == Active
            && sessions[token].expiresAt - now >= MILLISECOND
    ensures StatusOf(sessions, token, userID, now) == Refused(AbsoluteTimeout) <==>
            Owned(sessions, token, userID) && sessions[token].createdAt + ABSOLUTE - now < MILLISECOND
  {
    if Owned(sessions, token, userID) {
      var row := sessions[token];
      MillisecondsPositive(row.expiresAt - now);
      MillisecondsPositive(row.lastActivity + IDLE - now);
      MillisecondsPositive(row.createdAt + ABSOLUTE - now);
    }
  }

  lemma MillisecondsPositive(d: int)
    ensures Milliseconds(d) > 0 <==> d >= MILLISECOND
  {
  }
}
