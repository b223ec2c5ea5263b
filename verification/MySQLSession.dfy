/** Login sessions of `MySQLStore`: the session statements over a table in
    milliseconds (`utc_timestamp(3)`), each statement reading the database clock
    anew, and their refinement of the in-memory store. */
module MySQLSession {
  import opened Options
  import opened AuthSession
  import opened Strings

  const IDLE_MS := 30 * 60 * 1000
  const ABSOLUTE_MS := 8 * 3600 * 1000

  datatype Row = Row(
    userID: int,
    ssoSubject: string,
    createdAt: int,
    lastActivityAt: int,
    expiresAt: int,
    revokedAt: Option<int>)

  /** `session_token_hash` is a unique key. */
  type Table = map<string, Row>

  function Greatest(a: int, b: int): int {
    if a > b then a else b
  }

  // ----- the statements -----------------------------------------------------------------

  predicate RowValid(row: Row, userID: int, clock: int) {
    && row.userID == userID && row.revokedAt == None
    && row.expiresAt > clock
    && row.lastActivityAt > clock - IDLE_MS
    && row.createdAt > clock - ABSOLUTE_MS
  }

  function UpdatedRow(row: Row, clock: int): Row {
    row.(expiresAt := Min(row.createdAt + ABSOLUTE_MS, Greatest(row.lastActivityAt, clock) + IDLE_MS),
         lastActivityAt := Greatest(row.lastActivityAt, clock))
  }

  function InsertSQL(table: Table, token: string, userID: int, subject: string, clock: int): Table {
    table[token := Row(userID, subject, clock, clock, clock + IDLE_MS, None)]
  }

  /** The collation of the column does not tell upper from lower case. */
  predicate ConsumedSQL(table: Table, userID: int, subject: string) {
    exists t | t in table :: SpelledLike(table[t], userID, subject)
  }

  predicate SpelledLike(row: Row, userID: int, subject: string) {
    row.userID == userID && FoldCase(row.ssoSubject) == FoldCase(subject)
  }

  /** Whether a session is created: without a fingerprint always, with one if the user row
      is enabled and no row of the user consumed it. */
  predicate AcceptsSQL(table: Table, userID: int, ssoSubject: string, enabled: bool) {
    var subject := TrimSpace(ssoSubject);
    IsFingerprint(subject) ==> enabled && !ConsumedSQL(table, userID, subject)
  }

  /** The number of affected rows counts the rows that changed, not those that matched. */
  function TouchSQL(table: Table, token: string, userID: int, clock: int): (Table, nat) {
    if token in table && RowValid(table[token], userID, clock) && UpdatedRow(table[token], clock) != table[token]
    then (table[token := UpdatedRow(table[token], clock)], 1)
    else (table, 0)
  }

  predicate ValidSQL(table: Table, token: string, userID: int, clock: int) {
    token in table && RowValid(table[token], userID, clock)
  }

  predicate AbsoluteExpiredSQL(table: Table, token: string, userID: int, clock: int) {
    && token in table && table[token].userID == userID && table[token].revokedAt == None
    && table[token].createdAt <= clock - ABSOLUTE_MS
  }

  function RevokeSQL(table: Table, token: string, userID: int, now: int): Table {
    if token in table && table[token].userID == userID && table[token].revokedAt == None
    then table[token := table[token].(revokedAt := Some(now))]
    else table
  }

  /** `div` truncates toward zero; the operands are whole milliseconds, given in
      microseconds. */
  function StatusSQL(table: Table, token: string, userID: int, clock: int): StatusResult {
    if token !in table || table[token].userID != userID then Refused(IdleTimeout)
    else
      var row := table[token];
      var idle := Min(row.expiresAt, row.lastActivityAt + IDLE_MS) - clock;
      var absolute := row.createdAt + ABSOLUTE_MS - clock;
      if absolute <= 0 then Refused(AbsoluteTimeout)
      else if row.revokedAt != None || idle <= 0 then Refused(IdleTimeout)
      else Remaining(Status(idle, absolute))
  }

  // ----- the touch transaction ---------------------------------------------------------------

  /** The verdict and the table after the transaction, its statements reading the
      clock at `t1`, `t2` and `t3`. */
  function TouchTransaction(table: Table, token: string, userID: int, t1: int, t2: int, t3: int): (Verdict, Table) {
    var (updated, affected) := TouchSQL(table, token, userID, t1);
    if affected == 1 then (Active, updated)
    else if ValidSQL(table, token, userID, t2) then (Active, table)
    else if AbsoluteExpiredSQL(table, token, userID, t3) then (AbsoluteTimeout, table)
    else (IdleTimeout, table)
  }

  /** The database call that fails, if any; the deferred rollback undoes the rest. */
  datatype Fault = NoFault | BeginFails | UpdateFails | CommitFails | ValidFails | AbsoluteFails

  datatype CreateFault = AllWell | NoTransaction | LockLost | LookupLost | InsertLost | CommitLost

  datatype CreateResult = Inserted | Reauthenticate | NotCreated

  datatype TouchResult = Verdict(verdict: Verdict) | DatabaseError

  class MySQLStore {
    var table: Table

    constructor ()
      ensures table == map[]
    {
      table := map[];
    }

    /** `enabled` is whether the user row to lock exists and is enabled. */
    method CreateAuthSession(token: string, userID: int, ssoSubject: string, enabled: bool, clock: int,
                             fault: CreateFault)
      returns (r: CreateResult)
      modifies this
      ensures var subject := TrimSpace(ssoSubject);
              var accepts := AcceptsSQL(old(table), userID, ssoSubject, enabled);
              && (r == NotCreated <==>
                    if IsFingerprint(subject) then
                      || fault == NoTransaction || fault == LockLost
                      || (enabled && fault == LookupLost)
                      || (accepts && (fault == InsertLost || fault == CommitLost))
                    else fault == InsertLost)
              && (r == Inserted <==> accepts && r != NotCreated)
              && (r == Reauthenticate <==> !accepts && r != NotCreated)
              && table == if r == Inserted then InsertSQL(old(table), token, userID, subject, clock) else old(table)
      ensures fault == AllWell ==>
                table == SQLApply(old(table), CreateTx(token, userID, ssoSubject, enabled, clock))
    {
      var subject := TrimSpace(ssoSubject);
      if IsFingerprint(subject) {
        if fault == NoTransaction || fault == LockLost {
          return NotCreated;
        }
        if !enabled {
          return Reauthenticate;
        }
        if fault == LookupLost {
          return NotCreated;
        }
        if ConsumedSQL(table, userID, subject) {
          return Reauthenticate;
        }
        var rollback := table;
        if fault == InsertLost {
          return NotCreated;
        }
        table := InsertSQL(table, token, userID, subject, clock);
        if fault == CommitLost {
          table := rollback;
          return NotCreated;
        }
        return Inserted;
      }
      if fault == InsertLost {
        return NotCreated;
      }
      table := InsertSQL(table, token, userID, subject, clock);
      return Inserted;
    }

    method TouchAuthSession(token: string, userID: int, t1: int, t2: int, t3: int,
                            fault: Fault) returns (r: TouchResult)
      modifies this
      ensures var (verdict, touched) := TouchTransaction(old(table), token, userID, t1, t2, t3);
              && (r == DatabaseError <==>
                    || fault == BeginFails || fault == UpdateFails
                    || (fault == CommitFails && verdict == Active)
                    || (fault == ValidFails && touched == old(table))
                    || (fault == AbsoluteFails && verdict != Active))
              && (r != DatabaseError ==> r == Verdict(verdict) && table == touched)
              && (r == DatabaseError ==> table == old(table))
    {
      if fault == BeginFails {
        return DatabaseError;
      }
      var rollback := table;
      if fault == UpdateFails {
        return DatabaseError;
      }
      var (updated, affected) := TouchSQL(table, token, userID, t1);
      table := updated;
      if affected == 1 {
        if fault == CommitFails {
          table := rollback;
          return DatabaseError;
        }
        return Verdict(Active);
      }
      // The hash is a unique key, so nothing but 0 is left.
      if fault == ValidFails {
        table := rollback;
        return DatabaseError;
      }
      if !ValidSQL(table, token, userID, t2) {
        table := rollback;
        if fault == AbsoluteFails {
          return DatabaseError;
        }
        if AbsoluteExpiredSQL(table, token, userID, t3) {
          return Verdict(AbsoluteTimeout);
        }
        return Verdict(IdleTimeout);
      }
      if fault == CommitFails {
        table := rollback;
        return DatabaseError;
      }
      return Verdict(Active);
    }

    /** Nothing is answered when the query fails; see `StatusAgreement` for the answer. */
    method GetAuthSessionStatus(token: string, userID: int, clock: int, works: bool) returns (r: Option<StatusResult>)
      ensures r == if works then Some(StatusSQL(table, token, userID, clock)) else None
    {
      if !works {
        return None;
      }
      var answer := QueryStatus(token, userID, clock);
      return Some(answer);
    }

    method QueryStatus(token: string, userID: int, clock: int) returns (r: StatusResult)
      ensures r == StatusSQL(table, token, userID, clock)
    {
      if token !in table || table[token].userID != userID {
        return Refused(IdleTimeout);
      }
      var row := table[token];
      var idle := Min(row.expiresAt, row.lastActivityAt + IDLE_MS) - clock;
      var absolute := row.createdAt + ABSOLUTE_MS - clock;
      if absolute <= 0 {
        return Refused(AbsoluteTimeout);
      }
      if row.revokedAt != None || idle <= 0 {
        return Refused(IdleTimeout);
      }
      return Remaining(Status(idle, absolute));
    }

    /** A live session of the user gets the revocation time and is refused from then on;
        a first revocation is final, no other row is touched, and none if the UPDATE fails. */
    method RevokeAuthSession(token: string, userID: int, now: int, works: bool) returns (ok: bool)
      modifies this
      ensures ok == works && (!works ==> table == old(table))
      ensures table.Keys == old(table).Keys
      ensures forall t | t in table && t != token :: table[t] == old(table)[t]
      ensures works && token in table ==>
                table[token] == if old(table)[token].userID == userID && old(table)[token].revokedAt == None
                                then old(table)[token].(revokedAt := Some(now)) else old(table)[token]
      ensures works && token in table && table[token].userID == userID ==>
                forall clock :: !RowValid(table[token], userID, clock)
      ensures works ==> table == SQLApply(old(table), RevokeRow(token, userID, now))
    {
      if works {
        table := RevokeSQL(table, token, userID, now);
      }
      return works;
    }
  }

  // ----- refinement of the in-memory store ------------------------------------------------------

  function Scaled(row: Row): Session {
    Session(row.userID, row.ssoSubject, row.createdAt * MILLISECOND, row.lastActivityAt * MILLISECOND,
            row.expiresAt * MILLISECOND,
            if row.revokedAt == None then None else Some(row.revokedAt.value * MILLISECOND))
  }

  /** The in-memory sessions a table stands for. */
  function Abstract(table: Table): Sessions {
    map t | t in table :: Scaled(table[t])
  }

  ghost predicate TableOK(table: Table) {
    forall t | t in table :: RowOK(Scaled(table[t]))
  }

  /** With the clock running forward between the statements, the transaction acts
      like one in-memory touch at a single instant: at the UPDATE when it answers
      `Active`, at the last SELECT when it refuses.  It returns the same verdict and
      leaves the same sessions, also when the UPDATE matches a row without changing
      it. */
  lemma TouchRefines(table: Table, token: string, userID: int, t1: int, t2: int, t3: int)
    requires TableOK(table) && t1 <= t2 <= t3
    ensures var (verdict, after) := TouchTransaction(table, token, userID, t1, t2, t3);
            var t := if verdict == Active then t1 else t3;
            && verdict == TouchVerdict(Abstract(table), token, userID, t * MILLISECOND)
            && Abstract(after) == Apply(Abstract(table), Touch(token, userID, t * MILLISECOND)).0
            && TableOK(after)
  {
    if token in table {
      var row := table[token];
      RowVerdictScales(row, userID, t1);
      RowVerdictScales(row, userID, t2);
      RowVerdictScales(row, userID, t3);
      UpdateScales(row, t1);
      if RowValid(row, userID, t1) {
        UpdateKeepsOK(row, userID, t1);
      }
    }
    var (verdict, after) := TouchTransaction(table, token, userID, t1, t2, t3);
    var t := if verdict == Active then t1 else t3;
    assert Abstract(after) == Apply(Abstract(table), Touch(token, userID, t * MILLISECOND)).0;
  }

  lemma RowVerdictScales(row: Row, userID: int, clock: int)
    ensures RowValid(row, userID, clock) <==>
            row.userID == userID && row.revokedAt == None && RowVerdict(Scaled(row), clock * MILLISECOND) == Active
    ensures row.createdAt <= clock - ABSOLUTE_MS <==> RowVerdict(Scaled(row), clock * MILLISECOND) == AbsoluteTimeout
  {
  }

  lemma UpdateScales(row: Row, clock: int)
    requires RowOK(Scaled(row))
    ensures Scaled(UpdatedRow(row, clock)) == TouchedRow(Scaled(row), clock * MILLISECOND)
  {
  }

  lemma UpdateKeepsOK(row: Row, userID: int, clock: int)
    requires RowOK(Scaled(row)) && RowValid(row, userID, clock)
    ensures RowOK(Scaled(UpdatedRow(row, clock)))
  {
  }

  // ----- any clock readings ------------------------------------------------------------------------

  /** Some in-memory touch at `t` returns the same answer and leaves the same sessions. */
  predicate MatchedAt(table: Table, token: string, userID: int, t1: int, t2: int, t3: int, t: int) {
    var (verdict, after) := TouchTransaction(table, token, userID, t1, t2, t3);
    Apply(Abstract(table), Touch(token, userID, t)) == (Abstract(after), Touched(verdict))
  }

  predicate LiveRow(table: Table, token: string, userID: int) {
    token in table && table[token].userID == userID && table[token].revokedAt == None
  }

  /** The UPDATE of the transaction changes the row. */
  predicate Updates(row: Row, t1: int) {
    row.lastActivityAt < t1 < row.expiresAt
  }

  /** The row's deadline is the absolute one, the UPDATE changes nothing, the second
      reading is past the deadline and the third is back before it. */
  predicate FallsBetween(row: Row, t1: int, t2: int, t3: int) {
    row.expiresAt == row.createdAt + ABSOLUTE_MS && !Updates(row, t1) && t3 < row.expiresAt <= t2
  }

  /** An instant at which an in-memory touch does the same, if there is one. */
  function TouchInstant(table: Table, token: string, userID: int, t1: int, t2: int, t3: int): int {
    MILLISECOND *
    if !LiveRow(table, token, userID) || Updates(table[token], t1) then t1
    else if t2 < table[token].expiresAt then table[token].lastActivityAt
    else if t3 >= table[token].createdAt + ABSOLUTE_MS then t3
    else table[token].expiresAt
  }

  lemma InstantMatches(table: Table, token: string, userID: int, t1: int, t2: int, t3: int)
    requires TableOK(table) && (LiveRow(table, token, userID) ==> !FallsBetween(table[token], t1, t2, t3))
    ensures MatchedAt(table, token, userID, t1, t2, t3, TouchInstant(table, token, userID, t1, t2, t3))
  {
    hide MatchedAt;
    var t := TouchInstant(table, token, userID, t1, t2, t3);
    if LiveRow(table, token, userID) {
      LiveMatches(table, token, userID, t1, t2, t3, t);
      LiveRowValid(table[token], userID, t2);
    } else {
      DeadMatches(table, token, userID, t1, t2, t3, t);
    }
  }

  lemma TransactionKeepsOK(table: Table, token: string, userID: int, t1: int, t2: int, t3: int)
    requires TableOK(table)
    ensures TableOK(TouchTransaction(table, token, userID, t1, t2, t3).1)
  {
    if token in table && RowValid(table[token], userID, t1) {
      UpdateKeepsOK(table[token], userID, t1);
    }
  }

  /** With its clock set back at will, the transaction answers like an in-memory touch
      at some instant exactly when it does not refuse a live session as idle between
      two readings on either side of the 8 hours. */
  lemma MatchedByTouch(table: Table, token: string, userID: int, t1: int, t2: int, t3: int)
    requires TableOK(table)
    ensures (exists t :: MatchedAt(table, token, userID, t1, t2, t3, t)) <==>
            !(LiveRow(table, token, userID) && FallsBetween(table[token], t1, t2, t3))
  {
    hide MatchedAt;
    if !LiveRow(table, token, userID) {
      DeadMatches(table, token, userID, t1, t2, t3, t1 * MILLISECOND);
      assert MatchedAt(table, token, userID, t1, t2, t3, t1 * MILLISECOND);
    } else {
      var row := table[token];
      var t := TouchInstant(table, token, userID, t1, t2, t3);
      LiveMatches(table, token, userID, t1, t2, t3, t);
      forall u ensures MatchedAt(table, token, userID, t1, t2, t3, u) <==> MatchesRow(row, t1, t2, t3, u) {
        LiveMatches(table, token, userID, t1, t2, t3, u);
      }
    }
  }

  /** Some touch at one of the three readings would do: after an UPDATE always; after
      the first SELECT when some reading is not past the last activity; on an idle
      refusal when some reading lies between the deadline and the 8 hours. */
  predicate ReadingFits(row: Row, t1: int, t2: int, t3: int) {
    var limit := row.createdAt + ABSOLUTE_MS;
    if Updates(row, t1) || (t2 >= row.expiresAt && t3 >= limit) then true
    else if t2 < row.expiresAt then t1 <= row.lastActivityAt || t2 <= row.lastActivityAt || t3 <= row.lastActivityAt
    else row.expiresAt <= t1 < limit || t2 < limit || row.expiresAt <= t3
  }

  /** When the instant must be one of the readings, exactly: */
  lemma MatchedAtReading(table: Table, token: string, userID: int, t1: int, t2: int, t3: int)
    requires TableOK(table)
    ensures (exists t | t == t1 || t == t2 || t == t3 ::
               MatchedAt(table, token, userID, t1, t2, t3, t * MILLISECOND)) <==>
            (LiveRow(table, token, userID) ==> ReadingFits(table[token], t1, t2, t3))
  {
    hide MatchedAt;
    if !LiveRow(table, token, userID) {
      DeadMatches(table, token, userID, t1, t2, t3, t1 * MILLISECOND);
    } else {
      LiveMatches(table, token, userID, t1, t2, t3, t1 * MILLISECOND);
      LiveMatches(table, token, userID, t1, t2, t3, t2 * MILLISECOND);
      LiveMatches(table, token, userID, t1, t2, t3, t3 * MILLISECOND);
    }
  }

  lemma DeadMatches(table: Table, token: string, userID: int, t1: int, t2: int, t3: int, t: int)
    requires !LiveRow(table, token, userID)
    ensures MatchedAt(table, token, userID, t1, t2, t3, t)
  {
  }

  /** The instants at which an in-memory touch of a live row does what the transaction did. */
  predicate MatchesRow(row: Row, t1: int, t2: int, t3: int, t: int) {
    var last, expires, limit :=
      row.lastActivityAt * MILLISECOND, row.expiresAt * MILLISECOND, (row.createdAt + ABSOLUTE_MS) * MILLISECOND;
    if Updates(row, t1) then t == t1 * MILLISECOND
    else if t2 < row.expiresAt then t <= last
    else if t3 >= row.createdAt + ABSOLUTE_MS then t >= limit
    else expires <= t < limit
  }

  /** What the transaction does to a live row. */
  lemma LiveTransaction(table: Table, token: string, userID: int, t1: int, t2: int, t3: int)
    requires TableOK(table) && LiveRow(table, token, userID)
    ensures var row := table[token];
            TouchTransaction(table, token, userID, t1, t2, t3) ==
            if Updates(row, t1) then (Active, table[token := UpdatedRow(row, t1)])
            else if t2 < row.expiresAt then (Active, table)
            else if t3 >= row.createdAt + ABSOLUTE_MS then (AbsoluteTimeout, table)
            else (IdleTimeout, table)
  {
    var row := table[token];
    assert RowOK(Scaled(row));
    LiveRowValid(row, userID, t1);
    LiveRowValid(row, userID, t2);
  }

  lemma LiveRowValid(row: Row, userID: int, clock: int)
    requires RowOK(Scaled(row)) && row.userID == userID && row.revokedAt == None
    ensures RowValid(row, userID, clock) <==> clock < row.expiresAt
    ensures RowValid(row, userID, clock) ==> (UpdatedRow(row, clock) != row <==> row.lastActivityAt < clock)
    ensures row.createdAt <= row.lastActivityAt < row.expiresAt <= row.createdAt + ABSOLUTE_MS
  {
  }

  lemma LiveMatches(table: Table, token: string, userID: int, t1: int, t2: int, t3: int, t: int)
    requires TableOK(table) && LiveRow(table, token, userID)
    ensures MatchedAt(table, token, userID, t1, t2, t3, t) <==> MatchesRow(table[token], t1, t2, t3, t)
  {
    var row := table[token];
    LiveTransaction(table, token, userID, t1, t2, t3);
    LiveRowValid(row, userID, t1);
    hide TouchTransaction;
    MemoryTouch(table, token, userID, t);
    AbstractUpdate(table, token, UpdatedRow(row, t1));
    UpdateScales(row, t1);
    UpdatesDiffer(Abstract(table), token, TouchedRow(Scaled(row), t), TouchedRow(Scaled(row), t1 * MILLISECOND));
    hide Abstract, Apply, Scaled, UpdatedRow;
    TouchedRowsDiffer(row, t, t1);
  }

  lemma UpdatesDiffer(sessions: Sessions, token: string, x: Session, y: Session)
    requires token in sessions
    ensures sessions[token := x] == sessions[token := y] <==> x == y
    ensures sessions[token := x] == sessions <==> x == sessions[token]
  {
    assert sessions[token := x][token] == x && sessions[token := y][token] == y;
  }

  lemma TouchedRowsDiffer(row: Row, t: int, t1: int)
    ensures TouchedRow(Scaled(row), t) == Scaled(row) <==> t <= row.lastActivityAt * MILLISECOND
    ensures t1 > row.lastActivityAt ==>
              (TouchedRow(Scaled(row), t) == TouchedRow(Scaled(row), t1 * MILLISECOND) <==> t == t1 * MILLISECOND)
  {
  }

  /** What an in-memory touch does to the same row. */
  lemma MemoryTouch(table: Table, token: string, userID: int, t: int)
    requires TableOK(table) && LiveRow(table, token, userID)
    ensures var row := table[token];
            var (sessions, response) := Apply(Abstract(table), Touch(token, userID, t));
            && (response == Touched(AbsoluteTimeout) <==> t >= (row.createdAt + ABSOLUTE_MS) * MILLISECOND)
            && (response == Touched(Active) <==> t < row.expiresAt * MILLISECOND)
            && (response != Touched(AbsoluteTimeout) && response != Touched(Active) <==>
                  response == Touched(IdleTimeout))
            && (response != Touched(Active) ==> sessions == Abstract(table))
            && (response == Touched(Active) ==> sessions == Abstract(table)[token := TouchedRow(Scaled(row), t)])
  {
    assert RowOK(Scaled(table[token]));
  }

  lemma AbstractUpdate(table: Table, token: string, row: Row)
    requires token in table
    ensures Abstract(table[token := row]) == Abstract(table)[token := Scaled(row)]
    ensures Abstract(table)[token] == Scaled(table[token])
  {
  }

  // ----- runs of the SQL store --------------------------------------------------------------------

  datatype SQLOp =
    | CreateTx(token: string, userID: int, ssoSubject: string, enabled: bool, clock: int)
    | TouchTx(token: string, userID: int, t1: int, t2: int, t3: int)
    | RevokeRow(token: string, userID: int, now: int)

  /** Operations whose database calls all succeed. */
  function SQLApply(table: Table, op: SQLOp): Table {
    match op
    case CreateTx(token, userID, ssoSubject, enabled, clock) =>
      if AcceptsSQL(table, userID, ssoSubject, enabled)
      then InsertSQL(table, token, userID, TrimSpace(ssoSubject), clock)
      else table
    case TouchTx(token, userID, t1, t2, t3) => TouchTransaction(table, token, userID, t1, t2, t3).1
    case RevokeRow(token, userID, now) => RevokeSQL(table, token, userID, now)
  }

  function SQLExec(ops: seq<SQLOp>, n: nat): Table
    requires n <= |ops|
  {
    if n == 0 then map[] else SQLApply(SQLExec(ops, n - 1), ops[n - 1])
  }

  function SQLResponse(table: Table, op: SQLOp): Response {
    match op
    case CreateTx(token, userID, ssoSubject, enabled, _) =>
      if AcceptsSQL(table, userID, ssoSubject, enabled) then Response.Created(token) else ReauthenticationRequired
    case TouchTx(token, userID, t1, t2, t3) => Touched(TouchTransaction(table, token, userID, t1, t2, t3).0)
    case RevokeRow(_, _, _) => Revoked
  }

  /** Its ASCII letters are in lower case, as in every fingerprint that a login makes. */
  predicate Plain(subject: string) {
    FoldCase(subject) == subject
  }

  /** A subject that the collation cannot take for another fingerprint. */
  predicate Distinctive(subject: string) {
    IsFingerprint(FoldCase(subject)) ==> Plain(subject)
  }

  predicate PlainTable(table: Table) {
    forall t | t in table :: Distinctive(table[t].ssoSubject)
  }

  /** A creation that succeeds, or is refused for a consumed fingerprint in plain spelling;
      and clock readings that do not fall on either side of a deadline, as
      `MatchedByTouch` has it. */
  predicate Allowed(table: Table, op: SQLOp) {
    match op
    case CreateTx(token, userID, ssoSubject, enabled, clock) =>
      !AcceptsSQL(table, userID, ssoSubject, enabled) ==>
        enabled && Plain(TrimSpace(ssoSubject)) && PlainTable(table)
    case TouchTx(token, userID, t1, t2, t3) =>
      LiveRow(table, token, userID) ==> !FallsBetween(table[token], t1, t2, t3)
    case RevokeRow(_, _, _) => true
  }

  function MemoryOp(table: Table, op: SQLOp): Op {
    match op
    case CreateTx(token, userID, ssoSubject, _, clock) =>
      Create(token, userID, TrimSpace(ssoSubject), clock * MILLISECOND)
    case TouchTx(token, userID, t1, t2, t3) =>
      Touch(token, userID, TouchInstant(table, token, userID, t1, t2, t3))
    case RevokeRow(token, userID, now) => Revoke(token, userID, now * MILLISECOND)
  }

  function MemoryOps(ops: seq<SQLOp>): (m: seq<Op>)
    ensures |m| == |ops|
  {
    seq(|ops|, i requires 0 <= i < |ops| => MemoryOp(SQLExec(ops, i), ops[i]))
  }

  lemma StepRefines(table: Table, op: SQLOp)
    requires TableOK(table) && Allowed(table, op)
    ensures TableOK(SQLApply(table, op))
    ensures Abstract(SQLApply(table, op)) == Apply(Abstract(table), MemoryOp(table, op)).0
    ensures Apply(Abstract(table), MemoryOp(table, op)).1 == SQLResponse(table, op)
  {
    match op
    case CreateTx(token, userID, ssoSubject, enabled, clock) =>
      var subject := TrimSpace(ssoSubject);
      if AcceptsSQL(table, userID, ssoSubject, enabled) {
        if IsFingerprint(subject) {
          ConsumedMeans(table, userID, subject);
        }
        InsertScales(table, token, userID, subject, clock);
      } else {
        PlainConsumed(table, userID, subject);
      }
    case TouchTx(token, userID, t1, t2, t3) =>
      InstantMatches(table, token, userID, t1, t2, t3);
      TransactionKeepsOK(table, token, userID, t1, t2, t3);
    case RevokeRow(token, userID, now) =>
  }

  /** Every run of the SQL store is a run of the in-memory store: the same sessions
      after every operation ... */
  lemma {:induction false} RunRefines(ops: seq<SQLOp>, n: nat)
    requires n <= |ops| && forall i | 0 <= i < n :: Allowed(SQLExec(ops, i), ops[i])
    ensures TableOK(SQLExec(ops, n)) && Exec(MemoryOps(ops), n) == Abstract(SQLExec(ops, n))
  {
    hide TouchTransaction, Abstract, TableOK, SQLApply, Apply, MemoryOp, Allowed, MemoryOps;
    if n == 0 {
      NoRows();
    } else {
      RunRefines(ops, n - 1);
      MemoryOpsAt(ops, n - 1);
      assert Allowed(SQLExec(ops, n - 1), ops[n - 1]);
      StepRefines(SQLExec(ops, n - 1), ops[n - 1]);
    }
  }

  /** ... and the same answer to every operation. */
  lemma AnswersRefine(ops: seq<SQLOp>, n: nat)
    requires n < |ops| && forall i | 0 <= i <= n :: Allowed(SQLExec(ops, i), ops[i])
    ensures ResponseAt(MemoryOps(ops), n) == SQLResponse(SQLExec(ops, n), ops[n])
  {
    hide TouchTransaction, Abstract, TableOK, SQLApply, Apply, MemoryOp, Allowed, MemoryOps, Exec, SQLExec, SQLResponse;
    RunRefines(ops, n);
    MemoryOpsAt(ops, n);
    assert Allowed(SQLExec(ops, n), ops[n]);
    StepRefines(SQLExec(ops, n), ops[n]);
  }

  lemma MemoryOpsAt(ops: seq<SQLOp>, i: nat)
    requires i < |ops|
    ensures MemoryOps(ops)[i] == MemoryOp(SQLExec(ops, i), ops[i])
  {
  }

  lemma NoRows()
    ensures Abstract(map[]) == map[] && TableOK(map[])
  {
  }

  /** The memory store's lookup, on the rows themselves. */
  lemma ConsumedMeans(table: Table, userID: int, subject: string)
    ensures Consumed(Abstract(table), userID, subject) <==>
            exists t | t in table :: table[t].userID == userID && table[t].ssoSubject == subject
    ensures Consumed(Abstract(table), userID, subject) ==> ConsumedSQL(table, userID, subject)
  {
    var sessions := Abstract(table);
    assert forall t | t in table :: sessions[t].userID == table[t].userID;
    assert forall t | t in table :: sessions[t].ssoSubject == table[t].ssoSubject;
  }

  lemma PlainConsumed(table: Table, userID: int, subject: string)
    requires IsFingerprint(subject) && Plain(subject) && PlainTable(table) && ConsumedSQL(table, userID, subject)
    ensures Consumed(Abstract(table), userID, subject)
  {
    var t :| t in table && SpelledLike(table[t], userID, subject);
    assert Distinctive(table[t].ssoSubject) && table[t].ssoSubject == subject;
    ConsumedMeans(table, userID, subject);
  }

  lemma InsertScales(table: Table, token: string, userID: int, subject: string, clock: int)
    ensures Abstract(InsertSQL(table, token, userID, subject, clock)) ==
            Abstract(table)[token := NewSession(userID, subject, clock * MILLISECOND)]
    ensures TableOK(table) ==> TableOK(InsertSQL(table, token, userID, subject, clock))
  {
    assert Scaled(Row(userID, subject, clock, clock, clock + IDLE_MS, None))
        == NewSession(userID, subject, clock * MILLISECOND);
  }

  // ----- where the status differs ---------------------------------------------------------------------

  /** The two status queries agree except on a session that is both revoked and 8
      hours old: there the SQL store reports the absolute timeout and the memory
      store the idle one. */
  lemma StatusAgreement(table: Table, token: string, userID: int, clock: int)
    ensures StatusSQL(table, token, userID, clock) == StatusOf(Abstract(table), token, userID, clock * MILLISECOND)
            <==> !(token in table && table[token].userID == userID && table[token].revokedAt != None
                   && clock >= table[token].createdAt + ABSOLUTE_MS)
  {
    if token in table {
      var row := table[token];
      WholeMilliseconds(row.expiresAt - clock);
      WholeMilliseconds(row.lastActivityAt + IDLE_MS - clock);
      WholeMilliseconds(row.createdAt + ABSOLUTE_MS - clock);
    }
  }

  /** A session revoked early, asked about at 8 hours sharp. */
  lemma StatusDiffers() returns (table: Table)
    ensures TableOK(table)
    ensures StatusSQL(table, "token", 1, ABSOLUTE_MS) == Refused(AbsoluteTimeout)
    ensures StatusOf(Abstract(table), "token", 1, ABSOLUTE_MS * MILLISECOND) == Refused(IdleTimeout)
  {
    table := map["token" := Row(1, "", 0, 0, IDLE_MS, Some(1))];
  }

  lemma WholeMilliseconds(d: int)
    ensures Milliseconds(d * MILLISECOND) == d
  {
  }

  /** A witness: a session 1 minute short of the 8 hours is refused as idle although no
      in-memory touch, at any instant whatsoever, refuses it so. */
  lemma ClockMustNotRunBack() returns (table: Table, t1: int, t2: int, t3: int)
    ensures TableOK(table) && t1 == t2 > t3
    ensures TouchTransaction(table, "token", 1, t1, t2, t3) == (IdleTimeout, table)
    ensures forall t :: !MatchedAt(table, "token", 1, t1, t2, t3, t)
  {
    table := map["token" := Row(1, "", 0, ABSOLUTE_MS - 60000, ABSOLUTE_MS, None)];
    t1, t2, t3 := ABSOLUTE_MS, ABSOLUTE_MS, ABSOLUTE_MS - 1;
    LiveTransaction(table, "token", 1, t1, t2, t3);
    hide MatchedAt, TouchTransaction;
    forall t ensures !MatchedAt(table, "token", 1, t1, t2, t3, t) {
      LiveMatches(table, "token", 1, t1, t2, t3, t);
    }
  }
}
