/** Concurrent `CreateAuthSession` transactions, one step per statement: begin,
    lock the user row, look for a consumed record, insert, commit or roll back, in
    any interleaving, with revocations and disabled users in between. */
module SingleUse {
  import opened AuthSession
  import opened Strings

  datatype Record = Record(token: string, userID: int, ssoSubject: string, live: bool)

  datatype Phase = Begun | Locked | Checked | Inserted | Committed | RolledBack

  datatype Transaction = Transaction(phase: Phase, token: string, userID: int, ssoSubject: string) {
    /** Between the lock and the end of the transaction. */
    predicate HoldsLock() {
      phase == Locked || phase == Checked || phase == Inserted
    }

    /** The collation of the column does not tell upper from lower case. */
    predicate SameCredential(that: Record) {
      userID == that.userID && FoldCase(ssoSubject) == FoldCase(that.ssoSubject)
    }
  }

  /** `rows` are the committed records in commit order; an inserted record that is
      not committed yet is visible to its own transaction only. */
  datatype Database = Database(rows: seq<Record>, transactions: map<nat, Transaction>, disabled: set<int>)

  const EMPTY := Database([], map[], {})

  datatype Action =
    | Begin(id: nat, token: string, userID: int, ssoSubject: string)
    | LockUser(id: nat)
    | LookForConsumed(id: nat)
    | InsertRow(id: nat)
    | Commit(id: nat)
    | Rollback(id: nat)
    | InsertLegacy(token: string, userID: int, ssoSubject: string)
    | EndSession(token: string)
    | SetEnabled(userID: int, enabled: bool)

  predicate AtPhase(db: Database, id: nat, phase: Phase) {
    id in db.transactions && db.transactions[id].phase == phase
  }

  predicate UserLocked(db: Database, userID: int) {
    exists id | id in db.transactions :: db.transactions[id].HoldsLock() && db.transactions[id].userID == userID
  }

  predicate ConsumedRow(rows: seq<Record>, tx: Transaction) {
    exists i | 0 <= i < |rows| :: tx.SameCredential(rows[i])
  }

  function AtNext(db: Database, id: nat, phase: Phase): Database
    requires id in db.transactions
  {
    db.(transactions := db.transactions[id := db.transactions[id].(phase := phase)])
  }

  /** Whether the action can happen now.  `locking` is what the store does; without
      it the user row is read but not locked. */
  predicate Enabled(db: Database, a: Action, locking: bool) {
    match a
    case Begin(id, _, _, subject) => id !in db.transactions && IsFingerprint(subject)
    case LockUser(id) =>
      AtPhase(db, id, Begun) && (locking ==> !UserLocked(db, db.transactions[id].userID))
    case LookForConsumed(id) => AtPhase(db, id, Locked)
    case InsertRow(id) => AtPhase(db, id, Checked)
    case Commit(id) => AtPhase(db, id, Inserted)
    case Rollback(id) =>
      id in db.transactions && db.transactions[id].phase != Committed && db.transactions[id].phase != RolledBack
    case InsertLegacy(_, _, subject) => !IsFingerprint(subject)
    case EndSession(_) => true
    case SetEnabled(_, _) => true
  }

  function Ended(rows: seq<Record>, token: string): (r: seq<Record>)
    ensures |r| == |rows|
  {
    seq(|rows|, i requires 0 <= i < |rows| => if rows[i].token == token then rows[i].(live := false) else rows[i])
  }

  function After(db: Database, a: Action, locking: bool): Database
    requires Enabled(db, a, locking)
  {
    match a
    case Begin(id, token, userID, subject) =>
      db.(transactions := db.transactions[id := Transaction(Begun, token, userID, subject)])
    case LockUser(id) =>
      AtNext(db, id, if db.transactions[id].userID in db.disabled then RolledBack else Locked)
    case LookForConsumed(id) =>
      AtNext(db, id, if ConsumedRow(db.rows, db.transactions[id]) then RolledBack else Checked)
    case InsertRow(id) => AtNext(db, id, Inserted)
    case Commit(id) =>
      var tx := db.transactions[id];
      AtNext(db, id, Committed).(rows := db.rows + [Record(tx.token, tx.userID, tx.ssoSubject, true)])
    case Rollback(id) => AtNext(db, id, RolledBack)
    case InsertLegacy(token, userID, subject) => db.(rows := db.rows + [Record(token, userID, subject, true)])
    case EndSession(token) => db.(rows := Ended(db.rows, token))
    case SetEnabled(userID, enabled) =>
      db.(disabled := if enabled then db.disabled - {userID} else db.disabled + {userID})
  }

  /** The databases that a run passes through. */
  ghost predicate Run(dbs: seq<Database>, actions: seq<Action>, locking: bool) {
    && |dbs| == |actions| + 1
    && dbs[0] == EMPTY
    && forall i | 0 <= i < |actions| :: StepAt(dbs, actions, i, locking)
  }

  ghost predicate StepAt(dbs: seq<Database>, actions: seq<Action>, i: nat, locking: bool)
    requires i < |actions| && |dbs| == |actions| + 1
  {
    Enabled(dbs[i], actions[i], locking) && dbs[i + 1] == After(dbs[i], actions[i], locking)
  }

  // ----- the invariant --------------------------------------------------------------------

  /** No fingerprint was used twice by one user. */
  predicate UsedOnce(rows: seq<Record>) {
    forall i, j | 0 <= i < j < |rows| && IsFingerprint(rows[i].ssoSubject) && IsFingerprint(rows[j].ssoSubject) ::
      rows[i].userID != rows[j].userID || FoldCase(rows[i].ssoSubject) != FoldCase(rows[j].ssoSubject)
  }

  /** No record of this fingerprint, however it is spelled. */
  predicate Unused(rows: seq<Record>, tx: Transaction) {
    forall i | 0 <= i < |rows| && IsFingerprint(rows[i].ssoSubject) :: !tx.SameCredential(rows[i])
  }

  ghost predicate Safe(db: Database) {
    && UsedOnce(db.rows)
    && (forall a, b | a in db.transactions && b in db.transactions && a != b ::
          db.transactions[a].HoldsLock() && db.transactions[b].HoldsLock() ==>
            db.transactions[a].userID != db.transactions[b].userID)
    && (forall a | a in db.transactions ::
          && IsFingerprint(db.transactions[a].ssoSubject)
          && (db.transactions[a].phase == Checked || db.transactions[a].phase == Inserted ==>
                Unused(db.rows, db.transactions[a])))
  }

  lemma StepKeepsSafe(db: Database, a: Action)
    requires Safe(db) && Enabled(db, a, true)
    ensures Safe(After(db, a, true))
  {
    hide IsFingerprint, FoldCase;
    var next := After(db, a, true);
    match a
    case Commit(id) =>
      var tx := db.transactions[id];
      forall b | b in next.transactions && next.transactions[b].HoldsLock()
        ensures next.transactions[b].userID != tx.userID
      {
        assert b != id && db.transactions[b].HoldsLock();
      }
    case InsertLegacy(_, _, _) =>
    case EndSession(token) =>
      assert forall i | 0 <= i < |db.rows| ::
          next.rows[i].userID == db.rows[i].userID && next.rows[i].ssoSubject == db.rows[i].ssoSubject;
    case _ =>
  }

  lemma {:induction false} RunIsSafe(dbs: seq<Database>, actions: seq<Action>, n: nat)
    requires Run(dbs, actions, true) && n < |dbs|
    ensures Safe(dbs[n])
  {
    if n > 0 {
      RunIsSafe(dbs, actions, n - 1);
      assert StepAt(dbs, actions, n - 1, true);
      StepKeepsSafe(dbs[n - 1], actions[n - 1]);
    }
  }

  // ----- main results --------------------------------------------------------------------------

  /** In every interleaving, after any number of steps: two committed sessions of one
      user never carry the same fingerprint, in whatever case it is spelled and whether
      or not they are still live. */
  lemma FingerprintCommitsOnce(dbs: seq<Database>, actions: seq<Action>, n: nat, i: nat, j: nat)
    requires Run(dbs, actions, true) && n < |dbs| && i < j < |dbs[n].rows|
    requires IsFingerprint(dbs[n].rows[i].ssoSubject) && IsFingerprint(dbs[n].rows[j].ssoSubject)
    ensures dbs[n].rows[i].userID != dbs[n].rows[j].userID ||
            FoldCase(dbs[n].rows[i].ssoSubject) != FoldCase(dbs[n].rows[j].ssoSubject)
  {
    RunIsSafe(dbs, actions, n);
  }

  /** Records are never lost or renamed: what was committed after `m` steps is still
      consumed after `n`. */
  lemma {:induction false} RecordsStay(dbs: seq<Database>, actions: seq<Action>, m: nat, n: nat, i: nat)
    requires Run(dbs, actions, true) && m <= n < |dbs| && i < |dbs[m].rows|
    ensures i < |dbs[n].rows|
    ensures dbs[n].rows[i].(live := true) == dbs[m].rows[i].(live := true)
  {
    if m < n {
      RecordsStay(dbs, actions, m, n - 1, i);
      assert StepAt(dbs, actions, n - 1, true);
    }
  }

  /** Two different transactions that both commit never had the same user and
      fingerprint. */
  lemma {:induction false} TwoCommitsDiffer(dbs: seq<Database>, actions: seq<Action>, i: nat, j: nat)
    requires Run(dbs, actions, true) && i < j < |actions| && actions[i].Commit? && actions[j].Commit?
    requires StepAt(dbs, actions, i, true) && StepAt(dbs, actions, j, true)
    ensures var a, b := dbs[i].transactions[actions[i].id], dbs[j].transactions[actions[j].id];
            a.userID != b.userID || FoldCase(a.ssoSubject) != FoldCase(b.ssoSubject)
  {
    var k := |dbs[i].rows|;
    RecordsStay(dbs, actions, i + 1, j, k);
    RunIsSafe(dbs, actions, j);
    var a, b := dbs[i].transactions[actions[i].id], dbs[j].transactions[actions[j].id];
    assert dbs[i + 1].rows[k] == Record(a.token, a.userID, a.ssoSubject, true);
    assert Safe(dbs[i]) by { RunIsSafe(dbs, actions, i); }
    assert Unused(dbs[j].rows, b) && !b.SameCredential(dbs[j].rows[k]);
  }

  /** Every run leaves the right to commit to someone: a fingerprint that no record
      has consumed can still be committed by a fresh transaction of an enabled user
      whose row is free. */
  lemma FreshFingerprintCommits(db: Database, id: nat, token: string, userID: int, subject: string)
    requires IsFingerprint(subject) && id !in db.transactions
    requires userID !in db.disabled && !UserLocked(db, userID)
    requires forall i | 0 <= i < |db.rows| ::
               db.rows[i].userID != userID || FoldCase(db.rows[i].ssoSubject) != FoldCase(subject)
    ensures Enabled(db, Begin(id, token, userID, subject), true)
    ensures var d1 := After(db, Begin(id, token, userID, subject), true);
            && Enabled(d1, LockUser(id), true)
            && var d2 := After(d1, LockUser(id), true);
            && Enabled(d2, LookForConsumed(id), true)
            && var d3 := After(d2, LookForConsumed(id), true);
            && Enabled(d3, InsertRow(id), true)
            && var d4 := After(d3, InsertRow(id), true);
            && Enabled(d4, Commit(id), true)
            && After(d4, Commit(id), true).rows == db.rows + [Record(token, userID, subject, true)]
  {
    var d1 := After(db, Begin(id, token, userID, subject), true);
    assert forall a | a in d1.transactions && d1.transactions[a].HoldsLock() :: a in db.transactions && a != id;
  }

  /** And no other does: of a user who is not enabled the transaction ends at the lock, with
      a consumed fingerprint at the check, and the records stay as they are. */
  lemma OthersRollBack(db: Database, id: nat, token: string, userID: int, subject: string)
    requires IsFingerprint(subject) && id !in db.transactions && !UserLocked(db, userID)
    ensures Enabled(db, Begin(id, token, userID, subject), true)
    ensures var d1 := After(db, Begin(id, token, userID, subject), true);
            && Enabled(d1, LockUser(id), true)
            && var d2 := After(d1, LockUser(id), true);
            && d2.rows == db.rows && (AtPhase(d2, id, RolledBack) <==> userID in db.disabled)
            && (userID !in db.disabled ==>
                  && Enabled(d2, LookForConsumed(id), true)
                  && var d3 := After(d2, LookForConsumed(id), true);
                     && d3.rows == db.rows
                     && (AtPhase(d3, id, RolledBack) <==>
                           exists i | 0 <= i < |db.rows| ::
                             db.rows[i].userID == userID && FoldCase(db.rows[i].ssoSubject) == FoldCase(subject)))
  {
    hide IsFingerprint, FoldCase;
    var d1 := After(db, Begin(id, token, userID, subject), true);
    assert forall a | a in d1.transactions && d1.transactions[a].HoldsLock() :: a in db.transactions && a != id;
    var tx := d1.transactions[id];
    assert ConsumedRow(db.rows, tx) <==> exists i | 0 <= i < |db.rows| ::
      db.rows[i].userID == userID && FoldCase(db.rows[i].ssoSubject) == FoldCase(subject) by {
      forall i | 0 <= i < |db.rows|
        ensures tx.SameCredential(db.rows[i]) <==>
                db.rows[i].userID == userID && FoldCase(db.rows[i].ssoSubject) == FoldCase(subject)
      {
      }
    }
  }

  lemma Extend(dbs: seq<Database>, actions: seq<Action>, a: Action) returns (dbs': seq<Database>, actions': seq<Action>)
    requires Run(dbs, actions, false) && Enabled(dbs[|dbs| - 1], a, false)
    ensures Run(dbs', actions', false) && dbs'[|dbs'| - 1] == After(dbs[|dbs| - 1], a, false)
  {
    hide Enabled, After;
    dbs', actions' := dbs + [After(dbs[|dbs| - 1], a, false)], actions + [a];
    forall i | 0 <= i < |actions'|
      ensures StepAt(dbs', actions', i, false)
    {
      assert i < |actions| ==> StepAt(dbs, actions, i, false);
    }
  }

  /** Two transactions of user 1 with this credential, in the given phases. */
  ghost predicate Both(db: Database, subject: string, p: Phase, q: Phase) {
    && db.transactions.Keys == {0, 1}
    && db.transactions[0] == Transaction(p, "a", 1, subject)
    && db.transactions[1] == Transaction(q, "b", 1, subject)
    && db.disabled == {}
  }

  lemma BothPassTheCheck(subject: string) returns (dbs: seq<Database>, actions: seq<Action>)
    requires IsFingerprint(subject)
    ensures Run(dbs, actions, false)
    ensures Both(dbs[|dbs| - 1], subject, Checked, Checked) && dbs[|dbs| - 1].rows == []
  {
    dbs, actions := [EMPTY], [];
    dbs, actions := Extend(dbs, actions, Begin(0, "a", 1, subject));
    dbs, actions := Extend(dbs, actions, Begin(1, "b", 1, subject));
    hide IsFingerprint, Run;
    dbs, actions := Extend(dbs, actions, LockUser(0));
    dbs, actions := Extend(dbs, actions, LockUser(1));
    assert Both(dbs[|dbs| - 1], subject, Locked, Locked);
    dbs, actions := Extend(dbs, actions, LookForConsumed(0));
    dbs, actions := Extend(dbs, actions, LookForConsumed(1));
  }

  /** The lock is what makes it safe: with the check alone, two transactions can
      both commit the same credential. */
  lemma CheckAloneIsNotEnough(subject: string) returns (dbs: seq<Database>, actions: seq<Action>)
    requires IsFingerprint(subject)
    ensures Run(dbs, actions, false)
    ensures !UsedOnce(dbs[|dbs| - 1].rows)
  {
    hide IsFingerprint, UsedOnce;
    dbs, actions := BothPassTheCheck(subject);
    hide Run;
    dbs, actions := Extend(dbs, actions, InsertRow(0));
    dbs, actions := Extend(dbs, actions, InsertRow(1));
    dbs, actions := Extend(dbs, actions, Commit(0));
    dbs, actions := Extend(dbs, actions, Commit(1));
    assert dbs[|dbs| - 1].rows == [Record("a", 1, subject, true), Record("b", 1, subject, true)];
    UsedTwice(dbs[|dbs| - 1].rows);
  }

  lemma UsedTwice(rows: seq<Record>)
    requires |rows| == 2 && IsFingerprint(rows[0].ssoSubject) && IsFingerprint(rows[1].ssoSubject)
    requires rows[0].userID == rows[1].userID && rows[0].ssoSubject == rows[1].ssoSubject
    ensures !UsedOnce(rows)
  {
    assert 0 <= 0 < 1 < |rows|;
  }
}
