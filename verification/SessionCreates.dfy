/** When the two session stores answer a creation alike: the MySQL store trims the
    subject, locks an enabled user and compares without regard to case; the memory
    store does none of these. */
module SessionCreates {
  import opened Options
  import opened Strings
  import opened AuthSession
  import opened MySQLSession

  // ----- fingerprints and their spelling --------------------------------------------------------

  lemma FingerprintIsTrimmed(s: string)
    requires IsFingerprint(s)
    ensures TrimSpace(s) == s
  {
    assert s[0] == s[..|FINGERPRINT_PREFIX|][0] == 'j';
    assert IsHex(s[|s| - 1]);
    TrimmedAlready(s);
  }

  lemma FoldedFingerprint(s: string)
    requires IsFingerprint(s)
    ensures IsFingerprint(FoldCase(s)) && FoldCase(FoldCase(s)) == FoldCase(s)
  {
    var folded := FoldCase(s);
    forall i | 0 <= i < |FINGERPRINT_PREFIX| ensures folded[i] == FINGERPRINT_PREFIX[i] {
      assert s[i] == s[..|FINGERPRINT_PREFIX|][i];
    }
    assert folded[..|FINGERPRINT_PREFIX|] == FINGERPRINT_PREFIX;
  }

  /** A table in which this user has consumed the fingerprint, in plain spelling. */
  function ConsumedTable(userID: int, s: string): Table {
    map["taken" := Row(userID, FoldCase(s), 0, 0, IDLE_MS, None)]
  }

  lemma ConsumedTableIsPlain(userID: int, s: string)
    requires IsFingerprint(s)
    ensures PlainTable(ConsumedTable(userID, s)) && ConsumedSQL(ConsumedTable(userID, s), userID, s)
    ensures Consumed(Abstract(ConsumedTable(userID, s)), userID, s) <==> Plain(s)
  {
    FoldedFingerprint(s);
    var table := ConsumedTable(userID, s);
    assert SpelledLike(table["taken"], userID, s);
    ConsumedMeans(table, userID, s);
    assert table["taken"].userID == userID && table["taken"].ssoSubject == FoldCase(s);
  }

  // ----- one creation ------------------------------------------------------------------------------

  /** Over all tables of plain fingerprints, the two lookups agree exactly on a fingerprint
      in plain spelling. */
  lemma ConsumedAgreement(userID: int, s: string)
    requires IsFingerprint(s)
    ensures (forall table | PlainTable(table) ::
               ConsumedSQL(table, userID, s) <==> Consumed(Abstract(table), userID, s)) <==> Plain(s)
  {
    ConsumedTableIsPlain(userID, s);
    if Plain(s) {
      forall table | PlainTable(table)
        ensures ConsumedSQL(table, userID, s) <==> Consumed(Abstract(table), userID, s)
      {
        ConsumedMeans(table, userID, s);
        if ConsumedSQL(table, userID, s) {
          PlainConsumed(table, userID, s);
        }
      }
    }
  }

  /** Whether the memory store creates the session, the subject as the caller gives it. */
  predicate MemoryAccepts(table: Table, userID: int, s: string) {
    !(IsFingerprint(s) && Consumed(Abstract(table), userID, s))
  }

  predicate SameAnswer(table: Table, userID: int, s: string, enabled: bool) {
    AcceptsSQL(table, userID, s, enabled) <==> MemoryAccepts(table, userID, s)
  }

  /** The guard on the call: a fingerprint comes trimmed, in plain spelling and for an
      enabled user. */
  predicate Guarded(s: string, enabled: bool) {
    IsFingerprint(TrimSpace(s)) ==> TrimSpace(s) == s && enabled && Plain(s)
  }

  /** Whatever plain fingerprints are consumed, both stores give a creation the same answer
      exactly under the guard. */
  lemma CreateAnswers(userID: int, s: string, enabled: bool)
    ensures (forall table | PlainTable(table) :: SameAnswer(table, userID, s, enabled)) <==> Guarded(s, enabled)
  {
    hide IsFingerprint, TrimSpace, PlainTable, ConsumedSQL, Consumed, FoldCase;
    if IsFingerprint(s) {
      FingerprintIsTrimmed(s);
    }
    var subject := TrimSpace(s);
    if IsFingerprint(subject) {
      ConsumedTableIsPlain(userID, subject);
      NothingConsumed(userID, subject);
      if Guarded(s, enabled) {
        ConsumedAgreement(userID, s);
      } else if !enabled {
        assert !SameAnswer(map[], userID, s, enabled);
      } else {
        assert !SameAnswer(ConsumedTable(userID, subject), userID, s, enabled);
      }
    }
  }

  lemma NothingConsumed(userID: int, subject: string)
    ensures PlainTable(map[]) && !ConsumedSQL(map[], userID, subject) && !Consumed(Abstract(map[]), userID, subject)
  {
  }

  /** Answer and sessions are those of the memory store. */
  predicate SameCreate(table: Table, token: string, userID: int, s: string, enabled: bool, clock: int) {
    var op := CreateTx(token, userID, s, enabled, clock);
    (Abstract(SQLApply(table, op)), SQLResponse(table, op)) ==
    Apply(Abstract(table), Create(token, userID, s, clock * MILLISECOND))
  }

  lemma SameCreateMeans(table: Table, token: string, userID: int, s: string, enabled: bool, clock: int)
    ensures SameCreate(table, token, userID, s, enabled, clock) <==>
            SameAnswer(table, userID, s, enabled) && (AcceptsSQL(table, userID, s, enabled) ==> TrimSpace(s) == s)
  {
    hide IsFingerprint, TrimSpace, ConsumedSQL, Consumed;
    InsertScales(table, token, userID, TrimSpace(s), clock);
    var mine := Abstract(table)[token := NewSession(userID, TrimSpace(s), clock * MILLISECOND)];
    var theirs := Abstract(table)[token := NewSession(userID, s, clock * MILLISECOND)];
    assert mine[token].ssoSubject == TrimSpace(s) && theirs[token].ssoSubject == s;
  }

  /** They also leave the same sessions exactly if any subject comes trimmed. */
  lemma CreateAgreement(token: string, userID: int, s: string, enabled: bool, clock: int)
    ensures (forall table | PlainTable(table) :: SameCreate(table, token, userID, s, enabled, clock)) <==>
            TrimSpace(s) == s && Guarded(s, enabled)
  {
    hide IsFingerprint, TrimSpace, PlainTable, ConsumedSQL, Consumed, SameCreate;
    CreateAnswers(userID, s, enabled);
    forall table
      ensures SameCreate(table, token, userID, s, enabled, clock) <==>
              SameAnswer(table, userID, s, enabled) && (AcceptsSQL(table, userID, s, enabled) ==> TrimSpace(s) == s)
    {
      SameCreateMeans(table, token, userID, s, enabled, clock);
    }
    NothingConsumed(userID, TrimSpace(s));
    assert Guarded(s, enabled) ==> AcceptsSQL(map[], userID, s, enabled);
  }

  // ----- three calls with different answers --------------------------------------------------------

  function Spelled(c: char): string {
    FINGERPRINT_PREFIX + seq(64, _ => c)
  }

  lemma SpelledFingerprint(c: char)
    requires IsHex(c)
    ensures IsFingerprint(Spelled(c))
  {
    var s := Spelled(c);
    assert s[..|FINGERPRINT_PREFIX|] == FINGERPRINT_PREFIX;
  }

  lemma Padded()
    ensures TrimSpace(" " + Spelled('a')) == Spelled('a') && !IsFingerprint(" " + Spelled('a'))
  {
    var s := " " + Spelled('a');
    SpelledFingerprint('a');
    FingerprintIsTrimmed(Spelled('a'));
    assert s[1..] == Spelled('a');
    assert TrimLeft(s) == TrimLeft(Spelled('a'));
  }

  lemma SpelledPlain()
    ensures FoldCase(Spelled('A')) == Spelled('a') == FoldCase(Spelled('a')) && Spelled('A') != Spelled('a')
  {
    assert Spelled('A')[20] == 'A' && Spelled('a')[20] == 'a';
  }

  /** One row of user 1; the same fingerprint in capitals, with a space in front, and a
      fresh one of a user who is not enabled: the MySQL store refuses each of them, the
      memory store none. */
  lemma DifferentAnswers() returns (table: Table)
    ensures PlainTable(table) && |table| == 1
    ensures !AcceptsSQL(table, 1, Spelled('A'), true) && MemoryAccepts(table, 1, Spelled('A'))
    ensures !AcceptsSQL(table, 1, " " + Spelled('a'), true) && MemoryAccepts(table, 1, " " + Spelled('a'))
    ensures !AcceptsSQL(table, 2, Spelled('a'), false) && MemoryAccepts(table, 2, Spelled('a'))
  {
    SpelledFingerprint('A');
    SpelledFingerprint('a');
    SpelledPlain();
    Padded();
    table := ConsumedTable(1, Spelled('a'));
    hide IsFingerprint, TrimSpace, FoldCase, Spelled;
    FingerprintIsTrimmed(Spelled('A'));
    FingerprintIsTrimmed(Spelled('a'));
    ConsumedTableIsPlain(1, Spelled('a'));
    ConsumedTableIsPlain(1, Spelled('A'));
    assert ConsumedTable(1, Spelled('A')) == table;
    ConsumedMeans(table, 2, Spelled('a'));
  }

  // ----- runs ------------------------------------------------------------------------------------------

  /** A creation as a login makes it: trimmed, distinctive, of an enabled user. */
  predicate PlainCall(op: SQLOp) {
    op.CreateTx? ==>
      && TrimSpace(op.ssoSubject) == op.ssoSubject && Distinctive(op.ssoSubject)
      && (IsFingerprint(op.ssoSubject) ==> op.enabled)
  }

  lemma {:induction false} PlainCallsKeepPlain(ops: seq<SQLOp>, n: nat)
    requires n <= |ops| && forall i | 0 <= i < n :: PlainCall(ops[i])
    ensures PlainTable(SQLExec(ops, n))
  {
    hide IsFingerprint, TrimSpace, AcceptsSQL;
    if n > 0 {
      PlainCallsKeepPlain(ops, n - 1);
      assert PlainCall(ops[n - 1]);
      StepKeepsPlain(SQLExec(ops, n - 1), ops[n - 1]);
    }
  }

  lemma StepKeepsPlain(table: Table, op: SQLOp)
    requires PlainTable(table) && PlainCall(op)
    ensures PlainTable(SQLApply(table, op))
  {
    hide IsFingerprint, TrimSpace, AcceptsSQL, Distinctive;
  }

  /** In every run of such creations, with any touches whose clock readings are allowed and
      any revocations, every operation gets the same answer from both stores; and each
      creation is the very same call. */
  lemma PlainRunsAgree(ops: seq<SQLOp>, n: nat)
    requires n < |ops| && forall i | 0 <= i <= n :: PlainCall(ops[i])
    requires forall i | 0 <= i <= n && ops[i].TouchTx? :: Allowed(SQLExec(ops, i), ops[i])
    ensures ResponseAt(MemoryOps(ops), n) == SQLResponse(SQLExec(ops, n), ops[n])
    ensures ops[n].CreateTx? ==>
              var op := ops[n];
              MemoryOps(ops)[n] == Create(op.token, op.userID, op.ssoSubject, op.clock * MILLISECOND)
  {
    forall i | 0 <= i <= n ensures Allowed(SQLExec(ops, i), ops[i]) {
      PlainCallsKeepPlain(ops, i);
      assert PlainCall(ops[i]);
      PlainCallIsAllowed(SQLExec(ops, i), ops[i]);
    }
    hide Allowed, PlainCall, SQLExec;
    AnswersRefine(ops, n);
    MemoryOpsAt(ops, n);
    assert PlainCall(ops[n]);
    SameCall(SQLExec(ops, n), ops[n]);
  }

  lemma PlainCallIsAllowed(table: Table, op: SQLOp)
    requires PlainTable(table) && PlainCall(op) && (op.TouchTx? ==> Allowed(table, op))
    ensures Allowed(table, op)
  {
    hide IsFingerprint, TrimSpace, PlainTable, ConsumedSQL;
    if op.CreateTx? && IsFingerprint(op.ssoSubject) {
      FoldedFingerprint(op.ssoSubject);
    }
  }

  lemma SameCall(table: Table, op: SQLOp)
    requires PlainCall(op)
    ensures op.CreateTx? ==>
              MemoryOp(table, op) == Create(op.token, op.userID, op.ssoSubject, op.clock * MILLISECOND)
  {
  }
}
