/** The digital-twin whitelist: a normal form of store IDs, and an update that names
    the version it replaces and is audited before it takes effect. */
module DigitalTwinSettings {
  import opened Options
  import opened Strings
  import opened Decimals
  import opened Sorting

  // ----- normal form ----------------------------------------------------------------------------

  predicate StoreID(id: string) {
    Canonical(id) && |id| <= 18
  }

  predicate Acceptable(ids: seq<string>) {
    |ids| <= 100 && forall i | 0 <= i < |ids| :: StoreID(ids[i])
  }

  /** An acceptable ID is the decimal numeral of a positive number below 10 to the 18th. */
  lemma StoreIDMeaning(id: string)
    ensures StoreID(id) <==> exists n: nat | 0 < n < 1_000_000_000_000_000_000 :: Decimal(n) == id
  {
    assert Pow10(6) == 1_000_000;
    assert Pow10(12) == 1_000_000_000_000;
    assert Pow10(18) == 1_000_000_000_000_000_000;
    if StoreID(id) {
      var n := Value(id);
      ValueBelow(id);
      PowMonotone(|id|, 18);
      CanonicalIsPositive(id);
      NumeralOf(id);
    }
    if n: nat :| 0 < n < 1_000_000_000_000_000_000 && Decimal(n) == id {
      DecimalRoundTrip(n);
      CanonicalIsLong(id);
      if |id| > 18 {
        PowMonotone(18, |id| - 1);
      }
    }
  }

  lemma CanonicalIsPositive(id: string)
    requires Canonical(id)
    ensures Value(id) > 0
  {
    DigitTimes(id[0], Pow10(|id| - 1));
    PowMonotone(0, |id| - 1);
  }

  lemma CanonicalIsLong(id: string)
    requires Canonical(id)
    ensures Pow10(|id| - 1) <= Value(id)
  {
    DigitTimes(id[0], Pow10(|id| - 1));
  }

  lemma NumeralOf(id: string)
    requires Canonical(id)
    ensures Decimal(Value(id)) == id
  {
    CanonicalIsPositive(id);
    DecimalRoundTrip(Value(id));
    CanonicalUnique(Decimal(Value(id)), id);
  }

  predicate NumericallyBefore(a: string, b: string) {
    AllDigits(a) && AllDigits(b) && Value(a) < Value(b)
  }

  /** The same IDs, each once, in numeric order. */
  ghost predicate NormalFormOf(normal: seq<string>, ids: seq<string>) {
    && (forall id :: id in normal <==> id in ids)
    && forall i, j | 0 <= i < j < |normal| :: NumericallyBefore(normal[i], normal[j])
  }

  method NormalizeStoreIDs(ids: seq<string>) returns (normal: Option<seq<string>>)
    ensures normal.Some? <==> |ids| <= 100 && forall i | 0 <= i < |ids| :: StoreID(ids[i])
    ensures normal.Some? ==> NormalFormOf(normal.value, ids)
  {
    if |ids| > 100 {
      return None;
    }
    var unique: set<string> := {};
    var result: seq<string> := [];
    for i := 0 to |ids|
      invariant forall k | 0 <= k < i :: StoreID(ids[k])
      invariant forall id :: id in result <==> id in ids[..i]
      invariant forall id :: id in unique <==> id in result
      invariant Distinct(result)
    {
      var id := ids[i];
      if |id| == 0 || |id| > 18 || id[0] < '1' || id[0] > '9' {
        return None;
      }
      for j := 1 to |id|
        invariant forall k | 0 <= k < j :: IsDigit(id[k])
      {
        if id[j] < '0' || id[j] > '9' {
          return None;
        }
      }
      assert ids[..i + 1] == ids[..i] + [id];
      if id !in unique {
        unique := unique + {id};
        result := result + [id];
      }
    }
    assert ids[..|ids|] == ids;
    ShortlexTotal();
    var sorted := SortSlice(result, ShortlexLe);
    SortedIsNormal(sorted, result, ids);
    return Some(sorted);
  }

  lemma ShortlexTotal()
    ensures TotalOrder(ShortlexLe)
  {
    forall x, y ensures ShortlexLe(x, y) || ShortlexLe(y, x) {
      StringLeTotal(x, y);
    }
    forall x, y, z | ShortlexLe(x, y) && ShortlexLe(y, z) ensures ShortlexLe(x, z) {
      if |x| == |y| == |z| {
        StringLeTransitive(x, y, z);
      }
    }
  }

  lemma SortedIsNormal(sorted: seq<string>, distinct: seq<string>, ids: seq<string>)
    requires SortingOf(sorted, distinct, ShortlexLe) && Distinct(distinct)
    requires forall id :: id in distinct <==> id in ids
    requires forall i | 0 <= i < |ids| :: StoreID(ids[i])
    ensures NormalFormOf(sorted, ids)
  {
    SortingMembers(sorted, distinct, ShortlexLe);
    SortingDistinct(sorted, distinct, ShortlexLe);
    forall i, j | 0 <= i < j < |sorted| ensures NumericallyBefore(sorted[i], sorted[j]) {
      assert sorted[i] in ids && sorted[j] in ids;
      ShortlexIsNumeric(sorted[i], sorted[j]);
      if Value(sorted[i]) == Value(sorted[j]) {
        CanonicalUnique(sorted[i], sorted[j]);
      }
    }
  }

  predicate NotAfter(a: string, b: string) {
    a == b || NumericallyBefore(a, b)
  }

  lemma NormalIsSorted(normal: seq<string>, ids: seq<string>)
    requires NormalFormOf(normal, ids)
    ensures Sorted(normal, NotAfter) && Distinct(normal)
  {
  }

  /** Lists that hold the same IDs, in any order and with any repeats, have one
      normal form between them. */
  lemma NormalFormUnique(a: seq<string>, b: seq<string>, idsA: seq<string>, idsB: seq<string>)
    requires NormalFormOf(a, idsA) && NormalFormOf(b, idsB)
    ensures a == b <==> forall id :: id in idsA <==> id in idsB
  {
    if forall id :: id in idsA <==> id in idsB {
      NormalIsSorted(a, idsA);
      NormalIsSorted(b, idsB);
      SameMembers(a, b);
      SortingUnique(a, b, NotAfter);
    }
  }

  /** Normalizing a normal form changes nothing, and every ID is a positive int64. */
  lemma NormalFormStable(normal: seq<string>, again: seq<string>, ids: seq<string>)
    requires Acceptable(ids) && NormalFormOf(normal, ids)
    ensures Acceptable(normal)
    ensures NormalFormOf(again, normal) <==> again == normal
    ensures forall i | 0 <= i < |normal| :: AllDigits(normal[i]) && 0 < Value(normal[i]) < 0x8000_0000_0000_0000
  {
    NormalIsSorted(normal, ids);
    DistinctWithin(normal, ids);
    if NormalFormOf(again, normal) {
      NormalFormUnique(again, normal, normal, ids);
    }
    forall i | 0 <= i < |normal|
      ensures StoreID(normal[i]) && 0 < Value(normal[i]) < 0x8000_0000_0000_0000
    {
      assert normal[i] in ids;
      EighteenDigits(normal[i]);
    }
  }

  lemma EighteenDigits(id: string)
    requires StoreID(id)
    ensures 0 < Value(id) < 0x8000_0000_0000_0000
  {
    ValueBelow(id);
    PowMonotone(|id|, 18);
    assert Pow10(6) == 1_000_000;
    assert Pow10(12) == 1_000_000_000_000;
    assert Pow10(18) == 1_000_000_000_000_000_000;
    DigitTimes(id[0], Pow10(|id| - 1));
    PowMonotone(0, |id| - 1);
  }

  // ----- settings -----------------------------------------------------------------------------------

  /** A version names the list that was hashed into it: the hash is taken to be
      injective. */
  datatype Version = Missing | Saved(hashed: seq<string>) | Unknown(text: string)

  datatype Settings = Settings(storeIDs: seq<string>, version: Version)

  function SettingsValue(ids: seq<string>): Settings {
    Settings(ids, Saved(ids))
  }

  function DefaultSettings(): Settings {
    Settings(["10001"], Missing)
  }

  datatype AuditEvent = WhitelistUpdated(previous: seq<string>, next: seq<string>, fromDefault: bool)

  datatype Result = Updated(settings: Settings) | InvalidIDs | Cancelled | StoredInvalid | Conflict | AuditFailed

  datatype State = State(stored: Option<seq<string>>, audit: seq<AuditEvent>)

  /** An update call; `live` and `audited` say whether the context lasts and the
      audit event is accepted. */
  datatype Call = Call(expected: Version, ids: seq<string>, live: bool, audited: bool)

  /** What a reader of the stored text gets. */
  ghost predicate Current(stored: Option<seq<string>>, settings: Settings) {
    match stored
    case None => settings == DefaultSettings()
    case Some(ids) =>
      Acceptable(ids) && NormalFormOf(settings.storeIDs, ids) && settings == SettingsValue(settings.storeIDs)
  }

  /** Everything an update may do. */
  ghost predicate Update(before: State, after: State, call: Call, result: Result) {
    && (result.Updated? <==>
          && Acceptable(call.ids) && call.live && call.audited
          && exists s: Settings :: Current(before.stored, s) && s.version == call.expected)
    && (!result.Updated? ==> after == before)
    && (result == InvalidIDs <==> !Acceptable(call.ids))
    && (result == Cancelled <==> Acceptable(call.ids) && !call.live)
    && (result == StoredInvalid <==>
          Acceptable(call.ids) && call.live && forall s: Settings :: !Current(before.stored, s))
    && (result == Conflict <==>
          && Acceptable(call.ids) && call.live
          && exists s: Settings :: Current(before.stored, s) && s.version != call.expected)
    && (result == AuditFailed <==>
          && Acceptable(call.ids) && call.live && !call.audited
          && exists s: Settings :: Current(before.stored, s) && s.version == call.expected)
    && (result.Updated? ==>
          && NormalFormOf(result.settings.storeIDs, call.ids)
          && result.settings == SettingsValue(result.settings.storeIDs)
          && after.stored == Some(result.settings.storeIDs)
          && exists s: Settings :: Current(before.stored, s) && s.version == call.expected &&
               after.audit == before.audit +
                 [WhitelistUpdated(s.storeIDs, result.settings.storeIDs, s.version == Missing)])
  }

  class MemoryStore {
    var digitalTwinSettingsJSON: Option<seq<string>>
    var auditLogs: seq<AuditEvent>

    constructor ()
      ensures StateNow() == State(None, [])
    {
      digitalTwinSettingsJSON, auditLogs := None, [];
    }

    ghost function StateNow(): State
      reads this
    {
      State(digitalTwinSettingsJSON, auditLogs)
    }

    method GetDigitalTwinSettings() returns (settings: Option<Settings>)
      ensures settings.Some? ==> Current(digitalTwinSettingsJSON, settings.value)
      ensures digitalTwinSettingsJSON.None? ==> settings == Some(Settings(["10001"], Missing))
      ensures settings.None? ==> forall s: Settings :: !Current(digitalTwinSettingsJSON, s)
    {
      if digitalTwinSettingsJSON.None? {
        return Some(DefaultSettings());
      }
      var ids := NormalizeStoreIDs(digitalTwinSettingsJSON.value);
      return if ids.Some? then Some(SettingsValue(ids.value)) else None;
    }

    method UpdateDigitalTwinSettings(call: Call) returns (result: Result)
      modifies this
      ensures Update(old(StateNow()), StateNow(), call, result)
    {
      var ids := NormalizeStoreIDs(call.ids);
      if ids.None? {
        return InvalidIDs;
      }
      if !call.live {
        return Cancelled;
      }
      var previous := GetDigitalTwinSettings();
      if previous.None? {
        return StoredInvalid;
      }
      forall s: Settings | Current(digitalTwinSettingsJSON, s) ensures s == previous.value {
        CurrentUnique(digitalTwinSettingsJSON, s, previous.value);
      }
      if previous.value.version != call.expected {
        return Conflict;
      }
      var next := SettingsValue(ids.value);
      if !call.audited {
        return AuditFailed;
      }
      var fromDefault := previous.value.version == Missing;
      auditLogs := auditLogs + [WhitelistUpdated(previous.value.storeIDs, next.storeIDs, fromDefault)];
      digitalTwinSettingsJSON := Some(ids.value);
      return Updated(next);
    }
  }

  lemma CurrentUnique(stored: Option<seq<string>>, s: Settings, t: Settings)
    requires Current(stored, s) && Current(stored, t)
    ensures s == t
  {
    if stored.Some? {
      NormalFormUnique(s.storeIDs, t.storeIDs, stored.value, stored.value);
    }
  }

  // ----- runs -------------------------------------------------------------------------------------------

  ghost predicate Run(states: seq<State>, calls: seq<Call>, results: seq<Result>) {
    && |states| == |calls| + 1 && |results| == |calls|
    && states[0] == State(None, [])
    && forall i, j | 0 <= i < |calls| && j == i + 1 :: Update(states[i], states[j], calls[i], results[i])
  }

  function Successes(results: seq<Result>): nat {
    if results == [] then 0
    else Successes(results[..|results| - 1]) + (if results[|results| - 1].Updated? then 1 else 0)
  }

  /** The version that the last success left behind. */
  function LastVersion(results: seq<Result>): Version {
    if results == [] then Missing
    else if results[|results| - 1].Updated? then results[|results| - 1].settings.version
    else LastVersion(results[..|results| - 1])
  }

  /** The audit log tells the whole story: it starts at the default, every event
      continues the one before, and the last one ends at what is stored. */
  ghost predicate Continuous(s: State) {
    && (if s.audit == [] then s.stored == None
        else s.stored == Some(s.audit[|s.audit| - 1].next) && s.audit[0].previous == DefaultSettings().storeIDs)
    && (forall i | 0 <= i < |s.audit| :: s.audit[i].fromDefault <==> i == 0)
    && (forall i, j | 0 <= i && j == i + 1 < |s.audit| :: s.audit[j].previous == s.audit[i].next)
    && (s.stored.Some? ==> Acceptable(s.stored.value) && NormalFormOf(s.stored.value, s.stored.value))
  }

  lemma CurrentOfContinuous(s: State, settings: Settings)
    requires Continuous(s)
    ensures Current(s.stored, settings) <==>
            settings == if s.stored.None? then DefaultSettings() else SettingsValue(s.stored.value)
  {
    if s.stored.Some? {
      assert Current(s.stored, SettingsValue(s.stored.value));
      if Current(s.stored, settings) {
        CurrentUnique(s.stored, settings, SettingsValue(s.stored.value));
      }
    }
  }

  lemma UpdateContinues(before: State, after: State, call: Call, result: Result)
    requires Continuous(before) && Update(before, after, call, result)
    ensures Continuous(after)
    ensures |after.audit| == |before.audit| + if result.Updated? then 1 else 0
  {
    if result.Updated? {
      var s: Settings :| Current(before.stored, s) && s.version == call.expected &&
        after.audit == before.audit + [WhitelistUpdated(s.storeIDs, result.settings.storeIDs, s.version == Missing)];
      CurrentOfContinuous(before, s);
      NormalFormStable(result.settings.storeIDs, result.settings.storeIDs, call.ids);
    }
  }

  lemma {:induction false} RunContinues(states: seq<State>, calls: seq<Call>, results: seq<Result>)
    requires Run(states, calls, results)
    ensures Continuous(states[|calls|])
    ensures |states[|calls|].audit| == Successes(results)
    ensures LastVersion(results) ==
            if states[|calls|].stored.None? then Missing else Saved(states[|calls|].stored.value)
  {
    hide Continuous, NormalFormOf;
    if calls != [] {
      var n := |calls| - 1;
      RunContinues(states[..|calls|], calls[..n], results[..n]);
      assert Update(states[n], states[n + 1], calls[n], results[n]);
      UpdateContinues(states[n], states[n + 1], calls[n], results[n]);
    } else {
      EmptyContinuous();
    }
  }

  lemma EmptyContinuous()
    ensures Continuous(State(None, []))
  {
  }

  /** After any run the next update succeeds exactly when its IDs are acceptable, the
      context lasts, the audit is written, and it names the version that the last
      success left; and the log holds one event for each success. */
  lemma SuccessNamesLastVersion(states: seq<State>, calls: seq<Call>, results: seq<Result>,
                                after: State, call: Call, result: Result)
    requires Run(states, calls, results) && Update(states[|calls|], after, call, result)
    ensures result.Updated? <==>
            Acceptable(call.ids) && call.live && call.audited && call.expected == LastVersion(results)
    ensures |after.audit| == Successes(results) + if result.Updated? then 1 else 0
  {
    var s := states[|calls|];
    RunContinues(states, calls, results);
    var now := if s.stored.None? then DefaultSettings() else SettingsValue(s.stored.value);
    assert now.version == LastVersion(results);
    UpdateContinues(s, after, call, result);
    CurrentOfContinuous(s, now);
    forall t: Settings | Current(s.stored, t) ensures t == now {
      CurrentOfContinuous(s, t);
    }
  }

  /** Of two updates that read the same version, the second succeeds exactly when it
      is in order and the first wrote the very list that it replaced. */
  lemma SecondOfTwoReaders(before: State, between: State, after: State, a: Call, b: Call, x: Result, y: Result)
    requires Continuous(before)
    requires Update(before, between, a, x) && Update(between, after, b, y)
    requires x.Updated? && a.expected == b.expected
    ensures y.Updated? <==>
            before.stored == between.stored && Acceptable(b.ids) && b.live && b.audited
  {
    UpdateContinues(before, between, a, x);
    var s: Settings :| Current(before.stored, s) && s.version == a.expected;
    CurrentOfContinuous(before, s);
    CurrentOfContinuous(between, s);
    if y.Updated? {
      var t: Settings :| Current(between.stored, t) && t.version == b.expected;
      CurrentOfContinuous(between, t);
    }
  }

  // ----- a version that comes back ---------------------------------------------------------------------

  /** An update that names the current version and is in order in every other way. */
  lemma UpdateInOrder(before: State, ids: seq<string>) returns (after: State, call: Call, result: Result)
    requires Continuous(before) && Acceptable(ids) && NormalFormOf(ids, ids)
    ensures Update(before, after, call, result) && Continuous(after) && after.stored == Some(ids)
    ensures call.ids == ids && result == Updated(SettingsValue(ids))
  {
    var now := if before.stored.None? then DefaultSettings() else SettingsValue(before.stored.value);
    call, result := Call(now.version, ids, true, true), Updated(SettingsValue(ids));
    after := State(Some(ids), before.audit + [WhitelistUpdated(now.storeIDs, ids, now.version == Missing)]);
    CurrentOfContinuous(before, now);
    forall s: Settings | Current(before.stored, s) ensures s == now {
      CurrentOfContinuous(before, s);
    }
    UpdateContinues(before, after, call, result);
  }

  /** Three updates in turn write one list, another and the first again. */
  lemma ThereAndBack(a: seq<string>, b: seq<string>)
    returns (states: seq<State>, calls: seq<Call>, results: seq<Result>)
    requires Acceptable(a) && NormalFormOf(a, a) && Acceptable(b) && NormalFormOf(b, b)
    ensures Run(states, calls, results)
    ensures results == [Updated(SettingsValue(a)), Updated(SettingsValue(b)), Updated(SettingsValue(a))]
    ensures LastVersion(results) == Saved(a)
  {
    hide Continuous, Update, NormalFormOf, Acceptable;
    EmptyContinuous();
    var start := State(None, []);
    var first, call1, result1 := UpdateInOrder(start, a);
    var second, call2, result2 := UpdateInOrder(first, b);
    var third, call3, result3 := UpdateInOrder(second, a);
    states, calls, results := [start, first, second, third], [call1, call2, call3], [result1, result2, result3];
    RunContinues(states, calls, results);
  }

  lemma OneID(id: string)
    requires StoreID(id)
    ensures Acceptable([id]) && NormalFormOf([id], [id])
  {
  }

  /** The version that the first of three updates left is not current after the second,
      and is again after the third: whoever still names it then succeeds. */
  lemma OldVersionReturns() returns (states: seq<State>, calls: seq<Call>, results: seq<Result>)
    ensures Run(states, calls, results) && |results| == 3 && forall i | 0 <= i < 3 :: results[i].Updated?
    ensures results[1].settings.version != results[0].settings.version
    ensures forall after: State, call: Call, result: Result | Update(states[3], after, call, result) ::
              Acceptable(call.ids) && call.live && call.audited && call.expected == results[0].settings.version ==>
                result.Updated?
  {
    OneID("1");
    OneID("2");
    states, calls, results := ThereAndBack(["1"], ["2"]);
    hide Update, Run, LastVersion;
    assert ["1"][0] != ["2"][0];
    forall after: State, call: Call, result: Result | Update(states[3], after, call, result)
      ensures Acceptable(call.ids) && call.live && call.audited && call.expected == results[0].settings.version ==>
                result.Updated?
    {
      SuccessNamesLastVersion(states, calls, results, after, call, result);
    }
  }
}
