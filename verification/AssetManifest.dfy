/** Copying a manifest of assets from one store to another. */
module AssetManifest {
  import opened Assets
  import opened Strings

  datatype ManifestRow = ManifestRow(
    externalOrgID: string,
    logicalKey: string,
    targetOSSKey: string,
    expectedContentType: string,
    suggestedMigrationStatus: string,
    skipReason: string,
    logicalKeyRank: int)

  datatype CopyOptions = CopyOptions(
    apply: bool,
    externalOrgID: string,
    includeSkipped: bool,
    maxRows: int,
    defaultContentType: string)

  datatype Summary = Summary(total: int, copied: int, skipped: int, wouldCopy: int, errors: int)

  datatype Action = Skipped(reason: string) | WouldCopy | Failed | Copied(bytes: nat, contentType: string)

  datatype RowResult = RowResult(row: ManifestRow, action: Action)

  /** Whether the stores answer for one row. */
  datatype Answers = Answers(opens: bool, saves: bool)

  /** Lower case as far as it can produce one of the status words. */
  function LowerChar(c: char): char {
    if 'A' <= c <= 'Z' then c + ' '
    else if c == '\U{212A}' then 'k'
    else if c == '\U{130}' then 'i'
    else c
  }

  function ToLower(s: string): string {
    seq(|s|, i requires 0 <= i < |s| => LowerChar(s[i]))
  }

  predicate RowMatchesOptions(row: ManifestRow, options: CopyOptions) {
    var org := TrimSpace(options.externalOrgID);
    org == "" || TrimSpace(row.externalOrgID) == org
  }

  predicate RowReady(row: ManifestRow, includeSkipped: bool) {
    var status := ToLower(TrimSpace(row.suggestedMigrationStatus));
    if TrimSpace(row.logicalKey) == "" || TrimSpace(row.targetOSSKey) == "" then false
    else if status == "" || status == "pending" then row.logicalKeyRank == 0 || row.logicalKeyRank == 1
    else includeSkipped && status == "skipped" && TrimSpace(row.skipReason) == ""
  }

  function SkipReason(row: ManifestRow): string {
    var status := TrimSpace(row.suggestedMigrationStatus);
    if TrimSpace(row.logicalKey) == "" then "empty_logical_key"
    else if TrimSpace(row.targetOSSKey) == "" then "empty_target_oss_key"
    else if row.logicalKeyRank > 1 then "duplicate_logical_key"
    else if TrimSpace(row.skipReason) != "" then row.skipReason
    else if status != "" && status != "pending" then "status_" + status
    else "not_ready"
  }

  function ContentTypeFor(stored: string, row: ManifestRow, options: CopyOptions): string {
    if TrimSpace(stored) != "" then stored
    else if TrimSpace(row.expectedContentType) != "" then TrimSpace(row.expectedContentType)
    else TrimSpace(options.defaultContentType)
  }

  // ----- what a run should do --------------------------------------------------------------------

  predicate Eligible(row: ManifestRow, options: CopyOptions) {
    RowMatchesOptions(row, options) && RowReady(row, options.includeSkipped)
  }

  function EligibleCount(rows: seq<ManifestRow>, options: CopyOptions): nat {
    if rows == [] then 0
    else EligibleCount(rows[..|rows| - 1], options) + (if Eligible(rows[|rows| - 1], options) then 1 else 0)
  }

  predicate CapReached(rows: seq<ManifestRow>, options: CopyOptions, i: nat)
    requires i <= |rows|
  {
    options.maxRows > 0 && EligibleCount(rows[..i], options) >= options.maxRows
  }

  /** The rows that a run tries: those in order, up to the cap. */
  predicate Attempted(rows: seq<ManifestRow>, options: CopyOptions, i: nat)
    requires i < |rows|
  {
    Eligible(rows[i], options) && !CapReached(rows, options, i)
  }

  function CopyOf(source: Objects, row: ManifestRow, options: CopyOptions): Object
    requires row.logicalKey in source
  {
    source[row.logicalKey].(contentType := ContentTypeFor(source[row.logicalKey].contentType, row, options))
  }

  predicate CanCopy(source: Objects, row: ManifestRow, answers: Answers) {
    row.logicalKey in source && answers.opens && answers.saves
  }

  function ActionFor(rows: seq<ManifestRow>, options: CopyOptions, source: Objects, answers: seq<Answers>,
                     i: nat): Action
    requires i < |rows| == |answers|
  {
    var row := rows[i];
    if CapReached(rows, options, i) then Skipped("max_rows_reached")
    else if !RowMatchesOptions(row, options) then Skipped("filtered")
    else if !RowReady(row, options.includeSkipped) then Skipped(SkipReason(row))
    else if !options.apply then WouldCopy
    else if CanCopy(source, row, answers[i]) then
      var o := CopyOf(source, row, options);
      Copied(|o.body|, o.contentType)
    else Failed
  }

  /** The target once the copied rows among the first `i` are written in order. */
  function TargetAfter(rows: seq<ManifestRow>, options: CopyOptions, source: Objects, answers: seq<Answers>,
                       target: Objects, i: nat): Objects
    requires i <= |rows| == |answers|
  {
    if i == 0 then target
    else
      var before := TargetAfter(rows, options, source, answers, target, i - 1);
      if options.apply && Attempted(rows, options, i - 1) && CanCopy(source, rows[i - 1], answers[i - 1]) then
        before[rows[i - 1].targetOSSKey := CopyOf(source, rows[i - 1], options)]
      else before
  }

  predicate IsSkipped(r: RowResult) { r.action.Skipped? }

  predicate IsWouldCopy(r: RowResult) { r.action.WouldCopy? }

  predicate IsFailed(r: RowResult) { r.action.Failed? }

  predicate IsCopied(r: RowResult) { r.action.Copied? }

  function CountIf<T>(s: seq<T>, p: T -> bool): nat {
    if s == [] then 0 else CountIf(s[..|s| - 1], p) + (if p(s[|s| - 1]) then 1 else 0)
  }

  lemma {:induction false} CountIsCardinality<T>(s: seq<T>, p: T -> bool, chosen: set<int>)
    requires forall i :: i in chosen <==> 0 <= i < |s| && p(s[i])
    ensures CountIf(s, p) == |chosen|
  {
    if s != [] {
      var front, last := s[..|s| - 1], |s| - 1;
      forall i ensures i in chosen - {last} <==> 0 <= i < |front| && p(front[i]) {
      }
      CountIsCardinality(front, p, chosen - {last});
      assert last in chosen ==> chosen == chosen - {last} + {last};
      assert last !in chosen ==> chosen == chosen - {last};
    } else {
      assert forall i :: i !in chosen;
      assert chosen == {};
    }
  }

  /** The summary counts every result once. */
  predicate Sums(summary: Summary, total: int, results: seq<RowResult>) {
    && summary.total == total
    && summary.copied == CountIf(results, IsCopied) && summary.skipped == CountIf(results, IsSkipped)
    && summary.wouldCopy == CountIf(results, IsWouldCopy) && summary.errors == CountIf(results, IsFailed)
    && summary.copied + summary.skipped + summary.wouldCopy + summary.errors == |results|
  }

  lemma SumsNext(summary: Summary, next: Summary, total: int, results: seq<RowResult>, r: RowResult)
    requires Sums(summary, total, results)
    requires next == match r.action
                     case Skipped(_) => summary.(skipped := summary.skipped + 1)
                     case WouldCopy => summary.(wouldCopy := summary.wouldCopy + 1)
                     case Failed => summary.(errors := summary.errors + 1)
                     case Copied(_, _) => summary.(copied := summary.copied + 1)
    ensures Sums(next, total, results + [r])
  {
    var all := results + [r];
    assert all[..|all| - 1] == results;
  }

  /** What the results and the summary of a run are. */
  ghost predicate Ran(rows: seq<ManifestRow>, options: CopyOptions, source: Objects, answers: seq<Answers>,
                      summary: Summary, results: seq<RowResult>)
    requires |rows| == |answers|
  {
    && |results| == |rows| && Sums(summary, |rows|, results)
    && forall i | 0 <= i < |rows| :: results[i] == RowResult(rows[i], ActionFor(rows, options, source, answers, i))
  }

  class AssetStore {
    var objects: Objects

    constructor (objects: Objects)
      ensures this.objects == objects
    {
      this.objects := objects;
    }
  }

  /** The source is only read; its contents are those at the start of the run. */
  method CopyOne(source: Objects, target: AssetStore, row: ManifestRow, options: CopyOptions, answers: Answers)
    returns (action: Action)
    modifies target
    ensures action == if CanCopy(source, row, answers) then
                        var o := CopyOf(source, row, options);
                        Copied(|o.body|, o.contentType)
                      else Failed
    ensures target.objects == if CanCopy(source, row, answers) then
                                old(target.objects)[row.targetOSSKey := CopyOf(source, row, options)]
                              else old(target.objects)
  {
    if row.logicalKey !in source || !answers.opens {
      return Failed;
    }
    var contentType := source[row.logicalKey].contentType;
    if TrimSpace(contentType) == "" {
      contentType := TrimSpace(row.expectedContentType);
    }
    if TrimSpace(contentType) == "" {
      contentType := TrimSpace(options.defaultContentType);
    }
    TrimIdempotent(row.expectedContentType);
    if !answers.saves {
      return Failed;
    }
    target.objects := target.objects[row.targetOSSKey := Object(source[row.logicalKey].body, contentType)];
    return Copied(|source[row.logicalKey].body|, contentType);
  }

  method CopyManifest(source: Objects, target: AssetStore, rows: seq<ManifestRow>, options: CopyOptions,
                      answers: seq<Answers>)
    returns (summary: Summary, results: seq<RowResult>)
    requires |rows| == |answers|
    modifies target
    ensures Ran(rows, options, source, answers, summary, results)
    ensures target.objects == TargetAfter(rows, options, source, answers, old(target.objects), |rows|)
  {
    hide Sums, TargetAfter, CopyOf, EligibleCount, RowReady, RowMatchesOptions, SkipReason, CanCopy;
    summary := Summary(|rows|, 0, 0, 0, 0);
    results := [];
    var processed := 0;
    NothingCopied(rows, options, source, answers, target.objects);
    for i := 0 to |rows|
      invariant |results| == i && Sums(summary, |rows|, results)
      invariant forall k | 0 <= k < i :: results[k] == RowResult(rows[k], ActionFor(rows, options, source, answers, k))
      invariant processed == Processed(rows, options, i)
      invariant target.objects == TargetAfter(rows, options, source, answers, old(target.objects), i)
    {
      var row := rows[i];
      ghost var was := summary;
      NextRow(rows, options, i);
      NextTarget(rows, options, source, answers, old(target.objects), i);
      var action: Action;
      if options.maxRows > 0 && processed >= options.maxRows {
        action := Skipped("max_rows_reached");
        summary := summary.(skipped := summary.skipped + 1);
      } else if !RowMatchesOptions(row, options) {
        action := Skipped("filtered");
        summary := summary.(skipped := summary.skipped + 1);
      } else if !RowReady(row, options.includeSkipped) {
        action := Skipped(SkipReason(row));
        summary := summary.(skipped := summary.skipped + 1);
      } else {
        processed := processed + 1;
        if !options.apply {
          action := WouldCopy;
          summary := summary.(wouldCopy := summary.wouldCopy + 1);
        } else {
          action := CopyOne(source, target, row, options, answers[i]);
          if action.Failed? {
            summary := summary.(errors := summary.errors + 1);
          } else {
            summary := summary.(copied := summary.copied + 1);
          }
        }
      }
      SumsNext(was, summary, |rows|, results, RowResult(row, action));
      results := results + [RowResult(row, action)];
    }
  }

  /** How many rows were attempted before row `i`. */
  function Processed(rows: seq<ManifestRow>, options: CopyOptions, i: nat): nat
    requires i <= |rows|
  {
    var eligible := EligibleCount(rows[..i], options);
    if options.maxRows > 0 && eligible > options.maxRows then options.maxRows else eligible
  }

  lemma NextRow(rows: seq<ManifestRow>, options: CopyOptions, i: nat)
    requires i < |rows|
    ensures Processed(rows, options, i + 1) ==
            Processed(rows, options, i) + if Attempted(rows, options, i) then 1 else 0
    ensures CapReached(rows, options, i) <==> options.maxRows > 0 && Processed(rows, options, i) >= options.maxRows
  {
    assert rows[..i + 1][..i] == rows[..i];
  }

  lemma NothingCopied(rows: seq<ManifestRow>, options: CopyOptions, source: Objects, answers: seq<Answers>,
                      target: Objects)
    requires |rows| == |answers|
    ensures TargetAfter(rows, options, source, answers, target, 0) == target
    ensures Processed(rows, options, 0) == 0
    ensures Sums(Summary(|rows|, 0, 0, 0, 0), |rows|, [])
  {
  }

  lemma NextTarget(rows: seq<ManifestRow>, options: CopyOptions, source: Objects, answers: seq<Answers>,
                   target: Objects, i: nat)
    requires i < |rows| == |answers|
    ensures TargetAfter(rows, options, source, answers, target, i + 1) ==
            var before := TargetAfter(rows, options, source, answers, target, i);
            if options.apply && Attempted(rows, options, i) && CanCopy(source, rows[i], answers[i]) then
              before[rows[i].targetOSSKey := CopyOf(source, rows[i], options)]
            else before
  {
  }

  // ----- main results ------------------------------------------------------------------------------

  predicate IsAttempt(r: RowResult) { !r.action.Skipped? }

  lemma {:induction false} AttemptsAreProcessed(rows: seq<ManifestRow>, options: CopyOptions, source: Objects,
                                                answers: seq<Answers>, results: seq<RowResult>, i: nat)
    requires i <= |rows| == |answers| && |results| == |rows|
    requires forall k | 0 <= k < |rows| ::
               results[k] == RowResult(rows[k], ActionFor(rows, options, source, answers, k))
    ensures CountIf(results[..i], IsAttempt) == Processed(rows, options, i)
  {
    if i > 0 {
      AttemptsAreProcessed(rows, options, source, answers, results, i - 1);
      assert results[..i][..i - 1] == results[..i - 1];
      NextRow(rows, options, i - 1);
    }
  }

  /** The counters add up to the total, and a positive cap bounds the attempts,
      whatever the manifest, the options and the stores do. */
  lemma CountersAddUp(rows: seq<ManifestRow>, options: CopyOptions, source: Objects, answers: seq<Answers>,
                      summary: Summary, results: seq<RowResult>)
    requires |rows| == |answers| && Ran(rows, options, source, answers, summary, results)
    ensures summary.copied + summary.skipped + summary.wouldCopy + summary.errors == summary.total == |rows|
    ensures summary.copied + summary.wouldCopy + summary.errors == Processed(rows, options, |rows|)
    ensures options.maxRows > 0 ==> summary.copied + summary.wouldCopy + summary.errors <= options.maxRows
  {
    AttemptsAreProcessed(rows, options, source, answers, results, |rows|);
    assert results[..|rows|] == results;
    AttemptsPartition(results);
  }

  /** Each counter is the number of rows with its action. */
  lemma CountersCount(rows: seq<ManifestRow>, options: CopyOptions, source: Objects, answers: seq<Answers>,
                      summary: Summary, results: seq<RowResult>)
    requires |rows| == |answers| && Ran(rows, options, source, answers, summary, results)
    ensures summary.copied == |set i | 0 <= i < |results| && results[i].action.Copied?|
    ensures summary.errors == |set i | 0 <= i < |results| && results[i].action.Failed?|
    ensures summary.wouldCopy == |set i | 0 <= i < |results| && results[i].action.WouldCopy?|
    ensures summary.skipped == |set i | 0 <= i < |results| && results[i].action.Skipped?|
  {
    hide ActionFor;
    CountIsCardinality(results, IsCopied, set i | 0 <= i < |results| && results[i].action.Copied?);
    CountIsCardinality(results, IsFailed, set i | 0 <= i < |results| && results[i].action.Failed?);
    CountIsCardinality(results, IsWouldCopy, set i | 0 <= i < |results| && results[i].action.WouldCopy?);
    CountIsCardinality(results, IsSkipped, set i | 0 <= i < |results| && results[i].action.Skipped?);
  }

  lemma {:induction false} AttemptsPartition(results: seq<RowResult>)
    ensures CountIf(results, IsAttempt) + CountIf(results, IsSkipped) == |results|
  {
    if results != [] {
      AttemptsPartition(results[..|results| - 1]);
    }
  }

  /** A dry run marks for copying exactly the rows that an apply run then tries. */
  lemma DryRunPredicts(rows: seq<ManifestRow>, options: CopyOptions, source: Objects,
                       answers: seq<Answers>, drySummary: Summary, dry: seq<RowResult>,
                       answers': seq<Answers>, appliedSummary: Summary, applied: seq<RowResult>, i: nat)
    requires |rows| == |answers| == |answers'| && i < |rows|
    requires Ran(rows, options.(apply := false), source, answers, drySummary, dry)
    requires Ran(rows, options.(apply := true), source, answers', appliedSummary, applied)
    ensures dry[i].action.WouldCopy? <==> applied[i].action.Copied? || applied[i].action.Failed?
    ensures dry[i].action.Skipped? <==> applied[i].action == dry[i].action
  {
    SameChoices(rows, options.(apply := false), options.(apply := true), i);
    hide Sums, SkipReason, RowReady, RowMatchesOptions, CapReached, CopyOf, CanCopy;
  }

  lemma SameChoices(rows: seq<ManifestRow>, a: CopyOptions, b: CopyOptions, i: nat)
    requires i < |rows| && b == a.(apply := true)
    ensures CapReached(rows, a, i) == CapReached(rows, b, i)
    ensures RowMatchesOptions(rows[i], a) == RowMatchesOptions(rows[i], b)
  {
    SameCount(rows[..i], a, b);
  }

  lemma {:induction false} SameCount(rows: seq<ManifestRow>, a: CopyOptions, b: CopyOptions)
    requires b == a.(apply := true)
    ensures EligibleCount(rows, a) == EligibleCount(rows, b)
  {
    if rows != [] {
      SameCount(rows[..|rows| - 1], a, b);
    }
  }

  /** Row `i` of a run writes its object to the target. */
  predicate Writes(rows: seq<ManifestRow>, options: CopyOptions, source: Objects, answers: seq<Answers>, i: nat)
    requires i < |rows| == |answers|
  {
    options.apply && Attempted(rows, options, i) && CanCopy(source, rows[i], answers[i])
  }

  /** When no two rows write the same key, the target ends with each written object and
      everything else as it was. */
  lemma {:induction false} TargetHolds(rows: seq<ManifestRow>, options: CopyOptions, source: Objects,
                                       answers: seq<Answers>, target: Objects, n: nat, key: string)
    requires n <= |rows| == |answers|
    requires forall i, j | 0 <= i < j < n && rows[i].targetOSSKey == rows[j].targetOSSKey ::
               !(Writes(rows, options, source, answers, i) && Writes(rows, options, source, answers, j))
    ensures var after := TargetAfter(rows, options, source, answers, target, n);
            && (forall i | 0 <= i < n && rows[i].targetOSSKey == key && Writes(rows, options, source, answers, i) ::
                  key in after && after[key] == CopyOf(source, rows[i], options))
            && ((forall i | 0 <= i < n && rows[i].targetOSSKey == key :: !Writes(rows, options, source, answers, i)) ==>
                  (key in after <==> key in target) && (key in after ==> after[key] == target[key]))
  {
    hide Attempted, CanCopy, CopyOf, TargetAfter;
    if n > 0 {
      TargetHolds(rows, options, source, answers, target, n - 1, key);
      NextTarget(rows, options, source, answers, target, n - 1);
    } else {
      NothingCopied(rows, options, source, answers, target);
    }
  }

  // ----- what a run reports, told by its results ----------------------------------------------------

  /** `c` is read as the small letter `small`: the dotted capital I and the Kelvin sign
      have small letters in ASCII. */
  predicate ReadAs(c: char, small: char) {
    || c == small
    || ('a' <= small <= 'z' && c as int == small as int - 32)
    || (small == 'k' && c as int == 0x212A) || (small == 'i' && c as int == 0x130)
  }

  predicate Spells(text: string, word: string) {
    |text| == |word| && forall i | 0 <= i < |text| :: ReadAs(text[i], word[i])
  }

  lemma SpellsWord(text: string, word: string)
    requires forall i | 0 <= i < |word| :: 'a' <= word[i] <= 'z'
    ensures ToLower(text) == word <==> Spells(text, word)
  {
    if |text| == |word| {
      forall i | 0 <= i < |text| ensures ToLower(text)[i] == word[i] <==> ReadAs(text[i], word[i]) {
      }
      assert ToLower(text) == word <==> forall i | 0 <= i < |text| :: ToLower(text)[i] == word[i];
    }
  }

  predicate Blank(text: string) {
    TrimSpace(text) == ""
  }

  /** A row to copy: both keys are given; its status is empty or pending and it is the first
      of its object, or it is skipped without a reason and the run includes such rows. */
  predicate ToCopy(row: ManifestRow, includeSkipped: bool) {
    var status := TrimSpace(row.suggestedMigrationStatus);
    && !Blank(row.logicalKey) && !Blank(row.targetOSSKey)
    && (|| ((status == "" || Spells(status, "pending")) && 0 <= row.logicalKeyRank <= 1)
        || (Spells(status, "skipped") && includeSkipped && Blank(row.skipReason)))
  }

  lemma ReadyMeans(row: ManifestRow, includeSkipped: bool)
    ensures RowReady(row, includeSkipped) <==> ToCopy(row, includeSkipped)
  {
    hide TrimSpace, Spells, ToLower;
    var status := TrimSpace(row.suggestedMigrationStatus);
    SpellsWord(status, "");
    SpellsWord(status, "pending");
    SpellsWord(status, "skipped");
    assert ToLower(status) == "" <==> status == "" by {
      assert |ToLower(status)| == |status| by { LowerLength(status); }
    }
  }

  lemma LowerLength(text: string)
    ensures |ToLower(text)| == |text|
  {
  }

  /** The reason given for a row that is not copied; the last one only for a rank below 0. */
  predicate ReasonFor(row: ManifestRow, reason: string) {
    var status := TrimSpace(row.suggestedMigrationStatus);
    && (Blank(row.logicalKey) ==> reason == "empty_logical_key")
    && (!Blank(row.logicalKey) && Blank(row.targetOSSKey) ==> reason == "empty_target_oss_key")
    && (!Blank(row.logicalKey) && !Blank(row.targetOSSKey) ==>
          && (row.logicalKeyRank > 1 ==> reason == "duplicate_logical_key")
          && (row.logicalKeyRank <= 1 && !Blank(row.skipReason) ==> reason == row.skipReason)
          && (row.logicalKeyRank <= 1 && Blank(row.skipReason) ==>
                if status in {"", "pending"} then reason == "not_ready" && row.logicalKeyRank < 0
                else reason == "status_" + status))
  }

  lemma ReasonMeans(row: ManifestRow, includeSkipped: bool)
    requires !RowReady(row, includeSkipped)
    ensures ReasonFor(row, SkipReason(row))
  {
    hide TrimSpace;
    LowerPending();
  }

  lemma LowerPending()
    ensures ToLower("") == "" && ToLower("pending") == "pending"
  {
  }

  /** The content type of a copy: the stored one, else the expected, else the default. */
  predicate TypeFor(stored: string, row: ManifestRow, options: CopyOptions, contentType: string) {
    if !Blank(stored) then contentType == stored
    else if !Blank(row.expectedContentType) then contentType == TrimSpace(row.expectedContentType)
    else contentType == TrimSpace(options.defaultContentType)
  }

  /** In every run: once as many rows were tried as a positive cap allows, rows are skipped
      for that; rows of another organisation than the one asked for are skipped for that;
      rows not to be copied for their own reason; all others are marked in a dry run,
      and copied or failed in an apply run as the stores answer. */
  lemma ResultMeaning(rows: seq<ManifestRow>, options: CopyOptions, source: Objects, answers: seq<Answers>,
                      summary: Summary, results: seq<RowResult>, i: nat)
    requires |rows| == |answers| && i < |rows| && Ran(rows, options, source, answers, summary, results)
    ensures var row, action, org := rows[i], results[i].action, TrimSpace(options.externalOrgID);
            if options.maxRows > 0 && CountIf(results[..i], IsAttempt) >= options.maxRows then
              action == Skipped("max_rows_reached")
            else if org != "" && TrimSpace(row.externalOrgID) != org then
              action == Skipped("filtered")
            else if !ToCopy(row, options.includeSkipped) then
              action.Skipped? && ReasonFor(row, action.reason)
            else if !options.apply then
              action == WouldCopy
            else if row.logicalKey in source && answers[i].opens && answers[i].saves then
              && action.Copied? && action.bytes == |source[row.logicalKey].body|
              && TypeFor(source[row.logicalKey].contentType, row, options, action.contentType)
            else
              action == Failed
    ensures results[i].row == rows[i]
  {
    hide TrimSpace, Sums, RowReady, ToCopy, SkipReason, ReasonFor, EligibleCount;
    AttemptsAreProcessed(rows, options, source, answers, results, i);
    NextRow(rows, options, i);
    ReadyMeans(rows[i], options.includeSkipped);
    if !RowReady(rows[i], options.includeSkipped) {
      ReasonMeans(rows[i], options.includeSkipped);
    }
  }

  predicate CopiedTo(rows: seq<ManifestRow>, results: seq<RowResult>, key: string, i: int)
    requires |rows| == |results|
  {
    0 <= i < |rows| && results[i].action.Copied? && rows[i].targetOSSKey == key
  }

  /** The last row before row `n` that is reported as copied to this key. */
  predicate LastCopied(rows: seq<ManifestRow>, results: seq<RowResult>, n: nat, key: string, i: int)
    requires n <= |rows| == |results|
  {
    i < n && CopiedTo(rows, results, key, i) && forall j | i < j < n :: !CopiedTo(rows, results, key, j)
  }

  lemma LastCopiedNext(rows: seq<ManifestRow>, results: seq<RowResult>, n: nat, key: string)
    requires n < |rows| == |results|
    ensures forall i :: LastCopied(rows, results, n + 1, key, i) <==>
              if CopiedTo(rows, results, key, n) then i == n else LastCopied(rows, results, n, key, i)
  {
    hide CopiedTo;
    forall i ensures LastCopied(rows, results, n + 1, key, i) <==>
                     if CopiedTo(rows, results, key, n) then i == n else LastCopied(rows, results, n, key, i)
    {
      NeverBelow(rows, results, key, i);
    }
  }

  lemma NeverBelow(rows: seq<ManifestRow>, results: seq<RowResult>, key: string, i: int)
    requires |rows| == |results|
    ensures CopiedTo(rows, results, key, i) ==> 0 <= i < |rows|
  {
  }

  /** Under this key are the body of the row last copied to it and the reported type, or
      what was there. */
  predicate Held(rows: seq<ManifestRow>, results: seq<RowResult>, source: Objects, target: Objects, after: Objects,
                 n: nat, key: string)
    requires n <= |rows| == |results|
  {
    && (forall i | 0 <= i < n && LastCopied(rows, results, n, key, i) ::
          && rows[i].logicalKey in source && key in after
          && after[key] == Object(source[rows[i].logicalKey].body, results[i].action.contentType))
    && ((forall i | 0 <= i < n :: !LastCopied(rows, results, n, key, i)) ==>
          (key in after <==> key in target) && (key in after ==> after[key] == target[key]))
  }

  lemma HeldNext(rows: seq<ManifestRow>, results: seq<RowResult>, source: Objects, target: Objects, before: Objects,
                 after: Objects, n: nat, key: string)
    requires n < |rows| == |results| && Held(rows, results, source, target, before, n, key)
    requires if results[n].action.Copied? then
               && rows[n].logicalKey in source
               && after == before[rows[n].targetOSSKey :=
                                  Object(source[rows[n].logicalKey].body, results[n].action.contentType)]
             else after == before
    ensures Held(rows, results, source, target, after, n + 1, key)
  {
    LastCopiedNext(rows, results, n, key);
    hide LastCopied;
    if !CopiedTo(rows, results, key, n) {
      assert (key in after <==> key in before) && (key in after ==> after[key] == before[key]);
      assert forall i | 0 <= i < n ::
          LastCopied(rows, results, n + 1, key, i) <==> LastCopied(rows, results, n, key, i);
    } else {
      assert LastCopied(rows, results, n + 1, key, n);
    }
  }

  /** After every run the target holds, under each key, the body of the row last reported as
      copied to it with the reported type; a key that no row was copied to is as it was. */
  lemma {:induction false} TargetMeaning(rows: seq<ManifestRow>, options: CopyOptions, source: Objects,
                                         answers: seq<Answers>, target: Objects, summary: Summary,
                                         results: seq<RowResult>, n: nat, key: string)
    requires n <= |rows| == |answers| && Ran(rows, options, source, answers, summary, results)
    ensures |results| == |rows|
    ensures Held(rows, results, source, target, TargetAfter(rows, options, source, answers, target, n), n, key)
  {
    hide Held, TargetAfter, Ran, CopyOf;
    SameLength(rows, options, source, answers, summary, results);
    if n > 0 {
      TargetMeaning(rows, options, source, answers, target, summary, results, n - 1, key);
      WritesOrNot(rows, options, source, answers, target, n - 1);
      CopiedMeans(rows, options, source, answers, summary, results, n - 1);
      hide Writes;
      HeldNext(rows, results, source, target, TargetAfter(rows, options, source, answers, target, n - 1),
        TargetAfter(rows, options, source, answers, target, n), n - 1, key);
    } else {
      NothingHeld(rows, options, source, answers, target, results, key);
    }
  }

  lemma SameLength(rows: seq<ManifestRow>, options: CopyOptions, source: Objects, answers: seq<Answers>,
                   summary: Summary, results: seq<RowResult>)
    requires |rows| == |answers| && Ran(rows, options, source, answers, summary, results)
    ensures |results| == |rows|
  {
  }

  lemma WritesOrNot(rows: seq<ManifestRow>, options: CopyOptions, source: Objects, answers: seq<Answers>,
                    target: Objects, i: nat)
    requires i < |rows| == |answers|
    ensures Writes(rows, options, source, answers, i) ==> rows[i].logicalKey in source
    ensures TargetAfter(rows, options, source, answers, target, i + 1) ==
            var before := TargetAfter(rows, options, source, answers, target, i);
            if Writes(rows, options, source, answers, i)
            then before[rows[i].targetOSSKey := CopyOf(source, rows[i], options)]
            else before
  {
    hide CopyOf, Attempted;
    NextTarget(rows, options, source, answers, target, i);
  }

  lemma NothingHeld(rows: seq<ManifestRow>, options: CopyOptions, source: Objects, answers: seq<Answers>,
                    target: Objects, results: seq<RowResult>, key: string)
    requires |rows| == |answers| == |results|
    ensures Held(rows, results, source, target, TargetAfter(rows, options, source, answers, target, 0), 0, key)
  {
  }

  lemma CopiedMeans(rows: seq<ManifestRow>, options: CopyOptions, source: Objects, answers: seq<Answers>,
                    summary: Summary, results: seq<RowResult>, i: nat)
    requires |rows| == |answers| && i < |rows| && Ran(rows, options, source, answers, summary, results)
    ensures results[i].action.Copied? <==> Writes(rows, options, source, answers, i)
    ensures results[i].action.Copied? ==>
              rows[i].logicalKey in source &&
              CopyOf(source, rows[i], options) == Object(source[rows[i].logicalKey].body, results[i].action.contentType)
  {
    hide Sums, RowReady, RowMatchesOptions, CapReached, SkipReason, TrimSpace;
  }
}
