/** The asset inventory: which stored references are one object, which row stands
    for it in the manifest, and that a copy run takes each object exactly once. */
module AssetInventory {
  import opened Options
  import opened Strings
  import opened Decimals
  import opened Assets
  import opened AssetManifest

  datatype RawRow = RawRow(
    sourceTable: string,
    sourceID: string,
    channelID: string,
    externalOrgID: string,
    oldPath: string,
    sourceKey: string,
    expectedContentType: string)

  datatype AssetState = AssetState(migrationStatus: string, storageProvider: string, bucket: string, storageKey: string)

  datatype LogicalKey = LogicalKey(key: string, status: string, reason: string)

  datatype Item = Item(raw: RawRow, logicalKey: string, status: string, reason: string, rank: int, refCount: int)

  datatype InventorySummary = InventorySummary(total: int, pending: int, skipped: int, duplicateRefs: int)

  // ----- logical keys ------------------------------------------------------------------------------

  predicate IsMigrated(states: map<string, AssetState>, key: string) {
    && key in states
    && TrimSpace(states[key].migrationStatus) == "migrated" && TrimSpace(states[key].storageProvider) == "oss"
    && TrimSpace(states[key].bucket) != "" && TrimSpace(states[key].storageKey) != ""
  }

  function StripAssetQuery(value: string): string {
    if value == "" || value[0] == '?' || value[0] == '#' then "" else [value[0]] + StripAssetQuery(value[1..])
  }

  predicate IsRemote(path: string) {
    "http://" <= path || "https://" <= path
  }

  function Split(s: string): (parts: seq<string>)
    ensures parts != []
  {
    if s == "" then [""]
    else
      var rest := Split(s[1..]);
      if s[0] == '/' then [""] + rest else [[s[0]] + rest[0]] + rest[1..]
  }

  const SNAPSHOT_PROXY := "/api/store-space/channel-snapshots/"
  const UPLOAD_PROXY := "/api/design-plan/uploads/"

  /** One spelling for every way of writing an object's path; "" for none. */
  function NormalizeAssetPath(path: string): string {
    var value := TrimSpace(path);
    if "uploads/" <= value || "channel-snapshots/" <= value then value
    else if SNAPSHOT_PROXY <= value then "channel-snapshots/" + value[|SNAPSHOT_PROXY|..]
    else if UPLOAD_PROXY <= value then UploadKey(Split(value[|UPLOAD_PROXY|..]))
    else ""
  }

  function UploadKey(parts: seq<string>): string
    requires parts != []
  {
    if |parts| < 2 || TrimSpace(parts[0]) == "" then ""
    else if parts[1] == "original" then "uploads/" + parts[0] + "/original.pdf"
    else if parts[1] == "preview" then "uploads/" + parts[0] + "/preview.png"
    else if parts[1] == "thumbnail" then "uploads/" + parts[0] + "/thumbnail.png"
    else ""
  }

  function NormalizeLogicalKey(row: RawRow): LogicalKey {
    var oldPath, sourceKey := StripAssetQuery(TrimSpace(row.oldPath)), StripAssetQuery(TrimSpace(row.sourceKey));
    if oldPath == "" && sourceKey == "" then LogicalKey("", "skipped", "empty_path")
    else if IsRemote(sourceKey) || IsRemote(oldPath) then LogicalKey("", "skipped", "remote_http_url")
    else if NormalizeAssetPath(sourceKey) != "" then LogicalKey(NormalizeAssetPath(sourceKey), "pending", "")
    else if NormalizeAssetPath(oldPath) != "" then LogicalKey(NormalizeAssetPath(oldPath), "pending", "")
    else LogicalKey("", "skipped", "unrecognized_path")
  }

  // ----- the latest snapshot of each channel ---------------------------------------------------------

  /** `strconv.ParseInt` in base 10 with 64 bits. */
  function ParseInt(text: string): Option<int> {
    var digits := if text != "" && (text[0] == '+' || text[0] == '-') then text[1..] else text;
    if digits == "" || !AllDigits(digits) then None
    else
      var size: int := Value(digits);
      var n := if text[0] == '-' then -size else size;
      if -0x8000_0000_0000_0000 <= n < 0x8000_0000_0000_0000 then Some(n) else None
  }

  predicate IsSnapshot(row: RawRow) {
    row.sourceTable == "tb_channel_snapshots" && TrimSpace(row.channelID) != ""
  }

  function SnapshotID(row: RawRow): Option<int> {
    ParseInt(TrimSpace(row.sourceID))
  }

  /** The highest positive snapshot ID of a channel, or 0. */
  ghost predicate IsLatest(rows: seq<RawRow>, channel: string, id: int) {
    && (forall i | 0 <= i < |rows| && SnapshotOf(rows[i], channel) :: SnapshotID(rows[i]).value <= id)
    && (id == 0 || (id > 0 && exists i | 0 <= i < |rows| ::
          SnapshotOf(rows[i], channel) && SnapshotID(rows[i]).value == id))
    && id >= 0
  }

  predicate SnapshotOf(row: RawRow, channel: string) {
    IsSnapshot(row) && row.channelID == channel && SnapshotID(row).Some?
  }

  /** Rows that stay: all but the snapshots that a newer one of the same channel
      replaces.  (Where no snapshot has a positive ID, all rows stay.) */
  ghost predicate Stays(rows: seq<RawRow>, row: RawRow) {
    || !IsSnapshot(row) || SnapshotID(row).None?
    || IsLatest(rows, row.channelID, SnapshotID(row).value)
    || NoPositiveID(rows)
  }

  ghost predicate NoPositiveID(rows: seq<RawRow>) {
    forall i | 0 <= i < |rows| && IsSnapshot(rows[i]) && SnapshotID(rows[i]).Some? :: SnapshotID(rows[i]).value <= 0
  }

  /** `kept` is `rows` without those that do not stay, in order. */
  ghost predicate KeepsLatest(rows: seq<RawRow>, upto: nat, kept: seq<RawRow>)
    requires upto <= |rows|
  {
    if upto == 0 then kept == []
    else if Stays(rows, rows[upto - 1]) then
      kept != [] && kept[|kept| - 1] == rows[upto - 1] && KeepsLatest(rows, upto - 1, kept[..|kept| - 1])
    else KeepsLatest(rows, upto - 1, kept)
  }

  function Get(ids: map<string, int>, channel: string): int {
    if channel in ids then ids[channel] else 0
  }

  ghost predicate HoldsLatest(rows: seq<RawRow>, latest: map<string, int>) {
    && (forall channel :: IsLatest(rows, channel, Get(latest, channel)))
    && forall channel | channel in latest :: latest[channel] > 0
  }

  lemma NoneYet()
    ensures HoldsLatest([], map[])
  {
  }

  /** The map after a row has been seen. */
  function Seen(latest: map<string, int>, row: RawRow): map<string, int> {
    if SnapshotOf(row, row.channelID) && SnapshotID(row).value > Get(latest, row.channelID)
    then latest[row.channelID := SnapshotID(row).value]
    else latest
  }

  lemma GetSeen(latest: map<string, int>, row: RawRow, channel: string)
    ensures Get(Seen(latest, row), channel) ==
            if SnapshotOf(row, channel) && SnapshotID(row).value > Get(latest, channel) then SnapshotID(row).value
            else Get(latest, channel)
    ensures channel in Seen(latest, row) ==>
              channel in latest || (SnapshotOf(row, channel) && Get(Seen(latest, row), channel) > Get(latest, channel))
  {
    hide IsSnapshot, SnapshotID;
  }

  lemma LatestNext(rows: seq<RawRow>, row: RawRow, latest: map<string, int>)
    requires HoldsLatest(rows, latest)
    ensures HoldsLatest(rows + [row], Seen(latest, row))
  {
    hide IsSnapshot, SnapshotID, SnapshotOf, Seen, IsLatest;
    var next := Seen(latest, row);
    forall channel ensures IsLatest(rows + [row], channel, Get(next, channel)) {
      GetSeen(latest, row, channel);
      LatestOfOneMore(rows, row, channel, Get(latest, channel), Get(next, channel));
    }
    forall channel | channel in next ensures next[channel] > 0 {
      GetSeen(latest, row, channel);
      NotNegative(rows, channel, Get(latest, channel));
    }
  }

  lemma NotNegative(rows: seq<RawRow>, channel: string, id: int)
    requires IsLatest(rows, channel, id)
    ensures id >= 0
  {
  }

  lemma LatestOfOneMore(rows: seq<RawRow>, row: RawRow, channel: string, was: int, now: int)
    requires IsLatest(rows, channel, was)
    requires now == if SnapshotOf(row, channel) && SnapshotID(row).value > was then SnapshotID(row).value else was
    ensures IsLatest(rows + [row], channel, now)
  {
    hide IsSnapshot, SnapshotID;
    var all := rows + [row];
    assert forall i | 0 <= i < |rows| :: all[i] == rows[i];
    assert all[|rows|] == row;
    if now == was && was > 0 {
      var i :| 0 <= i < |rows| && SnapshotOf(rows[i], channel) && SnapshotID(rows[i]).value == was;
      assert SnapshotOf(all[i], channel);
    }
  }

  method LatestSnapshotRows(rows: seq<RawRow>) returns (kept: seq<RawRow>)
    ensures KeepsLatest(rows, |rows|, kept)
  {
    hide IsSnapshot, SnapshotID, IsLatest;
    var latest: map<string, int> := map[];
    NoneYet();
    for i := 0 to |rows|
      invariant HoldsLatest(rows[..i], latest)
    {
      var row := rows[i];
      assert rows[..i + 1] == rows[..i] + [row];
      LatestNext(rows[..i], row, latest);
      if !IsSnapshot(row) || SnapshotID(row).None? {
        continue;
      }
      if SnapshotID(row).value > Get(latest, row.channelID) {
        latest := latest[row.channelID := SnapshotID(row).value];
      }
    }
    assert rows[..|rows|] == rows;
    if latest == map[] {
      AllStay(rows, latest);
      return rows;
    }
    kept := [];
    for i := 0 to |rows|
      invariant KeepsLatest(rows, i, kept)
    {
      StaysIff(rows, rows[i], latest);
      if !IsSnapshot(rows[i]) || SnapshotID(rows[i]).None? ||
          SnapshotID(rows[i]).value == Get(latest, rows[i].channelID) {
        kept := kept + [rows[i]];
      }
    }
  }

  lemma AllStay(rows: seq<RawRow>, latest: map<string, int>)
    requires latest == map[] && HoldsLatest(rows, latest)
    ensures KeepsLatest(rows, |rows|, rows)
  {
    hide IsSnapshot, SnapshotID;
    forall i | 0 <= i < |rows| && IsSnapshot(rows[i]) && SnapshotID(rows[i]).Some?
      ensures SnapshotID(rows[i]).value <= 0
    {
      assert IsLatest(rows, rows[i].channelID, Get(latest, rows[i].channelID));
      assert SnapshotOf(rows[i], rows[i].channelID);
    }
    assert NoPositiveID(rows);
    PrefixStays(rows, |rows|);
    assert rows[..|rows|] == rows;
  }

  lemma {:induction false} PrefixStays(rows: seq<RawRow>, upto: nat)
    requires upto <= |rows| && NoPositiveID(rows)
    ensures KeepsLatest(rows, upto, rows[..upto])
  {
    if upto > 0 {
      PrefixStays(rows, upto - 1);
      assert rows[..upto][..upto - 1] == rows[..upto - 1];
    }
  }

  lemma StaysIff(rows: seq<RawRow>, row: RawRow, latest: map<string, int>)
    requires HoldsLatest(rows, latest) && latest != map[] && row in rows
    ensures Stays(rows, row) <==>
            !IsSnapshot(row) || SnapshotID(row).None? || SnapshotID(row).value == Get(latest, row.channelID)
  {
    hide IsSnapshot, SnapshotID;
    var channel :| channel in latest;
    assert IsLatest(rows, channel, Get(latest, channel));
    assert !NoPositiveID(rows);
    if IsSnapshot(row) && SnapshotID(row).Some? {
      assert SnapshotOf(row, row.channelID);
      assert IsLatest(rows, row.channelID, Get(latest, row.channelID));
      if IsLatest(rows, row.channelID, SnapshotID(row).value) {
        LatestUnique(rows, row.channelID, SnapshotID(row).value, Get(latest, row.channelID));
      }
    }
  }

  lemma LatestUnique(rows: seq<RawRow>, channel: string, a: int, b: int)
    requires IsLatest(rows, channel, a) && IsLatest(rows, channel, b)
    ensures a == b
  {
    hide IsSnapshot, SnapshotID;
  }

  lemma {:induction false} KeptMembers(rows: seq<RawRow>, upto: nat, kept: seq<RawRow>, row: RawRow)
    requires upto <= |rows| && KeepsLatest(rows, upto, kept)
    ensures row in kept <==> row in rows[..upto] && Stays(rows, row)
  {
    hide Stays;
    if upto > 0 {
      var shorter := if Stays(rows, rows[upto - 1]) then kept[..|kept| - 1] else kept;
      KeptMembers(rows, upto - 1, shorter, row);
      assert rows[..upto] == rows[..upto - 1] + [rows[upto - 1]];
      assert Stays(rows, rows[upto - 1]) ==> kept == shorter + [rows[upto - 1]];
    }
  }

  /** Of the snapshots of one channel, only those with the highest ID stay, and those
      do, as long as some snapshot has a positive ID at all. */
  lemma OnlyLatestStay(rows: seq<RawRow>, kept: seq<RawRow>, row: RawRow)
    requires KeepsLatest(rows, |rows|, kept) && row in rows
    requires IsSnapshot(row) && SnapshotID(row).Some? && !NoPositiveID(rows)
    ensures row in kept <==>
            && SnapshotID(row).value >= 0
            && forall other | other in rows && SnapshotOf(other, row.channelID) ::
                 SnapshotID(other).value <= SnapshotID(row).value
  {
    hide IsSnapshot, SnapshotID;
    KeptMembers(rows, |rows|, kept, row);
    assert rows[..|rows|] == rows;
    assert SnapshotOf(row, row.channelID);
    if forall other | other in rows && SnapshotOf(other, row.channelID) ::
        SnapshotID(other).value <= SnapshotID(row).value {
      assert forall i | 0 <= i < |rows| && SnapshotOf(rows[i], row.channelID) :: rows[i] in rows;
    }
  }

  // ----- the inventory -----------------------------------------------------------------------------------

  function KeyOf(row: RawRow): string {
    NormalizeLogicalKey(row).key
  }

  /** How often a key is among the first `n` rows. */
  function Refs(rows: seq<RawRow>, n: nat, key: string): nat
    requires n <= |rows|
  {
    if n == 0 then 0 else Refs(rows, n - 1, key) + (if KeyOf(rows[n - 1]) == key then 1 else 0)
  }

  /** A row before it is ranked. */
  function Listed(row: RawRow, states: map<string, AssetState>): Item {
    var normal := NormalizeLogicalKey(row);
    if IsMigrated(states, normal.key) then Item(row, normal.key, "skipped", "already_migrated", 0, 0)
    else Item(row, normal.key, normal.status, normal.reason, 0, 0)
  }

  function ItemAt(rows: seq<RawRow>, states: map<string, AssetState>, i: nat): Item
    requires i < |rows|
  {
    var item := Listed(rows[i], states);
    if item.logicalKey == "" then item
    else item.(rank := Refs(rows, i + 1, item.logicalKey), refCount := Refs(rows, |rows|, item.logicalKey))
  }

  predicate IsPending(item: Item) {
    item.status == "pending"
  }

  predicate IsDuplicate(item: Item) {
    item.refCount > 1
  }

  ghost predicate Inventory(rows: seq<RawRow>, states: map<string, AssetState>, items: seq<Item>) {
    |items| == |rows| && forall i | 0 <= i < |rows| :: items[i] == ItemAt(rows, states, i)
  }

  predicate Summed(summary: InventorySummary, items: seq<Item>, total: int) {
    && summary.total == total && summary.pending + summary.skipped == |items|
    && summary.pending == CountIf(items, IsPending) && summary.duplicateRefs == CountIf(items, IsDuplicate)
  }

  /** The counts or ranks once the first `n` rows are counted. */
  ghost predicate Counts(counts: map<string, int>, rows: seq<RawRow>, n: nat)
    requires n <= |rows|
  {
    forall key | key != "" :: Get(counts, key) == Refs(rows, n, key)
  }

  lemma GetUpdated(counts: map<string, int>, key: string, n: int, other: string)
    ensures Get(counts[key := n], other) == if other == key then n else Get(counts, other)
  {
  }

  lemma CountsNext(counts: map<string, int>, rows: seq<RawRow>, n: nat)
    requires n < |rows| && Counts(counts, rows, n)
    ensures var key := KeyOf(rows[n]);
            if key == "" then Counts(counts, rows, n + 1)
            else
              && Counts(counts[key := Get(counts, key) + 1], rows, n + 1)
              && Get(counts, key) + 1 == Refs(rows, n + 1, key)
  {
    hide KeyOf, Get;
    var key := KeyOf(rows[n]);
    var next := counts[key := Get(counts, key) + 1];
    forall other | key != "" && other != "" ensures Get(next, other) == Refs(rows, n + 1, other) {
      GetUpdated(counts, key, Get(counts, key) + 1, other);
    }
  }

  method ListAssets(rows: seq<RawRow>, states: map<string, AssetState>)
    returns (inventory: seq<Item>, counts: map<string, int>)
    ensures |inventory| == |rows| && forall i | 0 <= i < |rows| :: inventory[i] == Listed(rows[i], states)
    ensures Counts(counts, rows, |rows|)
  {
    hide Listed, KeyOf, NormalizeLogicalKey, IsMigrated, Get, Counts;
    inventory, counts := [], map[];
    NoCounts(rows);
    for i := 0 to |rows|
      invariant |inventory| == i && forall k | 0 <= k < i :: inventory[k] == Listed(rows[k], states)
      invariant Counts(counts, rows, i)
    {
      var normal := NormalizeLogicalKey(rows[i]);
      var status, reason := normal.status, normal.reason;
      if IsMigrated(states, normal.key) {
        status, reason := "skipped", "already_migrated";
      }
      ListedIs(rows[i], states);
      CountsNext(counts, rows, i);
      inventory := inventory + [Item(rows[i], normal.key, status, reason, 0, 0)];
      if normal.key != "" {
        counts := counts[normal.key := Get(counts, normal.key) + 1];
      }
    }
  }

  method BuildInventory(all: seq<RawRow>, states: map<string, AssetState>)
    returns (rows: seq<RawRow>, items: seq<Item>, summary: InventorySummary)
    ensures KeepsLatest(all, |all|, rows)
    ensures Inventory(rows, states, items)
    ensures Summed(summary, items, |items|)
  {
    hide KeepsLatest, Listed, KeyOf, Summed, Refs, Get, Counts, ItemAt, IsPending, IsDuplicate;
    rows := LatestSnapshotRows(all);
    var inventory, counts := ListAssets(rows, states);
    var ranks: map<string, int> := map[];
    summary := InventorySummary(|inventory|, 0, 0, 0);
    items := [];
    NothingSummed(|inventory|);
    NoCounts(rows);
    for i := 0 to |inventory|
      invariant |items| == i && forall k | 0 <= k < i :: items[k] == ItemAt(rows, states, k)
      invariant Counts(ranks, rows, i)
      invariant Summed(summary, items, |inventory|)
    {
      var item := inventory[i];
      ghost var was := summary;
      ItemIs(rows, states, counts, ranks, i);
      if item.logicalKey != "" {
        ranks := ranks[item.logicalKey := Get(ranks, item.logicalKey) + 1];
        item := item.(rank := ranks[item.logicalKey], refCount := Get(counts, item.logicalKey));
        if item.refCount > 1 {
          summary := summary.(duplicateRefs := summary.duplicateRefs + 1);
        }
      }
      if item.status == "pending" {
        summary := summary.(pending := summary.pending + 1);
      } else {
        summary := summary.(skipped := summary.skipped + 1);
      }
      SummedNext(was, items, item, |inventory|);
      items := items + [item];
    }
  }

  lemma NoCounts(rows: seq<RawRow>)
    ensures Counts(map[], rows, 0)
  {
  }

  lemma ItemIs(rows: seq<RawRow>, states: map<string, AssetState>, counts: map<string, int>, ranks: map<string, int>,
               i: nat)
    requires i < |rows| && Counts(counts, rows, |rows|) && Counts(ranks, rows, i)
    ensures var item := Listed(rows[i], states);
            var key := item.logicalKey;
            && item.refCount == 0
            && if key == "" then ItemAt(rows, states, i) == item && Counts(ranks, rows, i + 1)
               else
                 && ItemAt(rows, states, i) == item.(rank := Get(ranks, key) + 1, refCount := Get(counts, key))
                 && Counts(ranks[key := Get(ranks, key) + 1], rows, i + 1)
  {
    ListedIs(rows[i], states);
    CountsNext(ranks, rows, i);
    hide KeyOf, NormalizeLogicalKey, IsMigrated, Refs, Get;
  }

  lemma ListedIs(row: RawRow, states: map<string, AssetState>)
    ensures var normal := NormalizeLogicalKey(row);
            && normal.key == KeyOf(row)
            && Listed(row, states) == if IsMigrated(states, normal.key)
                                      then Item(row, normal.key, "skipped", "already_migrated", 0, 0)
                                      else Item(row, normal.key, normal.status, normal.reason, 0, 0)
  {
  }

  lemma NothingSummed(total: int)
    ensures Summed(InventorySummary(total, 0, 0, 0), [], total)
  {
  }

  lemma SummedNext(summary: InventorySummary, items: seq<Item>, item: Item, total: int)
    requires Summed(summary, items, total)
    ensures Summed(InventorySummary(total,
                     summary.pending + (if IsPending(item) then 1 else 0),
                     summary.skipped + (if IsPending(item) then 0 else 1),
                     summary.duplicateRefs + (if IsDuplicate(item) then 1 else 0)), items + [item], total)
    ensures summary.total == total
    ensures IsPending(item) == (item.status == "pending") && IsDuplicate(item) == (item.refCount > 1)
  {
    var longer := items + [item];
    assert longer[..|longer| - 1] == items;
  }

  // ----- the manifest --------------------------------------------------------------------------------------

  function RowOf(item: Item): ManifestRow {
    ManifestRow(item.raw.externalOrgID, item.logicalKey, item.logicalKey, item.raw.expectedContentType,
                item.status, item.reason, item.rank)
  }

  function Manifest(items: seq<Item>): seq<ManifestRow> {
    seq(|items|, i requires 0 <= i < |items| => RowOf(items[i]))
  }

  lemma StartsVisible(s: string)
    requires s != "" && !IsSpace(s[0])
    ensures TrimSpace(s) != ""
  {
    var lo, hi := TrimSpaceIsSlice(s);
  }

  /** A key is only given with the status "pending", and shows more than white space. */
  lemma KeyIsPending(row: RawRow)
    ensures var normal := NormalizeLogicalKey(row);
            normal.key != "" ==> normal.status == "pending" && TrimSpace(normal.key) != ""
    ensures NormalizeLogicalKey(row).key == "" ==> NormalizeLogicalKey(row).status == "skipped"
  {
    var key := NormalizeLogicalKey(row).key;
    if key != "" {
      assert key[0] == 'u' || key[0] == 'c' by {
        PathStart(row.sourceKey);
        PathStart(row.oldPath);
      }
      StartsVisible(key);
    }
  }

  lemma PathStart(path: string)
    ensures var key := NormalizeAssetPath(StripAssetQuery(TrimSpace(path)));
            key != "" ==> key[0] == 'u' || key[0] == 'c'
  {
    hide Split, TrimSpace, StripAssetQuery;
  }

  lemma StatusWords()
    ensures ToLower(TrimSpace("pending")) == "pending"
    ensures ToLower(TrimSpace("skipped")) == "skipped"
    ensures TrimSpace("already_migrated") != ""
  {
    StartsVisible("already_migrated");
  }

  lemma {:induction false} FirstRef(rows: seq<RawRow>, n: nat, key: string)
    requires n <= |rows|
    ensures Refs(rows, n, key) == 0 <==> forall j | 0 <= j < n :: KeyOf(rows[j]) != key
  {
    hide KeyOf;
    if n > 0 {
      FirstRef(rows, n - 1, key);
    }
  }

  /** Which rows of an inventory a copy run is ready to take: those that are the first
      to name an object that is not migrated yet. */
  lemma ReadyIsFirst(rows: seq<RawRow>, states: map<string, AssetState>, items: seq<Item>, includeSkipped: bool, i: nat)
    requires Inventory(rows, states, items) && i < |items|
    ensures RowReady(RowOf(items[i]), includeSkipped) <==>
            && KeyOf(rows[i]) != "" && !IsMigrated(states, KeyOf(rows[i]))
            && forall j | 0 <= j < i :: KeyOf(rows[j]) != KeyOf(rows[i])
  {
    var item := ItemAt(rows, states, i);
    hide NormalizeLogicalKey, IsMigrated, TrimSpace, ToLower;
    KeyIsPending(rows[i]);
    StatusWords();
    FirstRef(rows, i, KeyOf(rows[i]));
  }

  // ----- copied exactly once -----------------------------------------------------------------------------------

  /** The organisation of the row is the one asked for, if any. */
  predicate OrgPasses(row: RawRow, options: CopyOptions) {
    var org := TrimSpace(options.externalOrgID);
    org == "" || TrimSpace(row.externalOrgID) == org
  }

  /** Row `i` is the first to name the object. */
  predicate IsFirst(rows: seq<RawRow>, i: nat, key: string)
    requires i < |rows|
  {
    KeyOf(rows[i]) == key && forall j | 0 <= j < i :: KeyOf(rows[j]) != key
  }

  predicate IsReferenced(rows: seq<RawRow>, key: string) {
    exists n | 0 <= n < |rows| :: KeyOf(rows[n]) == key
  }

  /** An object that is not migrated and whose first row passes the filter. */
  predicate Wanted(rows: seq<RawRow>, states: map<string, AssetState>, options: CopyOptions, key: string) {
    && key != "" && !IsMigrated(states, key)
    && exists i | 0 <= i < |rows| :: IsFirst(rows, i, key) && OrgPasses(rows[i], options)
  }

  /** Whether the run takes row `i` of the inventory. */
  predicate Taken(items: seq<Item>, options: CopyOptions, i: nat)
    requires i < |items|
  {
    Attempted(Manifest(items), options, i)
  }

  /** The rows a run without a cap takes: the first to name an object, if that object
      is not migrated and that row passes the filter. */
  lemma AttemptedIsFirst(rows: seq<RawRow>, states: map<string, AssetState>, items: seq<Item>, options: CopyOptions,
                         i: nat)
    requires Inventory(rows, states, items) && i < |items| && options.maxRows <= 0
    ensures items[i].logicalKey == KeyOf(rows[i])
    ensures var key := KeyOf(rows[i]);
            Taken(items, options, i) <==>
            key != "" && !IsMigrated(states, key) && IsFirst(rows, i, key) && OrgPasses(rows[i], options)
  {
    hide KeyOf, IsMigrated, RowReady, TrimSpace;
    ListedIs(rows[i], states);
    ReadyIsFirst(rows, states, items, options.includeSkipped, i);
  }

  lemma {:induction false} FirstWith(rows: seq<RawRow>, key: string, n: nat) returns (i: nat)
    requires n < |rows| && KeyOf(rows[n]) == key
    ensures i <= n && IsFirst(rows, i, key)
  {
    hide KeyOf;
    i := n;
    if exists j | 0 <= j < n :: KeyOf(rows[j]) == key {
      var j :| 0 <= j < n && KeyOf(rows[j]) == key;
      i := FirstWith(rows, key, j);
    }
  }

  lemma SameSize(rows: seq<RawRow>, states: map<string, AssetState>, items: seq<Item>)
    requires Inventory(rows, states, items)
    ensures |items| == |rows| == |Manifest(items)|
  {
  }

  lemma TakenAtMostOnce(rows: seq<RawRow>, states: map<string, AssetState>, items: seq<Item>, options: CopyOptions,
                        i: nat, j: nat)
    requires Inventory(rows, states, items) && options.maxRows <= 0
    requires i < j < |items| && items[i].logicalKey == items[j].logicalKey
    ensures !Taken(items, options, j)
  {
    hide KeyOf, IsMigrated, Taken, Inventory, Manifest, OrgPasses;
    SameSize(rows, states, items);
    AttemptedIsFirst(rows, states, items, options, i);
    AttemptedIsFirst(rows, states, items, options, j);
  }

  /** For every filter, without a cap: an object is taken by some row exactly when it is
      not migrated and the first row that names it passes the filter; never by two. */
  lemma TakenByKey(rows: seq<RawRow>, states: map<string, AssetState>, items: seq<Item>, options: CopyOptions,
                   key: string)
    requires Inventory(rows, states, items) && options.maxRows <= 0
    ensures (exists i | 0 <= i < |items| :: items[i].logicalKey == key && Taken(items, options, i)) <==>
            Wanted(rows, states, options, key)
    ensures forall i, j | 0 <= i < j < |items| && items[i].logicalKey == items[j].logicalKey ::
              !Taken(items, options, j)
  {
    hide KeyOf, IsMigrated, Taken, Inventory, Manifest, IsFirst, OrgPasses;
    SameSize(rows, states, items);
    forall i, j | 0 <= i < j < |items| && items[i].logicalKey == items[j].logicalKey
      ensures !Taken(items, options, j)
    {
      TakenAtMostOnce(rows, states, items, options, i, j);
    }
    if i :| 0 <= i < |items| && items[i].logicalKey == key && Taken(items, options, i) {
      AttemptedIsFirst(rows, states, items, options, i);
    }
    if i :| 0 <= i < |rows| && IsFirst(rows, i, key) && OrgPasses(rows[i], options) {
      FirstNames(rows, i, key);
      AttemptedIsFirst(rows, states, items, options, i);
    }
  }

  lemma FirstNames(rows: seq<RawRow>, i: nat, key: string)
    requires i < |rows| && IsFirst(rows, i, key)
    ensures KeyOf(rows[i]) == key
    ensures forall j | 0 <= j < |rows| && IsFirst(rows, j, key) :: j == i
  {
    hide KeyOf;
  }

  /** With no filter and no cap, every object that is referenced and not migrated is
      taken by exactly one row, and no other object by any. */
  lemma TakenExactlyOnce(rows: seq<RawRow>, states: map<string, AssetState>, items: seq<Item>, options: CopyOptions,
                         key: string)
    requires Inventory(rows, states, items) && options.maxRows <= 0 && TrimSpace(options.externalOrgID) == ""
    ensures (exists i | 0 <= i < |items| :: items[i].logicalKey == key && Taken(items, options, i)) <==>
            key != "" && !IsMigrated(states, key) && IsReferenced(rows, key)
    ensures forall i, j | 0 <= i < j < |items| && items[i].logicalKey == items[j].logicalKey ::
              !Taken(items, options, j)
  {
    hide KeyOf, IsMigrated, Taken, Inventory, Manifest, IsFirst;
    TakenByKey(rows, states, items, options, key);
    if n :| 0 <= n < |rows| && KeyOf(rows[n]) == key {
      var i := FirstWith(rows, key, n);
    }
    if i :| 0 <= i < |rows| && IsFirst(rows, i, key) {
      FirstNames(rows, i, key);
    }
  }

  /** An object that some row of the organisation names is missed exactly when the first
      row that names it does not pass the filter. */
  lemma FilterNeedsFirstRow(rows: seq<RawRow>, states: map<string, AssetState>, items: seq<Item>, options: CopyOptions,
                            i: nat, key: string)
    requires Inventory(rows, states, items) && options.maxRows <= 0
    requires i < |rows| && IsFirst(rows, i, key) && key != "" && !IsMigrated(states, key)
    ensures (exists n | 0 <= n < |items| :: items[n].logicalKey == key && Taken(items, options, n)) <==>
            OrgPasses(rows[i], options)
  {
    hide KeyOf, IsMigrated, Taken, Inventory, Manifest, IsFirst, OrgPasses;
    TakenByKey(rows, states, items, options, key);
    FirstNames(rows, i, key);
  }

  function SharedRow(org: string): RawRow {
    RawRow("tb_store_design_plans", "1", "", org, "uploads/x", "uploads/x", "")
  }

  /** A clean upload path is its own key. */
  lemma UploadIsKey(row: RawRow, path: string)
    requires row.sourceKey == row.oldPath == path && "uploads/" <= path && !IsSpace(path[|path| - 1])
    requires '?' !in path && '#' !in path
    ensures KeyOf(row) == path
  {
    hide TrimSpace, StripAssetQuery, Split;
    TrimmedAlready(path);
    StripsNothing(path);
  }

  lemma {:induction false} StripsNothing(value: string)
    requires '?' !in value && '#' !in value
    ensures StripAssetQuery(value) == value
  {
    if value != "" {
      StripsNothing(value[1..]);
    }
  }

  /** Two organisations that name one object: asked for the second, the run takes nothing,
      although that organisation names the object and it is not migrated. */
  lemma SharedObjectMissed(options: CopyOptions) returns (rows: seq<RawRow>, items: seq<Item>)
    requires options.maxRows <= 0 && options.externalOrgID == "b"
    ensures rows == [SharedRow("a"), SharedRow("b")] && Inventory(rows, map[], items)
    ensures OrgPasses(rows[1], options) && KeyOf(rows[1]) == "uploads/x" && !IsMigrated(map[], "uploads/x")
    ensures forall i | 0 <= i < |items| :: !Taken(items, options, i)
  {
    hide NormalizeLogicalKey, KeyOf, TrimSpace, Taken, ItemAt;
    rows := [SharedRow("a"), SharedRow("b")];
    items := [ItemAt(rows, map[], 0), ItemAt(rows, map[], 1)];
    UploadIsKey(rows[0], "uploads/x");
    UploadIsKey(rows[1], "uploads/x");
    TrimmedAlready("a");
    TrimmedAlready("b");
    FirstOfTwo(rows, items, options);
  }

  lemma FirstOfTwo(rows: seq<RawRow>, items: seq<Item>, options: CopyOptions)
    requires |rows| == 2 && Inventory(rows, map[], items) && options.maxRows <= 0
    requires KeyOf(rows[0]) == KeyOf(rows[1]) && !OrgPasses(rows[0], options)
    ensures forall i | 0 <= i < |items| :: !Taken(items, options, i)
  {
    hide KeyOf, Taken, ItemAt, OrgPasses;
    AttemptedIsFirst(rows, map[], items, options, 0);
    AttemptedIsFirst(rows, map[], items, options, 1);
  }

  lemma TargetOf(items: seq<Item>, i: nat)
    requires i < |items|
    ensures |Manifest(items)| == |items|
    ensures Manifest(items)[i].targetOSSKey == Manifest(items)[i].logicalKey == items[i].logicalKey
  {
  }

  /** From the stored references to the copied bytes: an apply run with any filter and no
      cap, over stores that answer, gives the target the body of every object that is
      not migrated, whose first row passes the filter and that is in the source, and
      touches nothing else. */
  lemma EveryObjectCopied(rows: seq<RawRow>, states: map<string, AssetState>, items: seq<Item>, options: CopyOptions,
                          source: Objects, answers: seq<Answers>, target: Objects, key: string)
    requires Inventory(rows, states, items) && |answers| == |items|
    requires options.apply && options.maxRows <= 0
    requires forall i | 0 <= i < |answers| :: answers[i].opens && answers[i].saves
    ensures |Manifest(items)| == |items|
    ensures var after := TargetAfter(Manifest(items), options, source, answers, target, |items|);
            if Wanted(rows, states, options, key) && key in source then
              key in after && after[key].body == source[key].body
            else
              (key in after <==> key in target) && (key in after ==> after[key] == target[key])
  {
    hide KeyOf, IsMigrated, Attempted, Inventory, Manifest, Wanted, TargetAfter;
    var manifest := Manifest(items);
    SameSize(rows, states, items);
    forall i | 0 <= i < |items| ensures manifest[i].targetOSSKey == manifest[i].logicalKey == items[i].logicalKey {
      TargetOf(items, i);
    }
    TakenByKey(rows, states, items, options, key);
    assert forall i | 0 <= i < |items| :: Writes(manifest, options, source, answers, i) <==>
      Taken(items, options, i) && items[i].logicalKey in source;
    TargetHolds(manifest, options, source, answers, target, |items|, key);
  }
}
