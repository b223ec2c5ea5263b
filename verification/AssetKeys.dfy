/** What a stored reference names, in terms of its text: the spellings of one object, the
    items of an inventory, and the snapshots that stay. */
module AssetKeys {
  import opened Options
  import opened Strings
  import opened Decimals
  import opened AssetManifest
  import opened AssetInventory

  // ----- a reference without its query -----------------------------------------------------------

  predicate EndsReference(c: char) {
    c == '?' || c == '#'
  }

  /** `p` is the text up to its first question mark or number sign. */
  predicate Reference(text: string, p: string) {
    && p <= text && (forall i | 0 <= i < |p| :: !EndsReference(p[i]))
    && (|p| < |text| ==> EndsReference(text[|p|]))
  }

  lemma {:induction false} StripIsReference(text: string, p: string)
    ensures StripAssetQuery(text) == p <==> Reference(text, p)
  {
    if text != "" && !EndsReference(text[0]) {
      if p != "" {
        StripIsReference(text[1..], p[1..]);
        assert p == [p[0]] + p[1..];
      }
    }
  }

  // ----- the object that a reference names ---------------------------------------------------------

  predicate DirectName(text: string, key: string) {
    text == key && ("uploads/" <= text || "channel-snapshots/" <= text)
  }

  ghost predicate SnapshotName(text: string, key: string) {
    exists rest: string :: text == "/api/store-space/channel-snapshots/" + rest && key == "channel-snapshots/" + rest
  }

  predicate FileOf(name: string, file: string) {
    || (name == "original" && file == "/original.pdf")
    || (name == "preview" && file == "/preview.png")
    || (name == "thumbnail" && file == "/thumbnail.png")
  }

  /** What follows the upload proxy is an ID, a slash, a name and, behind a further slash,
      anything. */
  predicate FilePath(rest: string, key: string, id: string, name: string, file: string, tail: string) {
    && rest == id + "/" + (name + tail) && FileOf(name, file) && key == "uploads/" + id + file
    && '/' !in id && TrimSpace(id) != "" && (tail != "" ==> tail[0] == '/')
  }

  ghost predicate UploadName(text: string, key: string) {
    exists rest: string :: text == "/api/design-plan/uploads/" + rest && UploadRest(rest, key)
  }

  ghost predicate UploadRest(rest: string, key: string) {
    exists id: string, name: string, file: string, tail: string :: FilePath(rest, key, id, name, file, tail)
  }

  /** A reference names an object by its own key or by one of the two proxy paths. */
  ghost predicate Names(reference: string, key: string) {
    var text := TrimSpace(reference);
    DirectName(text, key) || SnapshotName(text, key) || UploadName(text, key)
  }

  lemma {:induction false} SplitAtSlash(a: string, b: string)
    requires '/' !in a
    ensures Split(a) == [a]
    ensures Split(a + "/" + b) == [a] + Split(b)
  {
    if a != "" {
      SplitAtSlash(a[1..], b);
      assert (a + "/" + b)[1..] == a[1..] + "/" + b;
      assert a == [a[0]] + a[1..];
    } else {
      assert ("/" + b)[1..] == b;
    }
  }

  lemma {:induction false} SlashIn(s: string) returns (a: string, b: string)
    requires '/' in s
    ensures s == a + "/" + b && '/' !in a
  {
    if s[0] == '/' {
      a, b := "", s[1..];
    } else {
      a, b := SlashIn(s[1..]);
      a := [s[0]] + a;
    }
  }

  /** The second part is the name up to the next slash. */
  lemma FirstPart(s: string, name: string, tail: string)
    requires '/' !in name && (tail != "" ==> tail[0] == '/')
    ensures Split(name + tail)[0] == name
  {
    if tail == "" {
      SplitAtSlash(name, "");
      assert name + tail == name;
    } else {
      SplitAtSlash(name, tail[1..]);
      assert name + tail == name + "/" + tail[1..];
    }
  }

  lemma NameAndTail(s: string) returns (name: string, tail: string)
    ensures s == name + tail && '/' !in name && (tail != "" ==> tail[0] == '/')
    ensures Split(s)[0] == name
  {
    if '/' in s {
      var b;
      name, b := SlashIn(s);
      tail := "/" + b;
      assert s == name + tail;
    } else {
      name, tail := s, "";
    }
    FirstPart(s, name, tail);
  }

  lemma FilesHaveNoSlash(name: string, file: string)
    requires FileOf(name, file)
    ensures '/' !in name && file != ""
  {
  }

  lemma UploadKeyFound(rest: string)
    requires UploadKey(Split(rest)) != ""
    ensures UploadRest(rest, UploadKey(Split(rest)))
  {
    hide TrimSpace;
    if '/' !in rest {
      SplitAtSlash(rest, "");
    } else {
      var id, b := SlashIn(rest);
      SplitAtSlash(id, b);
      var name, tail := NameAndTail(b);
      hide Split;
      var file := FileFor(Split(rest), id, name);
      assert FilePath(rest, UploadKey(Split(rest)), id, name, file, tail);
    }
  }

  lemma FileFor(parts: seq<string>, id: string, name: string) returns (file: string)
    requires |parts| >= 2 && parts[0] == id && parts[1] == name && UploadKey(parts) != ""
    ensures FileOf(name, file) && UploadKey(parts) == "uploads/" + id + file && TrimSpace(id) != ""
  {
    hide TrimSpace;
    file := if name == "original" then "/original.pdf" else if name == "preview" then "/preview.png"
            else "/thumbnail.png";
  }

  lemma FilePathFound(rest: string, key: string, id: string, name: string, file: string, tail: string)
    requires FilePath(rest, key, id, name, file, tail)
    ensures UploadKey(Split(rest)) == key && key != ""
  {
    FilesHaveNoSlash(name, file);
    SplitAtSlash(id, name + tail);
    FirstPart(name + tail, name, tail);
    hide Split, TrimSpace;
  }

  lemma UploadNameRest(text: string, key: string)
    ensures UploadName(text, key) <==> UPLOAD_PROXY <= text && UploadRest(text[|UPLOAD_PROXY|..], key)
  {
    hide UploadRest;
    if rest: string :| text == "/api/design-plan/uploads/" + rest && UploadRest(rest, key) {
      assert text[|UPLOAD_PROXY|..] == rest;
    }
    if UPLOAD_PROXY <= text && UploadRest(text[|UPLOAD_PROXY|..], key) {
      assert text == UPLOAD_PROXY + text[|UPLOAD_PROXY|..];
    }
  }

  lemma UploadKeyMeans(rest: string, key: string)
    ensures UploadRest(rest, key) <==> key != "" && UploadKey(Split(rest)) == key
  {
    hide FilePath, UploadKey, Split;
    if id, name, file, tail :| FilePath(rest, key, id, name, file, tail) {
      FilePathFound(rest, key, id, name, file, tail);
    }
    if key != "" && UploadKey(Split(rest)) == key {
      UploadKeyFound(rest);
    }
  }

  lemma SnapshotNameRest(text: string, key: string)
    ensures SnapshotName(text, key) <==>
            SNAPSHOT_PROXY <= text && key == "channel-snapshots/" + text[|SNAPSHOT_PROXY|..]
  {
    if rest: string :| text == "/api/store-space/channel-snapshots/" + rest && key == "channel-snapshots/" + rest {
      assert text[|SNAPSHOT_PROXY|..] == rest;
    }
    if SNAPSHOT_PROXY <= text && key == "channel-snapshots/" + text[|SNAPSHOT_PROXY|..] {
      assert text == SNAPSHOT_PROXY + text[|SNAPSHOT_PROXY|..];
    }
  }

  lemma FirstLetters(text: string)
    ensures "uploads/" <= text || "channel-snapshots/" <= text ==> text[0] == 'u' || text[0] == 'c'
    ensures SNAPSHOT_PROXY <= text || UPLOAD_PROXY <= text ==> text[0] == '/'
    ensures SNAPSHOT_PROXY <= text ==> !(UPLOAD_PROXY <= text)
  {
    if SNAPSHOT_PROXY <= text {
      assert text[5] == SNAPSHOT_PROXY[5] == 's' && UPLOAD_PROXY[5] == 'd';
    }
  }

  /** The normalization finds exactly the object that the reference names. */
  lemma NamesMeans(reference: string, key: string)
    ensures Names(reference, key) <==> key != "" && NormalizeAssetPath(reference) == key
  {
    hide TrimSpace, UploadKey, Split, UploadName, SnapshotName, UploadRest;
    var text := TrimSpace(reference);
    FirstLetters(text);
    SnapshotNameRest(text, key);
    UploadNameRest(text, key);
    if UPLOAD_PROXY <= text {
      UploadKeyMeans(text[|UPLOAD_PROXY|..], key);
    }
  }

  // ----- the object that a row names -----------------------------------------------------------------

  predicate Remote(text: string) {
    "http://" <= text || "https://" <= text
  }

  /** Both references of a row without their queries. */
  predicate References(row: RawRow, source: string, path: string) {
    Reference(TrimSpace(row.sourceKey), source) && Reference(TrimSpace(row.oldPath), path)
  }

  /** Unless one of its references is remote, a row names what its source key names, and if
      that names nothing, what its old path names. */
  ghost predicate RowNames(row: RawRow, key: string) {
    exists source, path ::
      && References(row, source, path) && !Remote(source) && !Remote(path)
      && (Names(source, key) || (Names(path, key) && forall k :: !Names(source, k)))
  }

  lemma ReferencesOf(row: RawRow) returns (source: string, path: string)
    ensures References(row, source, path)
    ensures forall s, o :: References(row, s, o) ==> s == source && o == path
    ensures source == StripAssetQuery(TrimSpace(row.sourceKey)) && path == StripAssetQuery(TrimSpace(row.oldPath))
  {
    hide TrimSpace, StripAssetQuery, Reference;
    source, path := StripAssetQuery(TrimSpace(row.sourceKey)), StripAssetQuery(TrimSpace(row.oldPath));
    forall s ensures Reference(TrimSpace(row.sourceKey), s) <==> s == source {
      StripIsReference(TrimSpace(row.sourceKey), s);
    }
    forall o ensures Reference(TrimSpace(row.oldPath), o) <==> o == path {
      StripIsReference(TrimSpace(row.oldPath), o);
    }
  }

  lemma KeyMeaning(row: RawRow, key: string)
    ensures RowNames(row, key) <==> key != "" && KeyOf(row) == key
  {
    hide NormalizeAssetPath, StripAssetQuery, TrimSpace, Names, References;
    var source, path := ReferencesOf(row);
    forall k ensures Names(source, k) <==> k != "" && NormalizeAssetPath(source) == k {
      NamesMeans(source, k);
    }
    forall k ensures Names(path, k) <==> k != "" && NormalizeAssetPath(path) == k {
      NamesMeans(path, k);
    }
    NothingIsNoName(source);
    NothingIsNoName(path);
    NameParts(row, source, path, key);
    assert Names(source, NormalizeAssetPath(source)) <==> NormalizeAssetPath(source) != "";
    hide RowNames;
  }

  lemma NameParts(row: RawRow, source: string, path: string, key: string)
    requires References(row, source, path) && forall s, o :: References(row, s, o) ==> s == source && o == path
    ensures RowNames(row, key) <==>
            && !Remote(source) && !Remote(path)
            && (Names(source, key) || (Names(path, key) && forall k :: !Names(source, k)))
  {
    hide References, Names;
  }

  lemma NothingIsNoName(text: string)
    ensures text == "" ==> NormalizeAssetPath(text) == ""
  {
  }

  /** Why a row names nothing. */
  ghost predicate NoNameFor(row: RawRow, reason: string) {
    exists source, path :: References(row, source, path) &&
      reason == if source == "" && path == "" then "empty_path"
                else if Remote(source) || Remote(path) then "remote_http_url"
                else "unrecognized_path"
  }

  lemma ReasonMeaning(row: RawRow)
    ensures var normal := NormalizeLogicalKey(row);
            if normal.key != "" then normal.status == "pending" && normal.reason == ""
            else normal.status == "skipped" && NoNameFor(row, normal.reason)
  {
    hide NormalizeAssetPath, StripAssetQuery, TrimSpace, References;
    var source, path := ReferencesOf(row);
  }

  /** The proxy path of a file of an upload and the file's own key name one object, whatever
      else the row holds. */
  lemma SpellingsAgree(row: RawRow, id: string, name: string, file: string)
    requires '/' !in id && '?' !in id && '#' !in id && TrimSpace(id) != "" && FileOf(name, file)
    requires forall source, path | References(row, source, path) :: !Remote(path)
    ensures KeyOf(row.(sourceKey := "/api/design-plan/uploads/" + (id + "/" + name))) ==
            KeyOf(row.(sourceKey := "uploads/" + id + file)) == "uploads/" + id + file
  {
    hide TrimSpace, StripAssetQuery, Names;
    var key, proxy := "uploads/" + id + file, "/api/design-plan/uploads/" + (id + "/" + name);
    var source, path := ReferencesOf(row);
    NameEnds(name, file);
    PlainReference(proxy);
    PlainReference(key);
    assert Names(proxy, key) by { NamedByProxy(id, name, file); }
    assert Names(key, key) by { NamedByItself(key); }
    NameIsKey(row, proxy, path, key);
    NameIsKey(row, key, path, key);
  }

  lemma NameEnds(name: string, file: string)
    requires FileOf(name, file)
    ensures name != "" && file != "" && !IsSpace(name[|name| - 1]) && !IsSpace(file[|file| - 1])
    ensures forall c | c in name || c in file :: c != '?' && c != '#'
  {
  }

  lemma PlainReference(text: string)
    requires text != "" && !IsSpace(text[0]) && !IsSpace(text[|text| - 1]) && '?' !in text && '#' !in text
    ensures TrimSpace(text) == text && Reference(text, text)
  {
    TrimmedAlready(text);
  }

  lemma NamedByProxy(id: string, name: string, file: string)
    requires '/' !in id && TrimSpace(id) != "" && FileOf(name, file)
    ensures Names("/api/design-plan/uploads/" + (id + "/" + name), "uploads/" + id + file)
  {
    var rest := id + "/" + name;
    NameEnds(name, file);
    TrimmedAlready("/api/design-plan/uploads/" + rest);
    assert rest == id + "/" + (name + "");
    assert FilePath(rest, "uploads/" + id + file, id, name, file, "");
  }

  lemma NamedByItself(key: string)
    requires TrimSpace(key) == key && "uploads/" <= key
    ensures Names(key, key)
  {
  }

  lemma NameIsKey(row: RawRow, source: string, path: string, key: string)
    requires Reference(TrimSpace(row.oldPath), path) && !Remote(path)
    requires TrimSpace(source) == source && Reference(source, source) && !Remote(source) && Names(source, key)
    ensures KeyOf(row.(sourceKey := source)) == key
  {
    hide TrimSpace, Reference, Names, KeyOf;
    KeyMeaning(row.(sourceKey := source), key);
    assert References(row.(sourceKey := source), source, path);
  }

  // ----- the items of an inventory -----------------------------------------------------------------------

  predicate Moved(states: map<string, AssetState>, key: string) {
    && key in states
    && TrimSpace(states[key].migrationStatus) == "migrated" && TrimSpace(states[key].storageProvider) == "oss"
    && !Blank(states[key].bucket) && !Blank(states[key].storageKey)
  }

  lemma {:induction false} RefsCount(rows: seq<RawRow>, n: nat, key: string, naming: set<int>)
    requires n <= |rows| && forall j :: j in naming <==> 0 <= j < n && KeyOf(rows[j]) == key
    ensures Refs(rows, n, key) == |naming|
  {
    hide KeyOf;
    if n > 0 {
      RefsCount(rows, n - 1, key, naming - {n - 1});
      assert n - 1 in naming ==> naming == naming - {n - 1} + {n - 1};
      assert n - 1 !in naming ==> naming == naming - {n - 1};
    } else {
      assert forall j :: j !in naming;
      assert naming == {};
    }
  }

  /** Each item of an inventory: what its row names, whether that is still to be migrated or
      why not, its rank among the rows that name it, and how many do. */
  lemma ItemMeaning(rows: seq<RawRow>, states: map<string, AssetState>, items: seq<Item>, i: nat)
    requires Inventory(rows, states, items) && i < |items|
    ensures items[i].raw == rows[i]
    ensures forall key | key != "" :: items[i].logicalKey == key <==> RowNames(rows[i], key)
    ensures items[i].status == if items[i].logicalKey != "" && !Moved(states, items[i].logicalKey)
                               then "pending" else "skipped"
    ensures if Moved(states, items[i].logicalKey) then items[i].reason == "already_migrated"
            else if items[i].logicalKey != "" then items[i].reason == ""
            else NoNameFor(rows[i], items[i].reason)
    ensures items[i].rank == if items[i].logicalKey == "" then 0
                             else |set j | 0 <= j < i + 1 && items[j].logicalKey == items[i].logicalKey|
    ensures items[i].refCount == if items[i].logicalKey == "" then 0
                                 else |set j | 0 <= j < |items| && items[j].logicalKey == items[i].logicalKey|
  {
    hide NormalizeLogicalKey, RowNames, NoNameFor, TrimSpace, KeyOf, Refs;
    forall key | key != "" ensures KeyOf(rows[i]) == key <==> RowNames(rows[i], key) {
      KeyMeaning(rows[i], key);
    }
    ReasonMeaning(rows[i]);
    ListedIs(rows[i], states);
    forall j | 0 <= j < |items| ensures items[j].logicalKey == KeyOf(rows[j]) {
      ListedIs(rows[j], states);
    }
    var key := KeyOf(rows[i]);
    RefsCount(rows, i + 1, key, set j | 0 <= j < i + 1 && items[j].logicalKey == key);
    RefsCount(rows, |rows|, key, set j | 0 <= j < |items| && items[j].logicalKey == key);
  }

  lemma SummaryMeaning(summary: InventorySummary, items: seq<Item>)
    requires Summed(summary, items, |items|)
    ensures summary.total == |items| && summary.skipped == |items| - summary.pending
    ensures summary.pending == |set i | 0 <= i < |items| && items[i].status == "pending"|
    ensures summary.duplicateRefs == |set i | 0 <= i < |items| && items[i].refCount > 1|
  {
    CountIsCardinality(items, IsPending, set i | 0 <= i < |items| && items[i].status == "pending");
    CountIsCardinality(items, IsDuplicate, set i | 0 <= i < |items| && items[i].refCount > 1);
  }

  // ----- the snapshots that stay ---------------------------------------------------------------------------

  function Signed(sign: string, size: int): int {
    if sign == "-" then -size else size
  }

  /** A decimal number with or without a sign that fits 64 bits. */
  predicate SignedText(text: string, n: int, sign: string, digits: string) {
    && text == sign + digits && sign in {"", "+", "-"} && digits != "" && AllDigits(digits)
    && n == Signed(sign, Value(digits))
    && -0x8000_0000_0000_0000 <= n <= 0x7fff_ffff_ffff_ffff
  }

  ghost predicate Int64Text(text: string, n: int) {
    exists sign, digits :: SignedText(text, n, sign, digits)
  }

  lemma ParseIntMeans(text: string, n: int)
    ensures ParseInt(text) == Some(n) <==> Int64Text(text, n)
  {
    hide Value;
    if sign, digits :| SignedText(text, n, sign, digits) {
      assert IsDigit(digits[0]);
      assert sign != "" ==> text[0] == sign[0] && text[1..] == digits;
      assert sign == "" ==> text == digits;
    }
    if ParseInt(text) == Some(n) {
      if text[0] == '+' || text[0] == '-' {
        assert text == [text[0]] + text[1..];
        assert SignedText(text, n, [text[0]], text[1..]);
      } else {
        assert text == "" + text;
        assert SignedText(text, n, "", text);
      }
    }
  }

  /** A snapshot of a channel with a numeric ID. */
  ghost predicate Numbered(row: RawRow, id: int) {
    row.sourceTable == "tb_channel_snapshots" && !Blank(row.channelID) && Int64Text(TrimSpace(row.sourceID), id)
  }

  lemma NumberedMeans(row: RawRow)
    ensures forall id :: Numbered(row, id) <==> IsSnapshot(row) && SnapshotID(row) == Some(id)
  {
    hide TrimSpace, Int64Text, ParseInt;
    forall id ensures Numbered(row, id) <==> IsSnapshot(row) && SnapshotID(row) == Some(id) {
      ParseIntMeans(TrimSpace(row.sourceID), id);
    }
  }

  /** A row stays unless it is a numbered snapshot with a negative ID or with a higher one in
      its channel; and all rows stay when no ID is positive. */
  lemma WhatStays(rows: seq<RawRow>, kept: seq<RawRow>, row: RawRow)
    requires KeepsLatest(rows, |rows|, kept) && row in rows
    ensures row in kept <==>
            || (forall id :: !Numbered(row, id))
            || (forall other, id | other in rows && Numbered(other, id) :: id <= 0)
            || (exists id :: Numbered(row, id) && id >= 0 &&
                  forall other, n | other in rows && other.channelID == row.channelID && Numbered(other, n) :: n <= id)
  {
    hide IsSnapshot, SnapshotID, Numbered;
    forall other ensures forall id :: Numbered(other, id) <==> IsSnapshot(other) && SnapshotID(other) == Some(id) {
      NumberedMeans(other);
    }
    KeptMembers(rows, |rows|, kept, row);
    assert rows[..|rows|] == rows;
    NoneIsPositive(rows);
    if IsSnapshot(row) && SnapshotID(row).Some? && !NoPositiveID(rows) {
      OnlyLatestStay(rows, kept, row);
      assert Numbered(row, SnapshotID(row).value);
    }
  }

  lemma NoneIsPositive(rows: seq<RawRow>)
    ensures NoPositiveID(rows) <==>
            forall other | other in rows && IsSnapshot(other) && SnapshotID(other).Some? :: SnapshotID(other).value <= 0
  {
    hide IsSnapshot, SnapshotID;
    assert forall i | 0 <= i < |rows| :: rows[i] in rows;
  }
}
