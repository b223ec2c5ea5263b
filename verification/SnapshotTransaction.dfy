/** Saving a camera snapshot under audit: prepare event, save, final event, and
    the rollback when the final event cannot be written. */
module SnapshotTransaction {
  import opened Assets
  import opened Bytes
  import opened Decimals
  import opened Options

  const MAX_SNAPSHOT_UPLOAD_BYTES := 0x20_0000
  const IMAGE_JPEG := "image/jpeg"

  datatype Rollback = Rollback(key: string, body: seq<byte>, existed: bool)

  /** How opening and reading an existing object goes. */
  datatype Opening = Whole | Unreadable | ReadFails | CloseFails

  function FormatInt(n: int): string {
    if n < 0 then "-" + Decimal(-n) else Decimal(n)
  }

  function SnapshotObjectKey(tenantID: int, cameraID: int): string {
    "nvr-camera-snapshots/" + FormatInt(tenantID) + "/" + FormatInt(cameraID) + ".jpg"
  }

  function Body(objects: Objects, key: string): Option<seq<byte>> {
    if key in objects then Some(objects[key].body) else None
  }

  /** What a save over `key` remembers. */
  function RollbackOf(objects: Objects, key: string): Rollback {
    if key in objects then Rollback(key, objects[key].body, true) else Rollback(key, [], false)
  }

  function Undone(objects: Objects, rollback: Rollback): Objects {
    if rollback.existed then objects[rollback.key := Object(rollback.body, IMAGE_JPEG)] else objects - {rollback.key}
  }

  /** When an upload can be saved with a way back. */
  predicate Undoable(objects: Objects, key: string, opening: Opening, canDelete: bool) {
    if key in objects then opening == Whole && |objects[key].body| <= MAX_SNAPSHOT_UPLOAD_BYTES
    else opening != Unreadable && canDelete
  }

  /** The snapshot store over objects that are saved and deleted whole or not at
      all; `works` and `opening` are what the object service does on each call. */
  class AssetSnapshotStore {
    var objects: Objects
    const canDelete: bool

    constructor (objects: Objects, canDelete: bool)
      ensures this.objects == objects && this.canDelete == canDelete
    {
      this.objects, this.canDelete := objects, canDelete;
    }

    method Save(tenantID: int, cameraID: int, body: seq<byte>, works: bool) returns (ok: bool)
      modifies this
      ensures ok == (tenantID > 0 && cameraID > 0 && works)
      ensures objects == if ok then old(objects)[SnapshotObjectKey(tenantID, cameraID) := Object(body, "image/jpeg")]
                         else old(objects)
    {
      if tenantID <= 0 || cameraID <= 0 || !works {
        return false;
      }
      objects := objects[SnapshotObjectKey(tenantID, cameraID) := Object(body, IMAGE_JPEG)];
      return true;
    }

    method SaveSnapshotWithRollback(tenantID: int, cameraID: int, body: seq<byte>, opening: Opening, works: bool)
      returns (rollback: Option<Rollback>)
      modifies this
      ensures var key := SnapshotObjectKey(tenantID, cameraID);
              if tenantID > 0 && cameraID > 0 && works && Undoable(old(objects), key, opening, canDelete) then
                && rollback == Some(RollbackOf(old(objects), key))
                && objects == old(objects)[key := Object(body, IMAGE_JPEG)]
              else
                rollback == None && objects == old(objects)
      ensures var key := SnapshotObjectKey(tenantID, cameraID);
              rollback.Some? <==>
              && tenantID >= 1 && cameraID >= 1 && works
              && if key in old(objects) then opening == Whole && |old(objects)[key].body| <= 2 * 1024 * 1024
                 else opening != Unreadable && canDelete
    {
      if tenantID <= 0 || cameraID <= 0 {
        return None;
      }
      var key := SnapshotObjectKey(tenantID, cameraID);
      var oldBody, existed := [], false;
      if opening == Unreadable {
        return None;
      } else if key in objects {
        oldBody := if |objects[key].body| <= MAX_SNAPSHOT_UPLOAD_BYTES + 1 then objects[key].body
                   else objects[key].body[..MAX_SNAPSHOT_UPLOAD_BYTES + 1];
        if opening != Whole || |oldBody| > MAX_SNAPSHOT_UPLOAD_BYTES {
          return None;
        }
        existed := true;
      } else if !canDelete {
        return None;
      }
      var ok := Save(tenantID, cameraID, body, works);
      if !ok {
        return None;
      }
      return Some(Rollback(key, oldBody, existed));
    }

    method Undo(rollback: Rollback, works: bool) returns (ok: bool)
      modifies this
      ensures ok == (works && (rollback.existed || canDelete))
      ensures objects == if ok then Undone(old(objects), rollback) else old(objects)
    {
      if rollback.existed {
        if works {
          objects := objects[rollback.key := Object(rollback.body, IMAGE_JPEG)];
        }
        return works;
      }
      if !canDelete || !works {
        return false;
      }
      objects := objects - {rollback.key};
      return true;
    }
  }

  // ----- the request ----------------------------------------------------------------------------

  datatype AuditEvent = Prepared(cameraID: int) | Refreshed(cameraID: int) | RefreshFailed(cameraID: int)

  datatype World = World(objects: Objects, audit: seq<AuditEvent>)

  datatype Lookup = Found(tenantID: int) | CameraMissing | LookupFails

  datatype Request = Request(cameraID: int, jpegHeader: bool, body: seq<byte>, camera: Lookup)

  /** What goes wrong around a request. */
  datatype Weather = Weather(prepares: bool, opening: Opening, saves: bool, finishes: bool, undoes: bool, notes: bool)

  datatype Response =
    | NoContent
    | InvalidCameraID
    | InvalidContentType
    | TooLarge
    | InvalidSnapshot
    | AuditUnavailable
    | CameraNotFound
    | SaveFailed
    | RollbackFailed

  /** The JPEG signature of content sniffing. */
  predicate SniffsAsJPEG(body: seq<byte>) {
    |body| >= 3 && body[..3] == [0xFF, 0xD8, 0xFF]
  }

  predicate Acceptable(r: Request) {
    r.cameraID > 0 && r.jpegHeader && |r.body| <= MAX_SNAPSHOT_UPLOAD_BYTES && SniffsAsJPEG(r.body)
  }

  function Key(r: Request): string
    requires r.camera.Found?
  {
    SnapshotObjectKey(r.camera.tenantID, r.cameraID)
  }

  predicate Kept(before: Objects, after: Objects, r: Request) {
    || after == before
    || (r.camera.Found? && Key(r) in before &&
        after == before[Key(r) := before[Key(r)].(contentType := IMAGE_JPEG)])
  }

  predicate Stores(before: Objects, after: Objects, r: Request) {
    r.camera.Found? && after == before[Key(r) := Object(r.body, IMAGE_JPEG)]
  }

  /** What an answer says about the objects and the audit log. */
  predicate Transacted(before: World, after: World, audited: bool, r: Request, response: Response) {
    && (if response == NoContent || response == RollbackFailed then Stores(before.objects, after.objects, r)
        else Kept(before.objects, after.objects, r))
    && (audited ==>
          (response == NoContent <==> after.audit == before.audit + [Prepared(r.cameraID), Refreshed(r.cameraID)]))
    && (audited && response == RollbackFailed ==> after.audit == before.audit + [Prepared(r.cameraID)])
    && (!audited ==> after.audit == before.audit && response != RollbackFailed)
  }

  /** When everything a refresh needs goes well. */
  predicate Succeeds(before: World, audited: bool, canDelete: bool, r: Request, weather: Weather) {
    && Acceptable(r) && r.camera.Found? && r.camera.tenantID > 0 && weather.saves
    && (audited ==> weather.prepares && weather.finishes)
    && (audited ==> Undoable(before.objects, Key(r), weather.opening, canDelete))
  }

  /** The upload is saved under audit, its final event is lost and it is rolled back. */
  predicate RollsBack(before: World, canDelete: bool, r: Request, weather: Weather) {
    && Acceptable(r) && r.camera.Found? && r.camera.tenantID > 0 && weather.prepares && weather.saves &&
         !weather.finishes
    && Undoable(before.objects, Key(r), weather.opening, canDelete) && weather.undoes
  }

  /** The objects that an audited upload leaves and its answer, in every weather. */
  function AuditedOutcome(objects: Objects, canDelete: bool, r: Request, weather: Weather): (Objects, Response) {
    if !weather.prepares then (objects, AuditUnavailable)
    else if !r.camera.Found? then (objects, if r.camera.CameraMissing? then CameraNotFound else SaveFailed)
    else if r.camera.tenantID <= 0 || !Undoable(objects, Key(r), weather.opening, canDelete) || !weather.saves then
      (objects, SaveFailed)
    else
      var saved := objects[Key(r) := Object(r.body, IMAGE_JPEG)];
      if weather.finishes then (saved, NoContent)
      else if weather.undoes then (Undone(saved, RollbackOf(objects, Key(r))), AuditUnavailable)
      else (saved, RollbackFailed)
  }

  /** What an audited upload leaves in the audit log, by its answer. */
  function AuditTrail(response: Response, cameraID: int, weather: Weather): seq<AuditEvent> {
    match response
    case NoContent => [Prepared(cameraID), Refreshed(cameraID)]
    case AuditUnavailable => if weather.prepares then [Prepared(cameraID)] else []
    case RollbackFailed => [Prepared(cameraID)]
    case CameraNotFound | SaveFailed =>
      if weather.notes then [Prepared(cameraID), RefreshFailed(cameraID)] else [Prepared(cameraID)]
    case _ => []
  }

  /** The answer to a request that is refused before anything happens, in the order of the
      checks: the camera ID, the header, the size, the first bytes. */
  predicate Refused(r: Request, response: Response) {
    && (response == InvalidCameraID <==> r.cameraID <= 0)
    && (response == InvalidContentType <==> r.cameraID > 0 && !r.jpegHeader)
    && (response == TooLarge <==> r.cameraID > 0 && r.jpegHeader && |r.body| > 2 * 1024 * 1024)
    && (response == InvalidSnapshot <==>
          && r.cameraID > 0 && r.jpegHeader && |r.body| <= 2 * 1024 * 1024
          && !(|r.body| >= 3 && r.body[0] == 0xFF && r.body[1] == 0xD8 && r.body[2] == 0xFF))
  }

  /** A rollback writes the old bytes back as a JPEG, whatever they were stored as. */
  predicate Retypes(before: Objects, r: Request) {
    r.camera.Found? && Key(r) in before && before[Key(r)].contentType != IMAGE_JPEG
  }

  class SnapshotHandler {
    const store: AssetSnapshotStore
    const auditEnabled: bool
    var audit: seq<AuditEvent>

    constructor (store: AssetSnapshotStore, auditEnabled: bool)
      ensures this.store == store && this.auditEnabled == auditEnabled && audit == []
    {
      this.store, this.auditEnabled, this.audit := store, auditEnabled, [];
    }

    ghost function State(): World
      reads this, store
    {
      World(store.objects, audit)
    }

    method RecordAudit(event: AuditEvent, works: bool) returns (ok: bool)
      modifies this
      ensures ok == works && audit == if ok then old(audit) + [event] else old(audit)
    {
      if works {
        audit := audit + [event];
      }
      return works;
    }

    /** The camera lookup of the service, then the store. */
    method SaveWithRollback(r: Request, weather: Weather) returns (failure: Response, rollback: Option<Rollback>)
      modifies store
      ensures if r.camera.Found? && r.camera.tenantID > 0 && r.cameraID > 0 && weather.saves &&
                 Undoable(old(store.objects), Key(r), weather.opening, store.canDelete) then
                rollback == Some(RollbackOf(old(store.objects), Key(r))) && Stores(old(store.objects), store.objects, r)
              else
                && rollback == None && failure == (if r.camera.CameraMissing? then CameraNotFound else SaveFailed)
                && store.objects == old(store.objects)
    {
      match r.camera
      case CameraMissing => return CameraNotFound, None;
      case LookupFails => return SaveFailed, None;
      case Found(tenantID) =>
        rollback := store.SaveSnapshotWithRollback(tenantID, r.cameraID, r.body, weather.opening, weather.saves);
        return SaveFailed, rollback;
    }

    method SaveAudited(r: Request, weather: Weather) returns (response: Response)
      requires auditEnabled && Acceptable(r)
      modifies this, store
      ensures Transacted(old(State()), State(), true, r, response)
      ensures response == NoContent <==> Succeeds(old(State()), true, store.canDelete, r, weather)
      ensures response in {NoContent, AuditUnavailable, CameraNotFound, SaveFailed, RollbackFailed}
      ensures (store.objects, response) == AuditedOutcome(old(store.objects), store.canDelete, r, weather)
      ensures audit == old(audit) + AuditTrail(response, r.cameraID, weather)
      ensures response != NoContent && response != RollbackFailed ==>
                (store.objects != old(store.objects) <==>
                 RollsBack(old(State()), store.canDelete, r, weather) && Retypes(old(store.objects), r))
    {
      var prepared := RecordAudit(Prepared(r.cameraID), weather.prepares);
      if !prepared {
        return AuditUnavailable;
      }
      var failure, rollback := SaveWithRollback(r, weather);
      if rollback.None? {
        var noted := RecordAudit(RefreshFailed(r.cameraID), weather.notes);
        assert noted ==> audit[|old(audit)|..] == [Prepared(r.cameraID), RefreshFailed(r.cameraID)];
        return failure;
      }
      var finished := RecordAudit(Refreshed(r.cameraID), weather.finishes);
      if !finished {
        var undone := store.Undo(rollback.value, weather.undoes);
        UndoneTypes(old(store.objects), r);
        return if undone then AuditUnavailable else RollbackFailed;
      }
      return NoContent;
    }

    method SaveUnaudited(r: Request, weather: Weather) returns (response: Response)
      requires Acceptable(r)
      modifies store
      ensures Transacted(old(State()), State(), false, r, response)
      ensures response == NoContent <==> Succeeds(old(State()), false, store.canDelete, r, weather)
      ensures response in {NoContent, CameraNotFound, SaveFailed}
      ensures response == CameraNotFound <==> r.camera.CameraMissing?
      ensures response != NoContent ==> store.objects == old(store.objects)
    {
      match r.camera
      case CameraMissing => return CameraNotFound;
      case LookupFails => return SaveFailed;
      case Found(tenantID) =>
        var ok := store.Save(tenantID, r.cameraID, r.body, weather.saves);
        return if ok then NoContent else SaveFailed;
    }

    /** 204 exactly when the new bytes are stored and both events recorded; every
        other answer but the failed rollback leaves every object's bytes alone. */
    method SaveSnapshot(r: Request, weather: Weather) returns (response: Response)
      modifies this, store
      ensures Transacted(old(State()), State(), auditEnabled, r, response)
      ensures response == NoContent <==> Succeeds(old(State()), auditEnabled, store.canDelete, r, weather)
      ensures response in {InvalidCameraID, InvalidContentType, TooLarge, InvalidSnapshot} <==> !Acceptable(r)
      ensures Refused(r, response)
      ensures !Acceptable(r) ==> State() == old(State())
      ensures Acceptable(r) && auditEnabled ==>
                && (store.objects, response) == AuditedOutcome(old(store.objects), store.canDelete, r, weather)
                && audit == old(audit) + AuditTrail(response, r.cameraID, weather)
      ensures Acceptable(r) && !auditEnabled ==> (response == CameraNotFound <==> r.camera.CameraMissing?)
      ensures response != NoContent && response != RollbackFailed ==>
                (store.objects != old(store.objects) <==>
                 auditEnabled && RollsBack(old(State()), store.canDelete, r, weather) && Retypes(old(store.objects), r))
    {
      if r.cameraID <= 0 {
        return InvalidCameraID;
      }
      if !r.jpegHeader {
        return InvalidContentType;
      }
      if |r.body| > MAX_SNAPSHOT_UPLOAD_BYTES {
        return TooLarge;
      }
      if |r.body| == 0 || !SniffsAsJPEG(r.body) {
        return InvalidSnapshot;
      }
      if auditEnabled {
        response := SaveAudited(r, weather);
      } else {
        response := SaveUnaudited(r, weather);
      }
    }
  }

  /** Saved and rolled back: the same objects, up to the content type. */
  lemma UndoneTypes(before: Objects, r: Request)
    requires r.camera.Found?
    ensures var after := Undone(before[Key(r) := Object(r.body, IMAGE_JPEG)], RollbackOf(before, Key(r)));
            && Kept(before, after, r)
            && (after != before <==> Retypes(before, r))
  {
    hide SnapshotObjectKey;
    var after := Undone(before[Key(r) := Object(r.body, IMAGE_JPEG)], RollbackOf(before, Key(r)));
    if Key(r) in before {
      assert after[Key(r)] == before[Key(r)].(contentType := IMAGE_JPEG);
      assert before[Key(r)].contentType == IMAGE_JPEG ==> after == before;
    } else {
      assert after == before;
    }
  }

  /** A stored PNG that is replaced and rolled back is a JPEG by name and a PNG by content. */
  lemma TypeLost(png: seq<byte>, r: Request) returns (before: Objects, after: Objects)
    requires Acceptable(r) && r.camera.Found?
    ensures before == map[Key(r) := Object(png, "image/png")]
    ensures after == Undone(before[Key(r) := Object(r.body, IMAGE_JPEG)], RollbackOf(before, Key(r)))
    ensures Body(after, Key(r)) == Body(before, Key(r)) && after != before
  {
    hide SnapshotObjectKey;
    before := map[Key(r) := Object(png, "image/png")];
    after := Undone(before[Key(r) := Object(r.body, IMAGE_JPEG)], RollbackOf(before, Key(r)));
    UndoneTypes(before, r);
    assert "image/png"[6] != IMAGE_JPEG[6];
  }

  // ----- keys ---------------------------------------------------------------------------------------

  function FirstSlash(s: string): nat {
    if s == "" || s[0] == '/' then 0 else 1 + FirstSlash(s[1..])
  }

  lemma {:induction false} FirstSlashAfter(a: string, b: string)
    requires '/' !in a
    ensures FirstSlash(a + "/" + b) == |a|
  {
    if a != "" {
      assert (a + "/" + b)[1..] == a[1..] + "/" + b;
      FirstSlashAfter(a[1..], b);
    }
  }

  lemma SplitAtSlash(a: string, b: string, x: string, y: string)
    requires a + "/" + b == x + "/" + y
    requires '/' !in a && '/' !in x
    ensures a == x && b == y
  {
    var s := a + "/" + b;
    FirstSlashAfter(a, b);
    FirstSlashAfter(x, y);
    assert a == s[..|a|] && x == s[..|x|];
    assert b == s[|a| + 1..] && y == s[|x| + 1..];
  }

  lemma FormatIntInjective(m: int, n: int)
    requires FormatInt(m) == FormatInt(n)
    ensures m == n
  {
    DecimalRoundTrip(if m < 0 then -m else m);
    DecimalRoundTrip(if n < 0 then -n else n);
    assert FormatInt(m)[0] == '-' <==> m < 0;
    assert FormatInt(n)[0] == '-' <==> n < 0;
    if m < 0 {
      assert FormatInt(m)[1..] == Decimal(-m) && FormatInt(n)[1..] == Decimal(-n);
    }
  }

  lemma DropPrefix(p: string, a: string, b: string)
    requires p + a == p + b
    ensures a == b
  {
    assert a == (p + a)[|p|..] && b == (p + b)[|p|..];
  }

  lemma DropSuffix(p: string, a: string, b: string)
    requires a + p == b + p
    ensures a == b
  {
    assert |a| == |b|;
    assert a == (a + p)[..|a|] && b == (b + p)[..|b|];
  }

  /** Two cameras never share an object. */
  lemma KeyInjective(t: int, c: int, t': int, c': int)
    requires SnapshotObjectKey(t, c) == SnapshotObjectKey(t', c')
    ensures t == t' && c == c'
  {
    hide FormatInt;
    var a, b, x, y := FormatInt(t), FormatInt(c), FormatInt(t'), FormatInt(c');
    var p := "nvr-camera-snapshots/";
    assert SnapshotObjectKey(t, c) == p + (a + "/" + b + ".jpg");
    assert SnapshotObjectKey(t', c') == p + (x + "/" + y + ".jpg");
    DropPrefix(p, a + "/" + b + ".jpg", x + "/" + y + ".jpg");
    DropSuffix(".jpg", a + "/" + b, x + "/" + y);
    NoSlash(t);
    NoSlash(t');
    SplitAtSlash(a, b, x, y);
    FormatIntInjective(t, t');
    FormatIntInjective(c, c');
  }

  lemma KeyText()
    ensures SnapshotObjectKey(7, 12) == "nvr-camera-snapshots/7/12.jpg"
  {
    assert Decimal(7) == "7" && Decimal(1) == "1";
    assert Decimal(12) == "12";
  }

  lemma NoSlash(n: int)
    ensures '/' !in FormatInt(n)
  {
  }

  // ----- runs of one writer -----------------------------------------------------------------------------

  datatype Exchange = Exchange(request: Request, response: Response)

  ghost predicate SingleWriter(worlds: seq<World>, exchanges: seq<Exchange>, audited: bool) {
    && |worlds| == |exchanges| + 1
    && forall i, j | 0 <= i < |exchanges| && j == i + 1 ::
         Transacted(worlds[i], worlds[j], audited, exchanges[i].request, exchanges[i].response)
  }

  predicate Refreshes(e: Exchange, t: int, c: int) {
    e.response == NoContent && e.request.camera == Found(t) && e.request.cameraID == c
  }

  /** The body of the last upload answered 204, or what was there at first. */
  function LastAccepted(exchanges: seq<Exchange>, t: int, c: int, initial: Option<seq<byte>>): Option<seq<byte>> {
    if exchanges == [] then initial
    else
      var last := exchanges[|exchanges| - 1];
      if Refreshes(last, t, c) then Some(last.request.body)
      else LastAccepted(exchanges[..|exchanges| - 1], t, c, initial)
  }

  lemma ExchangeEffect(before: World, after: World, audited: bool, e: Exchange, t: int, c: int)
    requires Transacted(before, after, audited, e.request, e.response) && e.response != RollbackFailed
    ensures Body(after.objects, SnapshotObjectKey(t, c)) ==
            if Refreshes(e, t, c) then Some(e.request.body) else Body(before.objects, SnapshotObjectKey(t, c))
  {
    hide SnapshotObjectKey;
    if e.request.camera.Found? && Key(e.request) == SnapshotObjectKey(t, c) {
      KeyInjective(e.request.camera.tenantID, e.request.cameraID, t, c);
    }
  }

  /** Over any run in which no rollback fails, each camera's object holds exactly
      the last upload that was answered 204. */
  lemma {:induction false} StoredIsLastAccepted(worlds: seq<World>, exchanges: seq<Exchange>, audited: bool, t: int,
                                                c: int)
    requires SingleWriter(worlds, exchanges, audited)
    requires forall i | 0 <= i < |exchanges| :: exchanges[i].response != RollbackFailed
    ensures Body(worlds[|exchanges|].objects, SnapshotObjectKey(t, c)) ==
            LastAccepted(exchanges, t, c, Body(worlds[0].objects, SnapshotObjectKey(t, c)))
  {
    hide SnapshotObjectKey, Transacted;
    if exchanges != [] {
      var last := |exchanges| - 1;
      StoredIsLastAccepted(worlds[..|exchanges|], exchanges[..last], audited, t, c);
      ExchangeEffect(worlds[last], worlds[|exchanges|], audited, exchanges[last], t, c);
    }
  }
}
