/** The issue list of a store, which must not depend on the order in which maps are
    iterated. */
module StoreIssues {
  import opened Sorting
  import opened Strings
  import opened SpaceForest
  import opened SpacePaths
  import opened AreaRelations
  import opened StoreBindings
  import opened StoreCameras

  datatype Kind =
    | MissingCamera
    | MissingSpace
    | InactiveBoundSpace
    | MissingNVR
    | UnboundCamera
    | OfflineCamera
    | OfflineEdge
    | OfflineNVR
    | CameraBoundManySpaces
    | SpaceBoundManyCameras

  /** The kind fixes severity and entity type; `name` is what the message quotes. */
  datatype Issue = Issue(kind: Kind, entityID: int, name: string)

  /** The kinds in the alphabetical order of their names, `camera_bound_many_spaces`
      first and `unbound_camera` last. */
  function Rank(k: Kind): int {
    match k
    case CameraBoundManySpaces => 0
    case InactiveBoundSpace => 1
    case MissingCamera => 2
    case MissingNVR => 3
    case MissingSpace => 4
    case OfflineCamera => 5
    case OfflineEdge => 6
    case OfflineNVR => 7
    case SpaceBoundManyCameras => 8
    case UnboundCamera => 9
  }

  /** By type and entity ID: one type has one entity type. */
  predicate IssueLe(a: Issue, b: Issue) {
    if a.kind != b.kind then Rank(a.kind) < Rank(b.kind) else a.entityID <= b.entityID
  }

  /** The kinds as they are spelled in an answer. */
  function Spelling(k: Kind): string {
    match k
    case MissingCamera => "missing_camera"
    case MissingSpace => "missing_space"
    case InactiveBoundSpace => "inactive_bound_space"
    case MissingNVR => "missing_nvr"
    case UnboundCamera => "unbound_camera"
    case OfflineCamera => "offline_camera"
    case OfflineEdge => "offline_edge"
    case OfflineNVR => "offline_nvr"
    case CameraBoundManySpaces => "camera_bound_many_spaces"
    case SpaceBoundManyCameras => "space_bound_many_cameras"
  }

  lemma SpellingsDiffer(k: Kind, l: Kind)
    requires Rank(k) < Rank(l)
    ensures StringLe(Spelling(k), Spelling(l)) && !StringLe(Spelling(l), Spelling(k))
  {
    hide StringLe;
    var a, b := Spelling(k), Spelling(l);
    if a[0] == b[0] {
      assert forall i | 0 <= i < 8 :: a[i] == b[i];
      FirstDifference(a, b, 8);
    } else {
      FirstDifference(a, b, 0);
    }
  }

  /** The order of the list is that of the spellings. */
  lemma RankIsAlphabetical(k: Kind, l: Kind)
    ensures Rank(k) <= Rank(l) <==> StringLe(Spelling(k), Spelling(l))
  {
    hide Spelling, StringLe;
    if Rank(k) < Rank(l) {
      SpellingsDiffer(k, l);
    } else if Rank(l) < Rank(k) {
      SpellingsDiffer(l, k);
    } else {
      assert k == l;
      PrefixIsLe(Spelling(k), Spelling(k));
    }
  }

  /** By spelling, then by entity ID. */
  lemma IssueOrder(a: Issue, b: Issue)
    ensures IssueLe(a, b) <==>
            if a.kind == b.kind then a.entityID <= b.entityID else StringLe(Spelling(a.kind), Spelling(b.kind))
  {
    hide StringLe, Spelling;
    RankIsAlphabetical(a.kind, b.kind);
    assert Rank(a.kind) == Rank(b.kind) ==> a.kind == b.kind;
  }

  lemma IssueLeTotal()
    ensures TotalOrder(IssueLe)
  {
    assert forall k, l :: Rank(k) == Rank(l) ==> k == l;
  }

  datatype Store = Store(devices: seq<Device>, spaces: seq<Space>, relations: seq<Relation>, cameras: seq<Camera>,
                         bindings: Bindings)

  predicate IsCameraDevice(store: Store, id: int) {
    var byID := DevicesByID(store.devices);
    id in byID && byID[id].category == "camera"
  }

  predicate IsNVR(store: Store, id: int) {
    var byID := DevicesByID(store.devices);
    id in byID && byID[id].category == "nvr"
  }

  ghost predicate UniqueIDs(store: Store) {
    && UniquePositiveIDs(store.spaces)
    && UniqueRelationIDs(store.relations)
    && UniqueDeviceIDs(store.devices)
    && (forall i, j | 0 <= i < j < |store.cameras| :: store.cameras[i].device.id != store.cameras[j].device.id)
  }

  datatype OptionalKind = None | Some(kind: Kind)

  function RelationKind(store: Store, r: Relation): OptionalKind {
    if !IsCameraDevice(store, r.deviceID) then Some(MissingCamera)
    else if r.areaID !in SpacesByID(store.spaces) then Some(MissingSpace)
    else if SpacesByID(store.spaces)[r.areaID].status != 1 then Some(InactiveBoundSpace)
    else None
  }

  function RelationIssue(store: Store, r: Relation): Issue
    requires RelationKind(store, r).Some?
  {
    var kind := RelationKind(store, r).kind;
    if kind == InactiveBoundSpace then Issue(kind, r.areaID, SpacesByID(store.spaces)[r.areaID].name)
    else Issue(kind, r.id, "")
  }

  function CameraIssues(store: Store, c: Camera): seq<Issue> {
    (if c.device.parentID > 0 && !IsNVR(store, c.device.parentID) then [Issue(MissingNVR, c.device.id, c.device.name)]
     else [])
    + (if c.spacePaths == [] then [Issue(UnboundCamera, c.device.id, c.device.name)] else [])
    + (if c.device.onlineStatus != 1 then [Issue(OfflineCamera, c.device.id, c.device.name)] else [])
  }

  function DeviceIssues(d: Device): seq<Issue> {
    if d.onlineStatus != 1 && d.category == "edge" then [Issue(OfflineEdge, d.id, d.name)]
    else if d.onlineStatus != 1 && d.category == "nvr" then [Issue(OfflineNVR, d.id, d.name)]
    else []
  }

  // ----- which issues are due ---------------------------------------------------------------------

  ghost predicate HasDevice(store: Store, id: int, category: string) {
    exists d | d in store.devices :: d.id == id && d.category == category
  }

  ghost predicate HasSpace(store: Store, id: int) {
    exists s | s in store.spaces :: s.id == id
  }

  /** A relation must name a camera and a space, and the space should be active: status 1. */
  ghost predicate DueForRelation(store: Store, r: Relation, x: Issue) {
    if !HasDevice(store, r.deviceID, "camera") then x == Issue(MissingCamera, r.id, "")
    else if !HasSpace(store, r.areaID) then x == Issue(MissingSpace, r.id, "")
    else
      exists s | s in store.spaces ::
        s.id == r.areaID && s.status != 1 && x == Issue(InactiveBoundSpace, s.id, s.name)
  }

  ghost predicate DueForCamera(store: Store, c: Camera, x: Issue) {
    && x.entityID == c.device.id && x.name == c.device.name
    && match x.kind
       case MissingNVR => c.device.parentID > 0 && !HasDevice(store, c.device.parentID, "nvr")
       case UnboundCamera => c.spacePaths == []
       case OfflineCamera => c.device.onlineStatus != 1
       case _ => false
  }

  predicate DueForDevice(d: Device, x: Issue) {
    && x.entityID == d.id && x.name == d.name && d.onlineStatus != 1
    && match x.kind
       case OfflineEdge => d.category == "edge"
       case OfflineNVR => d.category == "nvr"
       case _ => false
  }

  predicate DueForBindings(store: Store, x: Issue) {
    && x.name == ""
    && match x.kind
       case CameraBoundManySpaces => |Get(store.bindings.spaceIDsByCamera, x.entityID)| > 1
       case SpaceBoundManyCameras => |Get(store.bindings.cameraIDsBySpace, x.entityID)| > 1
       case _ => false
  }

  ghost predicate Due(store: Store, x: Issue) {
    || (exists r | r in store.relations :: DueForRelation(store, r, x))
    || (exists c | c in store.cameras :: DueForCamera(store, c, x))
    || (exists d | d in store.devices :: DueForDevice(d, x))
    || DueForBindings(store, x)
  }

  /** In the order of the names of their kinds, then of the entity IDs; each once. */
  ghost predicate IssueList(store: Store, issues: seq<Issue>) {
    && Sorted(issues, IssueLe)
    && Distinct(issues)
    && forall x :: x in issues <==> Due(store, x)
  }

  // ----- what the loops raise -----------------------------------------------------------------------

  ghost predicate RaisedForRelations(store: Store, x: Issue) {
    exists r | r in store.relations :: RelationKind(store, r).Some? && x == RelationIssue(store, r)
  }

  ghost predicate RaisedForCameras(store: Store, x: Issue) {
    exists c | c in store.cameras :: x in CameraIssues(store, c)
  }

  ghost predicate RaisedForDevices(store: Store, x: Issue) {
    exists d | d in store.devices :: x in DeviceIssues(d)
  }

  lemma DevicesFound(store: Store, id: int, category: string)
    requires UniqueIDs(store)
    ensures HasDevice(store, id, category) <==>
            id in DevicesByID(store.devices) && DevicesByID(store.devices)[id].category == category
  {
    DevicesByIDMembers(store.devices);
    if d :| d in store.devices && d.id == id && d.category == category {
      UniqueMeansSame(store.devices, d, DevicesByID(store.devices)[id]);
    }
  }

  lemma SpacesFound(store: Store, id: int)
    requires UniqueIDs(store)
    ensures HasSpace(store, id) <==> id in SpacesByID(store.spaces)
    ensures forall s | s in store.spaces && s.id == id ::
              id in SpacesByID(store.spaces) && s == SpacesByID(store.spaces)[id]
  {
    SpacesByIDMembers(store.spaces);
  }

  lemma RaisedForRelation(store: Store, r: Relation, x: Issue)
    requires UniqueIDs(store)
    ensures DueForRelation(store, r, x) <==> RelationKind(store, r).Some? && x == RelationIssue(store, r)
  {
    DevicesFound(store, r.deviceID, "camera");
    SpacesFound(store, r.areaID);
    hide HasDevice, DevicesByID, SpacesByID, UniqueIDs;
  }

  lemma RaisedForCamera(store: Store, c: Camera, x: Issue)
    requires UniqueIDs(store)
    ensures DueForCamera(store, c, x) <==> x in CameraIssues(store, c)
  {
    DevicesFound(store, c.device.parentID, "nvr");
    hide HasDevice, DevicesByID, UniqueIDs;
  }

  lemma RaisedForDevice(d: Device, x: Issue)
    ensures DueForDevice(d, x) <==> x in DeviceIssues(d)
  {
  }

  /** What the loops raise is what is due. */
  lemma DueIsRaised(store: Store, x: Issue)
    requires UniqueIDs(store)
    ensures Due(store, x) <==>
            || RaisedForRelations(store, x) || RaisedForCameras(store, x) || RaisedForDevices(store, x)
            || DueForBindings(store, x)
  {
    hide UniqueIDs, DueForRelation, DueForCamera, DueForDevice, RelationKind, RelationIssue, CameraIssues, DeviceIssues;
    forall r ensures DueForRelation(store, r, x) <==> RelationKind(store, r).Some? && x == RelationIssue(store, r) {
      RaisedForRelation(store, r, x);
    }
    forall c ensures DueForCamera(store, c, x) <==> x in CameraIssues(store, c) {
      RaisedForCamera(store, c, x);
    }
    forall d ensures DueForDevice(d, x) <==> x in DeviceIssues(d) {
      RaisedForDevice(d, x);
    }
  }

  // ----- buildIssues, loop by loop ------------------------------------------------------------------

  method RelationLoop(store: Store) returns (issues: seq<Issue>)
    requires UniqueIDs(store)
    ensures Distinct(issues)
    ensures forall x :: x in issues <==> RaisedForRelations(store, x)
  {
    issues := [];
    var inactive: set<int> := {};
    for i := 0 to |store.relations|
      invariant Distinct(issues)
      invariant forall x :: x in issues <==> exists j | 0 <= j < i :: RaisedBy(store, j, x)
      invariant forall x | x in issues :: x.kind == InactiveBoundSpace ==> x.entityID in inactive
      invariant forall id | id in inactive ::
                  && id in SpacesByID(store.spaces)
                  && Issue(InactiveBoundSpace, id, SpacesByID(store.spaces)[id].name) in issues
    {
      var r := store.relations[i];
      var kind := RelationKind(store, r);
      if kind.Some? {
        var issue := RelationIssue(store, r);
        assert RaisedBy(store, i, issue);
        if kind.kind != InactiveBoundSpace {
          NotRaisedBefore(store, i, issue);
          DistinctAppend(issues, [issue]);
          issues := issues + [issue];
        } else if r.areaID !in inactive {
          inactive := inactive + {r.areaID};
          DistinctAppend(issues, [issue]);
          issues := issues + [issue];
        }
      }
    }
    forall x ensures x in issues <==> RaisedForRelations(store, x) {
      if r :| r in store.relations && RelationKind(store, r).Some? && x == RelationIssue(store, r) {
        var j :| 0 <= j < |store.relations| && store.relations[j] == r;
        assert RaisedBy(store, j, x);
      }
    }
  }

  predicate RaisedBy(store: Store, j: nat, x: Issue)
    requires j < |store.relations|
  {
    RelationKind(store, store.relations[j]).Some? && x == RelationIssue(store, store.relations[j])
  }

  lemma NotRaisedBefore(store: Store, i: nat, x: Issue)
    requires UniqueIDs(store) && i < |store.relations| && RaisedBy(store, i, x) && x.kind != InactiveBoundSpace
    ensures forall j | 0 <= j < i :: !RaisedBy(store, j, x)
  {
  }

  function CameraFlat(store: Store, cs: seq<Camera>): seq<Issue> {
    if cs == [] then [] else CameraFlat(store, cs[..|cs| - 1]) + CameraIssues(store, cs[|cs| - 1])
  }

  lemma {:induction false} CameraFlatMeaning(store: Store, cs: seq<Camera>)
    requires forall i, j | 0 <= i < j < |cs| :: cs[i].device.id != cs[j].device.id
    ensures Distinct(CameraFlat(store, cs))
    ensures forall x :: x in CameraFlat(store, cs) <==> exists c | c in cs :: x in CameraIssues(store, c)
  {
    if cs != [] {
      hide CameraIssues;
      var front, c := cs[..|cs| - 1], cs[|cs| - 1];
      CameraFlatMeaning(store, front);
      assert cs == front + [c];
      CameraIssuesShape(store, c);
      forall x | x in CameraFlat(store, front) ensures x !in CameraIssues(store, c) {
        var b :| b in front && x in CameraIssues(store, b);
        CameraIssuesShape(store, b);
      }
      DistinctAppend(CameraFlat(store, front), CameraIssues(store, c));
    }
  }

  lemma CameraIssuesShape(store: Store, c: Camera)
    ensures Distinct(CameraIssues(store, c))
    ensures forall x | x in CameraIssues(store, c) :: x.entityID == c.device.id && x.name == c.device.name
  {
  }

  function DeviceFlat(ds: seq<Device>): seq<Issue> {
    if ds == [] then [] else DeviceFlat(ds[..|ds| - 1]) + DeviceIssues(ds[|ds| - 1])
  }

  lemma {:induction false} DeviceFlatMeaning(ds: seq<Device>)
    requires forall i, j | 0 <= i < j < |ds| :: ds[i].id != ds[j].id
    ensures Distinct(DeviceFlat(ds))
    ensures forall x :: x in DeviceFlat(ds) <==> exists d | d in ds :: x in DeviceIssues(d)
  {
    if ds != [] {
      hide DeviceIssues;
      var front, d := ds[..|ds| - 1], ds[|ds| - 1];
      DeviceFlatMeaning(front);
      assert ds == front + [d];
      DeviceIssuesShape(d);
      forall x | x in DeviceFlat(front) ensures x !in DeviceIssues(d) {
        var b :| b in front && x in DeviceIssues(b);
        DeviceIssuesShape(b);
      }
      DistinctAppend(DeviceFlat(front), DeviceIssues(d));
    }
  }

  lemma DeviceIssuesShape(d: Device)
    ensures Distinct(DeviceIssues(d))
    ensures forall x | x in DeviceIssues(d) :: x.entityID == d.id && x.name == d.name
  {
  }

  method CameraLoop(store: Store) returns (issues: seq<Issue>)
    requires UniqueIDs(store)
    ensures Distinct(issues)
    ensures forall x :: x in issues <==> RaisedForCameras(store, x)
  {
    issues := [];
    for i := 0 to |store.cameras|
      invariant issues == CameraFlat(store, store.cameras[..i])
    {
      var c := store.cameras[i];
      assert store.cameras[..i + 1][..i] == store.cameras[..i];
      if c.device.parentID > 0 && !IsNVR(store, c.device.parentID) {
        issues := issues + [Issue(MissingNVR, c.device.id, c.device.name)];
      }
      if |c.spacePaths| == 0 {
        issues := issues + [Issue(UnboundCamera, c.device.id, c.device.name)];
      }
      if c.device.onlineStatus != 1 {
        issues := issues + [Issue(OfflineCamera, c.device.id, c.device.name)];
      }
    }
    assert store.cameras[..|store.cameras|] == store.cameras;
    CameraFlatMeaning(store, store.cameras);
  }

  method DeviceLoop(store: Store) returns (issues: seq<Issue>)
    requires UniqueIDs(store)
    ensures Distinct(issues)
    ensures forall x :: x in issues <==> RaisedForDevices(store, x)
  {
    issues := [];
    for i := 0 to |store.devices|
      invariant issues == DeviceFlat(store.devices[..i])
    {
      var d := store.devices[i];
      assert store.devices[..i + 1][..i] == store.devices[..i];
      match d.category {
        case "edge" =>
          if d.onlineStatus != 1 {
            issues := issues + [Issue(OfflineEdge, d.id, d.name)];
          }
        case "nvr" =>
          if d.onlineStatus != 1 {
            issues := issues + [Issue(OfflineNVR, d.id, d.name)];
          }
        case _ =>
      }
    }
    assert store.devices[..|store.devices|] == store.devices;
    DeviceFlatMeaning(store.devices);
  }

  /** The keys of a map in some order: whichever order the iteration takes. */
  method SomeOrder<T(==)>(s: set<T>) returns (order: seq<T>)
    ensures Distinct(order) && forall x :: x in order <==> x in s
  {
    order := [];
    var left := s;
    while left != {}
      invariant left <= s
      invariant Distinct(order) && forall x :: x in order <==> x in s && x !in left
    {
      var x :| x in left;
      order := order + [x];
      left := left - {x};
    }
  }

  method BindingLoop(kind: Kind, index: map<int, seq<int>>) returns (issues: seq<Issue>)
    ensures Distinct(issues)
    ensures forall x :: x in issues <==> x == Issue(kind, x.entityID, "") && |Get(index, x.entityID)| > 1
  {
    var order := SomeOrder(index.Keys);
    issues := [];
    for i := 0 to |order|
      invariant Distinct(issues)
      invariant forall x :: x in issues <==>
                  x == Issue(kind, x.entityID, "") && x.entityID in order[..i] && |Get(index, x.entityID)| > 1
    {
      assert order[..i + 1] == order[..i] + [order[i]];
      if |index[order[i]]| > 1 {
        issues := issues + [Issue(kind, order[i], "")];
      }
    }
    assert order[..|order|] == order;
  }

  method BuildIssues(store: Store) returns (issues: seq<Issue>)
    requires UniqueIDs(store)
    ensures IssueList(store, issues)
  {
    hide RaisedForRelations, RaisedForCameras, RaisedForDevices, DueForBindings, Due, UniqueIDs;
    var a := RelationLoop(store);
    var b := CameraLoop(store);
    var c := DeviceLoop(store);
    var d := BindingLoop(CameraBoundManySpaces, store.bindings.spaceIDsByCamera);
    var e := BindingLoop(SpaceBoundManyCameras, store.bindings.cameraIDsBySpace);
    KindsDiffer(store);
    DistinctAppend(a, b);
    DistinctAppend(a + b, c);
    DistinctAppend(a + b + c, d);
    DistinctAppend(a + b + c + d, e);
    var unsorted := a + b + c + d + e;
    IssueLeTotal();
    issues := SortSlice(unsorted, IssueLe);
    SortingMembers(issues, unsorted, IssueLe);
    SortingDistinct(issues, unsorted, IssueLe);
    forall x ensures x in issues <==> Due(store, x) {
      DueIsRaised(store, x);
      BoundManyTimes(store, x);
    }
  }

  lemma BoundManyTimes(store: Store, x: Issue)
    ensures DueForBindings(store, x) <==>
            || (x == Issue(CameraBoundManySpaces, x.entityID, "")
                && |Get(store.bindings.spaceIDsByCamera, x.entityID)| > 1)
            || (x == Issue(SpaceBoundManyCameras, x.entityID, "")
                && |Get(store.bindings.cameraIDsBySpace, x.entityID)| > 1)
  {
  }

  lemma KindsDiffer(store: Store)
    ensures forall x | RaisedForRelations(store, x) :: x.kind in {MissingCamera, MissingSpace, InactiveBoundSpace}
    ensures forall x | RaisedForCameras(store, x) :: x.kind in {MissingNVR, UnboundCamera, OfflineCamera}
    ensures forall x | RaisedForDevices(store, x) :: x.kind in {OfflineEdge, OfflineNVR}
  {
  }

  // ----- main results -------------------------------------------------------------------------------

  /** Surviving issues have pairwise distinct keys. */
  lemma KeyDetermines(store: Store, x: Issue, y: Issue)
    requires UniqueIDs(store) && Due(store, x) && Due(store, y)
    requires x.kind == y.kind && x.entityID == y.entityID
    ensures x == y
  {
    KindsDiffer(store);
    hide RelationKind, RelationIssue, CameraIssues, DeviceIssues, IsCameraDevice, IsNVR;
    if RaisedForRelations(store, x) {
      var q :| q in store.relations && RelationKind(store, q).Some? && x == RelationIssue(store, q);
      var r :| r in store.relations && RelationKind(store, r).Some? && y == RelationIssue(store, r);
      SameRelationIssue(store, q, r);
    } else if RaisedForCameras(store, x) {
      var b :| b in store.cameras && x in CameraIssues(store, b);
      var c :| c in store.cameras && y in CameraIssues(store, c);
      CameraIssuesShape(store, b);
      CameraIssuesShape(store, c);
    } else if RaisedForDevices(store, x) {
      var d :| d in store.devices && x in DeviceIssues(d);
      var e :| e in store.devices && y in DeviceIssues(e);
      DeviceIssuesShape(d);
      DeviceIssuesShape(e);
    }
  }

  lemma SameRelationIssue(store: Store, q: Relation, r: Relation)
    requires RelationKind(store, q).Some? && RelationKind(store, r).Some?
    requires var x, y := RelationIssue(store, q), RelationIssue(store, r); x.kind == y.kind && x.entityID == y.entityID
    ensures RelationIssue(store, q) == RelationIssue(store, r)
  {
  }

  /** The issue list is the same whatever order the maps are iterated in and however
      the sort treats ties: two lists for one store are equal. */
  lemma IssueListUnique(store: Store, a: seq<Issue>, b: seq<Issue>)
    requires UniqueIDs(store) && IssueList(store, a) && IssueList(store, b)
    ensures a == b
  {
    hide Due;
    SameMembers(a, b);
    forall x, y | x in a && y in a && IssueLe(x, y) && IssueLe(y, x)
      ensures x == y
    {
      KeyDetermines(store, x, y);
    }
    SortingUnique(a, b, IssueLe);
  }

  /** The number of unbound-camera issues is the `UnboundCameraCount` of the summary. */
  lemma UnboundIssuesMatchSummary(store: Store, issues: seq<Issue>)
    requires UniqueIDs(store) && IssueList(store, issues) && WalksEnd(store.spaces, store.relations)
    requires CamerasBuilt(store.devices, store.relations, store.spaces, store.cameras)
    requires Converse(store.bindings, store.spaces, store.cameras, store.relations)
    ensures |set x | x in issues && x.kind == UnboundCamera| ==
            |OfCategory(store.devices, "camera")|
            - |store.bindings.boundCameraIDs * DeviceIDs(OfCategory(store.devices, "camera"))|
  {
    var unbound := set c | c in store.cameras && c.spacePaths == [];
    UnboundCountsAgree(store.devices, store.relations, store.spaces, store.cameras, store.bindings);
    CountUnboundIssues(unbound);
    UnboundIssues(store, issues, unbound);
  }

  function UnboundIssue(c: Camera): Issue {
    Issue(UnboundCamera, c.device.id, c.device.name)
  }

  lemma UnboundDue(store: Store, x: Issue)
    requires x.kind == UnboundCamera
    ensures Due(store, x) <==> exists c | c in store.cameras :: c.spacePaths == [] && x == UnboundIssue(c)
  {
    forall c ensures DueForCamera(store, c, x) <==> c.spacePaths == [] && x == UnboundIssue(c) {
    }
    hide DueForCamera;
  }

  lemma UnboundIssues(store: Store, issues: seq<Issue>, unbound: set<Camera>)
    requires IssueList(store, issues) && unbound == set c | c in store.cameras && c.spacePaths == []
    ensures (set x | x in issues && x.kind == UnboundCamera) == (set c | c in unbound :: UnboundIssue(c))
  {
    hide Due, Sorted, Distinct;
    forall x: Issue | x.kind == UnboundCamera
      ensures x in issues <==> exists c | c in unbound :: x == UnboundIssue(c)
    {
      UnboundDue(store, x);
    }
  }

  lemma {:induction false} CountUnboundIssues(cameras: set<Camera>)
    requires forall b, c | b in cameras && c in cameras && b != c :: b.device.id != c.device.id
    ensures |set c | c in cameras :: UnboundIssue(c)| == |cameras|
  {
    if cameras != {} {
      var c :| c in cameras;
      var rest := cameras - {c};
      CountUnboundIssues(rest);
      assert (set b | b in cameras :: UnboundIssue(b)) == (set b | b in rest :: UnboundIssue(b)) + {UnboundIssue(c)};
      assert forall b | b in rest :: UnboundIssue(b) != UnboundIssue(c);
    }
  }
}
