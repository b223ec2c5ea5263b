/** `BuildStoreDetail` as a whole: one pass after the other, and why the result does
    not depend on the order of the relations or of any map. */
module StoreDetail {
  import opened Sorting
  import opened Strings
  import opened SpaceForest
  import opened SpacePaths
  import opened AreaRelations
  import opened StoreBindings
  import opened StoreCameras
  import opened StoreIssues

  // ----- normalizedDevices ----------------------------------------------------------------------

  datatype DeviceRecord = DeviceRecord(device: Device, deleted: bool)

  function TrimmedDevice(d: Device): Device {
    d.(name := TrimSpace(d.name), category := TrimSpace(d.category), provider := TrimSpace(d.provider))
  }

  /** The devices that are not deleted, trimmed. */
  function LiveDevices(records: seq<DeviceRecord>): seq<Device> {
    if records == [] then []
    else
      var front, r := LiveDevices(records[..|records| - 1]), records[|records| - 1];
      if r.deleted then front else front + [TrimmedDevice(r.device)]
  }

  function CategoryRank(category: string): int {
    if category == "edge" then 1 else if category == "nvr" then 2 else if category == "camera" then 3 else 9
  }

  predicate DeviceLe(a: Device, b: Device) {
    if CategoryRank(a.category) == CategoryRank(b.category) then a.id <= b.id
    else CategoryRank(a.category) < CategoryRank(b.category)
  }

  lemma DeviceLeTotal()
    ensures TotalOrder(DeviceLe)
  {
    hide CategoryRank;
  }

  method NormalizedDevices(records: seq<DeviceRecord>) returns (devices: seq<Device>)
    ensures SortingOf(devices, LiveDevices(records), DeviceLe)
  {
    var live := [];
    for i := 0 to |records|
      invariant live == LiveDevices(records[..i])
    {
      assert records[..i + 1][..i] == records[..i];
      if records[i].deleted {
        continue;
      }
      live := live + [TrimmedDevice(records[i].device)];
    }
    assert records[..|records|] == records;
    DeviceLeTotal();
    devices := SortSlice(live, DeviceLe);
  }

  /** A rearrangement of devices with unique IDs: unique again, and the same by ID. */
  lemma RearrangedDevices(devices: seq<Device>, live: seq<Device>)
    requires SortingOf(devices, live, DeviceLe) && UniqueDeviceIDs(live)
    ensures UniqueDeviceIDs(devices) && DevicesByID(devices) == DevicesByID(live)
  {
    SortingMembers(devices, live, DeviceLe);
    SortingDistinct(devices, live, DeviceLe);
    forall i, j | 0 <= i < j < |devices| ensures devices[i].id != devices[j].id {
      assert devices[i] in live && devices[j] in live;
      if devices[i].id == devices[j].id {
        UniqueMeansSame(live, devices[i], devices[j]);
      }
    }
    DevicesByIDMembers(devices);
    DevicesByIDMembers(live);
    var a, b := DevicesByID(devices), DevicesByID(live);
    forall id | id in a ensures id in b && a[id] == b[id] {
      UniqueMeansSame(live, a[id], b[id]);
    }
    forall id | id in b ensures id in a {
      assert b[id] in devices;
    }
  }

  lemma RearrangedRecords(devices: seq<Device>, live: seq<Device>, spaces: seq<Space>, input: seq<Relation>)
    requires SortingOf(devices, live, DeviceLe) && Records(live, spaces, input)
    ensures Records(devices, spaces, input)
  {
    RearrangedDevices(devices, live);
    assert forall r :: Applicable(devices, spaces, r) <==> Applicable(live, spaces, r);
  }

  lemma {:induction false} LiveSplit(a: seq<DeviceRecord>, b: seq<DeviceRecord>)
    ensures LiveDevices(a + b) == LiveDevices(a) + LiveDevices(b)
  {
    if b == [] {
      assert a + b == a;
    } else {
      LiveSplit(a, b[..|b| - 1]);
      assert (a + b)[..|a + b| - 1] == a + b[..|b| - 1];
    }
  }

  lemma LiveWithoutOne(records: seq<DeviceRecord>, k: nat)
    requires k < |records|
    ensures multiset(LiveDevices(records)) ==
            multiset(LiveDevices(Without(records, k))) + multiset(LiveDevices([records[k]]))
  {
    hide LiveDevices;
    var x, r, y := CutAround(records, k);
    LiveSplit(x, y);
    LiveSplit(r, y);
    LiveSplit(x, r + y);
    MiddleOut(LiveDevices(x), LiveDevices(r), LiveDevices(y));
  }

  lemma CutAround<T>(s: seq<T>, k: nat) returns (x: seq<T>, r: seq<T>, y: seq<T>)
    requires k < |s|
    ensures s == x + (r + y) && r == [s[k]] && Without(s, k) == x + y
  {
    x, r, y := s[..k], [s[k]], s[k + 1..];
  }

  lemma MiddleOut<T>(x: seq<T>, r: seq<T>, y: seq<T>)
    ensures multiset(x + (r + y)) == multiset(x + y) + multiset(r)
  {
  }

  lemma {:induction false} SameLive(a: seq<DeviceRecord>, b: seq<DeviceRecord>)
    requires multiset(a) == multiset(b)
    ensures multiset(LiveDevices(a)) == multiset(LiveDevices(b))
    decreases |a|
  {
    hide LiveDevices, Without;
    MultisetMembers(a, b);
    if a == [] {
      assert b == [];
    } else {
      assert a[0] in a && a[0] in b;
      var k :| 0 <= k < |b| && b[k] == a[0];
      WithoutOne(a, 0);
      WithoutOne(b, k);
      SameLive(Without(a, 0), Without(b, k));
      LiveWithoutOne(a, 0);
      LiveWithoutOne(b, k);
    }
  }

  // ----- the view ---------------------------------------------------------------------------------

  /** The devices that the view shows: cameras only if eligible. */
  function ViewDevices(devices: seq<Device>): seq<Device> {
    if devices == [] then []
    else
      var front, d := ViewDevices(devices[..|devices| - 1]), devices[|devices| - 1];
      if d.category != "camera" || EligibleCamera(d) then front + [d] else front
  }

  datatype Detail = Detail(store: Store, issues: seq<Issue>, summary: Summary, tree: seq<Node>)

  /** What the source needs of the records: unique IDs, and no space on a cycle of parents
      or below one that an applicable relation refers to: there `spacePath` would not
      return. */
  ghost predicate Records(devices: seq<Device>, spaces: seq<Space>, input: seq<Relation>) {
    && UniqueDeviceIDs(devices) && UniquePositiveIDs(spaces) && UniqueRelationIDs(input)
    && forall r | r in TrimmedAll(input) && Applicable(devices, spaces, r) && r.areaID in SpacesByID(spaces) ::
         Ends(SpacesByID(spaces), r.areaID)
  }

  ghost predicate Built(devices: seq<Device>, spaces: seq<Space>, input: seq<Relation>, d: Detail)
    requires Records(devices, spaces, input)
  {
    && d.store.devices == ViewDevices(devices) && d.store.spaces == spaces
    && (exists normalized ::
          Normalized(input, normalized) && d.store.relations == FilterApplicable(devices, spaces, normalized))
    && WalksEnd(spaces, d.store.relations)
    && CamerasBuilt(d.store.devices, d.store.relations, spaces, d.store.cameras)
    && Converse(d.store.bindings, spaces, d.store.cameras, d.store.relations)
    && UniqueIDs(d.store)
    && IssueList(d.store, d.issues)
    && d.summary.edges == |OfCategory(d.store.devices, "edge")| &&
         d.summary.nvrs == |OfCategory(d.store.devices, "nvr")|
    && d.summary.cameras == |OfCategory(d.store.devices, "camera")|
    && d.summary.boundCameras + d.summary.unboundCameras == d.summary.cameras
    && d.summary.unboundCameras == |set x | x in d.issues && x.kind == UnboundCamera|
    && d.tree == BuildSpaceTree(spaces, d.store.bindings.cameraIDsBySpace)
  }

  /** What the view of a store's records is: built from its devices that are not deleted. */
  ghost predicate DetailOf(records: seq<DeviceRecord>, spaces: seq<Space>, input: seq<Relation>, d: Detail) {
    exists devices ::
      SortingOf(devices, LiveDevices(records), DeviceLe) && Records(devices, spaces, input) &&
      Built(devices, spaces, input, d)
  }

  method BuildStoreDetail(records: seq<DeviceRecord>, spaces: seq<Space>, input: seq<Relation>) returns (d: Detail)
    requires Records(LiveDevices(records), spaces, input)
    ensures DetailOf(records, spaces, input, d)
  {
    var devices := NormalizedDevices(records);
    RearrangedRecords(devices, LiveDevices(records), spaces, input);
    d := BuildNormalized(devices, spaces, input);
  }

  /** The passes after the normalization. */
  method BuildNormalized(devices: seq<Device>, spaces: seq<Space>, input: seq<Relation>) returns (d: Detail)
    requires Records(devices, spaces, input)
    ensures Built(devices, spaces, input, d)
  {
    var view := ViewDevices(devices);
    var normalized := NormalizedRelations(input);
    var relations := FilterApplicable(devices, spaces, normalized);
    PreparedRelations(devices, spaces, input, normalized);
    var cameras := BuildCameras(view, relations, spaces);
    var bindings := BuildValidBindings(spaces, cameras, relations);
    ViewDevicesUnique(devices);
    CamerasUnique(view, relations, spaces, cameras);
    var store := Store(view, spaces, relations, cameras, bindings);
    var issues := BuildIssues(store);
    var summary := BuildSummary(view, bindings);
    UnboundIssuesMatchSummary(store, issues);
    d := Detail(store, issues, summary, BuildSpaceTree(spaces, bindings.cameraIDsBySpace));
  }

  lemma PreparedRelations(devices: seq<Device>, spaces: seq<Space>, input: seq<Relation>, normalized: seq<Relation>)
    requires Records(devices, spaces, input) && Normalized(input, normalized)
    ensures WalksEnd(spaces, FilterApplicable(devices, spaces, normalized))
    ensures UniqueRelationIDs(FilterApplicable(devices, spaces, normalized))
  {
    FilterMembers(devices, spaces, normalized);
    forall r | r in FilterApplicable(devices, spaces, normalized) && r.areaID in SpacesByID(spaces)
      ensures Ends(SpacesByID(spaces), r.areaID)
    {
      assert r in normalized && r in TrimmedAll(input);
    }
    NormalizedUnique(input, normalized);
    FilterUnique(devices, spaces, normalized);
  }

  lemma NormalizedUnique(input: seq<Relation>, normalized: seq<Relation>)
    requires UniqueRelationIDs(input) && Normalized(input, normalized)
    ensures UniqueRelationIDs(normalized)
  {
    forall i, j | 0 <= i < j < |normalized|
      ensures normalized[i].id != normalized[j].id
    {
      assert normalized[i] in normalized && normalized[j] in normalized;
      if normalized[i].id == normalized[j].id {
        TrimmedUnique(input, normalized[i], normalized[j]);
      }
    }
  }

  lemma {:induction false} FilterUnique(devices: seq<Device>, spaces: seq<Space>, relations: seq<Relation>)
    requires UniqueRelationIDs(relations)
    ensures UniqueRelationIDs(FilterApplicable(devices, spaces, relations))
  {
    if relations != [] {
      var front, r := relations[..|relations| - 1], relations[|relations| - 1];
      FilterUnique(devices, spaces, front);
      FilterMembers(devices, spaces, front);
      var kept := FilterApplicable(devices, spaces, front);
      forall i | 0 <= i < |kept| ensures kept[i].id != r.id {
        assert kept[i] in front;
      }
    }
  }

  lemma {:induction false} ViewDevicesUnique(devices: seq<Device>)
    requires UniqueDeviceIDs(devices)
    ensures UniqueDeviceIDs(ViewDevices(devices))
    ensures forall d | d in ViewDevices(devices) :: d in devices
  {
    if devices != [] {
      var front, d := devices[..|devices| - 1], devices[|devices| - 1];
      ViewDevicesUnique(front);
      var kept := ViewDevices(front);
      forall i | 0 <= i < |kept| ensures kept[i].id != d.id {
        assert kept[i] in front;
      }
    }
  }

  // ----- the view in terms of the records ---------------------------------------------------

  /** A device record that is not deleted, as shown. */
  predicate ShownAs(record: DeviceRecord, x: Device) {
    && !record.deleted
    && x == Device(record.device.id, record.device.parentID, TrimSpace(record.device.name),
                   TrimSpace(record.device.category), TrimSpace(record.device.provider),
                   record.device.status, record.device.onlineStatus)
  }

  /** A camera in use: behind an NVR of HikVision and with status 1. */
  predicate InUse(x: Device) {
    x.category == "camera" && x.provider == "HikVisionNvrChannel" && x.status == 1
  }

  ghost predicate CameraRecord(records: seq<DeviceRecord>, id: int) {
    exists record, x | record in records :: ShownAs(record, x) && x.id == id && InUse(x)
  }

  /** No device that is not deleted has this ID, and the function type ends in "camera". */
  ghost predicate LostCamera(records: seq<DeviceRecord>, r: Relation) {
    && (forall record | record in records :: record.device.id == r.deviceID ==> record.deleted)
    && var text := TrimSpace(r.functionType);
       |text| >= 6 && FoldCase(text[|text| - 6..]) == "camera"
  }

  /** Spaces directly below the consulting area are not shown as bound. */
  ghost predicate OpenArea(spaces: seq<Space>, id: int) {
    forall s | s in spaces :: s.id == id ==> s.parentID != 2387
  }

  ghost predicate Relates(input: seq<Relation>, device: int, area: int) {
    exists r | r in input :: r.deviceID == device && r.areaID == area
  }

  /** Edges first, then NVRs, then cameras, then the rest, each by ID. */
  predicate DeviceBefore(a: Device, b: Device) {
    match a.category
    case "edge" => b.category != "edge" || a.id <= b.id
    case "nvr" => b.category != "edge" && (b.category != "nvr" || a.id <= b.id)
    case "camera" => b.category != "edge" && b.category != "nvr" && (b.category != "camera" || a.id <= b.id)
    case _ => b.category != "edge" && b.category != "nvr" && b.category != "camera" && a.id <= b.id
  }

  ghost predicate Live(records: seq<DeviceRecord>, x: Device) {
    exists record | record in records :: ShownAs(record, x)
  }

  lemma LiveWithLast(records: seq<DeviceRecord>, x: Device)
    requires records != []
    ensures var front, last := records[..|records| - 1], records[|records| - 1];
            Live(records, x) <==> Live(front, x) || ShownAs(last, x)
  {
    hide ShownAs;
    assert records == records[..|records| - 1] + [records[|records| - 1]];
  }

  lemma {:induction false} LiveMembers(records: seq<DeviceRecord>)
    ensures forall x :: x in LiveDevices(records) <==> Live(records, x)
  {
    hide TrimmedDevice, ShownAs;
    if records != [] {
      LiveMembers(records[..|records| - 1]);
      forall x ensures x in LiveDevices(records) <==> Live(records, x) {
        LiveWithLast(records, x);
        ShownIsTrimmed(records[|records| - 1], x);
        hide Live;
      }
    }
  }

  lemma ShownIsTrimmed(record: DeviceRecord, x: Device)
    ensures ShownAs(record, x) <==> !record.deleted && x == TrimmedDevice(record.device)
  {
  }

  lemma {:induction false} ViewMembers(devices: seq<Device>)
    ensures forall x :: x in ViewDevices(devices) <==> x in devices && (x.category == "camera" ==> InUse(x))
  {
    if devices != [] {
      ViewMembers(devices[..|devices| - 1]);
      assert devices == devices[..|devices| - 1] + [devices[|devices| - 1]];
    }
  }

  lemma {:induction false} ViewSorted(devices: seq<Device>)
    requires Sorted(devices, DeviceLe)
    ensures Sorted(ViewDevices(devices), DeviceLe)
  {
    hide DeviceLe, InUse;
    if devices != [] {
      var front, d := devices[..|devices| - 1], devices[|devices| - 1];
      ViewSorted(front);
      ViewMembers(front);
      forall x | x in ViewDevices(front) ensures DeviceLe(x, d) {
        var i :| 0 <= i < |front| && front[i] == x;
        assert devices[i] == x;
      }
    }
  }

  /** The devices shown are the records that are not deleted, but of cameras only those in
      use; in order. */
  lemma ShownDevices(records: seq<DeviceRecord>, spaces: seq<Space>, input: seq<Relation>, d: Detail)
    requires DetailOf(records, spaces, input, d)
    ensures forall x :: x in d.store.devices <==>
              (x.category == "camera" ==> InUse(x)) && exists record | record in records :: ShownAs(record, x)
    ensures forall i, j | 0 <= i < j < |d.store.devices| :: DeviceBefore(d.store.devices[i], d.store.devices[j])
  {
    hide DeviceLe, ShownAs, InUse;
    var devices :| SortingOf(devices, LiveDevices(records), DeviceLe) && Records(devices, spaces, input) &&
      Built(devices, spaces, input, d);
    LiveMembers(records);
    SortingMembers(devices, LiveDevices(records), DeviceLe);
    ViewMembers(devices);
    ViewSorted(devices);
    var view := d.store.devices;
    forall i, j | 0 <= i < j < |view| ensures DeviceBefore(view[i], view[j]) {
      OrderIsBefore(view[i], view[j]);
    }
  }

  lemma OrderIsBefore(a: Device, b: Device)
    ensures DeviceLe(a, b) <==> DeviceBefore(a, b)
  {
  }

  lemma EligibleRecords(records: seq<DeviceRecord>, devices: seq<Device>, id: int)
    requires SortingOf(devices, LiveDevices(records), DeviceLe) && UniqueDeviceIDs(devices)
    ensures CameraRecord(records, id) <==> id in DevicesByID(devices) && EligibleCamera(DevicesByID(devices)[id])
    ensures id in DevicesByID(devices) <==>
            exists record | record in records :: record.device.id == id && !record.deleted
  {
    LiveMembers(records);
    SortingMembers(devices, LiveDevices(records), DeviceLe);
    DevicesByIDMembers(devices);
    if record, x :| record in records && ShownAs(record, x) && x.id == id && InUse(x) {
      UniqueMeansSame(devices, x, DevicesByID(devices)[id]);
    }
    if record :| record in records && record.device.id == id && !record.deleted {
      assert ShownAs(record, TrimmedDevice(record.device));
      assert TrimmedDevice(record.device) in devices;
    }
  }

  lemma CameraSuffix(s: string)
    ensures EndsInCamera(s) <==> |s| >= 6 && FoldCase(s[|s| - 6..]) == "camera"
  {
    if |s| >= 6 {
      var t := FoldCase(s[|s| - 6..]);
      assert forall i | 0 <= i < 6 :: t[i] == LowerASCII(s[|s| - 6 + i]);
      assert EndsInCamera(s) <==> forall i | 0 <= i < 6 :: t[i] == "camera"[i];
    }
  }

  lemma ApplicableMeans(records: seq<DeviceRecord>, devices: seq<Device>, spaces: seq<Space>, r: Relation)
    requires SortingOf(devices, LiveDevices(records), DeviceLe) && UniqueDeviceIDs(devices) && UniquePositiveIDs(spaces)
    ensures Applicable(devices, spaces, r) <==>
            (CameraRecord(records, r.deviceID) || LostCamera(records, r)) && OpenArea(spaces, r.areaID)
  {
    EligibleRecords(records, devices, r.deviceID);
    CameraSuffix(TrimSpace(r.functionType));
    SpacesByIDMembers(spaces);
    hide EndsInCamera, FoldCase, TrimSpace, DevicesByID, SpacesByID, CameraRecord, EligibleCamera;
    forall s | s in spaces && s.id == r.areaID ensures s == SpacesByID(spaces)[r.areaID] {
      SameID(spaces, s, SpacesByID(spaces)[r.areaID]);
    }
  }

  /** A device and a space are related in the view exactly when a relation of the records
      joins them whose device is a camera in use or a lost one, and the space is open. */
  lemma ShownRelations(records: seq<DeviceRecord>, spaces: seq<Space>, input: seq<Relation>, d: Detail,
                       device: int, area: int)
    requires DetailOf(records, spaces, input, d)
    ensures Joined(d.store.relations, device, area) <==>
            OpenArea(spaces, area) &&
            exists r | r in input :: r.deviceID == device && r.areaID == area &&
              (CameraRecord(records, device) || LostCamera(records, r))
  {
    hide Applicable, CameraRecord, LostCamera, OpenArea, DeviceLe;
    var devices :| SortingOf(devices, LiveDevices(records), DeviceLe) && Records(devices, spaces, input) &&
      Built(devices, spaces, input, d);
    var normalized :| Normalized(input, normalized) &&
      d.store.relations == FilterApplicable(devices, spaces, normalized);
    ConnectionsSurvive(devices, spaces, input, normalized, device, area);
    forall r ensures Applicable(devices, spaces, r) <==>
                     (CameraRecord(records, r.deviceID) || LostCamera(records, r)) && OpenArea(spaces, r.areaID)
    {
      ApplicableMeans(records, devices, spaces, r);
    }
  }

  lemma CameraShown(records: seq<DeviceRecord>, spaces: seq<Space>, input: seq<Relation>, d: Detail, c: int)
    requires DetailOf(records, spaces, input, d)
    ensures c in CameraIDs(d.store.cameras) <==> CameraRecord(records, c)
  {
    hide ShownAs, InUse, CamerasFor;
    ShownDevices(records, spaces, input, d);
    assert WalksEnd(spaces, d.store.relations) && UniqueIDs(d.store);
    CamerasUnique(d.store.devices, d.store.relations, spaces, d.store.cameras);
    if record, x :| record in records && ShownAs(record, x) && x.id == c && InUse(x) {
      InUseIsCamera(x);
      assert CameraOf(spaces, d.store.relations, x) in d.store.cameras;
    }
  }

  lemma InUseIsCamera(x: Device)
    ensures InUse(x) ==> x.category == "camera"
  {
  }

  /** Camera `c` is bound to space `s`, in either index, exactly when the records have a
      camera in use with that ID, an open space with that ID and a relation of the two. */
  lemma ShownBindings(records: seq<DeviceRecord>, spaces: seq<Space>, input: seq<Relation>, d: Detail, c: int, s: int)
    requires DetailOf(records, spaces, input, d)
    ensures c in Get(d.store.bindings.cameraIDsBySpace, s) <==>
            CameraRecord(records, c) && s in Ids(spaces) && OpenArea(spaces, s) && Relates(input, c, s)
    ensures s in Get(d.store.bindings.spaceIDsByCamera, c) <==> c in Get(d.store.bindings.cameraIDsBySpace, s)
  {
    hide CameraRecord, LostCamera, OpenArea, CameraIDs;
    CameraShown(records, spaces, input, d, c);
    ShownRelations(records, spaces, input, d, c, s);
  }

  // ----- order independence --------------------------------------------------------------------

  /** Two builds from the same device records and relations, both in different orders, give
      the same relations, cameras, index entries, issues, summary and tree. */
  lemma OrderIndependent(p: seq<DeviceRecord>, q: seq<DeviceRecord>, spaces: seq<Space>,
                         a: seq<Relation>, b: seq<Relation>, x: Detail, y: Detail)
    requires Records(LiveDevices(p), spaces, a) && multiset(p) == multiset(q) && multiset(a) == multiset(b)
    requires DetailOf(p, spaces, a, x) && DetailOf(q, spaces, b, y)
    ensures x.store.devices == y.store.devices
    ensures x.store.relations == y.store.relations
    ensures x.store.cameras == y.store.cameras
    ensures forall s :: Get(x.store.bindings.cameraIDsBySpace, s) == Get(y.store.bindings.cameraIDsBySpace, s)
    ensures forall c :: Get(x.store.bindings.spaceIDsByCamera, c) == Get(y.store.bindings.spaceIDsByCamera, c)
    ensures x.issues == y.issues
    ensures x.summary == y.summary && x.tree == y.tree
  {
    hide Built, Records;
    var d :| SortingOf(d, LiveDevices(p), DeviceLe) && Records(d, spaces, a) && Built(d, spaces, a, x);
    var e :| SortingOf(e, LiveDevices(q), DeviceLe) && Records(e, spaces, b) && Built(e, spaces, b, y);
    SameLive(p, q);
    RecordsAreUnique(d, spaces, a);
    SortedDevicesUnique(d, e);
    SameDevicesSameDetail(d, spaces, a, b, x, y);
  }

  lemma RecordsAreUnique(devices: seq<Device>, spaces: seq<Space>, input: seq<Relation>)
    requires Records(devices, spaces, input)
    ensures UniqueDeviceIDs(devices)
  {
  }

  lemma SortedDevicesUnique(d: seq<Device>, e: seq<Device>)
    requires Sorted(d, DeviceLe) && Sorted(e, DeviceLe) && multiset(d) == multiset(e) && UniqueDeviceIDs(d)
    ensures d == e
  {
    forall x, y | x in d && y in d && DeviceLe(x, y) && DeviceLe(y, x) ensures x == y {
      UniqueMeansSame(d, x, y);
    }
    SortingUnique(d, e, DeviceLe);
  }

  lemma SameDevicesSameDetail(devices: seq<Device>, spaces: seq<Space>, a: seq<Relation>, b: seq<Relation>,
                              x: Detail, y: Detail)
    requires Records(devices, spaces, a) && Records(devices, spaces, b) && multiset(a) == multiset(b)
    requires Built(devices, spaces, a, x) && Built(devices, spaces, b, y)
    ensures x.store.devices == y.store.devices
    ensures x.store.relations == y.store.relations
    ensures x.store.cameras == y.store.cameras
    ensures forall s :: Get(x.store.bindings.cameraIDsBySpace, s) == Get(y.store.bindings.cameraIDsBySpace, s)
    ensures forall c :: Get(x.store.bindings.spaceIDsByCamera, c) == Get(y.store.bindings.spaceIDsByCamera, c)
    ensures x.issues == y.issues
    ensures x.summary == y.summary && x.tree == y.tree
  {
    var nx :| Normalized(a, nx) && x.store.relations == FilterApplicable(devices, spaces, nx);
    var ny :| Normalized(b, ny) && y.store.relations == FilterApplicable(devices, spaces, ny);
    NormalizedOrderIndependent(a, b, nx, ny);
    ViewDevicesUnique(devices);
    CamerasDetermined(x.store.devices, x.store.relations, spaces, x.store.cameras, y.store.cameras);
    BindingsDetermined(x.store.bindings, y.store.bindings, spaces, x.store.cameras, x.store.relations);
    IssuesDetermined(x.store, y.store, x.issues, y.issues);
    SameIndexSameTree(spaces, x.store.bindings.cameraIDsBySpace, y.store.bindings.cameraIDsBySpace);
  }

  lemma CamerasDetermined(devices: seq<Device>, relations: seq<Relation>, spaces: seq<Space>, a: seq<Camera>,
                          b: seq<Camera>)
    requires WalksEnd(spaces, relations) && UniqueDeviceIDs(devices)
    requires CamerasBuilt(devices, relations, spaces, a) && CamerasBuilt(devices, relations, spaces, b)
    ensures a == b
  {
    CamerasUnique(devices, relations, spaces, a);
    forall x, y | x in a && y in a && CameraLe(x, y) && CameraLe(y, x)
      ensures x == y
    {
      var i :| 0 <= i < |a| && a[i] == x;
      var j :| 0 <= j < |a| && a[j] == y;
    }
    SortingUnique(a, b, CameraLe);
  }

  lemma BindingsDetermined(a: Bindings, b: Bindings, spaces: seq<Space>, cameras: seq<Camera>, relations: seq<Relation>)
    requires Converse(a, spaces, cameras, relations) && Converse(b, spaces, cameras, relations)
    ensures forall s :: Get(a.cameraIDsBySpace, s) == Get(b.cameraIDsBySpace, s)
    ensures forall c :: Get(a.spaceIDsByCamera, c) == Get(b.spaceIDsByCamera, c)
  {
    forall s ensures Get(a.cameraIDsBySpace, s) == Get(b.cameraIDsBySpace, s) {
      forall c ensures c in Get(a.cameraIDsBySpace, s) <==> c in Get(b.cameraIDsBySpace, s) {
        assert c in Get(a.cameraIDsBySpace, s) <==>
            c in CameraIDs(cameras) && s in Ids(spaces) && Joined(relations, c, s);
      }
      AscendingUnique(Get(a.cameraIDsBySpace, s), Get(b.cameraIDsBySpace, s));
    }
    forall c ensures Get(a.spaceIDsByCamera, c) == Get(b.spaceIDsByCamera, c) {
      forall s ensures s in Get(a.spaceIDsByCamera, c) <==> s in Get(b.spaceIDsByCamera, c) {
        assert s in Get(a.spaceIDsByCamera, c) <==>
            c in CameraIDs(cameras) && s in Ids(spaces) && Joined(relations, c, s);
      }
      AscendingUnique(Get(a.spaceIDsByCamera, c), Get(b.spaceIDsByCamera, c));
    }
  }

  lemma {:induction false} AscendingUnique(a: seq<int>, b: seq<int>)
    requires StrictlyAscending(a) && StrictlyAscending(b) && forall x :: x in a <==> x in b
    ensures a == b
  {
    if b != [] {
      assert b[0] in b;
      assert b[0] in a;
    }
    if a != [] {
      assert a[0] in a;
      assert a[0] in b;
      assert a[0] == b[0];
      forall x ensures x in a[1..] <==> x in b[1..] {
        assert x in a[1..] <==> x in a && x != a[0];
        assert x in b[1..] <==> x in b && x != b[0];
      }
      AscendingUnique(a[1..], b[1..]);
    }
  }

  lemma IssuesDetermined(x: Store, y: Store, a: seq<Issue>, b: seq<Issue>)
    requires UniqueIDs(x) && IssueList(x, a) && IssueList(y, b)
    requires x.devices == y.devices && x.spaces == y.spaces && x.relations == y.relations && x.cameras == y.cameras
    requires forall s :: Get(x.bindings.cameraIDsBySpace, s) == Get(y.bindings.cameraIDsBySpace, s)
    requires forall c :: Get(x.bindings.spaceIDsByCamera, c) == Get(y.bindings.spaceIDsByCamera, c)
    ensures a == b
  {
    forall issue ensures Due(x, issue) <==> Due(y, issue) {
    }
    IssueListUnique(x, a, b);
  }
}
