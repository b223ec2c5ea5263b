/** Cameras with their space paths, and the summary counts: separate passes over
    the same records that must agree. */
module StoreCameras {
  import opened Sorting
  import opened Strings
  import opened SpaceForest
  import opened SpacePaths
  import opened AreaRelations
  import opened StoreBindings

  // ----- buildCameras ------------------------------------------------------------------------

  function OfCategory(devices: seq<Device>, category: string): seq<Device> {
    if devices == [] then []
    else
      var front, d := OfCategory(devices[..|devices| - 1], category), devices[|devices| - 1];
      if d.category == category then front + [d] else front
  }

  lemma {:induction false} OfCategoryMembers(devices: seq<Device>, category: string)
    ensures forall d :: d in OfCategory(devices, category) <==> d in devices && d.category == category
  {
    if devices != [] {
      OfCategoryMembers(devices[..|devices| - 1], category);
      assert devices == devices[..|devices| - 1] + [devices[|devices| - 1]];
    }
  }

  ghost predicate WalksEnd(spaces: seq<Space>, relations: seq<Relation>) {
    forall r | r in relations && r.areaID in SpacesByID(spaces) :: Ends(SpacesByID(spaces), r.areaID)
  }

  ghost function PathsOf(spaces: SpaceMap, areas: seq<int>): seq<string>
    requires forall a | a in areas :: Ends(spaces, a)
  {
    if areas == [] then [] else PathsOf(spaces, areas[..|areas| - 1]) + [PathOf(spaces, areas[|areas| - 1])]
  }

  lemma {:induction false} PathsOfLength(spaces: SpaceMap, areas: seq<int>)
    requires forall a | a in areas :: Ends(spaces, a)
    ensures |PathsOf(spaces, areas)| == |areas|
  {
    if areas != [] {
      PathsOfLength(spaces, areas[..|areas| - 1]);
    }
  }

  lemma AreasEnd(spaces: seq<Space>, relations: seq<Relation>, d: int)
    requires WalksEnd(spaces, relations)
    ensures forall a | a in AreasOf(relations, SpacesByID(spaces).Keys, d) :: Ends(SpacesByID(spaces), a)
  {
    AreasOfMeaning(relations, SpacesByID(spaces).Keys, d);
  }

  /** The paths of device `d`: those of its spaces, sorted. */
  ghost function DevicePaths(spaces: seq<Space>, relations: seq<Relation>, d: int): seq<string>
    requires WalksEnd(spaces, relations)
  {
    AreasEnd(spaces, relations, d);
    Sort(PathsOf(SpacesByID(spaces), AreasOf(relations, SpacesByID(spaces).Keys, d)), StringLe)
  }

  predicate CameraLe(a: Camera, b: Camera) {
    a.device.id <= b.device.id
  }

  ghost function CameraOf(spaces: seq<Space>, relations: seq<Relation>, d: Device): Camera
    requires WalksEnd(spaces, relations)
  {
    Camera(d, DevicePaths(spaces, relations, d.id))
  }

  /** The cameras among the devices, with their paths, in device order. */
  ghost function CamerasFor(devices: seq<Device>, relations: seq<Relation>, spaces: seq<Space>): seq<Camera>
    requires WalksEnd(spaces, relations)
  {
    if devices == [] then []
    else
      var front, d := CamerasFor(devices[..|devices| - 1], relations, spaces), devices[|devices| - 1];
      if d.category == "camera" then front + [CameraOf(spaces, relations, d)] else front
  }

  ghost predicate CamerasBuilt(devices: seq<Device>, relations: seq<Relation>, spaces: seq<Space>, cameras: seq<Camera>)
    requires WalksEnd(spaces, relations)
  {
    SortingOf(cameras, CamerasFor(devices, relations, spaces), CameraLe)
  }

  lemma {:induction false} CamerasForMembers(devices: seq<Device>, relations: seq<Relation>, spaces: seq<Space>)
    requires WalksEnd(spaces, relations)
    ensures |CamerasFor(devices, relations, spaces)| == |OfCategory(devices, "camera")|
    ensures forall c: Camera :: c in CamerasFor(devices, relations, spaces) <==>
              (c.device in devices && c.device.category == "camera" && c == CameraOf(spaces, relations, c.device))
  {
    if devices != [] {
      CamerasForMembers(devices[..|devices| - 1], relations, spaces);
      assert devices == devices[..|devices| - 1] + [devices[|devices| - 1]];
    }
  }

  ghost predicate UniqueDeviceIDs(devices: seq<Device>) {
    forall i, j | 0 <= i < j < |devices| :: devices[i].id != devices[j].id
  }

  lemma UniqueMeansSame(devices: seq<Device>, x: Device, y: Device)
    requires UniqueDeviceIDs(devices) && x in devices && y in devices && x.id == y.id
    ensures x == y
  {
    var i :| 0 <= i < |devices| && devices[i] == x;
    var j :| 0 <= j < |devices| && devices[j] == y;
  }

  lemma {:induction false} CamerasForDistinct(devices: seq<Device>, relations: seq<Relation>, spaces: seq<Space>)
    requires WalksEnd(spaces, relations) && UniqueDeviceIDs(devices)
    ensures Distinct(CamerasFor(devices, relations, spaces))
  {
    if devices != [] {
      var front, d := devices[..|devices| - 1], devices[|devices| - 1];
      CamerasForDistinct(front, relations, spaces);
      CamerasForMembers(front, relations, spaces);
      DistinctAppend(CamerasFor(front, relations, spaces), [CameraOf(spaces, relations, d)]);
    }
  }

  /** With unique device IDs the cameras have unique IDs, too. */
  lemma CamerasUnique(devices: seq<Device>, relations: seq<Relation>, spaces: seq<Space>, cameras: seq<Camera>)
    requires WalksEnd(spaces, relations) && UniqueDeviceIDs(devices) &&
               CamerasBuilt(devices, relations, spaces, cameras)
    ensures Distinct(cameras) && |cameras| == |OfCategory(devices, "camera")|
    ensures forall i, j | 0 <= i < j < |cameras| :: cameras[i].device.id < cameras[j].device.id
    ensures forall c: Camera :: c in cameras <==>
              (c.device in devices && c.device.category == "camera" && c == CameraOf(spaces, relations, c.device))
  {
    var unsorted := CamerasFor(devices, relations, spaces);
    CamerasForMembers(devices, relations, spaces);
    CamerasForDistinct(devices, relations, spaces);
    SortingMembers(cameras, unsorted, CameraLe);
    SortingDistinct(cameras, unsorted, CameraLe);
    forall i, j | 0 <= i < j < |cameras|
      ensures cameras[i].device.id < cameras[j].device.id
    {
      assert cameras[i] in cameras && cameras[j] in cameras && CameraLe(cameras[i], cameras[j]);
      assert cameras[i].device != cameras[j].device;
    }
  }

  method PathsByCamera(relations: seq<Relation>, spaces: seq<Space>) returns (paths: map<int, seq<string>>)
    requires WalksEnd(spaces, relations)
    ensures forall d :: Get(paths, d) == DevicePaths(spaces, relations, d)
  {
    hide Ends, AreasOf, PathsOf, SpacesByID;
    var spaceByID := SpacesByID(spaces);
    paths := map[];
    var seen: set<(int, int)> := {};
    NoPaths(relations, spaceByID);
    for i := 0 to |relations|
      invariant PathsFilled(relations[..i], spaceByID, seen, paths)
    {
      var r := relations[i];
      assert relations[..i + 1] == relations[..i] + [r];
      PathsFilledStep(relations[..i], r, spaceByID, seen, paths);
      if r.areaID in spaceByID && (r.deviceID, r.areaID) !in seen {
        seen := seen + {(r.deviceID, r.areaID)};
        var path := SpacePath(spaceByID, r.areaID, Steps(spaceByID, r.areaID));
        paths := paths[r.deviceID := Get(paths, r.deviceID) + [path]];
      }
    }
    assert relations[..|relations|] == relations;
    paths := map d | d in paths :: Sort(paths[d], StringLe);
    forall d { AreasEnd(spaces, relations, d); }
    SortOfNothing();
  }

  lemma SortOfNothing()
    ensures Sort([], StringLe) == []
  {
  }

  /** The state of the loop after `relations`: `seen` holds the pairs met so far, and
      every device its paths in the order met. */
  ghost predicate PathsFilled(relations: seq<Relation>, spaceByID: SpaceMap, seen: set<(int, int)>,
                              paths: map<int, seq<string>>) {
    && (forall d, a :: (d, a) in seen <==> a in AreasOf(relations, spaceByID.Keys, d))
    && (forall d, a | a in AreasOf(relations, spaceByID.Keys, d) :: Ends(spaceByID, a))
    && (forall d :: Get(paths, d) == PathsOf(spaceByID, AreasOf(relations, spaceByID.Keys, d)))
  }

  lemma NoPaths(relations: seq<Relation>, spaceByID: SpaceMap)
    ensures PathsFilled(relations[..0], spaceByID, {}, map[])
  {
    assert relations[..0] == [];
  }

  lemma PathsFilledStep(front: seq<Relation>, r: Relation, spaceByID: SpaceMap, seen: set<(int, int)>,
                        paths: map<int, seq<string>>)
    requires PathsFilled(front, spaceByID, seen, paths)
    requires r.areaID in spaceByID ==> Ends(spaceByID, r.areaID)
    ensures if r.areaID in spaceByID && (r.deviceID, r.areaID) !in seen
            then PathsFilled(front + [r], spaceByID, seen + {(r.deviceID, r.areaID)},
                             paths[r.deviceID := Get(paths, r.deviceID) + [PathOf(spaceByID, r.areaID)]])
            else PathsFilled(front + [r], spaceByID, seen, paths)
  {
    hide AreasOf, Ends, PathsOf;
    var next := front + [r];
    var hit := r.areaID in spaceByID && (r.deviceID, r.areaID) !in seen;
    var seen' := if hit then seen + {(r.deviceID, r.areaID)} else seen;
    var paths' := if hit then paths[r.deviceID := Get(paths, r.deviceID) + [PathOf(spaceByID, r.areaID)]] else paths;
    forall d
      ensures forall a :: (d, a) in seen' <==> a in AreasOf(next, spaceByID.Keys, d)
      ensures forall a | a in AreasOf(next, spaceByID.Keys, d) :: Ends(spaceByID, a)
      ensures Get(paths', d) == PathsOf(spaceByID, AreasOf(next, spaceByID.Keys, d))
    {
      AreasOfNext(front, r, spaceByID.Keys, d);
      assert (d, r.areaID) in seen <==> r.areaID in AreasOf(front, spaceByID.Keys, d);
      if d == r.deviceID && hit {
        PathsOfNext(spaceByID, AreasOf(front, spaceByID.Keys, d), r.areaID);
      }
    }
  }

  lemma PathsOfNext(spaces: SpaceMap, areas: seq<int>, a: int)
    requires (forall x | x in areas :: Ends(spaces, x)) && Ends(spaces, a)
    ensures forall x | x in areas + [a] :: Ends(spaces, x)
    ensures PathsOf(spaces, areas + [a]) == PathsOf(spaces, areas) + [PathOf(spaces, a)]
  {
    assert (areas + [a])[..|areas|] == areas;
  }

  lemma AreasOfNext(front: seq<Relation>, r: Relation, present: set<int>, d: int)
    ensures AreasOf(front + [r], present, d) ==
            if r.deviceID == d && r.areaID in present && r.areaID !in AreasOf(front, present, d)
            then AreasOf(front, present, d) + [r.areaID] else AreasOf(front, present, d)
  {
    assert (front + [r])[..|front|] == front;
  }

  method BuildCameras(devices: seq<Device>, relations: seq<Relation>, spaces: seq<Space>) returns (cameras: seq<Camera>)
    requires WalksEnd(spaces, relations)
    ensures CamerasBuilt(devices, relations, spaces, cameras)
  {
    var paths := PathsByCamera(relations, spaces);
    var unsorted := [];
    for i := 0 to |devices|
      invariant unsorted == CamerasFor(devices[..i], relations, spaces)
    {
      assert devices[..i + 1][..i] == devices[..i];
      if devices[i].category == "camera" {
        unsorted := unsorted + [Camera(devices[i], Get(paths, devices[i].id))];
      }
    }
    assert devices[..|devices|] == devices;
    cameras := SortSlice(unsorted, CameraLe);
  }

  /** A camera has as many space paths as bound spaces. */
  lemma PathsMatchBindings(devices: seq<Device>, relations: seq<Relation>, spaces: seq<Space>, cameras: seq<Camera>,
                           b: Bindings, c: Camera)
    requires WalksEnd(spaces, relations) && CamerasBuilt(devices, relations, spaces, cameras)
    requires Converse(b, spaces, cameras, relations) && c in cameras
    ensures |c.spacePaths| == |Get(b.spaceIDsByCamera, c.device.id)|
  {
    var present, areas := SpacesByID(spaces).Keys, AreasOf(relations, SpacesByID(spaces).Keys, c.device.id);
    var bound := Get(b.spaceIDsByCamera, c.device.id);
    CamerasForMembers(devices, relations, spaces);
    SortingMembers(cameras, CamerasFor(devices, relations, spaces), CameraLe);
    AreasOfMeaning(relations, present, c.device.id);
    AreasEnd(spaces, relations, c.device.id);
    PathsOfLength(SpacesByID(spaces), areas);
    StringOrder();
    SortSorts(PathsOf(SpacesByID(spaces), areas), StringLe);
    SortingMembers(c.spacePaths, PathsOf(SpacesByID(spaces), areas), StringLe);
    SpacesByIDMembers(spaces);
    assert c.device.id in CameraIDs(cameras);
    assert forall a :: a in present <==> a in Ids(spaces);
    SameLength(areas, bound);
  }

  lemma {:induction false} PathsOfMembers(spaces: SpaceMap, areas: seq<int>)
    requires forall a | a in areas :: Ends(spaces, a)
    ensures forall p :: p in PathsOf(spaces, areas) <==> exists a | a in areas :: p == PathOf(spaces, a)
  {
    hide PathOf, Ends;
    if areas != [] {
      var front, last := areas[..|areas| - 1], areas[|areas| - 1];
      PathsOfMembers(spaces, front);
      assert areas == front + [last];
    }
  }

  lemma PathsOfCamera(devices: seq<Device>, relations: seq<Relation>, spaces: seq<Space>, cameras: seq<Camera>,
                      c: Camera)
    requires WalksEnd(spaces, relations) && CamerasBuilt(devices, relations, spaces, cameras) && c in cameras
    ensures var areas := AreasOf(relations, SpacesByID(spaces).Keys, c.device.id);
            && (forall a | a in areas :: Ends(SpacesByID(spaces), a))
            && SortingOf(c.spacePaths, PathsOf(SpacesByID(spaces), areas), StringLe)
  {
    hide AreasOf, PathsOf, Ends, SpacesByID, StringLe;
    CamerasForMembers(devices, relations, spaces);
    SortingMembers(cameras, CamerasFor(devices, relations, spaces), CameraLe);
    AreasEnd(spaces, relations, c.device.id);
    StringOrder();
    SortSorts(PathsOf(SpacesByID(spaces), AreasOf(relations, SpacesByID(spaces).Keys, c.device.id)), StringLe);
  }

  /** The areas of a camera are the spaces it is bound to. */
  lemma BoundAreas(relations: seq<Relation>, spaces: seq<Space>, cameras: seq<Camera>,
                   b: Bindings, c: Camera)
    requires Converse(b, spaces, cameras, relations) && c in cameras
    ensures forall s :: s in AreasOf(relations, SpacesByID(spaces).Keys, c.device.id) <==>
              s in Get(b.spaceIDsByCamera, c.device.id)
  {
    AreasOfMeaning(relations, SpacesByID(spaces).Keys, c.device.id);
    SpacesByIDMembers(spaces);
    assert c.device.id in CameraIDs(cameras);
    assert forall a :: a in SpacesByID(spaces).Keys <==> a in Ids(spaces);
  }

  /** The space paths of a camera are those of the spaces it is bound to, in text order. */
  lemma PathsAreOfBindings(devices: seq<Device>, relations: seq<Relation>, spaces: seq<Space>, cameras: seq<Camera>,
                           b: Bindings, c: Camera)
    requires WalksEnd(spaces, relations) && CamerasBuilt(devices, relations, spaces, cameras)
    requires Converse(b, spaces, cameras, relations) && c in cameras
    ensures forall s | s in Get(b.spaceIDsByCamera, c.device.id) :: Ends(SpacesByID(spaces), s)
    ensures forall p :: p in c.spacePaths <==>
              exists s | s in Get(b.spaceIDsByCamera, c.device.id) :: p == PathOf(SpacesByID(spaces), s)
    ensures forall i, j | 0 <= i < j < |c.spacePaths| :: StringLe(c.spacePaths[i], c.spacePaths[j])
  {
    hide AreasOf, PathsOf, PathOf, Ends, SpacesByID, StringLe, CamerasBuilt, Converse, WalksEnd;
    var areas := AreasOf(relations, SpacesByID(spaces).Keys, c.device.id);
    PathsOfCamera(devices, relations, spaces, cameras, c);
    BoundAreas(relations, spaces, cameras, b, c);
    PathsOfMembers(SpacesByID(spaces), areas);
    SortingMembers(c.spacePaths, PathsOf(SpacesByID(spaces), areas), StringLe);
  }

  lemma SameLength(a: seq<int>, b: seq<int>)
    requires Distinct(a) && Distinct(b) && forall x :: x in a <==> x in b
    ensures |a| == |b|
  {
    DistinctCardinality(a);
    DistinctCardinality(b);
    assert (set x | x in a) == (set x | x in b);
  }

  lemma {:induction false} DistinctCardinality(s: seq<int>)
    requires Distinct(s)
    ensures |set x | x in s| == |s|
  {
    if s != [] {
      DistinctCardinality(s[1..]);
      assert (set x | x in s) == (set x | x in s[1..]) + {s[0]};
    }
  }

  lemma StringOrder()
    ensures TotalOrder(StringLe)
  {
    forall a, b ensures StringLe(a, b) || StringLe(b, a) {
      StringLeTotal(a, b);
    }
    forall a, b, c | StringLe(a, b) && StringLe(b, c) ensures StringLe(a, c) {
      StringLeTransitive(a, b, c);
    }
  }

  // ----- buildSummary --------------------------------------------------------------------------

  datatype Summary = Summary(edges: nat, nvrs: nat, cameras: nat, boundCameras: nat, unboundCameras: int)

  function DeviceIDs(devices: seq<Device>): set<int> {
    set d | d in devices :: d.id
  }

  method BuildSummary(devices: seq<Device>, b: Bindings) returns (s: Summary)
    ensures s.edges == |OfCategory(devices, "edge")| && s.nvrs == |OfCategory(devices, "nvr")|
    ensures s.cameras == |OfCategory(devices, "camera")|
    ensures s.boundCameras == |b.boundCameraIDs * DeviceIDs(OfCategory(devices, "camera"))|
    ensures s.unboundCameras == s.cameras - s.boundCameras
  {
    var edges: int, nvrs: int, cameras: int := 0, 0, 0;
    var cameraIDs: set<int> := {};
    for i := 0 to |devices|
      invariant edges == |OfCategory(devices[..i], "edge")| && nvrs == |OfCategory(devices[..i], "nvr")|
      invariant cameras == |OfCategory(devices[..i], "camera")|
      invariant cameraIDs == DeviceIDs(OfCategory(devices[..i], "camera"))
    {
      assert devices[..i + 1][..i] == devices[..i];
      match devices[i].category {
        case "edge" => edges := edges + 1;
        case "nvr" => nvrs := nvrs + 1;
        case "camera" =>
          cameras := cameras + 1;
          OneMoreID(OfCategory(devices[..i], "camera"), devices[i]);
          cameraIDs := cameraIDs + {devices[i].id};
        case _ =>
      }
    }
    assert devices[..|devices|] == devices;
    var bound := CountBound(b.boundCameraIDs, cameraIDs);
    return Summary(edges, nvrs, cameras, bound, cameras - bound);
  }

  lemma OneMoreID(devices: seq<Device>, d: Device)
    ensures DeviceIDs(devices + [d]) == DeviceIDs(devices) + {d.id}
  {
  }

  method CountBound<T(==)>(boundIDs: set<T>, cameraIDs: set<T>) returns (bound: nat)
    ensures bound == |boundIDs * cameraIDs|
  {
    bound := 0;
    var left := boundIDs;
    while left != {}
      invariant left <= boundIDs
      invariant bound == |(boundIDs - left) * cameraIDs|
    {
      var id :| id in left;
      OneMoreBound(boundIDs, cameraIDs, left, id);
      if id in cameraIDs {
        bound := bound + 1;
      }
      left := left - {id};
    }
    assert boundIDs - left == boundIDs;
  }

  lemma OneMoreBound<T>(boundIDs: set<T>, cameraIDs: set<T>, left: set<T>, id: T)
    requires left <= boundIDs && id in left
    ensures |(boundIDs - (left - {id})) * cameraIDs| ==
            |(boundIDs - left) * cameraIDs| + if id in cameraIDs then 1 else 0
  {
    var before := (boundIDs - left) * cameraIDs;
    assert (boundIDs - (left - {id})) * cameraIDs == if id in cameraIDs then before + {id} else before;
  }

  // ----- the passes agree -----------------------------------------------------------------------

  function IDsOf(cameras: set<Camera>): set<int> {
    set c | c in cameras :: c.device.id
  }

  lemma {:induction false} CountIDs(cameras: set<Camera>)
    requires forall b, c | b in cameras && c in cameras && b != c :: b.device.id != c.device.id
    ensures |IDsOf(cameras)| == |cameras|
  {
    if cameras != {} {
      var c :| c in cameras;
      CountIDs(cameras - {c});
      assert IDsOf(cameras) == IDsOf(cameras - {c}) + {c.device.id};
    }
  }

  lemma {:induction false} CountDistinct(cameras: seq<Camera>)
    requires Distinct(cameras)
    ensures |set c | c in cameras| == |cameras|
  {
    if cameras != [] {
      CountDistinct(cameras[1..]);
      assert (set c | c in cameras) == (set c | c in cameras[1..]) + {cameras[0]};
    }
  }

  /** Two passes, one number: the unbound cameras of the summary are the cameras
      without a space path. */
  lemma UnboundCountsAgree(devices: seq<Device>, relations: seq<Relation>, spaces: seq<Space>, cameras: seq<Camera>,
                           b: Bindings)
    requires WalksEnd(spaces, relations) && UniqueDeviceIDs(devices) &&
               CamerasBuilt(devices, relations, spaces, cameras)
    requires Converse(b, spaces, cameras, relations)
    ensures |set c | c in cameras && c.spacePaths == []| ==
            |OfCategory(devices, "camera")| - |b.boundCameraIDs * DeviceIDs(OfCategory(devices, "camera"))|
  {
    hide CamerasBuilt, Converse, CameraOf, WalksEnd;
    CamerasUnique(devices, relations, spaces, cameras);
    var unbound, bound := set c | c in cameras && c.spacePaths == [], set c | c in cameras && c.spacePaths != [];
    CountDistinct(cameras);
    assert (set c | c in cameras) == unbound + bound;
    CountIDs(bound);
    BoundIDs(devices, relations, spaces, cameras, b, bound);
  }

  lemma BoundIDs(devices: seq<Device>, relations: seq<Relation>, spaces: seq<Space>, cameras: seq<Camera>, b: Bindings,
                 bound: set<Camera>)
    requires WalksEnd(spaces, relations) && UniqueDeviceIDs(devices) &&
               CamerasBuilt(devices, relations, spaces, cameras)
    requires Converse(b, spaces, cameras, relations)
    requires bound == set c | c in cameras && c.spacePaths != []
    ensures IDsOf(bound) == b.boundCameraIDs * DeviceIDs(OfCategory(devices, "camera"))
  {
    forall c | c in cameras
      ensures c.spacePaths == [] <==> c.device.id !in b.boundCameraIDs
    {
      PathsMatchBindings(devices, relations, spaces, cameras, b, c);
    }
    hide CamerasBuilt, Converse, WalksEnd;
    CamerasUnique(devices, relations, spaces, cameras);
    OfCategoryMembers(devices, "camera");
    forall d | d in OfCategory(devices, "camera")
      ensures exists c | c in cameras :: c.device == d
    {
      assert CameraOf(spaces, relations, d) in cameras;
    }
  }
}
