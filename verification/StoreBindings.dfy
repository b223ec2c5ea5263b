/** Cameras with their space paths, the two converse indexes of the bindings, and
    the counts that separate passes make of them. */
module StoreBindings {
  import opened Sorting
  import opened SpaceForest
  import opened SpacePaths
  import opened AreaRelations

  datatype Camera = Camera(device: Device, spacePaths: seq<string>)

  datatype Bindings = Bindings(
    cameraIDsBySpace: map<int, seq<int>>,
    spaceIDsByCamera: map<int, seq<int>>,
    boundCameraIDs: set<int>)

  predicate IntLe(a: int, b: int) {
    a <= b
  }

  ghost predicate StrictlyAscending(s: seq<int>) {
    forall i, j | 0 <= i < j < |s| :: s[i] < s[j]
  }

  lemma SortDistinctInts(s: seq<int>)
    requires Distinct(s)
    ensures StrictlyAscending(Sort(s, IntLe)) && |Sort(s, IntLe)| == |s|
    ensures forall x :: x in Sort(s, IntLe) <==> x in s
  {
    SortSorts(s, IntLe);
    SortingMembers(Sort(s, IntLe), s, IntLe);
    SortingDistinct(Sort(s, IntLe), s, IntLe);
  }

  // ----- what a list of relations binds -----------------------------------------------------

  /** The present areas related to device `d`, each once, in order of appearance. */
  function AreasOf(relations: seq<Relation>, present: set<int>, d: int): seq<int> {
    if relations == [] then []
    else
      var front, r := AreasOf(relations[..|relations| - 1], present, d), relations[|relations| - 1];
      if r.deviceID == d && r.areaID in present && r.areaID !in front then front + [r.areaID] else front
  }

  /** The cameras related to area `a`, each once, in order of appearance. */
  function CamerasOf(relations: seq<Relation>, cameras: set<int>, a: int): seq<int> {
    if relations == [] then []
    else
      var front, r := CamerasOf(relations[..|relations| - 1], cameras, a), relations[|relations| - 1];
      if r.areaID == a && r.deviceID in cameras && r.deviceID !in front then front + [r.deviceID] else front
  }

  ghost predicate Joined(relations: seq<Relation>, d: int, a: int) {
    exists r | r in relations :: r.deviceID == d && r.areaID == a
  }

  lemma JoinedStep(relations: seq<Relation>, d: int, a: int)
    requires relations != []
    ensures var r := relations[|relations| - 1];
            Joined(relations, d, a) <==>
                Joined(relations[..|relations| - 1], d, a) || (r.deviceID == d && r.areaID == a)
  {
    assert relations == relations[..|relations| - 1] + [relations[|relations| - 1]];
    if q :| q in relations && q.deviceID == d && q.areaID == a {
      assert q in relations[..|relations| - 1] || q == relations[|relations| - 1];
    }
  }

  lemma {:induction false} AreasOfMeaning(relations: seq<Relation>, present: set<int>, d: int)
    ensures Distinct(AreasOf(relations, present, d))
    ensures forall a :: a in AreasOf(relations, present, d) <==> a in present && Joined(relations, d, a)
  {
    if relations != [] {
      AreasOfMeaning(relations[..|relations| - 1], present, d);
      forall a ensures a in AreasOf(relations, present, d) <==> a in present && Joined(relations, d, a) {
        JoinedStep(relations, d, a);
      }
    }
  }

  lemma {:induction false} CamerasOfMeaning(relations: seq<Relation>, cameras: set<int>, a: int)
    ensures Distinct(CamerasOf(relations, cameras, a))
    ensures forall d :: d in CamerasOf(relations, cameras, a) <==> d in cameras && Joined(relations, d, a)
  {
    if relations != [] {
      CamerasOfMeaning(relations[..|relations| - 1], cameras, a);
      forall d ensures d in CamerasOf(relations, cameras, a) <==> d in cameras && Joined(relations, d, a) {
        JoinedStep(relations, d, a);
      }
    }
  }

  // ----- buildValidBindings ----------------------------------------------------------------------

  function CameraIDs(cameras: seq<Camera>): set<int> {
    set c | c in cameras :: c.device.id
  }

  /** The indexes hold the same pairs from either side: camera `c` is listed under
      space `s` exactly when `s` is listed under `c`, exactly when a relation joins
      the two. */
  ghost predicate Converse(b: Bindings, spaces: seq<Space>, cameras: seq<Camera>, relations: seq<Relation>) {
    && (forall c, s :: c in Get(b.cameraIDsBySpace, s) <==>
          c in CameraIDs(cameras) && s in Ids(spaces) && Joined(relations, c, s))
    && (forall c, s :: s in Get(b.spaceIDsByCamera, c) <==>
          c in CameraIDs(cameras) && s in Ids(spaces) && Joined(relations, c, s))
    && (forall s :: StrictlyAscending(Get(b.cameraIDsBySpace, s)))
    && (forall c :: StrictlyAscending(Get(b.spaceIDsByCamera, c)))
    && (forall c :: c in b.boundCameraIDs <==> Get(b.spaceIDsByCamera, c) != [])
  }

  method BuildValidBindings(spaces: seq<Space>, cameras: seq<Camera>, relations: seq<Relation>) returns (b: Bindings)
    ensures Converse(b, spaces, cameras, relations)
  {
    hide Ids, CameraIDs, Joined, AreasOf, CamerasOf;
    var present, cameraIDs := Ids(spaces), CameraIDs(cameras);
    b := Bindings(map[], map[], {});
    var seen: set<(int, int)> := {};
    NothingBound(relations, present, cameraIDs);
    for i := 0 to |relations|
      invariant Filled(b, seen, relations[..i], present, cameraIDs)
    {
      var r := relations[i];
      assert relations[..i + 1] == relations[..i] + [r];
      FilledStep(b, seen, relations[..i], r, present, cameraIDs);
      if r.deviceID in cameraIDs && r.areaID in present && (r.deviceID, r.areaID) !in seen {
        seen := seen + {(r.deviceID, r.areaID)};
        b := Bindings(
          b.cameraIDsBySpace[r.areaID := Get(b.cameraIDsBySpace, r.areaID) + [r.deviceID]],
          b.spaceIDsByCamera[r.deviceID := Get(b.spaceIDsByCamera, r.deviceID) + [r.areaID]],
          b.boundCameraIDs + {r.deviceID});
      }
    }
    assert relations[..|relations|] == relations;
    ghost var unsorted := b;
    b := Bindings(map s | s in b.cameraIDsBySpace :: Sort(b.cameraIDsBySpace[s], IntLe),
                  map c | c in b.spaceIDsByCamera :: Sort(b.spaceIDsByCamera[c], IntLe),
                  b.boundCameraIDs);
    SortedConverse(unsorted, b, spaces, cameras, relations);
  }

  /** The state of the loop after `relations`. */
  ghost predicate Filled(b: Bindings, seen: set<(int, int)>, relations: seq<Relation>, present: set<int>,
                         cameraIDs: set<int>) {
    && (forall c :: Get(b.spaceIDsByCamera, c) == if c in cameraIDs then AreasOf(relations, present, c) else [])
    && (forall s :: Get(b.cameraIDsBySpace, s) == if s in present then CamerasOf(relations, cameraIDs, s) else [])
    && (forall c, s :: (c, s) in seen <==> c in cameraIDs && s in present && Joined(relations, c, s))
    && (forall c :: c in b.boundCameraIDs <==> Get(b.spaceIDsByCamera, c) != [])
  }

  lemma NothingBound(relations: seq<Relation>, present: set<int>, cameraIDs: set<int>)
    ensures Filled(Bindings(map[], map[], {}), {}, relations[..0], present, cameraIDs)
  {
    assert relations[..0] == [];
  }

  lemma FilledStep(b: Bindings, seen: set<(int, int)>, front: seq<Relation>, r: Relation, present: set<int>,
                   cameraIDs: set<int>)
    requires Filled(b, seen, front, present, cameraIDs)
    ensures if r.deviceID in cameraIDs && r.areaID in present && (r.deviceID, r.areaID) !in seen
            then Filled(Bindings(
                          b.cameraIDsBySpace[r.areaID := Get(b.cameraIDsBySpace, r.areaID) + [r.deviceID]],
                          b.spaceIDsByCamera[r.deviceID := Get(b.spaceIDsByCamera, r.deviceID) + [r.areaID]],
                          b.boundCameraIDs + {r.deviceID}),
                        seen + {(r.deviceID, r.areaID)}, front + [r], present, cameraIDs)
            else Filled(b, seen, front + [r], present, cameraIDs)
  {
    hide AreasOf, CamerasOf, Joined;
    var next := front + [r];
    var hit := r.deviceID in cameraIDs && r.areaID in present && (r.deviceID, r.areaID) !in seen;
    var spaceIDs := if hit then b.spaceIDsByCamera[r.deviceID := Get(b.spaceIDsByCamera, r.deviceID) + [r.areaID]]
                    else b.spaceIDsByCamera;
    var ids := if hit then b.cameraIDsBySpace[r.areaID := Get(b.cameraIDsBySpace, r.areaID) + [r.deviceID]]
               else b.cameraIDsBySpace;
    forall c
      ensures Get(spaceIDs, c) == if c in cameraIDs then AreasOf(next, present, c) else []
    {
      AreasOfLast(front, r, present, c);
      assert (c, r.areaID) in seen <==> c in cameraIDs && r.areaID in present && Joined(front, c, r.areaID);
    }
    forall s
      ensures Get(ids, s) == if s in present then CamerasOf(next, cameraIDs, s) else []
    {
      CamerasOfLast(front, r, cameraIDs, s);
      assert (r.deviceID, s) in seen <==> r.deviceID in cameraIDs && s in present && Joined(front, r.deviceID, s);
    }
    forall c, s
      ensures (c, s) in (if hit then seen + {(r.deviceID, r.areaID)} else seen) <==>
              c in cameraIDs && s in present && Joined(next, c, s)
    {
      JoinedLast(front, r, c, s);
    }
  }

  lemma JoinedLast(front: seq<Relation>, r: Relation, c: int, s: int)
    ensures Joined(front + [r], c, s) <==> Joined(front, c, s) || (r.deviceID == c && r.areaID == s)
  {
    JoinedStep(front + [r], c, s);
    assert (front + [r])[..|front|] == front;
  }

  lemma AreasOfLast(front: seq<Relation>, r: Relation, present: set<int>, c: int)
    ensures AreasOf(front + [r], present, c) ==
            if r.deviceID == c && r.areaID in present && !Joined(front, c, r.areaID)
            then AreasOf(front, present, c) + [r.areaID] else AreasOf(front, present, c)
  {
    AreasOfMeaning(front, present, c);
    assert (front + [r])[..|front|] == front;
  }

  lemma CamerasOfLast(front: seq<Relation>, r: Relation, cameraIDs: set<int>, s: int)
    ensures CamerasOf(front + [r], cameraIDs, s) ==
            if r.areaID == s && r.deviceID in cameraIDs && !Joined(front, r.deviceID, s)
            then CamerasOf(front, cameraIDs, s) + [r.deviceID] else CamerasOf(front, cameraIDs, s)
  {
    CamerasOfMeaning(front, cameraIDs, s);
    assert (front + [r])[..|front|] == front;
  }

  lemma SortedConverse(unsorted: Bindings, b: Bindings, spaces: seq<Space>, cameras: seq<Camera>,
                       relations: seq<Relation>)
    requires forall s :: Get(unsorted.cameraIDsBySpace, s) ==
                         if s in Ids(spaces) then CamerasOf(relations, CameraIDs(cameras), s) else []
    requires forall c :: Get(unsorted.spaceIDsByCamera, c) ==
                         if c in CameraIDs(cameras) then AreasOf(relations, Ids(spaces), c) else []
    requires forall s :: Get(b.cameraIDsBySpace, s) == Sort(Get(unsorted.cameraIDsBySpace, s), IntLe)
    requires forall c :: Get(b.spaceIDsByCamera, c) == Sort(Get(unsorted.spaceIDsByCamera, c), IntLe)
    requires forall c :: c in b.boundCameraIDs <==> Get(unsorted.spaceIDsByCamera, c) != []
    ensures Converse(b, spaces, cameras, relations)
  {
    hide Joined, Ids, CameraIDs;
    forall s
      ensures StrictlyAscending(Get(b.cameraIDsBySpace, s))
      ensures forall c :: c in Get(b.cameraIDsBySpace, s) <==>
                c in CameraIDs(cameras) && s in Ids(spaces) && Joined(relations, c, s)
    {
      CamerasOfMeaning(relations, CameraIDs(cameras), s);
      SortDistinctInts(Get(unsorted.cameraIDsBySpace, s));
    }
    forall c
      ensures StrictlyAscending(Get(b.spaceIDsByCamera, c))
      ensures forall s :: s in Get(b.spaceIDsByCamera, c) <==>
                c in CameraIDs(cameras) && s in Ids(spaces) && Joined(relations, c, s)
      ensures c in b.boundCameraIDs <==> Get(b.spaceIDsByCamera, c) != []
    {
      AreasOfMeaning(relations, Ids(spaces), c);
      SortDistinctInts(Get(unsorted.spaceIDsByCamera, c));
    }
  }
}
