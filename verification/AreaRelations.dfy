/** Relations between devices and spaces: normalization, deduplication and the
    filters before the bindings are built. */
module AreaRelations {
  import opened Sorting
  import opened Strings
  import opened SpaceForest
  import opened SpacePaths

  const CONSULTING_AREA_CONTAINER_ID := 2387

  datatype Device = Device(id: int, parentID: int, name: string, category: string, provider: string,
                           status: int, onlineStatus: int)

  datatype Relation = Relation(id: int, deviceID: int, areaID: int, functionType: string)

  datatype Key = Key(deviceID: int, areaID: int, functionType: string)

  function Trimmed(r: Relation): Relation {
    r.(functionType := TrimSpace(r.functionType))
  }

  function KeyOf(r: Relation): Key {
    Key(r.deviceID, r.areaID, r.functionType)
  }

  predicate IdLe(a: Relation, b: Relation) {
    a.id <= b.id
  }

  // ----- normalizedRelations ---------------------------------------------------------------

  function TrimmedAll(input: seq<Relation>): (t: seq<Relation>)
    ensures |t| == |input|
  {
    seq(|input|, i requires 0 <= i < |input| => Trimmed(input[i]))
  }

  predicate SameEnds(q: Relation, r: Relation) {
    q.deviceID == r.deviceID && q.areaID == r.areaID && q.functionType == r.functionType
  }

  /** `r` has the lowest ID among the relations of its device, area and function type. */
  ghost predicate Representative(all: seq<Relation>, r: Relation) {
    r in all && forall q | q in all && SameEnds(q, r) :: r.id <= q.id
  }

  /** One relation for each device, area and function type, trimmed; in the order of the IDs. */
  ghost predicate Normalized(input: seq<Relation>, out: seq<Relation>) {
    && (forall i, j | 0 <= i < j < |out| :: out[i].id <= out[j].id)
    && Distinct(out)
    && forall r :: r in out <==> Representative(TrimmedAll(input), r)
  }

  method NormalizedRelations(input: seq<Relation>) returns (out: seq<Relation>)
    ensures Normalized(input, out)
  {
    var byKey := LowestByKey(TrimmedAll(input));
    var unsorted := Values(byKey);
    IdLeTotal();
    out := SortSlice(unsorted, IdLe);
    SortingMembers(out, unsorted, IdLe);
    SortingDistinct(out, unsorted, IdLe);
  }

  /** The relation with the lowest ID for every key. */
  method LowestByKey(all: seq<Relation>) returns (byKey: map<Key, Relation>)
    ensures forall k | k in byKey :: KeyOf(byKey[k]) == k
    ensures forall r :: KeyOf(r) in byKey && r == byKey[KeyOf(r)] <==> Representative(all, r)
  {
    byKey := map[];
    for i := 0 to |all|
      invariant forall k | k in byKey :: KeyOf(byKey[k]) == k && byKey[k] in all
      invariant forall j | 0 <= j < i :: KeyOf(all[j]) in byKey && byKey[KeyOf(all[j])].id <= all[j].id
    {
      var key := KeyOf(all[i]);
      if key !in byKey || all[i].id < byKey[key].id {
        byKey := byKey[key := all[i]];
      }
    }
    forall r ensures KeyOf(r) in byKey && r == byKey[KeyOf(r)] <==> Representative(all, r) {
      if Representative(all, r) {
        assert byKey[KeyOf(r)].id <= r.id;
        assert byKey[KeyOf(r)].id == r.id;
      }
    }
  }

  /** The values of a map with distinct values, in any order. */
  method Values(byKey: map<Key, Relation>) returns (out: seq<Relation>)
    requires forall k | k in byKey :: KeyOf(byKey[k]) == k
    ensures Distinct(out)
    ensures forall r :: r in out <==> KeyOf(r) in byKey && r == byKey[KeyOf(r)]
  {
    out := [];
    var left := byKey.Keys;
    while left != {}
      invariant left <= byKey.Keys
      invariant Distinct(out)
      invariant forall r :: r in out <==> KeyOf(r) in byKey && KeyOf(r) !in left && r == byKey[KeyOf(r)]
    {
      var k :| k in left;
      out := out + [byKey[k]];
      left := left - {k};
    }
  }

  lemma IdLeTotal()
    ensures TotalOrder(IdLe)
  {
  }

  ghost predicate UniqueRelationIDs(input: seq<Relation>) {
    forall i, j | 0 <= i < j < |input| :: input[i].id != input[j].id
  }

  /** With unique IDs, the normalized relations do not depend on the order of the
      input, on the iteration order of the map or on how the sort treats ties. */
  lemma NormalizedOrderIndependent(a: seq<Relation>, b: seq<Relation>, outA: seq<Relation>, outB: seq<Relation>)
    requires UniqueRelationIDs(a) && multiset(a) == multiset(b)
    requires Normalized(a, outA) && Normalized(b, outB)
    ensures outA == outB
  {
    TrimmedMembers(a, b);
    forall r ensures r in outA <==> r in outB {
      assert Representative(TrimmedAll(a), r) <==> Representative(TrimmedAll(b), r);
    }
    SameMembers(outA, outB);
    forall x, y | x in outA && y in outA && IdLe(x, y) && IdLe(y, x)
      ensures x == y
    {
      TrimmedUnique(a, x, y);
    }
    SortingUnique(outA, outB, IdLe);
  }

  lemma TrimmedMembers(a: seq<Relation>, b: seq<Relation>)
    requires multiset(a) == multiset(b)
    ensures forall r :: r in TrimmedAll(a) <==> r in TrimmedAll(b)
  {
    assert forall q :: q in a <==> q in multiset(a);
    assert forall q :: q in b <==> q in multiset(b);
    forall r ensures r in TrimmedAll(a) <==> r in TrimmedAll(b) {
      if r in TrimmedAll(a) {
        var i :| 0 <= i < |a| && Trimmed(a[i]) == r;
        assert a[i] in b;
        var j :| 0 <= j < |b| && b[j] == a[i];
        assert TrimmedAll(b)[j] == r;
      }
      if r in TrimmedAll(b) {
        var i :| 0 <= i < |b| && Trimmed(b[i]) == r;
        assert b[i] in a;
        var j :| 0 <= j < |a| && a[j] == b[i];
        assert TrimmedAll(a)[j] == r;
      }
    }
  }

  lemma TrimmedUnique(a: seq<Relation>, x: Relation, y: Relation)
    requires UniqueRelationIDs(a) && x in TrimmedAll(a) && y in TrimmedAll(a) && x.id == y.id
    ensures x == y
  {
    var i :| 0 <= i < |a| && TrimmedAll(a)[i] == x;
    var j :| 0 <= j < |a| && TrimmedAll(a)[j] == y;
    assert a[i].id == a[j].id;
  }

  // ----- applicable relations -----------------------------------------------------------------

  predicate EligibleCamera(d: Device) {
    d.category == "camera" && d.provider == "HikVisionNvrChannel" && d.status == 1
  }

  function LowerASCII(c: char): char {
    if 'A' <= c <= 'Z' then c + ('a' - 'A') else c
  }

  /** The lower-cased text ends in "camera"; no other letter is lower-cased into one of these. */
  predicate EndsInCamera(s: string) {
    |s| >= 6 && forall i | 0 <= i < 6 :: LowerASCII(s[|s| - 6 + i]) == "camera"[i]
  }

  function DevicesByID(devices: seq<Device>): map<int, Device> {
    if devices == [] then map[]
    else DevicesByID(devices[..|devices| - 1])[devices[|devices| - 1].id := devices[|devices| - 1]]
  }

  predicate Applicable(devices: seq<Device>, spaces: seq<Space>, r: Relation) {
    && (var byID := DevicesByID(devices);
        if r.deviceID in byID then EligibleCamera(byID[r.deviceID]) else EndsInCamera(TrimSpace(r.functionType)))
    && (var byID := SpacesByID(spaces);
        r.areaID in byID ==> byID[r.areaID].parentID != CONSULTING_AREA_CONTAINER_ID)
  }

  lemma {:induction false} DevicesByIDMembers(devices: seq<Device>)
    ensures forall id :: id in DevicesByID(devices) ==>
              DevicesByID(devices)[id] in devices && DevicesByID(devices)[id].id == id
    ensures forall d | d in devices :: d.id in DevicesByID(devices)
  {
    if devices != [] {
      DevicesByIDMembers(devices[..|devices| - 1]);
      assert devices == devices[..|devices| - 1] + [devices[|devices| - 1]];
    }
  }

  function FilterApplicable(devices: seq<Device>, spaces: seq<Space>, relations: seq<Relation>): seq<Relation> {
    if relations == [] then []
    else
      var front := FilterApplicable(devices, spaces, relations[..|relations| - 1]);
      if Applicable(devices, spaces, relations[|relations| - 1]) then front + [relations[|relations| - 1]] else front
  }

  lemma {:induction false} FilterMembers(devices: seq<Device>, spaces: seq<Space>, relations: seq<Relation>)
    ensures forall r :: r in FilterApplicable(devices, spaces, relations) <==>
              r in relations && Applicable(devices, spaces, r)
  {
    if relations != [] {
      FilterMembers(devices, spaces, relations[..|relations| - 1]);
      assert relations == relations[..|relations| - 1] + [relations[|relations| - 1]];
    }
  }

  /** Deduplication loses no connection: an applicable relation of the input joins a
      device and a space exactly when a surviving relation does. */
  lemma ConnectionsSurvive(devices: seq<Device>, spaces: seq<Space>, input: seq<Relation>, out: seq<Relation>,
                           d: int, a: int)
    requires Normalized(input, out)
    ensures (exists r | r in FilterApplicable(devices, spaces, out) :: r.deviceID == d && r.areaID == a) <==>
            (exists r | r in input :: r.deviceID == d && r.areaID == a && Applicable(devices, spaces, r))
  {
    FilterMembers(devices, spaces, out);
    var all := TrimmedAll(input);
    if r :| r in FilterApplicable(devices, spaces, out) && r.deviceID == d && r.areaID == a {
      var i :| 0 <= i < |all| && all[i] == r;
      TrimIdempotent(input[i].functionType);
      assert Applicable(devices, spaces, input[i]);
    }
    if r :| r in input && r.deviceID == d && r.areaID == a && Applicable(devices, spaces, r) {
      var i :| 0 <= i < |input| && input[i] == r;
      assert all[i] == Trimmed(r);
      var q := LowestID(all, Trimmed(r));
      TrimIdempotent(r.functionType);
      assert q in FilterApplicable(devices, spaces, out);
    }
  }

  lemma {:induction false} LowestID(all: seq<Relation>, r: Relation) returns (q: Relation)
    requires r in all
    ensures Representative(all, q) && KeyOf(q) == KeyOf(r)
  {
    q := r;
    for i := 0 to |all|
      invariant q in all && KeyOf(q) == KeyOf(r)
      invariant forall j | 0 <= j < i && KeyOf(all[j]) == KeyOf(r) :: q.id <= all[j].id
    {
      if KeyOf(all[i]) == KeyOf(r) && all[i].id < q.id {
        q := all[i];
      }
    }
  }
}
