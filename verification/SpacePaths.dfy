/** `spacePath`: the names from the root down to a space. */
module SpacePaths {
  import opened SpaceForest

  type SpaceMap = map<int, Space>

  function SpacesByID(spaces: seq<Space>): SpaceMap {
    if spaces == [] then map[]
    else SpacesByID(spaces[..|spaces| - 1])[spaces[|spaces| - 1].id := spaces[|spaces| - 1]]
  }

  /** From `id`, after exactly `k` steps to the parent, the walk meets 0 or a missing space. */
  predicate EndsIn(spaces: SpaceMap, id: int, k: nat)
    decreases k
  {
    if id == 0 || id !in spaces then k == 0 else k > 0 && EndsIn(spaces, spaces[id].parentID, k - 1)
  }

  ghost predicate Ends(spaces: SpaceMap, id: int) {
    exists k: nat :: EndsIn(spaces, id, k)
  }

  function Names(spaces: SpaceMap, id: int, k: nat): seq<string>
    requires EndsIn(spaces, id, k)
    decreases k
  {
    if k == 0 then [] else Names(spaces, spaces[id].parentID, k - 1) + [spaces[id].name]
  }

  function Join(names: seq<string>): string {
    if names == [] then ""
    else if |names| == 1 then names[0]
    else Join(names[..|names| - 1]) + " / " + names[|names| - 1]
  }

  ghost function Steps(spaces: SpaceMap, id: int): (k: nat)
    requires Ends(spaces, id)
    ensures EndsIn(spaces, id, k)
  {
    var k: nat :| EndsIn(spaces, id, k);
    k
  }

  ghost function PathOf(spaces: SpaceMap, id: int): string
    requires Ends(spaces, id)
  {
    Join(Names(spaces, id, Steps(spaces, id)))
  }

  lemma {:induction false} StepsUnique(spaces: SpaceMap, id: int, k: nat, l: nat)
    requires EndsIn(spaces, id, k) && EndsIn(spaces, id, l)
    ensures k == l
    decreases k
  {
    if k > 0 {
      StepsUnique(spaces, spaces[id].parentID, k - 1, l - 1);
    }
  }

  /** The loop ends for every `id` whose walk ends. */
  method SpacePath(spaces: SpaceMap, id: int, ghost k: nat) returns (path: string)
    requires EndsIn(spaces, id, k)
    ensures Ends(spaces, id) && path == PathOf(spaces, id)
  {
    var names := [];
    var current := id;
    ghost var left: nat := k;
    while current != 0
      invariant 0 <= left <= k && EndsIn(spaces, current, left)
      invariant Names(spaces, id, k) == Names(spaces, current, left) + names
      decreases left
    {
      if current !in spaces {
        break;
      }
      var space := spaces[current];
      names := [space.name] + names;
      current := space.parentID;
      left := left - 1;
    }
    assert left == 0 && [] + names == names;
    path := Join(names);
    StepsUnique(spaces, id, k, Steps(spaces, id));
  }

  /** A path is the parent's path, the separator and the space's own name; without a
      parent it is the name alone. */
  lemma PathExtendsParent(spaces: SpaceMap, id: int)
    requires id != 0 && id in spaces && Ends(spaces, id)
    ensures var s := spaces[id];
            && Ends(spaces, s.parentID)
            && PathOf(spaces, id) ==
               if s.parentID != 0 && s.parentID in spaces then PathOf(spaces, s.parentID) + " / " + s.name else s.name
  {
    var s := spaces[id];
    var k := Steps(spaces, id);
    assert EndsIn(spaces, s.parentID, k - 1);
    StepsUnique(spaces, s.parentID, k - 1, Steps(spaces, s.parentID));
    var parentNames := Names(spaces, s.parentID, k - 1);
    assert (parentNames + [s.name])[..|parentNames|] == parentNames;
  }

  // ----- the walk ends exactly for the spaces of the tree -------------------------------------

  lemma {:induction false} SpacesByIDMembers(spaces: seq<Space>)
    ensures forall id :: id in SpacesByID(spaces) ==>
              SpacesByID(spaces)[id] in spaces && SpacesByID(spaces)[id].id == id
    ensures forall s | s in spaces :: s.id in SpacesByID(spaces)
  {
    if spaces != [] {
      SpacesByIDMembers(spaces[..|spaces| - 1]);
      assert spaces == spaces[..|spaces| - 1] + [spaces[|spaces| - 1]];
    }
  }

  lemma {:induction false} StepsAreDepth(spaces: seq<Space>, s: Space, k: nat)
    requires UniquePositiveIDs(spaces) && s in spaces
    ensures EndsIn(SpacesByID(spaces), s.id, k) <==> HasDepth(spaces, s.id, k)
    decreases k
  {
    SpacesByIDMembers(spaces);
    SameID(spaces, SpacesByID(spaces)[s.id], s);
    ParentOf(spaces, s);
    PositiveID(spaces, s);
    if k > 0 {
      if EffectiveParent(spaces, s) != 0 {
        var parent := ParentSpace(spaces, s);
        StepsAreDepth(spaces, parent, k - 1);
      } else {
        assert s.parentID == 0 || s.parentID !in SpacesByID(spaces);
      }
    }
  }

  /** `spacePath` hangs exactly on the spaces on a cycle of parents and those below one. */
  lemma HangsExactlyOnCycles(spaces: seq<Space>, s: Space)
    requires UniquePositiveIDs(spaces) && s in spaces
    ensures Ends(SpacesByID(spaces), s.id) <==> !LeadsToCycle(spaces, s.id)
  {
    UnrootedExactly(spaces, s);
    forall k: nat ensures EndsIn(SpacesByID(spaces), s.id, k) <==> HasDepth(spaces, s.id, k) {
      StepsAreDepth(spaces, s, k);
    }
    assert Ends(SpacesByID(spaces), s.id) <==> Rooted(spaces, s.id);
  }

  /** `spacePath` terminates on a space exactly when the tree holds the space. */
  lemma PathEndsExactlyInTree(spaces: seq<Space>, bound: map<int, seq<int>>, s: Space)
    requires UniquePositiveIDs(spaces) && s in spaces
    ensures Ends(SpacesByID(spaces), s.id) <==> EntryOf(spaces, bound, s) in Entries(BuildSpaceTree(spaces, bound), 0)
  {
    TreeIsTheRootedSpaces(spaces, bound);
    forall k: nat ensures EndsIn(SpacesByID(spaces), s.id, k) <==> HasDepth(spaces, s.id, k) {
      StepsAreDepth(spaces, s, k);
    }
    assert Ends(SpacesByID(spaces), s.id) <==> Rooted(spaces, s.id);
  }
}
