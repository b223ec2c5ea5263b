/** The forest of spaces: `buildSpaceTree` and `spacePath`. */
module SpaceForest {
  import opened Sorting

  datatype Space = Space(id: int, parentID: int, name: string, level: int, status: int, sortOrder: int)

  /** A node of the tree, with the IDs of the cameras bound to its space. */
  datatype Node = Node(space: Space, boundCameras: seq<int>, children: seq<Node>)

  ghost predicate UniquePositiveIDs(spaces: seq<Space>) {
    && (forall i | 0 <= i < |spaces| :: spaces[i].id > 0)
    && (forall i, j | 0 <= i < j < |spaces| :: spaces[i].id != spaces[j].id)
  }

  function Ids(spaces: seq<Space>): set<int> {
    set s | s in spaces :: s.id
  }

  /** The parent that the tree uses: a missing parent counts as the root, 0. */
  function EffectiveParent(spaces: seq<Space>, s: Space): int {
    if s.parentID != 0 && s.parentID !in Ids(spaces) then 0 else s.parentID
  }

  predicate SpaceLe(a: Space, b: Space) {
    if a.level != b.level then a.level < b.level
    else if a.sortOrder != b.sortOrder then a.sortOrder < b.sortOrder
    else a.id <= b.id
  }

  function OfParent(spaces: seq<Space>, cs: seq<Space>, p: int): seq<Space> {
    if cs == [] then []
    else if EffectiveParent(spaces, cs[|cs| - 1]) == p then OfParent(spaces, cs[..|cs| - 1], p) + [cs[|cs| - 1]]
    else OfParent(spaces, cs[..|cs| - 1], p)
  }

  function Children(spaces: seq<Space>, p: int): seq<Space> {
    Sort(OfParent(spaces, spaces, p), SpaceLe)
  }

  // ----- grouping by parent ------------------------------------------------------------------

  function Get<T>(m: map<int, seq<T>>, key: int): seq<T> {
    if key in m then m[key] else []
  }

  /** The loops that fill and sort `childrenByParent`. */
  method GroupChildren(spaces: seq<Space>) returns (childrenByParent: map<int, seq<Space>>)
    ensures forall p :: Get(childrenByParent, p) == Children(spaces, p)
  {
    var spaceIDs := {};
    for i := 0 to |spaces|
      invariant spaceIDs == set k | 0 <= k < i :: spaces[k].id
    {
      spaceIDs := spaceIDs + {spaces[i].id};
    }
    assert spaceIDs == Ids(spaces);
    childrenByParent := map[];
    for i := 0 to |spaces|
      invariant forall p :: Get(childrenByParent, p) == OfParent(spaces, spaces[..i], p)
    {
      var parentID := spaces[i].parentID;
      if parentID != 0 && parentID !in spaceIDs {
        parentID := 0;
      }
      assert spaces[..i + 1][..i] == spaces[..i];
      childrenByParent := childrenByParent[parentID := Get(childrenByParent, parentID) + [spaces[i]]];
    }
    assert spaces[..|spaces|] == spaces;
    // every list is sorted on its own, so the order of the keys does not matter
    childrenByParent := map p | p in childrenByParent :: Sort(childrenByParent[p], SpaceLe);
  }

  lemma SpaceLeTotal()
    ensures TotalOrder(SpaceLe)
  {
  }

  lemma {:induction false} OfParentMembers(spaces: seq<Space>, cs: seq<Space>, p: int)
    ensures forall s :: s in OfParent(spaces, cs, p) <==> s in cs && EffectiveParent(spaces, s) == p
    decreases |cs|
  {
    if cs != [] {
      OfParentMembers(spaces, cs[..|cs| - 1], p);
      assert cs == cs[..|cs| - 1] + [cs[|cs| - 1]];
    }
  }

  lemma ChildrenMembers(spaces: seq<Space>, p: int)
    ensures forall s :: s in Children(spaces, p) <==> s in spaces && EffectiveParent(spaces, s) == p
  {
    OfParentMembers(spaces, spaces, p);
    SpaceLeTotal();
    SortSorts(OfParent(spaces, spaces, p), SpaceLe);
    SortingMembers(Children(spaces, p), OfParent(spaces, spaces, p), SpaceLe);
  }

  lemma {:induction false} OfParentOnce(spaces: seq<Space>, cs: seq<Space>, p: int, s: Space)
    requires multiset(cs)[s] <= 1
    ensures multiset(OfParent(spaces, cs, p))[s] <= multiset(cs)[s]
    decreases |cs|
  {
    if cs != [] {
      assert cs == cs[..|cs| - 1] + [cs[|cs| - 1]];
      OfParentOnce(spaces, cs[..|cs| - 1], p, s);
    }
  }

  lemma {:induction false} OccursOnce(spaces: seq<Space>, s: Space)
    requires forall i, j | 0 <= i < j < |spaces| :: spaces[i].id != spaces[j].id
    ensures multiset(spaces)[s] <= 1
  {
    if spaces != [] {
      OccursOnce(spaces[1..], s);
      assert spaces == [spaces[0]] + spaces[1..];
      assert s in multiset(spaces[1..]) ==> s in spaces[1..];
    }
  }

  lemma ChildOnce(spaces: seq<Space>, p: int, s: Space)
    requires UniquePositiveIDs(spaces)
    ensures multiset(Children(spaces, p))[s] <= 1
  {
    OccursOnce(spaces, s);
    OfParentOnce(spaces, spaces, p, s);
    SpaceLeTotal();
    SortSorts(OfParent(spaces, spaces, p), SpaceLe);
  }

  // ----- ancestors and depth -------------------------------------------------------------------

  /** The parent that a space names if it is one of the spaces, else 0. */
  ghost function PresentParent(spaces: seq<Space>, s: Space): int {
    if exists p | p in spaces :: p.id == s.parentID then s.parentID else 0
  }

  lemma PresentIsEffective(spaces: seq<Space>, s: Space)
    ensures PresentParent(spaces, s) == EffectiveParent(spaces, s)
  {
  }

  /** The tree parent of the space with this ID; 0 if there is none. */
  ghost function Parent(spaces: seq<Space>, id: int): int {
    if exists s :: s in spaces && s.id == id
    then var s :| s in spaces && s.id == id; PresentParent(spaces, s)
    else 0
  }

  lemma ParentOf(spaces: seq<Space>, s: Space)
    requires UniquePositiveIDs(spaces) && s in spaces
    ensures Parent(spaces, s.id) == EffectiveParent(spaces, s)
  {
    PresentIsEffective(spaces, s);
  }

  /** The chain of parents from `id` first meets the root after exactly `k` steps. */
  ghost predicate HasDepth(spaces: seq<Space>, id: int, k: nat)
    decreases k
  {
    if k == 0 then id == 0 else id != 0 && HasDepth(spaces, Parent(spaces, id), k - 1)
  }

  ghost predicate Rooted(spaces: seq<Space>, id: int) {
    exists k: nat :: HasDepth(spaces, id, k)
  }

  lemma {:induction false} DepthUnique(spaces: seq<Space>, id: int, k: nat, l: nat)
    requires HasDepth(spaces, id, k) && HasDepth(spaces, id, l)
    ensures k == l
    decreases k
  {
    if k > 0 && l > 0 {
      DepthUnique(spaces, Parent(spaces, id), k - 1, l - 1);
    }
  }

  /** `id` and its ancestors below the root. */
  ghost function Path(spaces: seq<Space>, id: int, k: nat): set<int>
    decreases k
  {
    if k == 0 then {} else {id} + Path(spaces, Parent(spaces, id), k - 1)
  }

  lemma {:induction false} PathDepths(spaces: seq<Space>, id: int, k: nat, a: int) returns (l: nat)
    requires HasDepth(spaces, id, k) && a in Path(spaces, id, k)
    ensures l <= k && HasDepth(spaces, a, l)
    decreases k
  {
    if a == id {
      l := k;
    } else {
      l := PathDepths(spaces, Parent(spaces, id), k - 1, a);
    }
  }

  /** A child is never among the ancestors of its parent: the recursion goes down. */
  lemma ChildDepth(spaces: seq<Space>, c: Space, k: nat)
    requires UniquePositiveIDs(spaces) && c in spaces && HasDepth(spaces, EffectiveParent(spaces, c), k)
    ensures HasDepth(spaces, c.id, k + 1)
    ensures Path(spaces, c.id, k + 1) == {c.id} + Path(spaces, EffectiveParent(spaces, c), k)
    ensures c.id in Ids(spaces) - Path(spaces, EffectiveParent(spaces, c), k)
  {
    ParentOf(spaces, c);
    if c.id in Path(spaces, EffectiveParent(spaces, c), k) {
      var l := PathDepths(spaces, EffectiveParent(spaces, c), k, c.id);
      DepthUnique(spaces, c.id, l, k + 1);
    }
  }

  // ----- the tree --------------------------------------------------------------------------------

  /** `cs` are children of `p`, which is at depth `k`. */
  ghost predicate Level(spaces: seq<Space>, p: int, cs: seq<Space>, k: nat) {
    && UniquePositiveIDs(spaces) && HasDepth(spaces, p, k)
    && forall c | c in cs :: c in spaces && EffectiveParent(spaces, c) == p
  }

  /** The spaces not yet on the path from the root to `p`. */
  ghost function Ahead(spaces: seq<Space>, p: int, k: nat): set<int> {
    Ids(spaces) - Path(spaces, p, k)
  }

  /** The children of a node are a level of their own, with fewer spaces ahead. */
  lemma LevelDown(spaces: seq<Space>, p: int, cs: seq<Space>, k: nat)
    requires Level(spaces, p, cs, k) && cs != []
    ensures cs[0] in spaces && EffectiveParent(spaces, cs[0]) == p && HasDepth(spaces, cs[0].id, k + 1)
    ensures Level(spaces, cs[0].id, Children(spaces, cs[0].id), k + 1)
    ensures Ahead(spaces, cs[0].id, k + 1) < Ahead(spaces, p, k)
    ensures Level(spaces, p, cs[1..], k)
  {
    var c := cs[0];
    ChildDepth(spaces, c, k);
    ChildrenMembers(spaces, c.id);
    assert c.id in Ahead(spaces, p, k) && c.id !in Ahead(spaces, c.id, k + 1);
  }

  lemma RootLevel(spaces: seq<Space>)
    requires UniquePositiveIDs(spaces)
    ensures Level(spaces, 0, Children(spaces, 0), 0)
  {
    ChildrenMembers(spaces, 0);
  }

  /** The nodes of `cs`.  The recursion ends because every level adds a new space to
      the path from the root. */
  function Build(spaces: seq<Space>, bound: map<int, seq<int>>, p: int, cs: seq<Space>, ghost k: nat): seq<Node>
    requires Level(spaces, p, cs, k)
    decreases Ahead(spaces, p, k), |cs|
  {
    if cs == [] then []
    else
      LevelDown(spaces, p, cs, k);
      [Node(cs[0], Get(bound, cs[0].id), Build(spaces, bound, cs[0].id, Children(spaces, cs[0].id), k + 1))]
      + Build(spaces, bound, p, cs[1..], k)
  }

  function BuildSpaceTree(spaces: seq<Space>, bound: map<int, seq<int>>): seq<Node>
    requires UniquePositiveIDs(spaces)
  {
    RootLevel(spaces);
    Build(spaces, bound, 0, Children(spaces, 0), 0)
  }

  lemma {:induction false} SameIndexSameLevel(spaces: seq<Space>, a: map<int, seq<int>>, b: map<int, seq<int>>,
                                             p: int, cs: seq<Space>, k: nat)
    requires Level(spaces, p, cs, k) && forall id :: Get(a, id) == Get(b, id)
    ensures Build(spaces, a, p, cs, k) == Build(spaces, b, p, cs, k)
    decreases Ahead(spaces, p, k), |cs|
  {
    if cs != [] {
      LevelDown(spaces, p, cs, k);
      SameIndexSameLevel(spaces, a, b, cs[0].id, Children(spaces, cs[0].id), k + 1);
      SameIndexSameLevel(spaces, a, b, p, cs[1..], k);
    }
  }

  /** The tree depends on what the index says of each space, not on how it is stored. */
  lemma SameIndexSameTree(spaces: seq<Space>, a: map<int, seq<int>>, b: map<int, seq<int>>)
    requires UniquePositiveIDs(spaces) && forall id :: Get(a, id) == Get(b, id)
    ensures BuildSpaceTree(spaces, a) == BuildSpaceTree(spaces, b)
  {
    RootLevel(spaces);
    SameIndexSameLevel(spaces, a, b, 0, Children(spaces, 0), 0);
  }

  /** In the order of the view: by level, then by sort order, then by ID. */
  predicate Before(a: Space, b: Space) {
    || a.level < b.level
    || (a.level == b.level && a.sortOrder < b.sortOrder)
    || (a.level == b.level && a.sortOrder == b.sortOrder && a.id < b.id)
  }

  /** The nodes of each parent are in that order. */
  ghost predicate InOrder(nodes: seq<Node>) {
    && (forall i, j | 0 <= i < j < |nodes| :: Before(nodes[i].space, nodes[j].space))
    && forall i | 0 <= i < |nodes| :: InOrder(nodes[i].children)
  }

  /** Every node of the tree: its space, its cameras and the ID it hangs under. */
  datatype Entry = Entry(space: Space, boundCameras: seq<int>, under: int)

  function Entries(nodes: seq<Node>, p: int): seq<Entry> {
    if nodes == [] then []
    else
      [Entry(nodes[0].space, nodes[0].boundCameras, p)]
      + Entries(nodes[0].children, nodes[0].space.id)
      + Entries(nodes[1..], p)
  }

  ghost function EntryOf(spaces: seq<Space>, bound: map<int, seq<int>>, s: Space): Entry {
    Entry(s, Get(bound, s.id), PresentParent(spaces, s))
  }

  ghost function AncestorAt(spaces: seq<Space>, x: int, n: nat): int
    decreases n
  {
    if n == 0 then x else AncestorAt(spaces, Parent(spaces, x), n - 1)
  }

  lemma {:induction false} AncestorStep(spaces: seq<Space>, x: int, n: nat)
    ensures AncestorAt(spaces, x, n + 1) == Parent(spaces, AncestorAt(spaces, x, n))
    decreases n
  {
    if n > 0 {
      AncestorStep(spaces, Parent(spaces, x), n - 1);
    }
  }

  /** The entries of `Build`, node by node. */
  ghost function LevelEntries(spaces: seq<Space>, bound: map<int, seq<int>>, p: int, cs: seq<Space>, k: nat): seq<Entry>
    requires Level(spaces, p, cs, k)
  {
    Entries(Build(spaces, bound, p, cs, k), p)
  }

  lemma LevelEntriesStep(spaces: seq<Space>, bound: map<int, seq<int>>, p: int, cs: seq<Space>, k: nat)
    requires Level(spaces, p, cs, k)
    ensures cs == [] ==> LevelEntries(spaces, bound, p, cs, k) == []
    ensures cs != [] ==>
              && Level(spaces, cs[0].id, Children(spaces, cs[0].id), k + 1) && Level(spaces, p, cs[1..], k)
              && LevelEntries(spaces, bound, p, cs, k) ==
                 [EntryOf(spaces, bound, cs[0])]
                 + LevelEntries(spaces, bound, cs[0].id, Children(spaces, cs[0].id), k + 1)
                 + LevelEntries(spaces, bound, p, cs[1..], k)
  {
    if cs != [] {
      LevelDown(spaces, p, cs, k);
      PresentIsEffective(spaces, cs[0]);
      hide Level, Children, EffectiveParent, PresentParent;
    }
  }

  /** Each entry of a level is a space in its place: rooted, deeper than `p`, and one
      of `cs` is its ancestor. */
  lemma {:induction false} EntrySound(spaces: seq<Space>, bound: map<int, seq<int>>, p: int, cs: seq<Space>, k: nat,
                                      e: Entry)
    returns (d: nat, c: Space)
    requires Level(spaces, p, cs, k) && e in LevelEntries(spaces, bound, p, cs, k)
    ensures e.space in spaces && e == EntryOf(spaces, bound, e.space)
    ensures d > k && HasDepth(spaces, e.space.id, d)
    ensures c in cs && AncestorAt(spaces, e.space.id, d - k - 1) == c.id
    decreases Ahead(spaces, p, k), |cs|
  {
    hide Level, Children, EffectiveParent, HasDepth, Parent, Ahead, LevelEntries, EntryOf;
    LevelEntriesStep(spaces, bound, p, cs, k);
    c := cs[0];
    LevelDown(spaces, p, cs, k);
    if e == EntryOf(spaces, bound, c) {
      EntryOfSpace(spaces, bound, c);
      d := k + 1;
    } else if e in LevelEntries(spaces, bound, c.id, Children(spaces, c.id), k + 1) {
      var child;
      d, child := EntrySound(spaces, bound, c.id, Children(spaces, c.id), k + 1, e);
      ChildAncestor(spaces, e.space.id, d - k - 2, child, c.id);
    } else {
      d, c := EntrySound(spaces, bound, p, cs[1..], k, e);
    }
  }

  lemma EntryOfSpace(spaces: seq<Space>, bound: map<int, seq<int>>, c: Space)
    ensures EntryOf(spaces, bound, c).space == c
  {
  }

  lemma ChildAncestor(spaces: seq<Space>, x: int, n: nat, child: Space, c: int)
    requires UniquePositiveIDs(spaces)
    requires AncestorAt(spaces, x, n) == child.id && child in Children(spaces, c)
    ensures AncestorAt(spaces, x, n + 1) == c
  {
    AncestorStep(spaces, x, n);
    ChildrenMembers(spaces, c);
    ParentOf(spaces, child);
  }

  /** The other way: an ancestor that is a space is a child of the next ancestor. */
  lemma AncestorChild(spaces: seq<Space>, x: int, n: nat, c: int) returns (child: Space)
    requires UniquePositiveIDs(spaces) && AncestorAt(spaces, x, n + 1) == c && c != 0
    ensures child in Children(spaces, c) && child.id == AncestorAt(spaces, x, n)
  {
    AncestorStep(spaces, x, n);
    ChildrenMembers(spaces, c);
    child :| child in spaces && child.id == AncestorAt(spaces, x, n);
    ParentOf(spaces, child);
  }

  /** Each rooted space whose ancestor is among `cs` has its entry in the level. */
  lemma {:induction false} EntryComplete(spaces: seq<Space>, bound: map<int, seq<int>>, p: int, cs: seq<Space>, k: nat,
                                         s: Space, d: nat, c: Space)
    requires Level(spaces, p, cs, k)
    requires s in spaces && d > k && HasDepth(spaces, s.id, d)
    requires c in cs && AncestorAt(spaces, s.id, d - k - 1) == c.id
    ensures EntryOf(spaces, bound, s) in LevelEntries(spaces, bound, p, cs, k)
    decreases Ahead(spaces, p, k), |cs|
  {
    hide Level, Children, EffectiveParent, HasDepth, Parent, Ahead, LevelEntries, EntryOf, UniquePositiveIDs;
    LevelMember(spaces, p, cs, k, c);
    LevelEntriesStep(spaces, bound, p, cs, k);
    LevelDown(spaces, p, cs, k);
    if c != cs[0] {
      EntryComplete(spaces, bound, p, cs[1..], k, s, d, c);
    } else if d == k + 1 {
      SameID(spaces, s, c);
    } else {
      PositiveID(spaces, c);
      var child := AncestorChild(spaces, s.id, d - k - 2, c.id);
      EntryComplete(spaces, bound, c.id, Children(spaces, c.id), k + 1, s, d, child);
    }
  }

  lemma LevelMember(spaces: seq<Space>, p: int, cs: seq<Space>, k: nat, c: Space)
    requires Level(spaces, p, cs, k) && c in cs
    ensures UniquePositiveIDs(spaces) && c in spaces
  {
  }

  lemma PositiveID(spaces: seq<Space>, c: Space)
    requires UniquePositiveIDs(spaces) && c in spaces
    ensures c.id > 0
  {
  }

  lemma DistinctTail(cs: seq<Space>)
    requires Distinct(cs) && cs != []
    ensures Distinct(cs[1..]) && cs[0] !in cs[1..]
  {
  }

  lemma {:induction false} EntryOnce(spaces: seq<Space>, bound: map<int, seq<int>>, p: int, cs: seq<Space>, k: nat,
                                     e: Entry)
    requires Level(spaces, p, cs, k) && Distinct(cs)
    ensures multiset(LevelEntries(spaces, bound, p, cs, k))[e] <= 1
    decreases Ahead(spaces, p, k), |cs|
  {
    hide Level, Children, EffectiveParent, HasDepth, Ahead, LevelEntries, EntryOf, UniquePositiveIDs, Distinct;
    LevelEntriesStep(spaces, bound, p, cs, k);
    if cs != [] {
      LevelMember(spaces, p, cs, k, cs[0]);
      LevelDown(spaces, p, cs, k);
      ChildrenDistinct(spaces, cs[0].id);
      DistinctTail(cs);
      EntryOnce(spaces, bound, cs[0].id, Children(spaces, cs[0].id), k + 1, e);
      EntryOnce(spaces, bound, p, cs[1..], k, e);
      Disjoint(spaces, bound, p, cs, k, e);
      OnceInThree(EntryOf(spaces, bound, cs[0]),
                  LevelEntries(spaces, bound, cs[0].id, Children(spaces, cs[0].id), k + 1),
                  LevelEntries(spaces, bound, p, cs[1..], k),
                  LevelEntries(spaces, bound, p, cs, k), e);
    }
  }

  lemma OnceInThree(head: Entry, sub: seq<Entry>, rest: seq<Entry>, all: seq<Entry>, e: Entry)
    requires all == [head] + sub + rest
    requires multiset(sub)[e] <= 1 && multiset(rest)[e] <= 1
    requires !(e == head && (e in sub || e in rest)) && !(e in sub && e in rest)
    ensures multiset(all)[e] <= 1
  {
    assert multiset([head] + sub + rest)[e] == multiset([head])[e] + multiset(sub)[e] + multiset(rest)[e];
    assert e in multiset(sub) <==> e in sub;
    assert e in multiset(rest) <==> e in rest;
  }

  /** A node, the entries below it and the entries of its later siblings have
      nothing in common. */
  lemma Disjoint(spaces: seq<Space>, bound: map<int, seq<int>>, p: int, cs: seq<Space>, k: nat, e: Entry)
    requires Level(spaces, p, cs, k) && Distinct(cs) && cs != []
    requires Level(spaces, cs[0].id, Children(spaces, cs[0].id), k + 1) && Level(spaces, p, cs[1..], k)
    ensures var sub := LevelEntries(spaces, bound, cs[0].id, Children(spaces, cs[0].id), k + 1);
            var rest := LevelEntries(spaces, bound, p, cs[1..], k);
            && !(e == EntryOf(spaces, bound, cs[0]) && (e in sub || e in rest))
            && !(e in sub && e in rest)
  {
    hide Level, Children, EffectiveParent, HasDepth, LevelEntries, EntryOf, UniquePositiveIDs, Distinct, Parent, Ahead;
    LevelMember(spaces, p, cs, k, cs[0]);
    LevelDown(spaces, p, cs, k);
    DistinctTail(cs);
    EntryOfSpace(spaces, bound, cs[0]);
    var c := cs[0];
    if e in LevelEntries(spaces, bound, c.id, Children(spaces, c.id), k + 1) {
      var d, child := EntrySound(spaces, bound, c.id, Children(spaces, c.id), k + 1, e);
      ChildAncestor(spaces, e.space.id, d - k - 2, child, c.id);
      if e == EntryOf(spaces, bound, c) {
        DepthUnique(spaces, c.id, d, k + 1);
      }
      if e in LevelEntries(spaces, bound, p, cs[1..], k) {
        NotBelowSibling(spaces, bound, p, cs, k, e, d);
      }
    } else if e == EntryOf(spaces, bound, c) && e in LevelEntries(spaces, bound, p, cs[1..], k) {
      NotBelowSibling(spaces, bound, p, cs, k, e, k + 1);
    }
  }

  lemma NotBelowSibling(spaces: seq<Space>, bound: map<int, seq<int>>, p: int, cs: seq<Space>, k: nat, e: Entry, d: nat)
    requires Level(spaces, p, cs, k) && cs != [] && cs[0] !in cs[1..]
    requires Level(spaces, p, cs[1..], k) && e in LevelEntries(spaces, bound, p, cs[1..], k)
    requires d > k && HasDepth(spaces, e.space.id, d)
    ensures AncestorAt(spaces, e.space.id, d - k - 1) != cs[0].id
  {
    hide Level, Children, EffectiveParent, HasDepth, LevelEntries, UniquePositiveIDs, Parent, AncestorAt;
    var d', sibling := EntrySound(spaces, bound, p, cs[1..], k, e);
    DepthUnique(spaces, e.space.id, d, d');
    if sibling.id == cs[0].id {
      LevelMember(spaces, p, cs, k, cs[0]);
      LevelMember(spaces, p, cs[1..], k, sibling);
      SameID(spaces, sibling, cs[0]);
    }
  }

  lemma SameID(spaces: seq<Space>, a: Space, b: Space)
    requires UniquePositiveIDs(spaces) && a in spaces && b in spaces && a.id == b.id
    ensures a == b
  {
  }

  lemma DifferentIDs(spaces: seq<Space>, a: Space, b: Space)
    requires UniquePositiveIDs(spaces) && a in spaces && b in spaces && a != b
    ensures a.id != b.id
  {
  }

  lemma ChildrenDistinct(spaces: seq<Space>, p: int)
    requires UniquePositiveIDs(spaces)
    ensures Distinct(Children(spaces, p))
  {
    hide Children;
    var cs := Children(spaces, p);
    forall i, j | 0 <= i < j < |cs|
      ensures cs[i] != cs[j]
    {
      ChildOnce(spaces, p, cs[i]);
      EqualCounts(cs, i, j);
    }
  }

  // ----- main results --------------------------------------------------------------------------------

  /** The tree holds exactly the spaces whose parent chain reaches 0 or a missing
      parent, each once, with its own cameras and under its own parent. */
  lemma TreeIsTheRootedSpaces(spaces: seq<Space>, bound: map<int, seq<int>>)
    requires UniquePositiveIDs(spaces)
    ensures var entries := Entries(BuildSpaceTree(spaces, bound), 0);
            && (forall e: Entry :: e in entries <==>
                  e.space in spaces && Rooted(spaces, e.space.id) && e == EntryOf(spaces, bound, e.space))
            && (forall e :: multiset(entries)[e] <= 1)
  {
    hide Children, HasDepth, UniquePositiveIDs, EntryOf;
    RootLevel(spaces);
    ChildrenDistinct(spaces, 0);
    var entries, roots := LevelEntries(spaces, bound, 0, Children(spaces, 0), 0), Children(spaces, 0);
    assert entries == Entries(BuildSpaceTree(spaces, bound), 0);
    hide Level, LevelEntries, Entries, BuildSpaceTree;
    forall e | e in entries
      ensures e.space in spaces && Rooted(spaces, e.space.id) && e == EntryOf(spaces, bound, e.space)
    {
      var d, c := EntrySound(spaces, bound, 0, roots, 0, e);
    }
    forall e: Entry | e.space in spaces && Rooted(spaces, e.space.id) && e == EntryOf(spaces, bound, e.space)
      ensures e in entries
    {
      var d: nat :| HasDepth(spaces, e.space.id, d);
      var c := TopAncestor(spaces, e.space, d);
      EntryComplete(spaces, bound, 0, roots, 0, e.space, d, c);
    }
    forall e ensures multiset(entries)[e] <= 1 {
      EntryOnce(spaces, bound, 0, roots, 0, e);
    }
  }

  lemma {:induction false} TopAncestor(spaces: seq<Space>, s: Space, d: nat) returns (c: Space)
    requires UniquePositiveIDs(spaces) && s in spaces && HasDepth(spaces, s.id, d)
    ensures d > 0 && c in Children(spaces, 0) && AncestorAt(spaces, s.id, d - 1) == c.id
    decreases d
  {
    hide Children, Parent, UniquePositiveIDs, EffectiveParent;
    PositiveID(spaces, s);
    ParentOf(spaces, s);
    ChildrenMembers(spaces, 0);
    if EffectiveParent(spaces, s) == 0 {
      c := s;
    } else {
      var parent := ParentSpace(spaces, s);
      c := TopAncestor(spaces, parent, d - 1);
    }
  }

  lemma ParentSpace(spaces: seq<Space>, s: Space) returns (parent: Space)
    requires EffectiveParent(spaces, s) != 0
    ensures parent in spaces && parent.id == EffectiveParent(spaces, s)
  {
    parent :| parent in spaces && parent.id == EffectiveParent(spaces, s);
  }

  lemma ChildrenInOrder(spaces: seq<Space>, p: int)
    requires UniquePositiveIDs(spaces)
    ensures forall i, j | 0 <= i < j < |Children(spaces, p)| :: Before(Children(spaces, p)[i], Children(spaces, p)[j])
  {
    var cs := Children(spaces, p);
    SpaceLeTotal();
    SortSorts(OfParent(spaces, spaces, p), SpaceLe);
    ChildrenMembers(spaces, p);
    ChildrenDistinct(spaces, p);
    hide Children;
    forall i, j | 0 <= i < j < |cs| ensures Before(cs[i], cs[j]) {
      assert cs[i] in spaces && cs[j] in spaces && SpaceLe(cs[i], cs[j]);
      DifferentIDs(spaces, cs[i], cs[j]);
    }
  }

  lemma {:induction false} BuildInOrder(spaces: seq<Space>, bound: map<int, seq<int>>, p: int, cs: seq<Space>, k: nat)
    requires Level(spaces, p, cs, k) && forall i, j | 0 <= i < j < |cs| :: Before(cs[i], cs[j])
    ensures var nodes := Build(spaces, bound, p, cs, k);
            |nodes| == |cs| && InOrder(nodes) && forall i | 0 <= i < |cs| :: nodes[i].space == cs[i]
    decreases Ahead(spaces, p, k), |cs|
  {
    hide Children, Level, Before, Build, InOrder, Ahead;
    BuildStep(spaces, bound, p, cs, k);
    if cs != [] {
      LevelDown(spaces, p, cs, k);
      LevelIDs(spaces, p, cs, k);
      ChildrenInOrder(spaces, cs[0].id);
      BuildInOrder(spaces, bound, cs[0].id, Children(spaces, cs[0].id), k + 1);
      BuildInOrder(spaces, bound, p, cs[1..], k);
      NodeInOrder(Build(spaces, bound, p, cs, k)[0], Build(spaces, bound, p, cs[1..], k));
    } else {
      NoNodesInOrder();
    }
  }

  lemma BuildStep(spaces: seq<Space>, bound: map<int, seq<int>>, p: int, cs: seq<Space>, k: nat)
    requires Level(spaces, p, cs, k)
    ensures cs == [] ==> Build(spaces, bound, p, cs, k) == []
    ensures cs != [] ==>
              && Level(spaces, cs[0].id, Children(spaces, cs[0].id), k + 1) && Level(spaces, p, cs[1..], k)
              && var sub := Build(spaces, bound, cs[0].id, Children(spaces, cs[0].id), k + 1);
                 Build(spaces, bound, p, cs, k) ==
                 [Node(cs[0], Get(bound, cs[0].id), sub)] + Build(spaces, bound, p, cs[1..], k)
  {
    if cs != [] {
      LevelDown(spaces, p, cs, k);
      hide Level, Children, EffectiveParent;
    }
  }

  lemma NoNodesInOrder()
    ensures InOrder([])
  {
  }

  lemma LevelIDs(spaces: seq<Space>, p: int, cs: seq<Space>, k: nat)
    requires Level(spaces, p, cs, k)
    ensures UniquePositiveIDs(spaces)
  {
  }

  lemma NodeInOrder(node: Node, rest: seq<Node>)
    requires InOrder(node.children) && InOrder(rest)
    requires forall i | 0 <= i < |rest| :: Before(node.space, rest[i].space)
    ensures InOrder([node] + rest)
  {
  }

  /** Siblings come in the order of the view, on every level of the tree. */
  lemma TreeInOrder(spaces: seq<Space>, bound: map<int, seq<int>>)
    requires UniquePositiveIDs(spaces)
    ensures InOrder(BuildSpaceTree(spaces, bound))
  {
    RootLevel(spaces);
    ChildrenInOrder(spaces, 0);
    hide Children, Level, InOrder;
    BuildInOrder(spaces, bound, 0, Children(spaces, 0), 0);
  }

  /** Without cycles nothing is lost: the tree is a rearrangement of all the spaces. */
  lemma AcyclicTreeHoldsEverySpace(spaces: seq<Space>, bound: map<int, seq<int>>)
    requires UniquePositiveIDs(spaces) && forall s | s in spaces :: Rooted(spaces, s.id)
    ensures forall s | s in spaces ::
              multiset(Entries(BuildSpaceTree(spaces, bound), 0))[EntryOf(spaces, bound, s)] == 1
  {
    TreeIsTheRootedSpaces(spaces, bound);
    forall s | s in spaces
      ensures multiset(Entries(BuildSpaceTree(spaces, bound), 0))[EntryOf(spaces, bound, s)] == 1
    {
      assert EntryOf(spaces, bound, s) in Entries(BuildSpaceTree(spaces, bound), 0);
    }
  }

  /** Going up from here, some space is met twice. */
  ghost predicate LeadsToCycle(spaces: seq<Space>, id: int) {
    exists m: nat, n: nat :: m < n && AncestorAt(spaces, id, m) == AncestorAt(spaces, id, n) != 0
  }

  lemma {:induction false} UnrootedAncestor(spaces: seq<Space>, id: int, n: nat)
    requires !Rooted(spaces, id)
    ensures !Rooted(spaces, AncestorAt(spaces, id, n)) && AncestorAt(spaces, id, n) != 0
    decreases n
  {
    RootedFromParent(spaces, id);
    if n > 0 {
      UnrootedAncestor(spaces, Parent(spaces, id), n - 1);
    }
  }

  lemma RootedFromParent(spaces: seq<Space>, id: int)
    ensures id == 0 || Rooted(spaces, Parent(spaces, id)) ==> Rooted(spaces, id)
    ensures (forall s | s in spaces :: s.id != id) ==> Rooted(spaces, id)
  {
    assert HasDepth(spaces, 0, 0);
    if id != 0 && Rooted(spaces, Parent(spaces, id)) {
      var k: nat :| HasDepth(spaces, Parent(spaces, id), k);
      assert HasDepth(spaces, id, k + 1);
    }
    if id != 0 && forall s | s in spaces :: s.id != id {
      assert HasDepth(spaces, id, 1);
    }
  }

  lemma UnrootedIsSpace(spaces: seq<Space>, id: int) returns (s: Space)
    requires !Rooted(spaces, id)
    ensures s in spaces && s.id == id
  {
    RootedFromParent(spaces, id);
    s :| s in spaces && s.id == id;
  }

  /** The spaces met on the way up from one that has no depth. */
  lemma {:induction false} Climb(spaces: seq<Space>, id: int, n: nat) returns (chain: seq<Space>)
    requires !Rooted(spaces, id)
    ensures |chain| == n && forall s | s in chain :: s in spaces
    ensures forall i | 0 <= i < n :: chain[i].id == AncestorAt(spaces, id, i)
  {
    chain := [];
    if n > 0 {
      chain := Climb(spaces, id, n - 1);
      UnrootedAncestor(spaces, id, n - 1);
      var s := UnrootedIsSpace(spaces, AncestorAt(spaces, id, n - 1));
      chain := chain + [s];
    }
  }

  /** A space has no depth exactly when it is on a cycle or below one. */
  lemma UnrootedExactly(spaces: seq<Space>, s: Space)
    requires UniquePositiveIDs(spaces) && s in spaces
    ensures Rooted(spaces, s.id) <==> !LeadsToCycle(spaces, s.id)
  {
    hide UniquePositiveIDs, Parent, AncestorAt, HasDepth;
    if !Rooted(spaces, s.id) {
      var chain := Climb(spaces, s.id, |spaces| + 1);
      if Distinct(chain) {
        DistinctWithin(chain, spaces);
      }
      var i, j :| 0 <= i < j < |chain| && chain[i] == chain[j];
      UnrootedAncestor(spaces, s.id, i);
      assert AncestorAt(spaces, s.id, i) == AncestorAt(spaces, s.id, j) != 0;
    } else if LeadsToCycle(spaces, s.id) {
      var m: nat, n: nat :| m < n && AncestorAt(spaces, s.id, m) == AncestorAt(spaces, s.id, n) != 0;
      var d: nat :| HasDepth(spaces, s.id, d);
      RootHasNoParent(spaces);
      DepthOfAncestor(spaces, s.id, d, m);
      AncestorOfAncestor(spaces, s.id, m, n - m);
      NoReturn(spaces, AncestorAt(spaces, s.id, m), if m <= d then d - m else 0, n - m);
    }
  }

  lemma RootHasNoParent(spaces: seq<Space>)
    requires UniquePositiveIDs(spaces)
    ensures Parent(spaces, 0) == 0
  {
  }

  lemma {:induction false} AncestorOfAncestor(spaces: seq<Space>, x: int, m: nat, n: nat)
    ensures AncestorAt(spaces, AncestorAt(spaces, x, m), n) == AncestorAt(spaces, x, m + n)
    decreases m
  {
    if m > 0 {
      AncestorOfAncestor(spaces, Parent(spaces, x), m - 1, n);
    }
  }

  /** The tree lacks exactly the spaces on a cycle of parents and those below one. */
  lemma CyclesVanish(spaces: seq<Space>, bound: map<int, seq<int>>, s: Space)
    requires UniquePositiveIDs(spaces) && s in spaces
    ensures EntryOf(spaces, bound, s) !in Entries(BuildSpaceTree(spaces, bound), 0) <==> LeadsToCycle(spaces, s.id)
  {
    TreeIsTheRootedSpaces(spaces, bound);
    UnrootedExactly(spaces, s);
  }

  /** Two spaces that are each other's parent, and one below them: none is in the tree. */
  lemma TwoParentsVanish(bound: map<int, seq<int>>) returns (spaces: seq<Space>)
    ensures UniquePositiveIDs(spaces) && |spaces| == 3
    ensures spaces[0].parentID == spaces[1].id && spaces[1].parentID == spaces[0].id &&
              spaces[2].parentID == spaces[0].id
    ensures forall s | s in spaces :: EntryOf(spaces, bound, s) !in Entries(BuildSpaceTree(spaces, bound), 0)
  {
    var a, b, c := Space(1, 2, "a", 1, 1, 1), Space(2, 1, "b", 1, 1, 1), Space(3, 1, "c", 1, 1, 1);
    spaces := [a, b, c];
    assert a in spaces && b in spaces && c in spaces;
    assert Parent(spaces, 1) == 2 && Parent(spaces, 2) == 1 && Parent(spaces, 3) == 1 by {
      ParentOf(spaces, a);
      ParentOf(spaces, b);
      ParentOf(spaces, c);
      assert 1 in Ids(spaces) && 2 in Ids(spaces);
    }
    hide Parent;
    assert AncestorAt(spaces, 1, 0) == 1 && AncestorAt(spaces, 1, 2) == 1;
    assert AncestorAt(spaces, 2, 0) == 2 && AncestorAt(spaces, 2, 2) == 2;
    assert AncestorAt(spaces, 3, 1) == 1 && AncestorAt(spaces, 3, 3) == 1;
    forall s | s in spaces ensures EntryOf(spaces, bound, s) !in Entries(BuildSpaceTree(spaces, bound), 0) {
      assert LeadsToCycle(spaces, s.id);
      CyclesVanish(spaces, bound, s);
    }
  }

  lemma {:induction false} NoReturn(spaces: seq<Space>, x: int, d: nat, n: nat)
    requires HasDepth(spaces, x, d) && 0 < n && x != 0 && Parent(spaces, 0) == 0
    ensures AncestorAt(spaces, x, n) != x
  {
    DepthOfAncestor(spaces, x, d, n);
    if AncestorAt(spaces, x, n) == x {
      DepthUnique(spaces, x, d, if n <= d then d - n else 0);
    }
  }

  lemma {:induction false} DepthOfAncestor(spaces: seq<Space>, x: int, d: nat, n: nat)
    requires HasDepth(spaces, x, d) && Parent(spaces, 0) == 0
    ensures HasDepth(spaces, AncestorAt(spaces, x, n), if n <= d then d - n else 0)
    decreases n
  {
    if n > 0 {
      DepthOfAncestor(spaces, Parent(spaces, x), if d == 0 then 0 else d - 1, n - 1);
    }
  }
}
