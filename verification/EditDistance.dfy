/** Levenshtein distance of store names: the two-row table, the recurrence and the
    shortest edit script. */
module EditDistance {
  import opened Strings

  function Min3(a: nat, b: nat, c: nat): nat {
    var m := if a < b then a else b;
    if c < m then c else m
  }

  function Cost(a: char, b: char): nat {
    if a == b then 0 else 1
  }

  /** The distance by recurrence on the last characters. */
  function Dist(l: string, r: string): nat
    decreases |l| + |r|
  {
    if l == "" then |r|
    else if r == "" then |l|
    else
      var l', r' := l[..|l| - 1], r[..|r| - 1];
      Min3(Dist(l', r) + 1, Dist(l, r') + 1, Dist(l', r') + Cost(l[|l| - 1], r[|r| - 1]))
  }

  // ----- the table ----------------------------------------------------------------------------

  method MinInt(values: seq<nat>) returns (minimum: nat)
    requires values != []
    ensures minimum in values && forall i | 0 <= i < |values| :: minimum <= values[i]
    ensures |values| == 3 ==> minimum == Min3(values[0], values[1], values[2])
  {
    minimum := values[0];
    for i := 1 to |values|
      invariant minimum in values && forall j | 0 <= j < i :: minimum <= values[j]
    {
      if values[i] < minimum {
        minimum := values[i];
      }
    }
  }

  /** The distance of the first `i` characters of `l` from the first `j` of `r`. */
  function Cell(l: string, r: string, i: nat, j: nat): nat
    requires i <= |l| && j <= |r|
  {
    Dist(l[..i], r[..j])
  }

  method LevenshteinDistance(l: string, r: string) returns (distance: nat)
    ensures distance == Dist(l, r)
  {
    if |l| == 0 {
      return |r|;
    }
    if |r| == 0 {
      return |l|;
    }
    Borders(l, r);
    hide Dist, Cell, Min3;
    var previous := new nat[|r| + 1];
    var current := new nat[|r| + 1];
    for i := 0 to |r| + 1
      invariant forall j | 0 <= j < i :: previous[j] == j
    {
      previous[i] := i;
    }
    for i := 1 to |l| + 1
      invariant forall j | 0 <= j <= |r| :: previous[j] == Cell(l, r, i - 1, j)
    {
      FillRow(l, r, i, previous, current);
      Copy(previous, current);
    }
    return previous[|r|];
  }

  /** Row `i` of the table from the row above. */
  method FillRow(l: string, r: string, i: nat, previous: array<nat>, current: array<nat>)
    requires 0 < i <= |l| && previous != current && previous.Length == current.Length == |r| + 1
    requires Cell(l, r, i, 0) == i && forall j | 0 <= j <= |r| :: previous[j] == Cell(l, r, i - 1, j)
    modifies current
    ensures forall j | 0 <= j <= |r| :: current[j] == Cell(l, r, i, j)
  {
    hide Cell, Min3;
    current[0] := i;
    for j := 1 to |r| + 1
      invariant forall k | 0 <= k < j :: current[k] == Cell(l, r, i, k)
    {
      var cost := if l[i - 1] != r[j - 1] then 1 else 0;
      CellRecurrence(l, r, i, j);
      current[j] := MinInt([previous[j] + 1, current[j - 1] + 1, previous[j - 1] + cost]);
    }
  }

  method Copy(target: array<nat>, from: array<nat>)
    requires target != from && target.Length == from.Length
    modifies target
    ensures forall j | 0 <= j < from.Length :: target[j] == from[j]
  {
    for k := 0 to from.Length
      invariant forall j | 0 <= j < k :: target[j] == from[j]
    {
      target[k] := from[k];
    }
  }

  lemma Borders(l: string, r: string)
    ensures forall i | 0 <= i <= |l| :: Cell(l, r, i, 0) == i
    ensures forall j | 0 <= j <= |r| :: Cell(l, r, 0, j) == j
    ensures Cell(l, r, |l|, |r|) == Dist(l, r)
  {
    assert l[..|l|] == l && r[..|r|] == r;
  }

  lemma {:induction false} CellRecurrence(l: string, r: string, i: nat, j: nat)
    requires 0 < i <= |l| && 0 < j <= |r|
    ensures Cell(l, r, i, j) ==
            Min3(Cell(l, r, i - 1, j) + 1, Cell(l, r, i, j - 1) + 1,
                 Cell(l, r, i - 1, j - 1) + Cost(l[i - 1], r[j - 1]))
  {
    hide Min3, Cost;
    var x, y := l[..i], r[..j];
    assert x[..i - 1] == l[..i - 1] && y[..j - 1] == r[..j - 1];
    DistRecurrence(x, y);
  }

  lemma {:induction false} DistRecurrence(x: string, y: string)
    requires x != "" && y != ""
    ensures Dist(x, y) ==
            Min3(Dist(x[..|x| - 1], y) + 1, Dist(x, y[..|y| - 1]) + 1,
                 Dist(x[..|x| - 1], y[..|y| - 1]) + Cost(x[|x| - 1], y[|y| - 1]))
  {
    hide Min3, Cost;
  }

  // ----- edit scripts ---------------------------------------------------------------------------

  /** `b` is `a` with one character inserted, deleted or substituted. */
  ghost predicate OneEdit(a: string, b: string) {
    Inserted(a, b) || Inserted(b, a) || Substituted(a, b)
  }

  ghost predicate Inserted(a: string, b: string) {
    exists k | 0 <= k < |b| :: a == b[..k] + b[k + 1..]
  }

  ghost predicate Substituted(a: string, b: string) {
    |a| == |b| && exists k | 0 <= k < |a| :: a[..k] == b[..k] && a[k + 1..] == b[k + 1..]
  }

  /** Texts from `a` to `b`, each one edit away from the one before. */
  ghost predicate Script(s: seq<string>, a: string, b: string) {
    && s != [] && s[0] == a && s[|s| - 1] == b
    && forall i, j | 0 <= i && j == i + 1 < |s| :: OneEdit(s[i], s[j])
  }

  // ----- the recurrence is a metric -------------------------------------------------------------

  lemma {:induction false} DistSelf(a: string)
    ensures Dist(a, a) == 0
  {
    if a != "" {
      DistSelf(a[..|a| - 1]);
    }
  }

  lemma {:induction false} DistSymmetric(a: string, b: string)
    ensures Dist(a, b) == Dist(b, a)
    decreases |a| + |b|
  {
    if a != "" && b != "" {
      var a', b' := a[..|a| - 1], b[..|b| - 1];
      DistSymmetric(a', b);
      DistSymmetric(a, b');
      DistSymmetric(a', b');
    }
  }

  /** Dropping a last character costs at most one. */
  lemma DropLast(a: string, b: string)
    ensures a != "" ==> Dist(a, b) <= Dist(a[..|a| - 1], b) + 1
    ensures b != "" ==> Dist(a, b) <= Dist(a, b[..|b| - 1]) + 1
    ensures a != "" && b != "" ==> Dist(a, b) <= Dist(a[..|a| - 1], b[..|b| - 1]) + Cost(a[|a| - 1], b[|b| - 1])
  {
  }

  lemma {:induction false} LengthBound(a: string, b: string)
    ensures |a| <= Dist(a, b) + |b| && |b| <= Dist(a, b) + |a|
    decreases |a| + |b|
  {
    if a != "" && b != "" {
      var a', b' := a[..|a| - 1], b[..|b| - 1];
      LengthBound(a', b);
      LengthBound(a, b');
      LengthBound(a', b');
    }
  }

  lemma {:induction false} Triangle(a: string, b: string, c: string)
    ensures Dist(a, c) <= Dist(a, b) + Dist(b, c)
    decreases |a| + |b| + |c|
  {
    if a == "" || c == "" {
      LengthBound(a, b);
      LengthBound(b, c);
    } else if b == "" {
      DistUpper(a, c);
    } else {
      var a', b', c' := a[..|a| - 1], b[..|b| - 1], c[..|c| - 1];
      DropLast(a, c);
      if Dist(a, b) == Dist(a', b) + 1 {
        Triangle(a', b, c);
      } else if Dist(b, c) == Dist(b, c') + 1 {
        Triangle(a, b, c');
      } else if Dist(a, b) == Dist(a, b') + 1 {
        if Dist(b, c) == Dist(b', c) + 1 {
          Triangle(a, b', c);
        } else {
          Triangle(a, b', c');
        }
      } else if Dist(b, c) == Dist(b', c) + 1 {
        Triangle(a', b', c);
      } else {
        Triangle(a', b', c');
      }
    }
  }

  lemma {:induction false} DistUpper(a: string, c: string)
    ensures Dist(a, c) <= |a| + |c|
    decreases |a| + |c|
  {
    if a != "" && c != "" {
      DistUpper(a[..|a| - 1], c);
    }
  }

  // ----- no script is shorter ---------------------------------------------------------------------

  lemma TailFront(a: string, tail: string)
    requires tail != ""
    ensures a + tail != "" && (a + tail)[..|a + tail| - 1] == a + tail[..|tail| - 1]
    ensures (a + tail)[|a + tail| - 1] == tail[|tail| - 1]
  {
  }

  /** A common tail does not make texts more distant. */
  lemma {:induction false} CommonTail(a: string, b: string, tail: string)
    ensures Dist(a + tail, b + tail) <= Dist(a, b)
    decreases |tail|
  {
    hide Dist;
    if tail == "" {
      assert a + tail == a && b + tail == b;
    } else {
      CommonTail(a, b, tail[..|tail| - 1]);
      TailFront(a, tail);
      TailFront(b, tail);
      DropLast(a + tail, b + tail);
    }
  }

  lemma InsertedIsNear(a: string, b: string)
    requires Inserted(a, b)
    ensures Dist(a, b) <= 1
  {
    hide Dist;
    var k :| 0 <= k < |b| && a == b[..k] + b[k + 1..];
    CommonTail(b[..k], b[..k + 1], b[k + 1..]);
    assert b == b[..k + 1] + b[k + 1..];
    assert b[..k + 1][..k] == b[..k];
    DistSelf(b[..k]);
    DropLast(b[..k], b[..k + 1]);
  }

  lemma OneEditIsNear(a: string, b: string)
    requires OneEdit(a, b)
    ensures Dist(a, b) <= 1
  {
    if Inserted(a, b) {
      InsertedIsNear(a, b);
    } else if Inserted(b, a) {
      InsertedIsNear(b, a);
      DistSymmetric(a, b);
    } else {
      SubstitutedIsNear(a, b);
    }
  }

  lemma SubstitutedIsNear(a: string, b: string)
    requires Substituted(a, b)
    ensures Dist(a, b) <= 1
  {
    hide Dist;
    var k :| 0 <= k < |a| && a[..k] == b[..k] && a[k + 1..] == b[k + 1..];
    CommonTail(a[..k + 1], b[..k + 1], a[k + 1..]);
    assert a == a[..k + 1] + a[k + 1..] && b == b[..k + 1] + b[k + 1..];
    assert a[..k + 1][..k] == a[..k] && b[..k + 1][..k] == b[..k];
    DistSelf(a[..k]);
    DropLast(a[..k + 1], b[..k + 1]);
  }

  lemma {:induction false} NoScriptShorter(s: seq<string>, a: string, b: string)
    requires Script(s, a, b)
    ensures Dist(a, b) <= |s| - 1
    decreases |s|
  {
    if |s| == 1 {
      DistSelf(a);
    } else {
      var rest := s[1..];
      assert OneEdit(s[0], s[1]);
      NoScriptShorter(rest, s[1], b);
      OneEditIsNear(a, s[1]);
      Triangle(a, s[1], b);
    }
  }

  // ----- some script is that short ------------------------------------------------------------------

  lemma AppendToAll(s: seq<string>, a: string, b: string, c: char) returns (t: seq<string>)
    requires Script(s, a, b)
    ensures Script(t, a + [c], b + [c]) && |t| == |s|
  {
    t := seq(|s|, i requires 0 <= i < |s| => s[i] + [c]);
    forall i, j | 0 <= i && j == i + 1 < |t|
      ensures OneEdit(t[i], t[j])
    {
      assert OneEdit(s[i], s[j]);
      OneEditAppend(s[i], s[j], c);
    }
  }

  lemma OneEditAppend(a: string, b: string, c: char)
    requires OneEdit(a, b)
    ensures OneEdit(a + [c], b + [c])
  {
    if Inserted(a, b) {
      InsertedAppend(a, b, c);
    } else if Inserted(b, a) {
      InsertedAppend(b, a, c);
    } else {
      var k :| 0 <= k < |a| && a[..k] == b[..k] && a[k + 1..] == b[k + 1..];
      assert (a + [c])[..k] == a[..k] && (b + [c])[..k] == b[..k];
      assert (a + [c])[k + 1..] == a[k + 1..] + [c] && (b + [c])[k + 1..] == b[k + 1..] + [c];
      assert Substituted(a + [c], b + [c]);
    }
  }

  lemma InsertedAppend(a: string, b: string, c: char)
    requires Inserted(a, b)
    ensures Inserted(a + [c], b + [c])
  {
    var k :| 0 <= k < |b| && a == b[..k] + b[k + 1..];
    assert (b + [c])[..k] == b[..k] && (b + [c])[k + 1..] == b[k + 1..] + [c];
    assert a + [c] == (b + [c])[..k] + (b + [c])[k + 1..];
  }

  lemma OneMoreEdit(s: seq<string>, a: string, b: string, c: string) returns (t: seq<string>)
    requires Script(s, a, b) && OneEdit(b, c)
    ensures Script(t, a, c) && |t| == |s| + 1
  {
    t := s + [c];
    forall i, j | 0 <= i && j == i + 1 < |t|
      ensures OneEdit(t[i], t[j])
    {
      if j < |s| {
        assert OneEdit(s[i], s[j]);
      }
    }
  }

  lemma LastInserted(b: string)
    requires b != ""
    ensures Inserted(b[..|b| - 1], b)
  {
    var k := |b| - 1;
    assert b[..k] == b[..k] + b[k + 1..];
  }

  lemma {:induction false} ShortestScript(a: string, b: string) returns (s: seq<string>)
    ensures Script(s, a, b) && |s| == Dist(a, b) + 1
    decreases |a| + |b|
  {
    if a == "" && b == "" {
      s := [a];
    } else if b != "" && Dist(a, b) == Dist(a, b[..|b| - 1]) + 1 {
      var b' := b[..|b| - 1];
      s := ShortestScript(a, b');
      LastInserted(b);
      s := OneMoreEdit(s, a, b', b);
    } else if a != "" && Dist(a, b) == Dist(a[..|a| - 1], b) + 1 {
      var a' := a[..|a| - 1];
      s := ShortestScript(a', b);
      LastInserted(a);
      s := EditFirst(s, a, a', b);
    } else {
      s := SubstituteLast(a, b);
    }
  }

  lemma EditFirst(s: seq<string>, a: string, b: string, c: string) returns (t: seq<string>)
    requires Script(s, b, c) && OneEdit(a, b)
    ensures Script(t, a, c) && |t| == |s| + 1
  {
    t := [a] + s;
    forall i, j | 0 <= i && j == i + 1 < |t|
      ensures OneEdit(t[i], t[j])
    {
      if i > 0 {
        assert OneEdit(s[i - 1], s[j - 1]);
      }
    }
  }

  lemma {:induction false} SubstituteLast(a: string, b: string) returns (s: seq<string>)
    requires a != "" && b != ""
    requires Dist(a, b) == Dist(a[..|a| - 1], b[..|b| - 1]) + Cost(a[|a| - 1], b[|b| - 1])
    ensures Script(s, a, b) && |s| == Dist(a, b) + 1
    decreases |a| + |b|, 0
  {
    var a', b', x, y := a[..|a| - 1], b[..|b| - 1], a[|a| - 1], b[|b| - 1];
    s := ShortestScript(a', b');
    s := AppendToAll(s, a', b', x);
    assert a' + [x] == a && b' + [y] == b;
    if x != y {
      assert (b' + [x])[..|b'|] == b[..|b'|] && (b' + [x])[|b'| + 1..] == b[|b'| + 1..];
      assert Substituted(b' + [x], b);
      s := OneMoreEdit(s, a, b' + [x], b);
    }
  }

  // ----- main results ---------------------------------------------------------------------------------

  /** The computed distance is the length of a shortest edit script. */
  lemma DistanceIsShortestScript(a: string, b: string)
    ensures exists s :: Script(s, a, b) && |s| - 1 == Dist(a, b)
    ensures forall s :: Script(s, a, b) ==> Dist(a, b) <= |s| - 1
  {
    var s := ShortestScript(a, b);
    assert Script(s, a, b) && |s| - 1 == Dist(a, b);
    forall t | Script(t, a, b) ensures Dist(a, b) <= |t| - 1 {
      NoScriptShorter(t, a, b);
    }
  }

  predicate Contains(a: string, b: string) {
    exists i | 0 <= i <= |a| :: b <= a[i..]
  }

  /** `IsSimilarStoreName` on two normalized names. */
  predicate IsSimilar(left: string, right: string) {
    if left == "" || right == "" || left == right then left == right
    else Contains(left, right) || Contains(right, left) || Dist(left, right) <= 2
  }

  /** The comparison of two names as given, with whatever `normalize` makes of each. */
  predicate IsSimilarStoreName(normalize: string -> string, left: string, right: string) {
    IsSimilar(normalize(left), normalize(right))
  }

  /** However names are normalized, similarity does not depend on which one comes first. */
  lemma SimilaritySymmetric(normalize: string -> string, left: string, right: string)
    ensures IsSimilarStoreName(normalize, left, right) == IsSimilarStoreName(normalize, right, left)
  {
    DistSymmetric(normalize(left), normalize(right));
  }

  ghost predicate PartOf(a: string, b: string) {
    exists x: string, y: string :: b == x + a + y
  }

  lemma ContainsIsPart(a: string, b: string)
    ensures Contains(b, a) <==> PartOf(a, b)
  {
    if i :| 0 <= i <= |b| && a <= b[i..] {
      assert b == b[..i] + a + b[i..][|a|..];
    }
    if x: string, y: string :| b == x + a + y {
      assert b[|x|..] == a + y;
    }
  }

  /** Normalized names are similar exactly when they are equal, or neither is empty and one
      is part of the other or two edits turn one into the other. */
  lemma SimilarityMeaning(left: string, right: string)
    ensures IsSimilar(left, right) <==>
            || left == right
            || (left != "" && right != "" &&
                (PartOf(left, right) || PartOf(right, left) || exists s :: Script(s, left, right) && |s| <= 3))
  {
    ContainsIsPart(left, right);
    ContainsIsPart(right, left);
    DistanceIsShortestScript(left, right);
    hide Contains, PartOf, Script, Dist;
  }
}
