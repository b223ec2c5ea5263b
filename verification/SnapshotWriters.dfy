/** Snapshot requests that overlap: prepare event, opening the old object, save, final
    event and rollback as atomic steps in any interleaving, and when the stored bytes
    are still those of the last accepted upload. */
module SnapshotWriters {
  import opened Assets
  import opened Bytes
  import opened Options
  import opened SnapshotTransaction

  datatype Phase =
    | Begun
    | Audited
    | Opened
    | Written
    | Undoing
    | Accepted
    | RolledBack
    | Stuck
    | Failed(response: Response)

  /** A save is told apart by its number in the order of all saves, from 1 on; 0 is what
      was there at first.  From its opening on, an upload has its way back (`rollback`),
      the save whose bytes that is (`read`) and the number of saves so far (`seen`). */
  datatype Upload = Upload(key: string, body: seq<byte>, phase: Phase, rollback: Rollback, read: nat, seen: nat) {
    /** Its bytes were saved and not taken back. */
    predicate Kept() {
      phase == Written || phase == Undoing || phase == Accepted || phase == Stuck
    }

    predicate HasSaved() {
      Kept() || phase == RolledBack
    }

    /** Between the opening and the end. */
    predicate HasWayBack() {
      phase == Opened || phase == Written || phase == Undoing
    }

    function Answer(): Option<Response> {
      match phase
      case Accepted => Some(NoContent)
      case RolledBack => Some(AuditUnavailable)
      case Stuck => Some(RollbackFailed)
      case Failed(response) => Some(response)
      case _ => None
    }
  }

  /** `saves` lists the uploads in the order of their saves; `holders` says which save
      an object's bytes are. */
  datatype Site = Site(objects: Objects, uploads: seq<Upload>, saves: seq<nat>, holders: map<string, nat>)

  datatype Step =
    | Arrive(key: string, body: seq<byte>)
    | Prepare(i: nat, written: bool)
    | Open(i: nat, opening: Opening)
    | Save(i: nat, works: bool)
    | Finish(i: nat, written: bool)
    | Undo(i: nat, works: bool)

  function Holder(w: Site, key: string): nat {
    if key in w.holders then w.holders[key] else 0
  }

  predicate At(w: Site, i: nat, phase: Phase) {
    i < |w.uploads| && w.uploads[i].phase == phase
  }

  predicate Enabled(w: Site, step: Step) {
    match step
    case Arrive(_, _) => true
    case Prepare(i, _) => At(w, i, Begun)
    case Open(i, _) => At(w, i, Audited)
    case Save(i, _) => At(w, i, Opened)
    case Finish(i, _) => At(w, i, Written)
    case Undo(i, _) => At(w, i, Undoing)
  }

  function Move(w: Site, i: nat, phase: Phase): Site
    requires i < |w.uploads|
  {
    w.(uploads := w.uploads[i := w.uploads[i].(phase := phase)])
  }

  predicate UndoWorks(u: Upload, works: bool, canDelete: bool) {
    works && (u.rollback.existed || canDelete)
  }

  /** The steps of `SaveAudited`, over the object operations of the store. */
  function Next(w: Site, step: Step, canDelete: bool): Site
    requires Enabled(w, step)
  {
    match step
    case Arrive(key, body) =>
      w.(uploads := w.uploads + [Upload(key, body, Begun, Rollback(key, [], false), 0, 0)])
    case Prepare(i, written) => Move(w, i, if written then Audited else Failed(AuditUnavailable))
    case Open(i, opening) =>
      var u := w.uploads[i];
      if Undoable(w.objects, u.key, opening, canDelete) then
        var ready := u.(phase := Opened, rollback := RollbackOf(w.objects, u.key),
                        read := Holder(w, u.key), seen := |w.saves|);
        w.(uploads := w.uploads[i := ready])
      else Move(w, i, Failed(SaveFailed))
    case Save(i, works) =>
      var u := w.uploads[i];
      if works then
        Move(w, i, Written).(objects := w.objects[u.key := Object(u.body, IMAGE_JPEG)],
                             saves := w.saves + [i],
                             holders := w.holders[u.key := |w.saves| + 1])
      else Move(w, i, Failed(SaveFailed))
    case Finish(i, written) => Move(w, i, if written then Accepted else Undoing)
    case Undo(i, works) =>
      var u := w.uploads[i];
      if UndoWorks(u, works, canDelete) then
        Move(w, i, RolledBack).(objects := Undone(w.objects, u.rollback), holders := w.holders[u.key := u.read])
      else Move(w, i, Stuck)
  }

  // ----- what should be stored -------------------------------------------------------------------

  /** Save number `n` wrote this key and was not taken back. */
  predicate KeptSave(w: Site, key: string, n: nat)
    requires 0 < n <= |w.saves|
  {
    var i := w.saves[n - 1];
    i < |w.uploads| && w.uploads[i].key == key && w.uploads[i].Kept()
  }

  /** The last of the first `n` saves of a key that was not taken back, or 0. */
  function LastKept(w: Site, key: string, n: nat): (last: nat)
    requires n <= |w.saves|
    ensures last <= n
  {
    if n == 0 then 0 else if KeptSave(w, key, n) then n else LastKept(w, key, n - 1)
  }

  /** The object is the last upload that was not taken back. */
  predicate Right(w: Site, key: string) {
    Holder(w, key) == LastKept(w, key, |w.saves|)
  }

  lemma {:induction false} LastKeptMeans(w: Site, key: string, n: nat, last: nat)
    requires last <= n <= |w.saves|
    ensures LastKept(w, key, n) == last <==>
            (last == 0 || KeptSave(w, key, last)) && forall m | last < m <= n :: !KeptSave(w, key, m)
  {
    if n > 0 && last < n {
      LastKeptMeans(w, key, n - 1, last);
    }
  }

  // ----- well-formed sites ------------------------------------------------------------------------

  ghost predicate Valid(w: Site) {
    && (forall n | 0 <= n < |w.saves| :: w.saves[n] < |w.uploads| && w.uploads[w.saves[n]].HasSaved())
    && (forall key | key in w.holders :: w.holders[key] <= |w.saves|)
    && (forall i | 0 <= i < |w.uploads| :: Placed(w, i))
  }

  /** What an upload read is older than its opening, and its save is newer. */
  predicate Placed(w: Site, i: nat)
    requires i < |w.uploads|
  {
    var u := w.uploads[i];
    && u.rollback.key == u.key && u.read <= u.seen <= |w.saves|
    && (u.HasSaved() || u.phase == Opened ==> forall n | 0 <= n < u.seen :: w.saves[n] != i)
    && (u.HasSaved() <==> i in w.saves)
  }

  lemma PlacedStays(w: Site, step: Step, canDelete: bool, i: nat)
    requires Valid(w) && Enabled(w, step) && i < |Next(w, step, canDelete).uploads|
    ensures Placed(Next(w, step, canDelete), i)
  {
    if i < |w.uploads| {
      assert Placed(w, i);
    }
    hide Undoable, Undone;
  }

  lemma HoldersStay(w: Site, step: Step, canDelete: bool)
    requires Valid(w) && Enabled(w, step)
    ensures var after := Next(w, step, canDelete);
            forall key | key in after.holders :: after.holders[key] <= |after.saves|
  {
    if step.Undo? {
      assert Placed(w, step.i);
    }
    hide Undoable, Undone, RollbackOf, Placed;
  }

  lemma SavesStay(w: Site, step: Step, canDelete: bool)
    requires Valid(w) && Enabled(w, step)
    ensures var after := Next(w, step, canDelete);
            forall n | 0 <= n < |after.saves| ::
                after.saves[n] < |after.uploads| && after.uploads[after.saves[n]].HasSaved()
  {
    hide Undoable, Undone, RollbackOf, Placed;
  }

  lemma StepKeepsValid(w: Site, step: Step, canDelete: bool)
    requires Valid(w) && Enabled(w, step)
    ensures Valid(Next(w, step, canDelete))
  {
    forall i | 0 <= i < |Next(w, step, canDelete).uploads| ensures Placed(Next(w, step, canDelete), i) {
      PlacedStays(w, step, canDelete, i);
    }
    HoldersStay(w, step, canDelete);
    SavesStay(w, step, canDelete);
    hide Next, Placed;
  }

  // ----- runs --------------------------------------------------------------------------------------

  /** Where the steps lead from a store with these objects. */
  function SiteAfter(objects: Objects, steps: seq<Step>, canDelete: bool): Site {
    if steps == [] then Site(objects, [], [], map[])
    else
      var before := SiteAfter(objects, steps[..|steps| - 1], canDelete);
      if Enabled(before, steps[|steps| - 1]) then Next(before, steps[|steps| - 1], canDelete) else before
  }

  predicate Possible(objects: Objects, steps: seq<Step>, canDelete: bool) {
    steps == [] ||
    (Possible(objects, steps[..|steps| - 1], canDelete) &&
     Enabled(SiteAfter(objects, steps[..|steps| - 1], canDelete), steps[|steps| - 1]))
  }

  lemma {:induction false} RunIsValid(objects: Objects, steps: seq<Step>, canDelete: bool)
    requires Possible(objects, steps, canDelete)
    ensures Valid(SiteAfter(objects, steps, canDelete))
  {
    hide Valid, Next, Enabled;
    if steps == [] {
      NothingIsValid(objects);
    } else {
      RunIsValid(objects, steps[..|steps| - 1], canDelete);
      StepKeepsValid(SiteAfter(objects, steps[..|steps| - 1], canDelete), steps[|steps| - 1], canDelete);
    }
  }

  lemma NothingIsValid(objects: Objects)
    ensures Valid(Site(objects, [], [], map[]))
  {
  }

  // ----- one step ------------------------------------------------------------------------------------

  /** The step saves or takes back bytes of this key. */
  predicate WritesKey(w: Site, step: Step, canDelete: bool, key: string)
    requires Enabled(w, step)
  {
    match step
    case Save(i, works) => works && w.uploads[i].key == key
    case Undo(i, works) => UndoWorks(w.uploads[i], works, canDelete) && w.uploads[i].key == key
    case _ => false
  }

  /** The way back of upload `i` leads to the last upload that then stays: what it read
      still stands, and every other save of the key since is taken back already. */
  predicate LeadsBack(w: Site, i: nat)
    requires i < |w.uploads|
  {
    var u := w.uploads[i];
    && Placed(w, i)
    && (u.read > 0 ==> KeptSave(w, u.key, u.read))
    && forall n | u.read < n <= |w.saves| && w.saves[n - 1] != i :: !KeptSave(w, u.key, n)
  }

  lemma SaveIsRight(w: Site, i: nat, canDelete: bool)
    requires Valid(w) && Enabled(w, Save(i, true))
    ensures Right(Next(w, Save(i, true), canDelete), w.uploads[i].key)
  {
  }

  lemma UndoIsRight(w: Site, i: nat, canDelete: bool)
    requires Valid(w) && Enabled(w, Undo(i, true)) && UndoWorks(w.uploads[i], true, canDelete)
    ensures Right(Next(w, Undo(i, true), canDelete), w.uploads[i].key) <==> LeadsBack(w, i)
  {
    var after, u := Next(w, Undo(i, true), canDelete), w.uploads[i];
    assert Placed(w, i);
    forall n | 0 < n <= |w.saves|
      ensures KeptSave(after, u.key, n) <==> KeptSave(w, u.key, n) && w.saves[n - 1] != i
    {
    }
    LastKeptMeans(after, u.key, |after.saves|, u.read);
  }

  lemma {:induction false} SameKept(w: Site, after: Site, key: string, n: nat)
    requires n <= |w.saves| <= |after.saves|
    requires forall m | 0 < m <= n :: KeptSave(after, key, m) <==> KeptSave(w, key, m)
    ensures LastKept(after, key, n) == LastKept(w, key, n)
  {
    if n > 0 {
      SameKept(w, after, key, n - 1);
    }
  }

  lemma OtherStepKeepsRight(w: Site, step: Step, canDelete: bool, key: string)
    requires Valid(w) && Enabled(w, step) && !WritesKey(w, step, canDelete, key)
    ensures Right(Next(w, step, canDelete), key) <==> Right(w, key)
  {
    var after := Next(w, step, canDelete);
    forall n | 0 < n <= |w.saves| ensures KeptSave(after, key, n) <==> KeptSave(w, key, n) {
    }
    SameKept(w, after, key, |w.saves|);
    if step.Save? && step.works {
      assert !KeptSave(after, key, |after.saves|);
    }
  }

  // ----- any moment -----------------------------------------------------------------------------------

  /** The last step that wrote the key was a save, or a rollback that led back. */
  predicate LastWriteLeads(objects: Objects, steps: seq<Step>, canDelete: bool, key: string)
    requires Possible(objects, steps, canDelete)
  {
    if steps == [] then true
    else
      var front, last := steps[..|steps| - 1], steps[|steps| - 1];
      var before := SiteAfter(objects, front, canDelete);
      if !WritesKey(before, last, canDelete, key) then LastWriteLeads(objects, front, canDelete, key)
      else last.Save? || (last.Undo? && LeadsBack(before, last.i))
  }

  /** At any moment of any run, the object is the last upload that was not taken back
      exactly when its last write was a save, or a rollback by a request whose read
      still stands and since which every other save is taken back. */
  lemma {:induction false} RightExactly(objects: Objects, steps: seq<Step>, canDelete: bool, key: string)
    requires Possible(objects, steps, canDelete)
    ensures Right(SiteAfter(objects, steps, canDelete), key) <==> LastWriteLeads(objects, steps, canDelete, key)
  {
    hide Valid, Next, Enabled, Right, LeadsBack;
    if steps == [] {
      NothingIsRight(objects, key);
    } else {
      var front, last := steps[..|steps| - 1], steps[|steps| - 1];
      RunIsValid(objects, front, canDelete);
      RightExactly(objects, front, canDelete, key);
      StepIsRight(SiteAfter(objects, front, canDelete), last, canDelete, key);
    }
  }

  lemma NothingIsRight(objects: Objects, key: string)
    ensures Right(Site(objects, [], [], map[]), key)
  {
  }

  /** Each kind of step, on the key or not. */
  lemma StepIsRight(w: Site, step: Step, canDelete: bool, key: string)
    requires Valid(w) && Enabled(w, step)
    ensures !WritesKey(w, step, canDelete, key) ==> (Right(Next(w, step, canDelete), key) <==> Right(w, key))
    ensures WritesKey(w, step, canDelete, key) ==>
              step.i < |w.uploads| && (step.Save? || step.Undo?) && w.uploads[step.i].key == key &&
              (Right(Next(w, step, canDelete), key) <==> step.Save? || LeadsBack(w, step.i))
  {
    if !WritesKey(w, step, canDelete, key) {
      OtherStepKeepsRight(w, step, canDelete, key);
    } else if step.Save? {
      SaveIsRight(w, step.i, canDelete);
    } else {
      UndoIsRight(w, step.i, canDelete);
    }
  }

  // ----- all the way ------------------------------------------------------------------------------------

  /** No other request has its way in: what upload `i` read still stands, and every other
      save of the key between its reading and its rollback is taken back before. */
  predicate Undisturbed(w: Site, i: nat)
    requires i < |w.uploads|
  {
    var u := w.uploads[i];
    && Placed(w, i)
    && (u.read > 0 ==> KeptSave(w, u.key, u.read))
    && forall n | u.seen < n <= |w.saves| && w.saves[n - 1] != i :: !KeptSave(w, u.key, n)
  }

  /** Between what it read and its reading nothing stays. */
  predicate ReadLast(w: Site, i: nat)
    requires i < |w.uploads|
  {
    var u := w.uploads[i];
    Placed(w, i) && (u.HasWayBack() ==> forall n | u.read < n <= u.seen :: !KeptSave(w, u.key, n))
  }

  ghost predicate AllReadLast(w: Site, key: string) {
    forall i | 0 <= i < |w.uploads| && w.uploads[i].key == key :: ReadLast(w, i)
  }

  lemma UndisturbedLeadsBack(w: Site, i: nat)
    requires Valid(w) && i < |w.uploads| && w.uploads[i].phase == Undoing && ReadLast(w, i)
    ensures Undisturbed(w, i) <==> LeadsBack(w, i)
  {
  }

  /** A save that does not stay never comes to stay again. */
  lemma NotKeptStays(w: Site, step: Step, canDelete: bool, key: string, n: nat)
    requires Valid(w) && Enabled(w, step) && 0 < n <= |w.saves| && !KeptSave(w, key, n)
    ensures |Next(w, step, canDelete).saves| >= n && !KeptSave(Next(w, step, canDelete), key, n)
  {
    hide Undoable, Undone, RollbackOf;
  }

  lemma StepKeepsReadLast(w: Site, step: Step, canDelete: bool, key: string)
    requires Valid(w) && Enabled(w, step) && Right(w, key) && AllReadLast(w, key)
    ensures AllReadLast(Next(w, step, canDelete), key)
  {
    var after := Next(w, step, canDelete);
    StepKeepsValid(w, step, canDelete);
    forall i | 0 <= i < |after.uploads| && after.uploads[i].key == key ensures ReadLast(after, i) {
      assert Placed(after, i);
      if i < |w.uploads| && w.uploads[i].HasWayBack() {
        StillReadLast(w, step, canDelete, i);
      } else if step.Open? && step.i == i {
        LastKeptMeans(w, key, |w.saves|, Holder(w, key));
        OpeningReadsLast(w, step, canDelete, key);
      }
    }
  }

  lemma StillReadLast(w: Site, step: Step, canDelete: bool, i: nat)
    requires Valid(w) && Enabled(w, step) && i < |w.uploads| && w.uploads[i].HasWayBack() && ReadLast(w, i)
    requires Placed(Next(w, step, canDelete), i)
    ensures ReadLast(Next(w, step, canDelete), i)
  {
    var after, u := Next(w, step, canDelete), w.uploads[i];
    assert after.uploads[i].read == u.read && after.uploads[i].seen == u.seen && after.uploads[i].key == u.key;
    forall n | u.read < n <= u.seen ensures !KeptSave(after, u.key, n) {
      NotKeptStays(w, step, canDelete, u.key, n);
    }
  }

  lemma OpeningReadsLast(w: Site, step: Step, canDelete: bool, key: string)
    requires Valid(w) && Enabled(w, step) && step.Open? && w.uploads[step.i].key == key
    requires forall n | Holder(w, key) < n <= |w.saves| :: !KeptSave(w, key, n)
    requires Placed(Next(w, step, canDelete), step.i)
    ensures ReadLast(Next(w, step, canDelete), step.i)
  {
    var after := Next(w, step, canDelete);
    forall n | Holder(w, key) < n <= |w.saves| ensures !KeptSave(after, key, n) {
      NotKeptStays(w, step, canDelete, key, n);
    }
  }

  predicate RightAt(objects: Objects, steps: seq<Step>, canDelete: bool, key: string, n: nat)
    requires n <= |steps|
  {
    Right(SiteAfter(objects, steps[..n], canDelete), key)
  }

  /** If step `n` rolls this key back, no other request disturbed it. */
  predicate CleanAt(objects: Objects, steps: seq<Step>, canDelete: bool, key: string, n: nat)
    requires n < |steps|
  {
    var w := SiteAfter(objects, steps[..n], canDelete);
    Enabled(w, steps[n]) && steps[n].Undo? && WritesKey(w, steps[n], canDelete, key) ==>
      Undisturbed(w, steps[n].i)
  }

  lemma SamePrefix(objects: Objects, steps: seq<Step>, canDelete: bool, key: string, n: nat)
    requires n < |steps|
    ensures var front := steps[..|steps| - 1];
            && (RightAt(objects, steps, canDelete, key, n) <==> RightAt(objects, front, canDelete, key, n))
            && (n < |front| ==>
                  (CleanAt(objects, steps, canDelete, key, n) <==> CleanAt(objects, front, canDelete, key, n)))
  {
    assert steps[..|steps| - 1][..n] == steps[..n];
  }

  lemma LastStepRight(objects: Objects, steps: seq<Step>, canDelete: bool, key: string)
    requires Possible(objects, steps, canDelete) && steps != []
    requires RightAt(objects, steps, canDelete, key, |steps| - 1)
    requires AllReadLast(SiteAfter(objects, steps[..|steps| - 1], canDelete), key)
    ensures RightAt(objects, steps, canDelete, key, |steps|) <==> CleanAt(objects, steps, canDelete, key, |steps| - 1)
    ensures AllReadLast(SiteAfter(objects, steps, canDelete), key)
  {
    var front, last := steps[..|steps| - 1], steps[|steps| - 1];
    var w := SiteAfter(objects, front, canDelete);
    assert steps[..|steps|] == steps;
    RunIsValid(objects, front, canDelete);
    StepIsRight(w, last, canDelete, key);
    StepKeepsReadLast(w, last, canDelete, key);
    if last.Undo? && WritesKey(w, last, canDelete, key) {
      assert ReadLast(w, last.i);
      UndisturbedLeadsBack(w, last.i);
    }
    hide Valid, Next, Right, LeadsBack, Undisturbed, AllReadLast;
  }

  /** In every run, the object is at every moment the last upload that was not taken back
      exactly when no rollback of the key was disturbed by another request. */
  lemma {:induction false} RightAllTheWay(objects: Objects, steps: seq<Step>, canDelete: bool, key: string)
    requires Possible(objects, steps, canDelete)
    ensures (forall n | 0 <= n <= |steps| :: RightAt(objects, steps, canDelete, key, n)) <==>
            (forall n | 0 <= n < |steps| :: CleanAt(objects, steps, canDelete, key, n))
    ensures (forall n | 0 <= n <= |steps| :: RightAt(objects, steps, canDelete, key, n)) ==>
              AllReadLast(SiteAfter(objects, steps, canDelete), key)
  {
    hide RightAt, CleanAt, AllReadLast, Enabled;
    if steps == [] {
      NothingIsRightYet(objects, canDelete, key);
    } else {
      var last := |steps| - 1;
      var front := steps[..last];
      RightAllTheWay(objects, front, canDelete, key);
      forall n | 0 <= n <= last
        ensures RightAt(objects, steps, canDelete, key, n) <==> RightAt(objects, front, canDelete, key, n)
        ensures n < last ==> (CleanAt(objects, steps, canDelete, key, n) <==>
                  CleanAt(objects, front, canDelete, key, n))
      {
        SamePrefix(objects, steps, canDelete, key, n);
      }
      if forall n | 0 <= n <= last :: RightAt(objects, steps, canDelete, key, n) {
        LastStepRight(objects, steps, canDelete, key);
      }
    }
  }

  lemma NothingIsRightYet(objects: Objects, canDelete: bool, key: string)
    ensures RightAt(objects, [], canDelete, key, 0)
    ensures AllReadLast(SiteAfter(objects, [], canDelete), key)
  {
  }

  // ----- the bytes ------------------------------------------------------------------------------------------

  /** The bytes that a save of the key wrote. */
  function BytesOf(w: Site, first: Objects, key: string, n: nat): Option<seq<byte>> {
    if 0 < n <= |w.saves| &&
        w.saves[n - 1] < |w.uploads| then Some(w.uploads[w.saves[n - 1]].body) else Body(first, key)
  }

  /** A save of the key, or what was there at first. */
  predicate IsSaveOf(w: Site, key: string, n: nat) {
    n <= |w.saves| && (n > 0 ==> w.saves[n - 1] < |w.uploads| && w.uploads[w.saves[n - 1]].key == key)
  }

  predicate HolderTells(w: Site, first: Objects, key: string) {
    var h := Holder(w, key);
    IsSaveOf(w, key, h) && Body(w.objects, key) == BytesOf(w, first, key, h)
  }

  predicate WayBackTells(w: Site, first: Objects, i: nat)
    requires i < |w.uploads|
  {
    var u := w.uploads[i];
    u.HasWayBack() ==>
      && u.rollback.key == u.key && IsSaveOf(w, u.key, u.read)
      && (if u.rollback.existed then Some(u.rollback.body) else None) == BytesOf(w, first, u.key, u.read)
  }

  ghost predicate Tells(w: Site, first: Objects) {
    && (forall key :: HolderTells(w, first, key))
    && (forall i | 0 <= i < |w.uploads| :: WayBackTells(w, first, i))
  }

  lemma BytesStay(w: Site, step: Step, canDelete: bool, first: Objects, key: string, n: nat)
    requires Enabled(w, step) && IsSaveOf(w, key, n)
    ensures IsSaveOf(Next(w, step, canDelete), key, n)
    ensures BytesOf(Next(w, step, canDelete), first, key, n) == BytesOf(w, first, key, n)
  {
    hide Undoable, Undone, RollbackOf;
  }

  lemma StepKeepsHolder(w: Site, step: Step, canDelete: bool, first: Objects, key: string)
    requires Enabled(w, step) && HolderTells(w, first, key)
    requires step.Undo? ==> WayBackTells(w, first, step.i)
    ensures HolderTells(Next(w, step, canDelete), first, key)
  {
    BytesStay(w, step, canDelete, first, key, Holder(w, key));
    if step.Undo? {
      BytesStay(w, step, canDelete, first, w.uploads[step.i].key, w.uploads[step.i].read);
    }
    hide BytesOf, IsSaveOf, Undoable;
    if step.Save? && step.works {
      SavedBytes(w, step.i, canDelete, first);
    }
  }

  lemma SavedBytes(w: Site, i: nat, canDelete: bool, first: Objects)
    requires Enabled(w, Save(i, true))
    ensures var after, u := Next(w, Save(i, true), canDelete), w.uploads[i];
            IsSaveOf(after, u.key, |after.saves|) && BytesOf(after, first, u.key, |after.saves|) == Some(u.body)
  {
  }

  lemma StepKeepsWayBack(w: Site, step: Step, canDelete: bool, first: Objects, i: nat)
    requires Enabled(w, step) && i < |Next(w, step, canDelete).uploads|
    requires i < |w.uploads| ==> WayBackTells(w, first, i) && HolderTells(w, first, w.uploads[i].key)
    ensures WayBackTells(Next(w, step, canDelete), first, i)
  {
    if i < |w.uploads| {
      var u := w.uploads[i];
      if u.HasWayBack() {
        BytesStay(w, step, canDelete, first, u.key, u.read);
      }
      BytesStay(w, step, canDelete, first, u.key, Holder(w, u.key));
    }
    hide BytesOf, IsSaveOf, Undoable;
  }

  lemma StepKeepsTells(w: Site, step: Step, canDelete: bool, first: Objects)
    requires Enabled(w, step) && Tells(w, first)
    ensures Tells(Next(w, step, canDelete), first)
  {
    var after := Next(w, step, canDelete);
    forall key ensures HolderTells(after, first, key) {
      StepKeepsHolder(w, step, canDelete, first, key);
    }
    forall i | 0 <= i < |after.uploads| ensures WayBackTells(after, first, i) {
      StepKeepsWayBack(w, step, canDelete, first, i);
    }
  }

  lemma {:induction false} RunTells(objects: Objects, steps: seq<Step>, canDelete: bool)
    requires Possible(objects, steps, canDelete)
    ensures Tells(SiteAfter(objects, steps, canDelete), objects)
  {
    hide Tells, Next, Enabled;
    if steps == [] {
      NothingTells(objects);
    } else {
      RunTells(objects, steps[..|steps| - 1], canDelete);
      StepKeepsTells(SiteAfter(objects, steps[..|steps| - 1], canDelete), steps[|steps| - 1], canDelete, objects);
    }
  }

  lemma NothingTells(objects: Objects)
    ensures Tells(Site(objects, [], [], map[]), objects)
  {
  }

  /** The uploads of a key differ from one another and from what was there at first. */
  predicate Distinguishable(w: Site, first: Objects, key: string) {
    && (forall i | 0 <= i < |w.uploads| && w.uploads[i].key == key :: Some(w.uploads[i].body) != Body(first, key))
    && (forall i, j | 0 <= i < j < |w.uploads| && w.uploads[i].key == w.uploads[j].key == key ::
          w.uploads[i].body != w.uploads[j].body)
  }

  /** No upload is saved twice. */
  ghost predicate SavedOnce(w: Site) {
    forall m, n | 0 <= m < n < |w.saves| :: w.saves[m] != w.saves[n]
  }

  lemma StepKeepsSavedOnce(w: Site, step: Step, canDelete: bool)
    requires Valid(w) && Enabled(w, step) && SavedOnce(w)
    ensures SavedOnce(Next(w, step, canDelete))
  {
    if step.Save? {
      assert Placed(w, step.i);
    }
  }

  lemma {:induction false} RunSavesOnce(objects: Objects, steps: seq<Step>, canDelete: bool)
    requires Possible(objects, steps, canDelete)
    ensures SavedOnce(SiteAfter(objects, steps, canDelete))
  {
    hide Valid, Next, Enabled;
    if steps != [] {
      RunSavesOnce(objects, steps[..|steps| - 1], canDelete);
      RunIsValid(objects, steps[..|steps| - 1], canDelete);
      StepKeepsSavedOnce(SiteAfter(objects, steps[..|steps| - 1], canDelete), steps[|steps| - 1], canDelete);
    }
  }

  /** In every run the right object means the right bytes, and the other way round as soon
      as bytes can tell uploads apart. */
  lemma RightMeansBytes(objects: Objects, steps: seq<Step>, canDelete: bool, key: string)
    requires Possible(objects, steps, canDelete)
    ensures var w := SiteAfter(objects, steps, canDelete);
            var last := BytesOf(w, objects, key, LastKept(w, key, |w.saves|));
            && (Right(w, key) ==> Body(w.objects, key) == last)
            && (Distinguishable(w, objects, key) ==> (Right(w, key) <==> Body(w.objects, key) == last))
  {
    var w := SiteAfter(objects, steps, canDelete);
    RunTells(objects, steps, canDelete);
    RunSavesOnce(objects, steps, canDelete);
    assert HolderTells(w, objects, key);
    LastKeptMeans(w, key, |w.saves|, LastKept(w, key, |w.saves|));
    hide SiteAfter, LastKept;
  }

  lemma DistinguishableBefore(w: Site, step: Step, canDelete: bool, first: Objects, key: string)
    requires Enabled(w, step) && Distinguishable(Next(w, step, canDelete), first, key)
    ensures Distinguishable(w, first, key)
  {
    var after := Next(w, step, canDelete);
    assert forall i | 0 <= i < |w.uploads| ::
        after.uploads[i].key == w.uploads[i].key && after.uploads[i].body == w.uploads[i].body;
  }

  lemma {:induction false} DistinguishableEarlier(objects: Objects, steps: seq<Step>, canDelete: bool, key: string,
                                                  n: nat)
    requires Possible(objects, steps, canDelete) && n <= |steps|
    requires Distinguishable(SiteAfter(objects, steps, canDelete), objects, key)
    ensures Possible(objects, steps[..n], canDelete)
    ensures Distinguishable(SiteAfter(objects, steps[..n], canDelete), objects, key)
    decreases |steps|
  {
    hide Distinguishable, Next, Enabled;
    if n == |steps| {
      assert steps[..n] == steps;
    } else {
      var front := steps[..|steps| - 1];
      DistinguishableBefore(SiteAfter(objects, front, canDelete), steps[|steps| - 1], canDelete, objects, key);
      DistinguishableEarlier(objects, front, canDelete, key, n);
      assert front[..n] == steps[..n];
    }
  }

  /** The stored bytes are those of the last upload that was not taken back. */
  predicate BytesAt(objects: Objects, steps: seq<Step>, canDelete: bool, key: string, n: nat)
    requires n <= |steps|
  {
    var w := SiteAfter(objects, steps[..n], canDelete);
    Body(w.objects, key) == BytesOf(w, objects, key, LastKept(w, key, |w.saves|))
  }

  /** For uploads that bytes can tell apart, in every run: at every moment the stored
      bytes are those of the last upload that was not taken back exactly when no other
      request's read, save or rollback of the key disturbed a rollback. */
  lemma BytesAllTheWay(objects: Objects, steps: seq<Step>, canDelete: bool, key: string)
    requires Possible(objects, steps, canDelete)
    requires Distinguishable(SiteAfter(objects, steps, canDelete), objects, key)
    ensures (forall n | 0 <= n <= |steps| :: BytesAt(objects, steps, canDelete, key, n)) <==>
            (forall n | 0 <= n < |steps| :: CleanAt(objects, steps, canDelete, key, n))
  {
    forall n | 0 <= n <= |steps|
      ensures BytesAt(objects, steps, canDelete, key, n) <==> RightAt(objects, steps, canDelete, key, n)
    {
      DistinguishableEarlier(objects, steps, canDelete, key, n);
      RightMeansBytes(objects, steps[..n], canDelete, key);
    }
    hide BytesAt, RightAt, CleanAt;
    RightAllTheWay(objects, steps, canDelete, key);
  }

  // ----- at rest --------------------------------------------------------------------------------------------

  /** No request of the key is between its save and its end, and no rollback failed. */
  ghost predicate Settled(w: Site, key: string) {
    forall i | 0 <= i < |w.uploads| && w.uploads[i].key == key ::
      w.uploads[i].phase != Written && w.uploads[i].phase != Undoing && w.uploads[i].phase != Stuck
  }

  /** The last of the first `n` saves of a key that was answered 204, or 0. */
  function LastAnswered(w: Site, key: string, n: nat): nat
    requires n <= |w.saves|
  {
    if n == 0 then 0
    else
      var i := w.saves[n - 1];
      if i < |w.uploads| && w.uploads[i].key == key && w.uploads[i].phase == Accepted then n
      else LastAnswered(w, key, n - 1)
  }

  lemma {:induction false} SettledKeepsAccepted(w: Site, key: string, n: nat)
    requires n <= |w.saves| && Settled(w, key)
    ensures LastKept(w, key, n) == LastAnswered(w, key, n)
  {
    if n > 0 {
      SettledKeepsAccepted(w, key, n - 1);
    }
  }

  /** At rest after any run: the stored bytes are those of the last upload answered 204,
      or what was there at first, whenever the last write of the key was a save or a
      rollback that led back; and only then, when bytes can tell uploads apart. */
  lemma StoredIsLastAnswered(objects: Objects, steps: seq<Step>, canDelete: bool, key: string)
    requires Possible(objects, steps, canDelete) && Settled(SiteAfter(objects, steps, canDelete), key)
    ensures var w := SiteAfter(objects, steps, canDelete);
            var stored := Body(w.objects, key) == BytesOf(w, objects, key, LastAnswered(w, key, |w.saves|));
            && (LastWriteLeads(objects, steps, canDelete, key) ==> stored)
            && (Distinguishable(w, objects, key) ==> (LastWriteLeads(objects, steps, canDelete, key) <==> stored))
  {
    var w := SiteAfter(objects, steps, canDelete);
    RightMeansBytes(objects, steps, canDelete, key);
    RightExactly(objects, steps, canDelete, key);
    SettledKeepsAccepted(w, key, |w.saves|);
  }

  /** Step `n` saves or takes back bytes of this key. */
  predicate WritesAt(objects: Objects, steps: seq<Step>, canDelete: bool, key: string, n: nat)
    requires n < |steps|
  {
    var w := SiteAfter(objects, steps[..n], canDelete);
    Enabled(w, steps[n]) && WritesKey(w, steps[n], canDelete, key)
  }

  lemma {:induction false} PossibleEarlier(objects: Objects, steps: seq<Step>, canDelete: bool, n: nat)
    requires Possible(objects, steps, canDelete) && n <= |steps|
    ensures Possible(objects, steps[..n], canDelete)
    decreases |steps|
  {
    if n == |steps| {
      assert steps[..n] == steps;
    } else {
      PossibleEarlier(objects, steps[..|steps| - 1], canDelete, n);
      assert steps[..|steps| - 1][..n] == steps[..n];
    }
  }

  lemma {:induction false} RightStays(objects: Objects, steps: seq<Step>, canDelete: bool, key: string, n: nat)
    requires Possible(objects, steps, canDelete) && n <= |steps|
    requires forall k | n <= k < |steps| :: !WritesAt(objects, steps, canDelete, key, k)
    ensures Right(SiteAfter(objects, steps, canDelete), key) <==> RightAt(objects, steps, canDelete, key, n)
    decreases |steps|
  {
    hide Right, Next, Enabled, Valid, WritesKey;
    if n == |steps| {
      assert steps[..n] == steps;
    } else {
      var last := |steps| - 1;
      var front := steps[..last];
      forall k | n <= k < last ensures !WritesAt(objects, front, canDelete, key, k) {
        assert front[..k] == steps[..k] && !WritesAt(objects, steps, canDelete, key, k);
      }
      RightStays(objects, front, canDelete, key, n);
      assert front[..n] == steps[..n] && !WritesAt(objects, steps, canDelete, key, last);
      RunIsValid(objects, front, canDelete);
      OtherStepKeepsRight(SiteAfter(objects, front, canDelete), steps[last], canDelete, key);
    }
  }

  lemma CleanPrefix(objects: Objects, steps: seq<Step>, canDelete: bool, key: string, m: nat, n: nat)
    requires n < m <= |steps|
    ensures CleanAt(objects, steps[..m], canDelete, key, n) <==> CleanAt(objects, steps, canDelete, key, n)
  {
    assert steps[..m][..n] == steps[..n];
  }

  /** After undisturbed rollbacks the next step leaves the right object exactly when it,
      too, is no disturbed rollback. */
  lemma RightAfterStep(objects: Objects, steps: seq<Step>, canDelete: bool, key: string, m: nat)
    requires Possible(objects, steps, canDelete) && m < |steps|
    requires forall n | 0 <= n < m :: CleanAt(objects, steps, canDelete, key, n)
    ensures RightAt(objects, steps, canDelete, key, m + 1) <==> CleanAt(objects, steps, canDelete, key, m)
  {
    hide CleanAt, Possible, SiteAfter, Right, AllReadLast;
    var before, after := steps[..m], steps[..m + 1];
    PossibleEarlier(objects, steps, canDelete, m);
    PossibleEarlier(objects, steps, canDelete, m + 1);
    forall n | 0 <= n < m ensures CleanAt(objects, before, canDelete, key, n) {
      CleanPrefix(objects, steps, canDelete, key, m, n);
    }
    RightAllTheWay(objects, before, canDelete, key);
    assert RightAt(objects, before, canDelete, key, m);
    assert before[..m] == before && after[..m] == before && after[..m + 1] == after;
    LastStepRight(objects, after, canDelete, key);
    CleanPrefix(objects, steps, canDelete, key, m + 1, m);
  }

  /** At rest after any run whose rollbacks before the last write of the key were not
      disturbed: the stored bytes are those of the last upload answered 204 if no other
      request's read, save or rollback disturbed that last write, and only then when
      bytes can tell uploads apart. */
  lemma UndisturbedIsLastAnswered(objects: Objects, steps: seq<Step>, canDelete: bool, key: string, m: nat)
    requires Possible(objects, steps, canDelete) && Settled(SiteAfter(objects, steps, canDelete), key)
    requires m < |steps| && WritesAt(objects, steps, canDelete, key, m)
    requires forall n | m < n < |steps| :: !WritesAt(objects, steps, canDelete, key, n)
    requires forall n | 0 <= n < m :: CleanAt(objects, steps, canDelete, key, n)
    ensures var w := SiteAfter(objects, steps, canDelete);
            var stored := Body(w.objects, key) == BytesOf(w, objects, key, LastAnswered(w, key, |w.saves|));
            && (CleanAt(objects, steps, canDelete, key, m) ==> stored)
            && (Distinguishable(w, objects, key) ==> (CleanAt(objects, steps, canDelete, key, m) <==> stored))
  {
    hide CleanAt, WritesAt, Possible, SiteAfter, Right, Settled, Distinguishable, RightAt;
    var w := SiteAfter(objects, steps, canDelete);
    RightAfterStep(objects, steps, canDelete, key, m);
    RightStays(objects, steps, canDelete, key, m + 1);
    RightMeansBytes(objects, steps, canDelete, key);
    SettledKeepsAccepted(w, key, |w.saves|);
  }

  // ----- one request at a time -------------------------------------------------------------------------------

  /** No other request of the key is between its opening and its end. */
  predicate Alone(w: Site, i: nat)
    requires i < |w.uploads|
  {
    forall j | 0 <= j < |w.uploads| && j != i && w.uploads[j].key == w.uploads[i].key :: !w.uploads[j].HasWayBack()
  }

  /** Requests of the key open the object one after the other, as under a lock. */
  predicate OneAtATime(objects: Objects, steps: seq<Step>, canDelete: bool, key: string) {
    forall n | 0 <= n < |steps| :: OpensAlone(SiteAfter(objects, steps[..n], canDelete), steps[n], key)
  }

  predicate OpensAlone(w: Site, step: Step, key: string) {
    step.Open? && step.i < |w.uploads| && w.uploads[step.i].key == key ==> Alone(w, step.i)
  }

  /** What the request read can no longer be taken back, and no later save stays. */
  predicate Sheltered(w: Site, i: nat)
    requires i < |w.uploads|
  {
    var u := w.uploads[i];
    u.HasWayBack() ==>
      && Alone(w, i) && Placed(w, i)
      && (u.read > 0 ==> KeptSave(w, u.key, u.read) && !w.uploads[w.saves[u.read - 1]].HasWayBack())
      && forall n | u.read < n <= |w.saves| && w.saves[n - 1] != i :: !KeptSave(w, u.key, n)
  }

  ghost predicate AllSheltered(w: Site, key: string) {
    forall i | 0 <= i < |w.uploads| && w.uploads[i].key == key :: Sheltered(w, i)
  }

  lemma StaysSheltered(w: Site, step: Step, canDelete: bool, key: string, i: nat)
    requires Valid(w) && Enabled(w, step) && OpensAlone(w, step, key)
    requires i < |w.uploads| && w.uploads[i].key == key && Sheltered(w, i) && w.uploads[i].HasWayBack()
    ensures Sheltered(Next(w, step, canDelete), i)
  {
    var after, u := Next(w, step, canDelete), w.uploads[i];
    PlacedStays(w, step, canDelete, i);
    SameReading(w, step, canDelete, i);
    if u.read > 0 {
      EndedStays(w, step, canDelete, key, u.read);
    }
    forall n | u.read < n <= |after.saves| && after.saves[n - 1] != i ensures !KeptSave(after, key, n) {
      if n <= |w.saves| {
        NotKeptStays(w, step, canDelete, key, n);
      } else {
        NewSaveIsAlone(w, step, canDelete, i);
      }
    }
    StaysAlone(w, step, canDelete, key, i);
    hide Next, Alone, Placed, KeptSave, Enabled, Valid;
  }

  lemma SameReading(w: Site, step: Step, canDelete: bool, i: nat)
    requires Enabled(w, step) && i < |w.uploads| && w.uploads[i].HasWayBack()
    ensures var after := Next(w, step, canDelete);
            && i < |after.uploads| && after.uploads[i].key == w.uploads[i].key &&
                 after.uploads[i].read == w.uploads[i].read
            && |w.saves| <= |after.saves| && forall n | 0 <= n < |w.saves| :: after.saves[n] == w.saves[n]
  {
    hide Undoable, Undone, RollbackOf;
  }

  lemma EndedStays(w: Site, step: Step, canDelete: bool, key: string, n: nat)
    requires Valid(w) && Enabled(w, step) && 0 < n <= |w.saves|
    requires KeptSave(w, key, n) && !w.uploads[w.saves[n - 1]].HasWayBack()
    ensures var after := Next(w, step, canDelete);
            && n <= |after.saves| && KeptSave(after, key, n) && !after.uploads[after.saves[n - 1]].HasWayBack()
  {
    hide Undoable, Undone, RollbackOf;
  }

  lemma NewSaveIsAlone(w: Site, step: Step, canDelete: bool, i: nat)
    requires Valid(w) && Enabled(w, step) && i < |w.uploads| && Alone(w, i)
    ensures var after := Next(w, step, canDelete);
            forall n | |w.saves| < n <= |after.saves| && after.saves[n - 1] != i ::
                !KeptSave(after, w.uploads[i].key, n)
  {
    hide Undoable, Undone, RollbackOf;
  }

  lemma StaysAlone(w: Site, step: Step, canDelete: bool, key: string, i: nat)
    requires Enabled(w, step) && OpensAlone(w, step, key)
    requires i < |w.uploads| && w.uploads[i].key == key && w.uploads[i].HasWayBack() && Alone(w, i)
    ensures i < |Next(w, step, canDelete).uploads| && Alone(Next(w, step, canDelete), i)
  {
    hide Undoable, Undone, RollbackOf;
  }

  lemma OpensSheltered(w: Site, step: Step, canDelete: bool, key: string)
    requires Valid(w) && Enabled(w, step) && step.Open? && w.uploads[step.i].key == key
    requires Right(w, key) && OpensAlone(w, step, key)
    ensures Sheltered(Next(w, step, canDelete), step.i)
  {
    var after, h := Next(w, step, canDelete), Holder(w, key);
    PlacedStays(w, step, canDelete, step.i);
    LastKeptMeans(w, key, |w.saves|, h);
    if h > 0 {
      EndedStays(w, step, canDelete, key, h);
    }
    forall n | h < n <= |w.saves| ensures !KeptSave(after, key, n) {
      NotKeptStays(w, step, canDelete, key, n);
    }
    OpenKeepsAlone(w, step, canDelete);
    hide Undoable, RollbackOf, LastKept, Alone, KeptSave, Placed, Valid;
  }

  lemma OpenKeepsAlone(w: Site, step: Step, canDelete: bool)
    requires Enabled(w, step) && step.Open? && Alone(w, step.i)
    ensures Alone(Next(w, step, canDelete), step.i)
  {
    hide Undoable, RollbackOf;
  }

  lemma StepKeepsSheltered(w: Site, step: Step, canDelete: bool, key: string)
    requires Valid(w) && Enabled(w, step) && Right(w, key) && AllSheltered(w, key) && OpensAlone(w, step, key)
    ensures AllSheltered(Next(w, step, canDelete), key)
    ensures Right(Next(w, step, canDelete), key)
  {
    var after := Next(w, step, canDelete);
    StepIsRight(w, step, canDelete, key);
    if WritesKey(w, step, canDelete, key) && step.Undo? {
      assert Sheltered(w, step.i);
      ShelteredLeadsBack(w, step.i);
    }
    hide Right, LeadsBack;
    forall i | 0 <= i < |after.uploads| && after.uploads[i].key == key ensures Sheltered(after, i) {
      if i < |w.uploads| && w.uploads[i].HasWayBack() {
        StaysSheltered(w, step, canDelete, key, i);
      } else if step.Open? && step.i == i {
        OpensSheltered(w, step, canDelete, key);
      }
    }
  }

  lemma ShelteredLeadsBack(w: Site, i: nat)
    requires Valid(w) && i < |w.uploads| && w.uploads[i].phase == Undoing && Sheltered(w, i) &&
               Right(w, w.uploads[i].key)
    ensures LeadsBack(w, i)
  {
  }

  /** One request at a time keeps the object right at every moment of every run. */
  lemma {:induction false} OneAtATimeIsRight(objects: Objects, steps: seq<Step>, canDelete: bool, key: string)
    requires Possible(objects, steps, canDelete) && OneAtATime(objects, steps, canDelete, key)
    ensures Right(SiteAfter(objects, steps, canDelete), key)
    ensures AllSheltered(SiteAfter(objects, steps, canDelete), key)
  {
    hide Valid, Next, Enabled, Right, AllSheltered;
    if steps == [] {
      NothingSheltered(objects, key);
    } else {
      var last := |steps| - 1;
      var front := steps[..last];
      forall n | 0 <= n < last ensures OpensAlone(SiteAfter(objects, front[..n], canDelete), front[n], key) {
        assert front[..n] == steps[..n];
      }
      OneAtATimeIsRight(objects, front, canDelete, key);
      RunIsValid(objects, front, canDelete);
      assert OpensAlone(SiteAfter(objects, steps[..last], canDelete), steps[last], key);
      StepKeepsSheltered(SiteAfter(objects, front, canDelete), steps[last], canDelete, key);
    }
  }

  lemma NothingSheltered(objects: Objects, key: string)
    ensures Right(Site(objects, [], [], map[]), key) && AllSheltered(Site(objects, [], [], map[]), key)
  {
  }

  // ----- one request on its own -----------------------------------------------------------------------------

  lemma OneMore(objects: Objects, front: seq<Step>, step: Step, canDelete: bool) returns (steps: seq<Step>)
    requires Possible(objects, front, canDelete) && Enabled(SiteAfter(objects, front, canDelete), step)
    ensures steps == front + [step] && Possible(objects, steps, canDelete)
    ensures SiteAfter(objects, steps, canDelete) == Next(SiteAfter(objects, front, canDelete), step, canDelete)
  {
    hide Enabled, Next;
    steps := front + [step];
    assert steps[..|steps| - 1] == front;
  }

  /** What a request does as upload number `i` when no other request comes between. */
  function OwnSteps(objects: Objects, canDelete: bool, i: nat, r: Request, weather: Weather): seq<Step>
    requires r.camera.Found?
  {
    var prepared := [Arrive(Key(r), r.body)] + [Prepare(i, weather.prepares)];
    var read := prepared + [Open(i, weather.opening)];
    var saved := read + [Save(i, weather.saves)];
    var finished := saved + [Finish(i, weather.finishes)];
    if !weather.prepares then prepared
    else if !Undoable(objects, Key(r), weather.opening, canDelete) then read
    else if !weather.saves then saved
    else if weather.finishes then finished
    else finished + [Undo(i, weather.undoes)]
  }

  function WithOne(w: Site, u: Upload): Site {
    w.(uploads := w.uploads + [u])
  }

  /** The request is last, and reached by its own steps. */
  ghost predicate Reached(objects: Objects, front: seq<Step>, own: seq<Step>, canDelete: bool, w: Site, u: Upload) {
    Possible(objects, front + own, canDelete) && SiteAfter(objects, front + own, canDelete) == WithOne(w, u)
  }

  lemma OneMoreReaches(objects: Objects, front: seq<Step>, own: seq<Step>, canDelete: bool, w: Site, u: Upload,
                       step: Step, after: Site, moved: Upload)
    requires Reached(objects, front, own, canDelete, w, u)
    requires Enabled(WithOne(w, u), step) && Next(WithOne(w, u), step, canDelete) == WithOne(after, moved)
    ensures Reached(objects, front, own + [step], canDelete, after, moved)
  {
    hide Enabled, Next;
    var steps := OneMore(objects, front + own, step, canDelete);
    assert steps == front + (own + [step]);
  }

  lemma LastMoves(w: Site, u: Upload, moved: Upload)
    ensures WithOne(w, u).uploads[|w.uploads| := moved] == WithOne(w, moved).uploads
  {
  }

  /** The steps before the save. */
  lemma OpensOnItsOwn(objects: Objects, front: seq<Step>, canDelete: bool, r: Request, weather: Weather)
    requires Possible(objects, front, canDelete) && r.camera.Found?
    ensures var w := SiteAfter(objects, front, canDelete);
            var i, u := |w.uploads|, Upload(Key(r), r.body, Begun, Rollback(Key(r), [], false), 0, 0);
            var own := [Arrive(Key(r), r.body)] + [Prepare(i, weather.prepares)];
            var reading := own + [Open(i, weather.opening)];
            if !weather.prepares then
              Reached(objects, front, own, canDelete, w, u.(phase := Failed(AuditUnavailable)))
            else if !Undoable(w.objects, Key(r), weather.opening, canDelete) then
              Reached(objects, front, reading, canDelete, w, u.(phase := Failed(SaveFailed)))
            else
              Reached(objects, front, reading, canDelete, w,
                u.(phase := Opened, rollback := RollbackOf(w.objects, Key(r)), read := Holder(w, Key(r)),
                   seen := |w.saves|))
  {
    hide Possible, SiteAfter, SnapshotObjectKey, Undoable, RollbackOf;
    var w := SiteAfter(objects, front, canDelete);
    var i, u := |w.uploads|, Upload(Key(r), r.body, Begun, Rollback(Key(r), [], false), 0, 0);
    var first := OneMore(objects, front, Arrive(Key(r), r.body), canDelete);
    var own := [Arrive(Key(r), r.body)];
    var prepared := u.(phase := if weather.prepares then Audited else Failed(AuditUnavailable));
    LastMoves(w, u, prepared);
    assert first == front + own && Reached(objects, front, own, canDelete, w, u);
    hide Reached;
    OneMoreReaches(objects, front, own, canDelete, w, u, Prepare(i, weather.prepares), w, prepared);
    own := own + [Prepare(i, weather.prepares)];
    if weather.prepares {
      var reading := if Undoable(w.objects, Key(r), weather.opening, canDelete) then
                      u.(phase := Opened, rollback := RollbackOf(w.objects, Key(r)), read := Holder(w, Key(r)),
                         seen := |w.saves|)
                    else u.(phase := Failed(SaveFailed));
      LastMoves(w, prepared, reading);
      OneMoreReaches(objects, front, own, canDelete, w, prepared, Open(i, weather.opening), w, reading);
    }
  }

  /** The steps from the save on. */
  lemma SavesOnItsOwn(objects: Objects, front: seq<Step>, own: seq<Step>, canDelete: bool, w: Site, u: Upload,
                      weather: Weather)
    requires Reached(objects, front, own, canDelete, w, u) && u.phase == Opened
    ensures var i := |w.uploads|;
            var saved := w.(objects := w.objects[u.key := Object(u.body, IMAGE_JPEG)], saves := w.saves + [i],
                            holders := w.holders[u.key := |w.saves| + 1]);
            if !weather.saves then
              Reached(objects, front, own + [Save(i, false)], canDelete, w, u.(phase := Failed(SaveFailed)))
            else
              Reached(objects, front, own + [Save(i, true)] + [Finish(i, weather.finishes)], canDelete, saved,
                u.(phase := if weather.finishes then Accepted else Undoing))
  {
    hide Reached;
    var i := |w.uploads|;
    var failed, written := u.(phase := Failed(SaveFailed)), u.(phase := Written);
    if weather.saves {
      var saved := w.(objects := w.objects[u.key := Object(u.body, IMAGE_JPEG)], saves := w.saves + [i],
                      holders := w.holders[u.key := |w.saves| + 1]);
      var finished := u.(phase := if weather.finishes then Accepted else Undoing);
      LastMoves(w, u, written);
      OneMoreReaches(objects, front, own, canDelete, w, u, Save(i, true), saved, written);
      LastMoves(saved, written, finished);
      OneMoreReaches(objects, front, own + [Save(i, true)], canDelete, saved, written, Finish(i, weather.finishes),
        saved, finished);
    } else {
      LastMoves(w, u, failed);
      OneMoreReaches(objects, front, own, canDelete, w, u, Save(i, false), w, failed);
    }
  }

  lemma UndoesOnItsOwn(objects: Objects, front: seq<Step>, own: seq<Step>, canDelete: bool, w: Site, u: Upload,
                       works: bool)
    requires Reached(objects, front, own, canDelete, w, u)
    requires u.phase == Undoing && (u.rollback.existed || canDelete)
    ensures Reached(objects, front, own + [Undo(|w.uploads|, works)], canDelete,
              if works then w.(objects := Undone(w.objects, u.rollback), holders := w.holders[u.key := u.read]) else w,
              u.(phase := if works then RolledBack else Stuck))
  {
    hide Reached, Undone;
    var moved := u.(phase := if works then RolledBack else Stuck);
    LastMoves(w, u, moved);
    OneMoreReaches(objects, front, own, canDelete, w, u, Undo(|w.uploads|, works),
      if works then w.(objects := Undone(w.objects, u.rollback), holders := w.holders[u.key := u.read]) else w, moved);
  }

  lemma AnswersOnItsOwn(objects: Objects, front: seq<Step>, canDelete: bool, r: Request, weather: Weather)
    returns (after: Site, u: Upload)
    requires Possible(objects, front, canDelete) && r.camera.Found? && r.camera.tenantID > 0
    ensures var w := SiteAfter(objects, front, canDelete);
            var (left, answer) := AuditedOutcome(w.objects, canDelete, r, weather);
            && Reached(objects, front, OwnSteps(w.objects, canDelete, |w.uploads|, r, weather), canDelete, after, u)
            && after.uploads == w.uploads && after.objects == left && u.Answer() == Some(answer)
  {
    hide Possible, SiteAfter, Reached, SnapshotObjectKey, Undone, RollbackOf;
    var w := SiteAfter(objects, front, canDelete);
    var i, begun := |w.uploads|, Upload(Key(r), r.body, Begun, Rollback(Key(r), [], false), 0, 0);
    OpensOnItsOwn(objects, front, canDelete, r, weather);
    if !weather.prepares {
      return w, begun.(phase := Failed(AuditUnavailable));
    } else if !Undoable(w.objects, Key(r), weather.opening, canDelete) {
      return w, begun.(phase := Failed(SaveFailed));
    }
    HasUndo(w.objects, Key(r), weather.opening, canDelete);
    hide Undoable;
    u := begun.(phase := Opened, rollback := RollbackOf(w.objects, Key(r)), read := Holder(w, Key(r)),
                seen := |w.saves|);
    var read := [Arrive(Key(r), r.body)] + [Prepare(i, true)] + [Open(i, weather.opening)];
    SavesOnItsOwn(objects, front, read, canDelete, w, u, weather);
    if !weather.saves {
      return w, u.(phase := Failed(SaveFailed));
    }
    var saved := w.(objects := w.objects[u.key := Object(u.body, IMAGE_JPEG)], saves := w.saves + [i],
                    holders := w.holders[u.key := |w.saves| + 1]);
    if weather.finishes {
      return saved, u.(phase := Accepted);
    }
    u := u.(phase := Undoing);
    UndoesOnItsOwn(objects, front, read + [Save(i, true)] + [Finish(i, false)], canDelete, saved, u, weather.undoes);
    after := if weather.undoes then
               saved.(objects := Undone(saved.objects, u.rollback), holders := saved.holders[u.key := u.read])
             else saved;
    u := u.(phase := if weather.undoes then RolledBack else Stuck);
  }

  lemma HasUndo(objects: Objects, key: string, opening: Opening, canDelete: bool)
    requires Undoable(objects, key, opening, canDelete)
    ensures RollbackOf(objects, key).existed || canDelete
  {
  }

  /** At any moment of any run, the steps of one request without interruption are possible
      and lead to the objects and the answer of `SaveAudited`. */
  lemma RequestOnItsOwn(objects: Objects, front: seq<Step>, canDelete: bool, r: Request, weather: Weather)
    requires Possible(objects, front, canDelete) && r.camera.Found? && r.camera.tenantID > 0
    ensures var before := SiteAfter(objects, front, canDelete);
            var steps := front + OwnSteps(before.objects, canDelete, |before.uploads|, r, weather);
            var after := SiteAfter(objects, steps, canDelete);
            var (left, answer) := AuditedOutcome(before.objects, canDelete, r, weather);
            && Possible(objects, steps, canDelete)
            && |after.uploads| == |before.uploads| + 1 && after.uploads[..|before.uploads|] == before.uploads
            && after.objects == left && after.uploads[|before.uploads|].Answer() == Some(answer)
  {
    hide Possible, SiteAfter, OwnSteps, AuditedOutcome;
    var after, u := AnswersOnItsOwn(objects, front, canDelete, r, weather);
  }

  // ----- two runs that go wrong ------------------------------------------------------------------------------

  /** Two uploads of one key that nothing was stored for, in these phases; the second read
      what the first saved. */
  ghost predicate Pair(w: Site, a: seq<byte>, p: Phase, b: seq<byte>, q: Phase) {
    && w.uploads == [Upload("k", a, p, Rollback("k", [], false), 0, 0), Upload("k", b, q, Rollback("k", a, true), 1, 1)]
    && w.saves == [0, 1]
  }

  lemma BothSaved(a: seq<byte>, b: seq<byte>) returns (steps: seq<Step>)
    requires |a| <= MAX_SNAPSHOT_UPLOAD_BYTES
    ensures Possible(map[], steps, true) && Pair(SiteAfter(map[], steps, true), a, Written, b, Written)
    ensures SiteAfter(map[], steps, true).objects == map["k" := Object(b, IMAGE_JPEG)]
  {
    steps := [];
    hide Possible, SiteAfter;
    NoSteps();
    steps := OneMore(map[], steps, Arrive("k", a), true);
    steps := OneMore(map[], steps, Prepare(0, true), true);
    steps := OneMore(map[], steps, Open(0, Whole), true);
    steps := OneMore(map[], steps, Save(0, true), true);
    var first := Upload("k", a, Written, Rollback("k", [], false), 0, 0);
    assert SiteAfter(map[], steps, true) == Site(map["k" := Object(a, IMAGE_JPEG)], [first], [0], map["k" := 1]);
    steps := OneMore(map[], steps, Arrive("k", b), true);
    steps := OneMore(map[], steps, Prepare(1, true), true);
    steps := OneMore(map[], steps, Open(1, Whole), true);
    steps := OneMore(map[], steps, Save(1, true), true);
  }

  lemma NoSteps()
    ensures Possible(map[], [], true) && SiteAfter(map[], [], true) == Site(map[], [], [], map[])
  {
  }

  /** An upload answered 204 is gone: the first request is rolled back over it. */
  lemma AcceptedUploadLost(a: seq<byte>, b: seq<byte>) returns (steps: seq<Step>)
    requires |a| <= MAX_SNAPSHOT_UPLOAD_BYTES
    ensures Possible(map[], steps, true)
    ensures var w := SiteAfter(map[], steps, true);
            && Pair(w, a, RolledBack, b, Accepted) && Settled(w, "k")
            && w.uploads[0].Answer() == Some(AuditUnavailable) && w.uploads[1].Answer() == Some(NoContent)
            && Body(w.objects, "k") == None
  {
    steps := BothSaved(a, b);
    hide Possible, SiteAfter;
    steps := OneMore(map[], steps, Finish(1, true), true);
    steps := OneMore(map[], steps, Finish(0, false), true);
    steps := OneMore(map[], steps, Undo(0, true), true);
  }

  /** Refused bytes stay: both requests are rolled back, the second to what the first had
      saved, although each is answered as if nothing had changed. */
  lemma RefusedUploadStays(a: seq<byte>, b: seq<byte>) returns (steps: seq<Step>)
    requires |a| <= MAX_SNAPSHOT_UPLOAD_BYTES
    ensures Possible(map[], steps, true)
    ensures var w := SiteAfter(map[], steps, true);
            && Pair(w, a, RolledBack, b, RolledBack) && Settled(w, "k")
            && w.uploads[0].Answer() == Some(AuditUnavailable) && w.uploads[1].Answer() == Some(AuditUnavailable)
            && Body(w.objects, "k") == Some(a)
  {
    steps := BothSaved(a, b);
    hide Possible, SiteAfter;
    steps := OneMore(map[], steps, Finish(0, false), true);
    steps := OneMore(map[], steps, Undo(0, true), true);
    steps := OneMore(map[], steps, Finish(1, false), true);
    steps := OneMore(map[], steps, Undo(1, true), true);
  }
}
