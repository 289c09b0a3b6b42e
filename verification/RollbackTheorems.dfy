/** Rollback of import jobs: it removes exactly what the job created. */
module RollbackTheorems {
  import opened Wrappers
  import opened ImportModel
  import ImportTheorems
  import Slugs

  // ---------- runs keep the schema's constraints ----------

  lemma ImportRowKeepsValid(kind: Kind, t: Table, e: Entry, env: Env)
    requires ValidTable(t)
    ensures ValidTable(ImportRow(kind, t, e, env).table)
  {
    hide Slugs.Slugify;
    hide SameName;
    var o := ImportRow(kind, t, e, env);
    if o.table != t {
      var parent := ParentOf(kind, t.rows, e, env);
      assert forall x :: x in t.rows ==> !Matches(ExistingQuery(e, parent), x);
      forall i | 0 <= i < |t.rows|
        ensures t.rows[i].slug != Slugs.Slugify(e.name)
      {
        assert t.rows[i] in t.rows;
      }
    }
  }

  lemma {:induction false} ProcessKeepsValid(kind: Kind, t: Table, entries: seq<Entry>, envs: seq<Env>)
    requires |entries| == |envs| && ValidTable(t)
    ensures var p := Process(kind, t, entries, envs);
            ValidTable(p.table) && t.nextId <= p.table.nextId && ImportTheorems.Extends(kind, t, p.table)
    decreases |entries|
  {
    if entries != [] {
      var n := |entries| - 1;
      ProcessKeepsValid(kind, t, entries[..n], envs[..n]);
      var p := Process(kind, t, entries[..n], envs[..n]);
      ImportRowKeepsValid(kind, p.table, entries[n], envs[n]);
      ImportTheorems.ImportedRow(kind, t, p.table, entries[n], envs[n]);
    }
  }

  // ---------- removing rows ----------

  lemma RemoveStep(rows: seq<Entity>, ids: set<nat>)
    requires rows != []
    ensures var front, last := rows[..|rows| - 1], rows[|rows| - 1];
            && rows == front + [last]
            && Remove(rows, ids) == if last.id in ids then Remove(front, ids) else Remove(front, ids) + [Cleared(last, ids)]
  {
    var kept := Remove(rows[..|rows| - 1], ids);
    assert kept + [] == kept;
  }

  lemma RemoveLast(front: seq<Entity>, e: Entity, ids: set<nat>)
    ensures Remove(front + [e], ids) == if e.id in ids then Remove(front, ids) else Remove(front, ids) + [Cleared(e, ids)]
  {
    assert (front + [e])[..|front|] == front;
    RemoveStep(front + [e], ids);
  }

  lemma RemoveOne(e: Entity, ids: set<nat>)
    ensures Remove([e], ids) == if e.id in ids then [] else [Cleared(e, ids)]
  {
    assert [e][..0] == [];
  }

  lemma {:induction false} RemoveConcat(rows: seq<Entity>, more: seq<Entity>, ids: set<nat>)
    ensures Remove(rows + more, ids) == Remove(rows, ids) + Remove(more, ids)
    decreases |more|
  {
    if more == [] {
      assert rows + more == rows;
    } else {
      hide Remove;
      var n := |more| - 1;
      RemoveConcat(rows, more[..n], ids);
      assert (rows + more)[..|rows| + n] == rows + more[..n];
      RemoveStep(rows + more, ids);
      RemoveStep(more, ids);
    }
  }

  lemma {:induction false} RemoveTwice(rows: seq<Entity>, a: set<nat>, b: set<nat>)
    ensures Remove(Remove(rows, a), b) == Remove(rows, a + b)
    decreases |rows|
  {
    if rows != [] {
      hide Remove;
      var front, last := rows[..|rows| - 1], rows[|rows| - 1];
      RemoveTwice(front, a, b);
      RemoveStep(rows, a);
      RemoveStep(rows, a + b);
      RemoveLast(Remove(front, a), Cleared(last, a), b);
    }
  }

  /** Ids that no row has or refers to can be removed freely. */
  lemma {:induction false} RemoveFresh(rows: seq<Entity>, ids: set<nat>, unused: nat)
    requires forall i :: 0 <= i < |rows| ==> rows[i].id != unused && rows[i].parent != Some(unused)
    ensures Remove(rows, ids + {unused}) == Remove(rows, ids)
    decreases |rows|
  {
    if rows != [] {
      hide Remove;
      RemoveFresh(rows[..|rows| - 1], ids, unused);
      RemoveStep(rows, ids);
      RemoveStep(rows, ids + {unused});
    }
  }

  lemma {:induction false} RemoveNothing(rows: seq<Entity>)
    ensures Remove(rows, {}) == rows
    decreases |rows|
  {
    if rows != [] {
      hide Remove;
      RemoveNothing(rows[..|rows| - 1]);
      RemoveStep(rows, {});
    }
  }

  lemma {:induction false} HasIdAfterRemove(rows: seq<Entity>, ids: set<nat>, id: nat)
    ensures HasId(Remove(rows, ids), id) <==> HasId(rows, id) && id !in ids
    decreases |rows|
  {
    if rows != [] {
      hide Remove;
      var front, last := rows[..|rows| - 1], rows[|rows| - 1];
      HasIdAfterRemove(front, ids, id);
      RemoveStep(rows, ids);
      HasIdStep(front, last, id);
      HasIdStep(Remove(front, ids), Cleared(last, ids), id);
    }
  }

  lemma HasIdStep(rows: seq<Entity>, e: Entity, id: nat)
    ensures HasId(rows + [e], id) <==> HasId(rows, id) || e.id == id
  {
    if HasId(rows, id) {
      var i :| 0 <= i < |rows| && rows[i].id == id;
      assert (rows + [e])[i].id == id;
    }
    if e.id == id {
      assert (rows + [e])[|rows|].id == id;
    }
  }

  ghost predicate UniqueSlugs(rows: seq<Entity>) {
    forall i, j :: 0 <= i < j < |rows| ==> rows[i].slug != rows[j].slug
  }

  lemma {:induction false} IdOfSlugFound(rows: seq<Entity>, slug: string)
    ensures IdOfSlug(rows, slug).Some? ==>
              exists i :: 0 <= i < |rows| && rows[i].slug == slug && rows[i].id == IdOfSlug(rows, slug).value
    ensures IdOfSlug(rows, slug).None? ==> forall i :: 0 <= i < |rows| ==> rows[i].slug != slug
    decreases |rows|
  {
    if rows != [] {
      IdOfSlugFound(rows[..|rows| - 1], slug);
    }
  }

  lemma IdOfSlugStep(rows: seq<Entity>, e: Entity, slug: string)
    ensures IdOfSlug(rows + [e], slug) == if e.slug == slug then Some(e.id) else IdOfSlug(rows, slug)
  {
    assert (rows + [e])[..|rows|] == rows;
  }

  lemma {:induction false} IdOfSlugAfterRemove(rows: seq<Entity>, ids: set<nat>, slug: string)
    requires UniqueSlugs(rows)
    ensures IdOfSlug(Remove(rows, ids), slug) ==
            var id := IdOfSlug(rows, slug);
            if id.Some? && id.value in ids then None else id
    decreases |rows|
  {
    if rows != [] {
      hide Remove;
      hide IdOfSlug;
      var front, last := rows[..|rows| - 1], rows[|rows| - 1];
      IdOfSlugAfterRemove(front, ids, slug);
      IdOfSlugFound(front, slug);
      RemoveStep(rows, ids);
      IdOfSlugStep(front, last, slug);
      IdOfSlugStep(Remove(front, ids), Cleared(last, ids), slug);
    }
  }

  lemma ResolveAfterRemove(rows: seq<Entity>, ids: set<nat>, ref: Ref)
    requires UniqueSlugs(rows)
    ensures Resolve(Remove(rows, ids), ref) ==
            var id := Resolve(rows, ref);
            if id.Some? && id.value in ids then None else id
  {
    match ref
    case NoRef =>
    case ById(id) => HasIdAfterRemove(rows, ids, id);
    case BySlug(slug) => IdOfSlugAfterRemove(rows, ids, slug);
  }

  /** What is left after a removal: the other rows, their references to removed rows cleared. */
  lemma {:induction false} RemoveMember(rows: seq<Entity>, ids: set<nat>, y: Entity)
    ensures y in Remove(rows, ids) <==> exists x :: x in rows && x.id !in ids && y == Cleared(x, ids)
    decreases |rows|
  {
    if rows != [] {
      hide Remove;
      hide Cleared;
      var front, last := rows[..|rows| - 1], rows[|rows| - 1];
      RemoveMember(front, ids, y);
      RemoveStep(rows, ids);
      assert last in rows && forall x :: x in rows <==> x in front || x == last;
    }
  }

  // ---------- rollback in one step ----------

  /** Ledger row `i` is to be undone and stands for a row of the table. */
  ghost predicate IsTarget(rows: seq<Entity>, ledger: seq<LedgerRow>, fails: nat -> bool, i: int) {
    0 <= i < |ledger| && ledger[i].status == Imported && !fails(ledger[i].rowNumber)
    && Resolve(rows, ledger[i].ref).Some?
  }

  /** The ids of the rows a rollback aims at. */
  ghost function Targets(rows: seq<Entity>, ledger: seq<LedgerRow>, fails: nat -> bool): set<nat> {
    set i | 0 <= i < |ledger| && IsTarget(rows, ledger, fails, i) :: Resolve(rows, ledger[i].ref).value
  }

  lemma TargetsStep(rows: seq<Entity>, ledger: seq<LedgerRow>, fails: nat -> bool)
    requires ledger != []
    ensures var n := |ledger| - 1;
            Targets(rows, ledger, fails) ==
            Targets(rows, ledger[..n], fails)
            + if IsTarget(rows, ledger, fails, n) then {Resolve(rows, ledger[n].ref).value} else {}
  {
    var n := |ledger| - 1;
    var front := ledger[..n];
    forall i | 0 <= i < n
      ensures IsTarget(rows, front, fails, i) <==> IsTarget(rows, ledger, fails, i)
    {
      assert front[i] == ledger[i];
    }
    forall id
      ensures id in Targets(rows, front, fails) <==>
              exists i :: 0 <= i < n && IsTarget(rows, ledger, fails, i) && Resolve(rows, ledger[i].ref).value == id
    {
      if i :| 0 <= i < n && IsTarget(rows, ledger, fails, i) && Resolve(rows, ledger[i].ref).value == id {
        assert IsTarget(rows, front, fails, i) && Resolve(rows, front[i].ref).value == id;
      }
    }
  }

  /**
   Deleting one after the other, looking each reference up in the table as it then is, equals
   removing all targets at once; and every target is counted once.
   */
  lemma {:induction false} UndoRemovesTargets(rows: seq<Entity>, ledger: seq<LedgerRow>, fails: nat -> bool)
    requires UniqueSlugs(rows)
    ensures var u := UndoAll(rows, ledger, fails);
            u.rows == Remove(rows, Targets(rows, ledger, fails)) && u.rolledBack == |Targets(rows, ledger, fails)|
    decreases |ledger|
  {
    if ledger == [] {
      assert Targets(rows, ledger, fails) == {};
      RemoveNothing(rows);
    } else {
      var n := |ledger| - 1;
      var last := ledger[n];
      UndoRemovesTargets(rows, ledger[..n], fails);
      TargetsStep(rows, ledger, fails);
      var before := Targets(rows, ledger[..n], fails);
      UndoRowRemoves(rows, before, UndoAll(rows, ledger[..n], fails), last, fails(last.rowNumber));
    }
  }

  lemma UndoRowRemoves(rows: seq<Entity>, before: set<nat>, u: Undo, row: LedgerRow, fails: bool)
    requires UniqueSlugs(rows) && u.rows == Remove(rows, before) && u.rolledBack == |before|
    ensures var v := UndoRow(u, row, fails);
            var id := Resolve(rows, row.ref);
            var after := before + if row.status == Imported && !fails && id.Some? then {id.value} else {};
            v.rows == Remove(rows, after) && v.rolledBack == |after|
  {
    hide Remove;
    var id := Resolve(rows, row.ref);
    ResolveAfterRemove(rows, before, row.ref);
    if row.status == Imported && !fails && id.Some? {
      if id.value in before {
        assert before + {id.value} == before;
      } else {
        RemoveTwice(rows, before, {id.value});
        assert |before + {id.value}| == |before| + 1;
      }
    } else {
      assert before + {} == before;
    }
  }

  /**
   Ledger row `i` makes a rollback report an error: it is to be undone and refers to something, and
   its call fails, or the id it refers to is missing or has been deleted for an earlier row.
   */
  ghost predicate IsErrorRow(rows: seq<Entity>, ledger: seq<LedgerRow>, fails: nat -> bool, i: int) {
    && 0 <= i < |ledger| && ledger[i].status == Imported && ledger[i].ref != NoRef
    && (fails(ledger[i].rowNumber)
        || (ledger[i].ref.ById? && (!HasId(rows, ledger[i].ref.id) || DeletedBefore(rows, ledger, fails, i, ledger[i].ref.id))))
  }

  ghost predicate DeletedBefore(rows: seq<Entity>, ledger: seq<LedgerRow>, fails: nat -> bool, i: int, id: nat) {
    exists j :: 0 <= j < i && IsTarget(rows, ledger, fails, j) && Resolve(rows, ledger[j].ref) == Some(id)
  }

  ghost function ErrorRows(rows: seq<Entity>, ledger: seq<LedgerRow>, fails: nat -> bool): set<int> {
    set i | 0 <= i < |ledger| && IsErrorRow(rows, ledger, fails, i)
  }

  /** The errors a rollback reports are exactly those rows. */
  lemma {:induction false} UndoCountsErrors(rows: seq<Entity>, ledger: seq<LedgerRow>, fails: nat -> bool)
    requires UniqueSlugs(rows)
    ensures UndoAll(rows, ledger, fails).errors == |ErrorRows(rows, ledger, fails)|
    decreases |ledger|
  {
    if ledger == [] {
      assert ErrorRows(rows, ledger, fails) == {};
    } else {
      var n := |ledger| - 1;
      UndoCountsErrors(rows, ledger[..n], fails);
      UndoRemovesTargets(rows, ledger[..n], fails);
      ErrorRowsStep(rows, ledger, fails);
      LastError(rows, ledger, fails);
    }
  }

  lemma ErrorRowsStep(rows: seq<Entity>, ledger: seq<LedgerRow>, fails: nat -> bool)
    requires ledger != []
    ensures var n := |ledger| - 1;
            ErrorRows(rows, ledger, fails) ==
            ErrorRows(rows, ledger[..n], fails) + if IsErrorRow(rows, ledger, fails, n) then {n} else {}
    ensures |ErrorRows(rows, ledger, fails)| ==
            |ErrorRows(rows, ledger[..|ledger| - 1], fails)| + if IsErrorRow(rows, ledger, fails, |ledger| - 1) then 1 else 0
  {
    hide Resolve;
    hide HasId;
    var n := |ledger| - 1;
    var front := ledger[..n];
    forall i | 0 <= i < n
      ensures IsErrorRow(rows, front, fails, i) <==> IsErrorRow(rows, ledger, fails, i)
    {
      EarlierError(rows, ledger, fails, i);
    }
    var some, all := ErrorRows(rows, front, fails), ErrorRows(rows, ledger, fails);
    assert all == some + if IsErrorRow(rows, ledger, fails, n) then {n} else {};
    assert n !in some;
  }

  lemma EarlierError(rows: seq<Entity>, ledger: seq<LedgerRow>, fails: nat -> bool, i: nat)
    requires i < |ledger| - 1
    ensures IsErrorRow(rows, ledger[..|ledger| - 1], fails, i) <==> IsErrorRow(rows, ledger, fails, i)
  {
    hide Resolve;
    hide HasId;
    var front := ledger[..|ledger| - 1];
    forall j | 0 <= j <= i
      ensures front[j] == ledger[j] && (IsTarget(rows, front, fails, j) <==> IsTarget(rows, ledger, fails, j))
    {
    }
  }

  /** The last row is an error in the table its predecessors leave exactly when it is one as said above. */
  lemma LastError(rows: seq<Entity>, ledger: seq<LedgerRow>, fails: nat -> bool)
    requires UniqueSlugs(rows) && ledger != []
    requires var u := UndoAll(rows, ledger[..|ledger| - 1], fails);
             u.rows == Remove(rows, Targets(rows, ledger[..|ledger| - 1], fails))
    ensures UndoAll(rows, ledger, fails).errors ==
            UndoAll(rows, ledger[..|ledger| - 1], fails).errors + if IsErrorRow(rows, ledger, fails, |ledger| - 1) then 1 else 0
  {
    hide Remove;
    hide UndoRow;
    var n := |ledger| - 1;
    var front, last := ledger[..n], ledger[n];
    var gone := Targets(rows, front, fails);
    UndoRowErrors(UndoAll(rows, front, fails), last, fails(last.rowNumber));
    ResolveAfterRemove(rows, gone, last.ref);
    if last.ref.ById? {
      TargetBefore(rows, ledger, fails, last.ref.id);
    }
  }

  /** One row: an error exactly when its call fails or the id it refers to is not there. */
  lemma UndoRowErrors(u: Undo, row: LedgerRow, fails: bool)
    ensures UndoRow(u, row, fails).errors ==
            u.errors + if row.status == Imported && row.ref != NoRef && (fails || (row.ref.ById? && !HasId(u.rows, row.ref.id))) then 1 else 0
  {
  }

  lemma TargetBefore(rows: seq<Entity>, ledger: seq<LedgerRow>, fails: nat -> bool, id: nat)
    requires ledger != []
    ensures id in Targets(rows, ledger[..|ledger| - 1], fails) <==> DeletedBefore(rows, ledger, fails, |ledger| - 1, id)
  {
    hide Resolve;
    var n := |ledger| - 1;
    var front := ledger[..n];
    forall j | 0 <= j < n
      ensures front[j] == ledger[j] && (IsTarget(rows, front, fails, j) <==> IsTarget(rows, ledger, fails, j))
    {
    }
    if id in Targets(rows, front, fails) {
      var j :| 0 <= j < n && IsTarget(rows, front, fails, j) && Resolve(rows, front[j].ref).value == id;
      assert IsTarget(rows, ledger, fails, j) && Resolve(rows, ledger[j].ref) == Some(id);
    }
    if DeletedBefore(rows, ledger, fails, n, id) {
      var j :| 0 <= j < n && IsTarget(rows, ledger, fails, j) && Resolve(rows, ledger[j].ref) == Some(id);
      assert IsTarget(rows, front, fails, j) && Resolve(rows, front[j].ref).value == id;
    }
  }

  // ---------- a run, then its rollback ----------

  /** What the run created under ledger rows whose deletion fails, or that do not know of it. */
  ghost function Survivors(kind: Kind, t: Table, entries: seq<Entry>, envs: seq<Env>, fails: nat -> bool): seq<Entity>
    requires |entries| == |envs|
    decreases |entries|
  {
    if entries == [] then []
    else
      var n := |entries| - 1;
      var p := Process(kind, t, entries[..n], envs[..n]);
      var o := ImportRow(kind, p.table, entries[n], envs[n]);
      Survivors(kind, t, entries[..n], envs[..n], fails)
      + if Survives(p.table, o, fails(n + 1)) then [o.table.rows[|o.table.rows| - 1]] else []
  }

  /** The row changed the table, and its deletion fails or the ledger calls it an error. */
  predicate Survives(before: Table, o: Outcome, fails: bool) {
    o.table != before && (o.status == Imported ==> fails)
  }

  /** Every imported ledger row stands for a row the run created. */
  ghost predicate PointsIntoRun(t: Table, after: Table, ledger: seq<LedgerRow>) {
    forall i :: 0 <= i < |ledger| && ledger[i].status == Imported ==>
      Resolve(after.rows, ledger[i].ref).Some? && t.nextId <= Resolve(after.rows, ledger[i].ref).value < after.nextId
  }

  /** Appending rows under new ids and new slugs does not change what a reference stands for. */
  lemma ResolveStable(rows: seq<Entity>, e: Entity, ref: Ref)
    requires Resolve(rows, ref).Some?
    requires forall i :: 0 <= i < |rows| ==> rows[i].slug != e.slug
    ensures Resolve(rows + [e], ref) == Resolve(rows, ref)
  {
    match ref
    case ById(id) => HasIdStep(rows, e, id);
    case BySlug(slug) =>
      IdOfSlugFound(rows, slug);
      assert (rows + [e])[..|rows|] == rows;
  }

  lemma TargetsStable(rows: seq<Entity>, e: Entity, ledger: seq<LedgerRow>, fails: nat -> bool)
    requires forall i :: 0 <= i < |ledger| && ledger[i].status == Imported ==> Resolve(rows, ledger[i].ref).Some?
    requires forall i :: 0 <= i < |rows| ==> rows[i].slug != e.slug
    ensures Targets(rows + [e], ledger, fails) == Targets(rows, ledger, fails)
  {
    forall i | 0 <= i < |ledger| && ledger[i].status == Imported
      ensures Resolve(rows + [e], ledger[i].ref) == Resolve(rows, ledger[i].ref)
      ensures IsTarget(rows + [e], ledger, fails, i) <==> IsTarget(rows, ledger, fails, i)
    {
      ResolveStable(rows, e, ledger[i].ref);
    }
    forall id
      ensures id in Targets(rows + [e], ledger, fails) <==> id in Targets(rows, ledger, fails)
    {
      if i :| 0 <= i < |ledger| && IsTarget(rows, ledger, fails, i) && Resolve(rows, ledger[i].ref).value == id {
        assert IsTarget(rows + [e], ledger, fails, i);
      }
      if i :| 0 <= i < |ledger| && IsTarget(rows + [e], ledger, fails, i) && Resolve(rows + [e], ledger[i].ref).value == id {
        assert IsTarget(rows, ledger, fails, i);
      }
    }
  }

  /** A row that changes the table appends one entity, under the next id and a new slug. */
  lemma AppendedRow(kind: Kind, t: Table, e: Entry, env: Env)
    requires ValidTable(t) && ImportRow(kind, t, e, env).table != t
    ensures var o := ImportRow(kind, t, e, env);
            var created := NewEntity(t, e, ParentOf(kind, t.rows, e, env));
            && o.table == Added(t, created)
            && created.id == t.nextId
            && (o.status == Imported ==> Resolve(o.table.rows, o.ref) == Some(created.id))
            && (forall i :: 0 <= i < |t.rows| ==> t.rows[i].slug != created.slug)
  {
    hide Slugs.Slugify;
    var created := NewEntity(t, e, ParentOf(kind, t.rows, e, env));
    ImportRowKeepsValid(kind, t, e, env);
    var rows := t.rows + [created];
    assert rows[|rows| - 1] == created && rows[|rows| - 1].id == created.id;
    HasIdStep(t.rows, created, created.id);
    forall i | 0 <= i < |t.rows|
      ensures t.rows[i].slug != created.slug
    {
      assert rows[i] == t.rows[i];
    }
  }

  lemma PointsStable(t: Table, after: Table, e: Entity, ledger: seq<LedgerRow>)
    requires PointsIntoRun(t, after, ledger)
    requires forall i :: 0 <= i < |after.rows| ==> after.rows[i].slug != e.slug
    ensures PointsIntoRun(t, Added(after, e), ledger)
  {
    forall i | 0 <= i < |ledger| && ledger[i].status == Imported
      ensures Resolve(Added(after, e).rows, ledger[i].ref) == Resolve(after.rows, ledger[i].ref)
    {
      ResolveStable(after.rows, e, ledger[i].ref);
    }
  }

  /** A created subcategory hangs under a root that was there before the run. */
  lemma ParentIsOld(kind: Kind, t: Table, now: Table, e: Entry, env: Env)
    requires ValidTable(t) && ImportTheorems.Extends(kind, t, now)
    requires ImportRow(kind, now, e, env).table != now
    ensures var created := NewEntity(now, e, ParentOf(kind, now.rows, e, env));
            created.parent.Some? ==> created.parent.value < t.nextId
  {
    var parent := ParentOf(kind, now.rows, e, env);
    if parent.Some? {
      ImportTheorems.SplitTable(kind, t, now, parent.value);
    }
  }

  /** What `RunTargets` says of a run so far, `left` being what survives its rollback. */
  ghost predicate RunUndone(t: Table, p: Progress, fails: nat -> bool, left: seq<Entity>) {
    && PointsIntoRun(t, p.table, p.rows)
    && Remove(p.table.rows, Targets(p.table.rows, p.rows, fails)) == t.rows + left
  }

  lemma {:induction false} RunTargets(kind: Kind, t: Table, entries: seq<Entry>, envs: seq<Env>, fails: nat -> bool)
    requires |entries| == |envs| && ValidTable(t)
    ensures RunUndone(t, Process(kind, t, entries, envs), fails, Survivors(kind, t, entries, envs, fails))
    decreases |entries|
  {
    if entries == [] {
      assert Targets(t.rows, [], fails) == {};
      RemoveNothing(t.rows);
    } else {
      var n := |entries| - 1;
      RunTargets(kind, t, entries[..n], envs[..n], fails);
      ProcessKeepsValid(kind, t, entries[..n], envs[..n]);
      RunUndoneStep(kind, t, Process(kind, t, entries[..n], envs[..n]), entries[n], envs[n], n + 1, fails,
                    Survivors(kind, t, entries[..n], envs[..n], fails));
    }
  }

  /** The run `p`, and one row more. */
  function OneMore(kind: Kind, p: Progress, e: Entry, env: Env, number: nat): Progress {
    var o := ImportRow(kind, p.table, e, env);
    Progress(o.table, p.rows + [LedgerRow(number, o.status, o.ref, e)])
  }

  lemma RunUndoneStep(kind: Kind, t: Table, p: Progress, e: Entry, env: Env, number: nat, fails: nat -> bool, left: seq<Entity>)
    requires ValidTable(t) && ValidTable(p.table) && ImportTheorems.Extends(kind, t, p.table)
    requires t.nextId <= p.table.nextId && RunUndone(t, p, fails, left)
    ensures var o := ImportRow(kind, p.table, e, env);
            RunUndone(t, OneMore(kind, p, e, env, number), fails,
                      left + if Survives(p.table, o, fails(number)) then [o.table.rows[|o.table.rows| - 1]] else [])
  {
    PointsStep(kind, t, p, e, env, number);
    if ImportRow(kind, p.table, e, env).table != p.table {
      AppendedIsUndone(kind, t, p, e, env, number, fails, left);
    } else {
      OtherIsUndone(kind, t, p, e, env, number, fails, left);
    }
  }

  lemma PointsStep(kind: Kind, t: Table, p: Progress, e: Entry, env: Env, number: nat)
    requires ValidTable(p.table) && t.nextId <= p.table.nextId && PointsIntoRun(t, p.table, p.rows)
    ensures var q := OneMore(kind, p, e, env, number);
            PointsIntoRun(t, q.table, q.rows)
  {
    hide ImportRow;
    hide Resolve;
    ImportTheorems.ImportedRow(kind, p.table, p.table, e, env);
    if ImportRow(kind, p.table, e, env).table != p.table {
      AppendedRow(kind, p.table, e, env);
      PointsStable(t, p.table, NewEntity(p.table, e, ParentOf(kind, p.table.rows, e, env)), p.rows);
    }
  }

  lemma AppendedIsUndone(kind: Kind, t: Table, p: Progress, e: Entry, env: Env, number: nat, fails: nat -> bool, left: seq<Entity>)
    requires ValidTable(t) && ValidTable(p.table) && ImportTheorems.Extends(kind, t, p.table)
    requires t.nextId <= p.table.nextId && RunUndone(t, p, fails, left)
    requires ImportRow(kind, p.table, e, env).table != p.table
    ensures var q := OneMore(kind, p, e, env, number);
            var o := ImportRow(kind, p.table, e, env);
            Remove(q.table.rows, Targets(q.table.rows, q.rows, fails)) ==
            t.rows + (left + if Survives(p.table, o, fails(number)) then [o.table.rows[|o.table.rows| - 1]] else [])
  {
    hide UndoAll;
    hide Remove;
    hide ImportRow;
    var q := OneMore(kind, p, e, env, number);
    var o := ImportRow(kind, p.table, e, env);
    var ids := Targets(p.table.rows, p.rows, fails);
    assert q.rows[..|q.rows| - 1] == p.rows;
    TargetsStep(q.table.rows, q.rows, fails);
    AppendedTargets(kind, t, p, e, env, fails);
    RunTargetsStep(kind, t, p, e, env, Survives(p.table, o, fails(number)), ids, left);
    assert ids + {} == ids;
  }

  lemma OtherIsUndone(kind: Kind, t: Table, p: Progress, e: Entry, env: Env, number: nat, fails: nat -> bool, left: seq<Entity>)
    requires RunUndone(t, p, fails, left) && ImportRow(kind, p.table, e, env).table == p.table
    ensures var q := OneMore(kind, p, e, env, number);
            Remove(q.table.rows, Targets(q.table.rows, q.rows, fails)) == t.rows + (left + [])
  {
    hide ImportRow;
    hide Remove;
    var q := OneMore(kind, p, e, env, number);
    var ids := Targets(p.table.rows, p.rows, fails);
    ImportTheorems.ImportedRow(kind, p.table, p.table, e, env);
    assert q.rows[..|q.rows| - 1] == p.rows;
    TargetsStep(q.table.rows, q.rows, fails);
    assert ids + {} == ids && left + [] == left;
  }

  lemma AppendedTargets(kind: Kind, t: Table, p: Progress, e: Entry, env: Env, fails: nat -> bool)
    requires ValidTable(p.table) && PointsIntoRun(t, p.table, p.rows)
    requires ImportRow(kind, p.table, e, env).table != p.table
    ensures var o := ImportRow(kind, p.table, e, env);
            && Targets(o.table.rows, p.rows, fails) == Targets(p.table.rows, p.rows, fails)
            && (forall id :: id in Targets(p.table.rows, p.rows, fails) ==> t.nextId <= id < p.table.nextId)
            && (o.status == Imported ==> Resolve(o.table.rows, o.ref) == Some(p.table.nextId))
  {
    hide ImportRow;
    AppendedRow(kind, p.table, e, env);
    TargetsStable(p.table.rows, NewEntity(p.table, e, ParentOf(kind, p.table.rows, e, env)), p.rows, fails);
  }

  /** One appended row more: removed, or surviving as it is. */
  lemma RunTargetsStep(kind: Kind, t: Table, p: Progress, e: Entry, env: Env, survives: bool, ids: set<nat>, survivors: seq<Entity>)
    requires ValidTable(t) && ValidTable(p.table) && ImportTheorems.Extends(kind, t, p.table)
    requires ImportRow(kind, p.table, e, env).table != p.table
    requires forall id :: id in ids ==> t.nextId <= id < p.table.nextId
    requires Remove(p.table.rows, ids) == t.rows + survivors
    ensures var o := ImportRow(kind, p.table, e, env);
            var ids' := if survives then ids else ids + {p.table.nextId};
            Remove(o.table.rows, ids') ==
            t.rows + (survivors + if survives then [o.table.rows[|o.table.rows| - 1]] else [])
  {
    hide ImportRow;
    AppendedRow(kind, p.table, e, env);
    ParentIsOld(kind, t, p.table, e, env);
    var created := NewEntity(p.table, e, ParentOf(kind, p.table.rows, e, env));
    RemoveAppended(t.rows, p.table.rows, created, ids, survives, survivors);
  }

  lemma RemoveAppended(base: seq<Entity>, rows: seq<Entity>, e: Entity, ids: set<nat>, fails: bool, survivors: seq<Entity>)
    requires Remove(rows, ids) == base + survivors
    requires e.id !in ids && (e.parent.Some? ==> e.parent.value !in ids + {e.id})
    requires forall i :: 0 <= i < |rows| ==> rows[i].id != e.id && rows[i].parent != Some(e.id)
    ensures Remove(rows + [e], if fails then ids else ids + {e.id}) == base + (survivors + if fails then [e] else [])
  {
    RemoveConcat(rows, [e], ids);
    RemoveConcat(rows, [e], ids + {e.id});
    RemoveOne(e, ids);
    RemoveOne(e, ids + {e.id});
    if fails {
      assert base + survivors + [e] == base + (survivors + [e]);
    } else {
      RemoveFresh(rows, ids, e.id);
      assert base + survivors + [] == base + (survivors + []);
    }
  }

  /** `order` lists the rows of the ledger, in whatever order the database returns them. */
  ghost predicate SameRows(order: seq<LedgerRow>, ledger: seq<LedgerRow>) {
    forall row :: row in order <==> row in ledger
  }

  lemma TargetsIgnoreOrder(rows: seq<Entity>, order: seq<LedgerRow>, ledger: seq<LedgerRow>, fails: nat -> bool)
    requires SameRows(order, ledger)
    ensures Targets(rows, order, fails) == Targets(rows, ledger, fails)
  {
    TargetsIncluded(rows, order, ledger, fails);
    TargetsIncluded(rows, ledger, order, fails);
  }

  lemma TargetsIncluded(rows: seq<Entity>, order: seq<LedgerRow>, ledger: seq<LedgerRow>, fails: nat -> bool)
    requires forall row :: row in order ==> row in ledger
    ensures Targets(rows, order, fails) <= Targets(rows, ledger, fails)
  {
    forall id | id in Targets(rows, order, fails)
      ensures id in Targets(rows, ledger, fails)
    {
      var i :| 0 <= i < |order| && IsTarget(rows, order, fails, i) && Resolve(rows, order[i].ref).value == id;
      assert order[i] in ledger;
      var j :| 0 <= j < |ledger| && ledger[j] == order[i];
      assert IsTarget(rows, ledger, fails, j);
    }
  }

  /**
   Rollback after a run with any faults: the rows from before stay exactly as they were, and of what
   the run created only those rows are left whose deletion fails, or whose write took hold and was
   then reported as failed. This holds for id references and for slug references, in any order.
   */
  lemma {:induction false} RollbackLeavesSurvivors(kind: Kind, t: Table, entries: seq<Entry>, envs: seq<Env>, order: seq<LedgerRow>, fails: nat -> bool)
    requires |entries| == |envs| && ValidTable(t)
    requires SameRows(order, Process(kind, t, entries, envs).rows)
    ensures var p := Process(kind, t, entries, envs);
            UndoAll(p.table.rows, order, fails).rows == t.rows + Survivors(kind, t, entries, envs, fails)
  {
    var p := Process(kind, t, entries, envs);
    ProcessKeepsValid(kind, t, entries, envs);
    RunTargets(kind, t, entries, envs, fails);
    TargetsIgnoreOrder(p.table.rows, order, p.rows, fails);
    UndoRemovesTargets(p.table.rows, order, fails);
  }

  ghost predicate NoneFails(rows: seq<LedgerRow>, fails: nat -> bool) {
    forall i :: 0 <= i < |rows| && rows[i].status == Imported ==> !fails(i + 1)
  }

  /** The write of row `i` took hold, and the ledger calls it an error. */
  ghost predicate LostWrite(kind: Kind, t: Table, entries: seq<Entry>, envs: seq<Env>, rows: seq<LedgerRow>, i: int) {
    0 <= i < |entries| == |envs| == |rows|
    && rows[i].status == Error && envs[i].fault.AfterWrite? && ImportTheorems.Allowed(kind, t, entries[i], envs[i])
  }

  ghost predicate NoLostWrites(kind: Kind, t: Table, entries: seq<Entry>, envs: seq<Env>)
    requires |entries| == |envs|
  {
    forall i :: !LostWrite(kind, t, entries, envs, Process(kind, t, entries, envs).rows, i)
  }

  lemma LostExactly(kind: Kind, t0: Table, t: Table, e: Entry, env: Env)
    requires ImportTheorems.Extends(kind, t0, t)
    ensures var o := ImportRow(kind, t, e, env);
            o.table != t && o.status != Imported <==>
            o.status == Error && env.fault.AfterWrite? && ImportTheorems.Allowed(kind, t0, e, env)
  {
    hide Slugs.Slugify;
    ImportTheorems.ImportedRow(kind, t0, t, e, env);
    ImportTheorems.SameChoice(kind, t0, t, e, env);
  }

  lemma {:induction false} NoSurvivors(kind: Kind, t: Table, entries: seq<Entry>, envs: seq<Env>, fails: nat -> bool)
    requires |entries| == |envs|
    ensures Survivors(kind, t, entries, envs, fails) == [] <==>
            NoneFails(Process(kind, t, entries, envs).rows, fails) && NoLostWrites(kind, t, entries, envs)
    decreases |entries|
  {
    if entries != [] {
      hide ImportRow;
      var n := |entries| - 1;
      NoSurvivors(kind, t, entries[..n], envs[..n], fails);
      var p := Process(kind, t, entries[..n], envs[..n]);
      var o := ImportRow(kind, p.table, entries[n], envs[n]);
      NoneFailsStep(p.rows, LedgerRow(n + 1, o.status, o.ref, entries[n]), fails);
      ImportTheorems.RunExtends(kind, t, t, entries[..n], envs[..n]);
      ImportTheorems.ImportedRow(kind, t, p.table, entries[n], envs[n]);
      LostExactly(kind, t, p.table, entries[n], envs[n]);
      NoLostWritesStep(kind, t, entries, envs);
    }
  }

  lemma NoLostWritesStep(kind: Kind, t: Table, entries: seq<Entry>, envs: seq<Env>)
    requires |entries| == |envs| > 0
    ensures var n := |entries| - 1;
            NoLostWrites(kind, t, entries, envs) <==>
            NoLostWrites(kind, t, entries[..n], envs[..n])
            && !LostWrite(kind, t, entries, envs, Process(kind, t, entries, envs).rows, n)
  {
    hide ImportRow;
    hide ImportTheorems.Allowed;
    var n := |entries| - 1;
    ImportTheorems.LastRow(kind, t, entries, envs);
    var some, all := Process(kind, t, entries[..n], envs[..n]).rows, Process(kind, t, entries, envs).rows;
    forall i | 0 <= i < n
      ensures LostWrite(kind, t, entries[..n], envs[..n], some, i) <==> LostWrite(kind, t, entries, envs, all, i)
    {
      assert some[i] == all[i] && entries[..n][i] == entries[i] && envs[..n][i] == envs[i];
    }
  }

  lemma NoneFailsStep(rows: seq<LedgerRow>, row: LedgerRow, fails: nat -> bool)
    ensures NoneFails(rows + [row], fails) <==> NoneFails(rows, fails) && (row.status == Imported ==> !fails(|rows| + 1))
  {
    var all := rows + [row];
    assert forall i :: 0 <= i < |rows| ==> all[i] == rows[i];
    assert all[|rows|] == row;
  }

  /** Rollback undoes the run exactly when no deletion of an imported row fails and no write was lost to the ledger. */
  lemma {:induction false} RollbackUndoesRun(kind: Kind, t: Table, entries: seq<Entry>, envs: seq<Env>, order: seq<LedgerRow>, fails: nat -> bool)
    requires |entries| == |envs| && ValidTable(t)
    requires SameRows(order, Process(kind, t, entries, envs).rows)
    ensures var p := Process(kind, t, entries, envs);
            UndoAll(p.table.rows, order, fails).rows == t.rows <==>
            NoneFails(p.rows, fails) && NoLostWrites(kind, t, entries, envs)
  {
    RollbackLeavesSurvivors(kind, t, entries, envs, order, fails);
    NoSurvivors(kind, t, entries, envs, fails);
    var left := Survivors(kind, t, entries, envs, fails);
    assert t.rows + left == t.rows <==> left == [] by {
      assert |t.rows + left| == |t.rows| + |left|;
    }
  }

  /**
   A second rollback does nothing: the ledger no longer says IMPORTED. That includes rows whose
   first deletion failed, so survivors stay for good.
   */
  lemma {:induction false} SecondRollbackDoesNothing(rows: seq<Entity>, ledger: seq<LedgerRow>, fails: nat -> bool)
    ensures UndoAll(rows, MarkRolledBack(ledger), fails) == Undo(rows, 0, 0)
    decreases |ledger|
  {
    if ledger != [] {
      SecondRollbackDoesNothing(rows, ledger[..|ledger| - 1], fails);
      assert MarkRolledBack(ledger)[..|ledger| - 1] == MarkRolledBack(ledger[..|ledger| - 1]);
    }
  }

  // ---------- rollbacks keep the schema's constraints ----------

  lemma ValidStep(rows: seq<Entity>, e: Entity, next: nat)
    ensures ValidTable(Table(rows + [e], next)) <==>
            && ValidTable(Table(rows, next)) && e.id < next && !HasId(rows, e.id) && !HasSlug(rows, e.slug)
            && (e.parent.Some? ==> e.parent.value < next)
  {
    var all := rows + [e];
    assert all[|rows|] == e;
    assert forall i :: 0 <= i < |rows| ==> all[i] == rows[i];
  }

  lemma {:induction false} RemoveKeepsValid(rows: seq<Entity>, ids: set<nat>, next: nat)
    requires ValidTable(Table(rows, next))
    ensures ValidTable(Table(Remove(rows, ids), next))
    ensures forall slug :: HasSlug(Remove(rows, ids), slug) ==> HasSlug(rows, slug)
    decreases |rows|
  {
    if rows != [] {
      hide Remove;
      hide HasId;
      hide HasSlug;
      hide ValidTable;
      var front, last := rows[..|rows| - 1], rows[|rows| - 1];
      RemoveStep(rows, ids);
      ValidStep(front, last, next);
      RemoveKeepsValid(front, ids, next);
      HasIdAfterRemove(front, ids, last.id);
      ValidStep(Remove(front, ids), Cleared(last, ids), next);
      forall slug
        ensures HasSlug(Remove(rows, ids), slug) ==> HasSlug(rows, slug)
      {
        HasSlugStep(front, last, slug);
        HasSlugStep(Remove(front, ids), Cleared(last, ids), slug);
      }
    }
  }

  lemma ValidHasUniqueSlugs(t: Table)
    requires ValidTable(t)
    ensures UniqueSlugs(t.rows)
  {
  }

  /** Whatever a rollback deletes, the table stays valid. */
  lemma {:induction false} UndoKeepsValid(t: Table, ledger: seq<LedgerRow>, fails: nat -> bool)
    requires ValidTable(t)
    ensures ValidTable(Table(UndoAll(t.rows, ledger, fails).rows, t.nextId))
  {
    hide UndoAll;
    ValidHasUniqueSlugs(t);
    UndoRemovesTargets(t.rows, ledger, fails);
    RemoveKeepsValid(t.rows, Targets(t.rows, ledger, fails), t.nextId);
  }

  // ---------- two jobs on one table ----------

  function Never(n: nat): bool {
    false
  }

  lemma {:induction false} ResolveThroughRun(kind: Kind, t: Table, entries: seq<Entry>, envs: seq<Env>, ref: Ref)
    requires |entries| == |envs| && ValidTable(t) && Resolve(t.rows, ref).Some?
    ensures Resolve(Process(kind, t, entries, envs).table.rows, ref) == Resolve(t.rows, ref)
    decreases |entries|
  {
    if entries != [] {
      hide ImportRow;
      hide Resolve;
      var n := |entries| - 1;
      ResolveThroughRun(kind, t, entries[..n], envs[..n], ref);
      ProcessKeepsValid(kind, t, entries[..n], envs[..n]);
      var p := Process(kind, t, entries[..n], envs[..n]);
      var o := ImportRow(kind, p.table, entries[n], envs[n]);
      if o.table != p.table {
        AppendedRow(kind, p.table, entries[n], envs[n]);
        ResolveStable(p.table.rows, NewEntity(p.table, entries[n], ParentOf(kind, p.table.rows, entries[n], envs[n])), ref);
      }
    }
  }

  lemma TargetsEqual(rows: seq<Entity>, rows': seq<Entity>, ledger: seq<LedgerRow>)
    requires forall i :: 0 <= i < |ledger| && ledger[i].status == Imported ==>
               Resolve(rows, ledger[i].ref) == Resolve(rows', ledger[i].ref)
    ensures Targets(rows, ledger, Never) <= Targets(rows', ledger, Never)
  {
    forall id | id in Targets(rows, ledger, Never)
      ensures id in Targets(rows', ledger, Never)
    {
      var i :| 0 <= i < |ledger| && IsTarget(rows, ledger, Never, i) && Resolve(rows, ledger[i].ref).value == id;
      assert IsTarget(rows', ledger, Never, i);
    }
  }

  lemma TargetsAfterRemove(rows: seq<Entity>, ids: set<nat>, ledger: seq<LedgerRow>, fails: nat -> bool)
    requires UniqueSlugs(rows)
    ensures Targets(Remove(rows, ids), ledger, fails) == Targets(rows, ledger, fails) - ids
  {
    var left := Remove(rows, ids);
    forall i | 0 <= i < |ledger|
      ensures IsTarget(left, ledger, fails, i) <==>
              IsTarget(rows, ledger, fails, i) && Resolve(rows, ledger[i].ref).value !in ids
      ensures IsTarget(left, ledger, fails, i) ==> Resolve(left, ledger[i].ref) == Resolve(rows, ledger[i].ref)
    {
      ResolveAfterRemove(rows, ids, ledger[i].ref);
    }
    forall id
      ensures id in Targets(left, ledger, fails) <==> id in Targets(rows, ledger, fails) - ids
    {
      if i :| 0 <= i < |ledger| && IsTarget(rows, ledger, fails, i) && Resolve(rows, ledger[i].ref).value == id && id !in ids {
        assert IsTarget(left, ledger, fails, i);
      }
      if i :| 0 <= i < |ledger| && IsTarget(left, ledger, fails, i) && Resolve(left, ledger[i].ref).value == id {
        assert IsTarget(rows, ledger, fails, i);
      }
    }
  }

  ghost predicate HasSlug(rows: seq<Entity>, slug: string) {
    exists i :: 0 <= i < |rows| && rows[i].slug == slug
  }

  lemma HasSlugStep(rows: seq<Entity>, e: Entity, slug: string)
    ensures HasSlug(rows + [e], slug) <==> HasSlug(rows, slug) || e.slug == slug
  {
    if HasSlug(rows, slug) {
      var i :| 0 <= i < |rows| && rows[i].slug == slug;
      assert (rows + [e])[i].slug == slug;
    }
    if e.slug == slug {
      assert (rows + [e])[|rows|].slug == slug;
    }
  }

  lemma UniqueSlugsStep(rows: seq<Entity>, e: Entity)
    ensures UniqueSlugs(rows + [e]) <==> UniqueSlugs(rows) && !HasSlug(rows, e.slug)
  {
    var all := rows + [e];
    assert all[|rows|] == e;
    assert forall i :: 0 <= i < |rows| ==> all[i] == rows[i];
  }

  lemma {:induction false} RemoveKeepsSlugsUnique(rows: seq<Entity>, ids: set<nat>)
    requires UniqueSlugs(rows)
    ensures UniqueSlugs(Remove(rows, ids))
    ensures forall slug :: HasSlug(Remove(rows, ids), slug) ==> HasSlug(rows, slug)
    decreases |rows|
  {
    if rows != [] {
      hide Remove;
      hide HasSlug;
      hide UniqueSlugs;
      var front, last := rows[..|rows| - 1], rows[|rows| - 1];
      RemoveStep(rows, ids);
      UniqueSlugsStep(front, last);
      RemoveKeepsSlugsUnique(front, ids);
      UniqueSlugsStep(Remove(front, ids), Cleared(last, ids));
      forall slug
        ensures HasSlug(Remove(rows, ids), slug) ==> HasSlug(rows, slug)
      {
        HasSlugStep(front, last, slug);
        HasSlugStep(Remove(front, ids), Cleared(last, ids), slug);
      }
    }
  }

  lemma {:induction false} SurvivorsAreNew(kind: Kind, t: Table, entries: seq<Entry>, envs: seq<Env>, fails: nat -> bool)
    requires |entries| == |envs| && ValidTable(t)
    ensures forall x :: x in Survivors(kind, t, entries, envs, fails) ==> t.nextId <= x.id
    decreases |entries|
  {
    if entries != [] {
      hide ImportRow;
      var n := |entries| - 1;
      SurvivorsAreNew(kind, t, entries[..n], envs[..n], fails);
      ProcessKeepsValid(kind, t, entries[..n], envs[..n]);
      var p := Process(kind, t, entries[..n], envs[..n]);
      if ImportRow(kind, p.table, entries[n], envs[n]).table != p.table {
        AppendedRow(kind, p.table, entries[n], envs[n]);
      }
    }
  }

  lemma {:induction false} RemoveOthers(rows: seq<Entity>, ids: set<nat>)
    requires forall x :: x in rows ==> x.id !in ids
    ensures |Remove(rows, ids)| == |rows|
    decreases |rows|
  {
    if rows != [] {
      hide Remove;
      RemoveStep(rows, ids);
      assert rows[|rows| - 1] in rows;
      RemoveOthers(rows[..|rows| - 1], ids);
    }
  }

  /** What is left of a second job's survivors, and before them the table the first job's rollback leaves. */
  lemma RemoveBehind(base: seq<Entity>, more: seq<Entity>, ids: set<nat>, t: seq<Entity>, left: seq<Entity>)
    requires Remove(base, ids) == t + left && forall x :: x in more ==> x.id !in ids
    ensures Remove(base + more, ids) == t <==> left == [] && more == []
  {
    hide Remove;
    RemoveConcat(base, more, ids);
    RemoveOthers(more, ids);
    assert |Remove(base + more, ids)| == |t| + |left| + |more|;
    if left == [] && more == [] {
      assert Remove(more, ids) == [];
      assert t + left + [] == t;
    }
  }

  /**
   Two jobs, run one after the other with any faults, can be rolled back in either order: both
   leave the same table, and it is what it was before the first exactly when no write was lost to
   the ledger in either. (Rolling back the categories first detaches the subcategories created
   under them, and the second rollback still finds those.)
   */
  lemma {:induction false} RollbackInEitherOrder(kindA: Kind, kindB: Kind, t: Table, a: seq<Entry>, envA: seq<Env>, b: seq<Entry>, envB: seq<Env>)
    requires |a| == |envA| && |b| == |envB| && ValidTable(t)
    ensures var first := Process(kindA, t, a, envA);
            var second := Process(kindB, first.table, b, envB);
            var left := UndoAll(UndoAll(second.table.rows, second.rows, Never).rows, first.rows, Never).rows;
            && UndoAll(UndoAll(second.table.rows, first.rows, Never).rows, second.rows, Never).rows == left
            && (left == t.rows <==> NoLostWrites(kindA, t, a, envA) && NoLostWrites(kindB, first.table, b, envB))
  {
    hide Process;
    hide UndoAll;
    hide Remove;
    hide Survivors;
    hide Targets;
    hide NoLostWrites;
    var first := Process(kindA, t, a, envA);
    var second := Process(kindB, first.table, b, envB);
    var rows := second.table.rows;
    var idsA, idsB := Targets(rows, first.rows, Never), Targets(rows, second.rows, Never);
    var leftA, leftB := Survivors(kindA, t, a, envA, Never), Survivors(kindB, first.table, b, envB, Never);
    ProcessKeepsValid(kindA, t, a, envA);
    ProcessKeepsValid(kindB, first.table, b, envB);
    RemoveInEitherOrder(rows, first.rows, second.rows);
    RemoveInEitherOrder(rows, second.rows, first.rows);
    RemoveTwice(rows, idsA, idsB);
    RemoveTwice(rows, idsB, idsA);
    assert idsA + idsB == idsB + idsA;
    FirstTargets(kindA, kindB, t, a, envA, b, envB);
    RunTargets(kindA, t, a, envA, Never);
    RunTargets(kindB, first.table, b, envB, Never);
    SurvivorsAreNew(kindB, first.table, b, envB, Never);
    RemoveBehind(first.table.rows, leftB, idsA, t.rows, leftA);
    NoSurvivors(kindA, t, a, envA, Never);
    NoSurvivors(kindB, first.table, b, envB, Never);
  }

  lemma RunIsRemoved(kind: Kind, t: Table, entries: seq<Entry>, envs: seq<Env>)
    requires |entries| == |envs| && ValidTable(t) && NoLostWrites(kind, t, entries, envs)
    ensures var p := Process(kind, t, entries, envs);
            UndoAll(p.table.rows, p.rows, Never).rows == t.rows
  {
    hide Process;
    RollbackUndoesRun(kind, t, entries, envs, Process(kind, t, entries, envs).rows, Never);
  }

  lemma RemoveInEitherOrder(rows: seq<Entity>, a: seq<LedgerRow>, b: seq<LedgerRow>)
    requires UniqueSlugs(rows)
    ensures UndoAll(UndoAll(rows, a, Never).rows, b, Never).rows ==
            Remove(Remove(rows, Targets(rows, b, Never)), Targets(rows, a, Never))
  {
    hide *;
    var idsA, idsB := Targets(rows, a, Never), Targets(rows, b, Never);
    UndoRemovesTargets(rows, a, Never);
    RemoveKeepsSlugsUnique(rows, idsA);
    UndoRemovesTargets(Remove(rows, idsA), b, Never);
    TargetsAfterRemove(rows, idsA, b, Never);
    RemoveTwice(rows, idsA, idsB - idsA);
    RemoveTwice(rows, idsB, idsA);
    assert idsA + (idsB - idsA) == idsB + idsA;
  }

  lemma FirstTargets(kindA: Kind, kindB: Kind, t: Table, a: seq<Entry>, envA: seq<Env>, b: seq<Entry>, envB: seq<Env>)
    requires |a| == |envA| && |b| == |envB| && ValidTable(t)
    ensures var first := Process(kindA, t, a, envA);
            var second := Process(kindB, first.table, b, envB);
            && Targets(second.table.rows, first.rows, Never) == Targets(first.table.rows, first.rows, Never)
            && forall id :: id in Targets(first.table.rows, first.rows, Never) ==> id < first.table.nextId
  {
    var first := Process(kindA, t, a, envA);
    var second := Process(kindB, first.table, b, envB);
    RunTargets(kindA, t, a, envA, Never);
    ProcessKeepsValid(kindA, t, a, envA);
    forall i | 0 <= i < |first.rows| && first.rows[i].status == Imported
      ensures Resolve(second.table.rows, first.rows[i].ref) == Resolve(first.table.rows, first.rows[i].ref)
    {
      ResolveThroughRun(kindB, first.table, b, envB, first.rows[i].ref);
    }
    TargetsEqual(first.table.rows, second.table.rows, first.rows);
    TargetsEqual(second.table.rows, first.table.rows, first.rows);
  }
}
