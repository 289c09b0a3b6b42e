/**
 How far a rollback reaches: into rows that other ledger rows recorded as duplicates, and, once others
 have written to the table, into rows the job did not create.
 */
module RollbackReach {
  import opened Wrappers
  import opened ImportModel
  import opened ImportTheorems
  import opened RollbackTheorems
  import Slugs

  // ---------- rows recorded as duplicates ----------

  /** Ledger row `j` imported the entity `id`. */
  ghost predicate Creates(p: Progress, j: int, id: nat) {
    0 <= j < |p.rows| && p.rows[j].status == Imported && Resolve(p.table.rows, p.rows[j].ref) == Some(id)
  }

  /** No entity is created by two ledger rows. */
  ghost predicate CreatedOnce(p: Progress) {
    forall i, j, id: nat :: Creates(p, i, id) && Creates(p, j, id) ==> i == j
  }

  /** Each new entity is created by some ledger row. */
  ghost predicate AllRecorded(t: Table, p: Progress) {
    forall id: nat :: t.nextId <= id && HasId(p.table.rows, id) ==> exists j :: Creates(p, j, id)
  }

  /** Every DUPLICATE row names an entity of the table, by its id. */
  ghost predicate DuplicatesExist(p: Progress) {
    forall j :: 0 <= j < |p.rows| && p.rows[j].status == Duplicate ==>
      p.rows[j].ref.ById? && HasId(p.table.rows, p.rows[j].ref.id)
  }

  lemma {:induction false} RunCreatesOnce(kind: Kind, t: Table, entries: seq<Entry>, envs: seq<Env>)
    requires |entries| == |envs| && ValidTable(t)
    ensures var p := Process(kind, t, entries, envs);
            && CreatedOnce(p) && DuplicatesExist(p) && PointsIntoRun(t, p.table, p.rows)
            && (NoLostWrites(kind, t, entries, envs) ==> AllRecorded(t, p))
    decreases |entries|
  {
    if entries == [] {
      NoOldIds(t);
    } else {
      hide ImportRow;
      hide CreatedOnce;
      hide AllRecorded;
      hide DuplicatesExist;
      hide PointsIntoRun;
      var n := |entries| - 1;
      RunCreatesOnce(kind, t, entries[..n], envs[..n]);
      ProcessKeepsValid(kind, t, entries[..n], envs[..n]);
      var p := Process(kind, t, entries[..n], envs[..n]);
      PointsStep(kind, t, p, entries[n], envs[n], n + 1);
      OneMoreCreatesOnce(kind, t, p, entries[n], envs[n], n + 1);
      LostExactly(kind, t, p.table, entries[n], envs[n]);
      NoLostWritesStep(kind, t, entries, envs);
      LastRow(kind, t, entries, envs);
    }
  }

  lemma NoOldIds(t: Table)
    requires ValidTable(t)
    ensures forall id: nat :: t.nextId <= id ==> !HasId(t.rows, id)
  {
  }

  lemma OneMoreCreatesOnce(kind: Kind, t: Table, p: Progress, e: Entry, env: Env, number: nat)
    requires ValidTable(p.table) && PointsIntoRun(t, p.table, p.rows)
    requires CreatedOnce(p) && DuplicatesExist(p)
    ensures var q := OneMore(kind, p, e, env, number);
            var o := ImportRow(kind, p.table, e, env);
            && CreatedOnce(q) && DuplicatesExist(q)
            && (AllRecorded(t, p) && !(o.table != p.table && o.status != Imported) ==> AllRecorded(t, q))
  {
    var q := OneMore(kind, p, e, env, number);
    if ImportRow(kind, p.table, e, env).table != p.table {
      hide Creates;
      hide HasId;
      hide ImportRow;
      CreatesOneMore(kind, t, p, e, env, number);
      AppendedRow(kind, p.table, e, env);
      ImportedRow(kind, p.table, p.table, e, env);
      DuplicatesStay(p, q, NewEntity(p.table, e, ParentOf(kind, p.table.rows, e, env)));
      if ImportRow(kind, p.table, e, env).status == Imported {
        OneMoreIsRecorded(t, p, q);
      }
    } else {
      OtherCreatesNothing(kind, t, p, e, env, number);
    }
  }

  lemma OtherCreatesNothing(kind: Kind, t: Table, p: Progress, e: Entry, env: Env, number: nat)
    requires CreatedOnce(p) && DuplicatesExist(p) && ImportRow(kind, p.table, e, env).table == p.table
    ensures var q := OneMore(kind, p, e, env, number);
            CreatedOnce(q) && DuplicatesExist(q) && (AllRecorded(t, p) ==> AllRecorded(t, q))
  {
    hide ImportRow;
    var q := OneMore(kind, p, e, env, number);
    ImportedRow(kind, p.table, p.table, e, env);
    forall j, id: nat
      ensures Creates(q, j, id) <==> Creates(p, j, id)
    {
    }
    DuplicateExists(kind, p.table, e, env);
  }

  lemma DuplicateExists(kind: Kind, t: Table, e: Entry, env: Env)
    ensures var o := ImportRow(kind, t, e, env);
            o.status == Duplicate ==> o.ref.ById? && HasId(t.rows, o.ref.id)
  {
    if ImportRow(kind, t, e, env).status == Duplicate {
      var x := FindFirst(t.rows, ExistingQuery(e, ParentOf(kind, t.rows, e, env)), env.matchPick).value;
      var i :| 0 <= i < |t.rows| && t.rows[i] == x;
      assert t.rows[i].id == x.id;
    }
  }

  lemma DuplicatesStay(p: Progress, q: Progress, created: Entity)
    requires DuplicatesExist(p) && q.table.rows == p.table.rows + [created]
    requires exists row :: q.rows == p.rows + [row] && row.status != Duplicate
    ensures DuplicatesExist(q)
  {
    forall j | 0 <= j < |q.rows| && q.rows[j].status == Duplicate
      ensures q.rows[j].ref.ById? && HasId(q.table.rows, q.rows[j].ref.id)
    {
      assert q.rows[j] == p.rows[j];
      HasIdStep(p.table.rows, created, p.rows[j].ref.id);
    }
  }

  /** A row that changes the table adds the next id, which it creates if it is imported; the rows before it create what they created. */
  lemma CreatesOneMore(kind: Kind, t: Table, p: Progress, e: Entry, env: Env, number: nat)
    requires ValidTable(p.table) && PointsIntoRun(t, p.table, p.rows)
    requires ImportRow(kind, p.table, e, env).table != p.table
    ensures var q := OneMore(kind, p, e, env, number);
            var imported := ImportRow(kind, p.table, e, env).status == Imported;
            && (forall id: nat :: HasId(q.table.rows, id) <==> HasId(p.table.rows, id) || id == p.table.nextId)
            && (forall j, id: nat :: Creates(q, j, id) <==> Creates(p, j, id) || (imported && j == |p.rows| && id == p.table.nextId))
            && (forall j, id: nat :: Creates(p, j, id) ==> id != p.table.nextId)
  {
    hide ImportRow;
    var q := OneMore(kind, p, e, env, number);
    var created := NewEntity(p.table, e, ParentOf(kind, p.table.rows, e, env));
    AppendedRow(kind, p.table, e, env);
    forall id: nat
      ensures HasId(q.table.rows, id) <==> HasId(p.table.rows, id) || id == p.table.nextId
    {
      HasIdStep(p.table.rows, created, id);
    }
    forall j, id: nat
      ensures Creates(q, j, id) <==>
              Creates(p, j, id) || (ImportRow(kind, p.table, e, env).status == Imported && j == |p.rows| && id == p.table.nextId)
    {
      if 0 <= j < |p.rows| && p.rows[j].status == Imported {
        ResolveStable(p.table.rows, created, p.rows[j].ref);
      }
    }
  }

  lemma OneMoreIsRecorded(t: Table, p: Progress, q: Progress)
    requires forall id: nat :: HasId(q.table.rows, id) <==> HasId(p.table.rows, id) || id == p.table.nextId
    requires forall j, id: nat :: Creates(q, j, id) <==> Creates(p, j, id) || (j == |p.rows| && id == p.table.nextId)
    ensures AllRecorded(t, p) ==> AllRecorded(t, q)
  {
    hide Creates;
    hide HasId;
    if AllRecorded(t, p) {
      forall id: nat | t.nextId <= id && HasId(q.table.rows, id)
        ensures exists j :: Creates(q, j, id)
      {
        if id == p.table.nextId {
          assert Creates(q, |p.rows|, id);
        } else {
          var j :| Creates(p, j, id);
          assert Creates(q, j, id);
        }
      }
    }
  }

  /**
   The entity a DUPLICATE row names, after the rollback of its job: it is still there exactly when
   no imported row of the run created it and has its deletion work. With no write lost to the
   ledger, that is when it was there before the run, or when the same run created it and that
   deletion fails. So a name that occurs twice in one file is recorded as imported and as a
   duplicate of an existing entity, and the rollback deletes that entity.
   */
  lemma {:induction false} DuplicateSurvivesExactly(kind: Kind, t: Table, entries: seq<Entry>, envs: seq<Env>,
                                                    order: seq<LedgerRow>, fails: nat -> bool, i: nat)
    requires |entries| == |envs| && ValidTable(t)
    requires i < |entries| && Process(kind, t, entries, envs).rows[i].status == Duplicate
    requires SameRows(order, Process(kind, t, entries, envs).rows)
    ensures var p := Process(kind, t, entries, envs);
            var ref := p.rows[i].ref;
            && ref.ById? && HasId(p.table.rows, ref.id)
            && var survives := HasId(UndoAll(p.table.rows, order, fails).rows, ref.id);
            && (survives <==> forall j :: Creates(p, j, ref.id) ==> fails(j + 1))
            && (NoLostWrites(kind, t, entries, envs) ==>
                  (survives <==> ref.id < t.nextId || exists j :: Creates(p, j, ref.id) && fails(j + 1)))
  {
    hide Targets;
    hide UndoAll;
    hide Remove;
    hide Process;
    hide NoLostWrites;
    var p := Process(kind, t, entries, envs);
    ProcessKeepsValid(kind, t, entries, envs);
    RunCreatesOnce(kind, t, entries, envs);
    LedgerRows(kind, t, entries, envs);
    var id := p.rows[i].ref.id;
    TargetsIgnoreOrder(p.table.rows, order, p.rows, fails);
    UndoRemovesTargets(p.table.rows, order, fails);
    HasIdAfterRemove(p.table.rows, Targets(p.table.rows, p.rows, fails), id);
    TargetExactly(t, p, fails, id);
    OldIsNotCreated(t, p, id);
  }

  lemma OldIsNotCreated(t: Table, p: Progress, id: nat)
    requires PointsIntoRun(t, p.table, p.rows)
    ensures id < t.nextId ==> forall j :: !Creates(p, j, id)
  {
  }

  /** An entity is a target exactly when a ledger row created it whose deletion works. */
  lemma TargetExactly(t: Table, p: Progress, fails: nat -> bool, id: nat)
    requires forall j :: 0 <= j < |p.rows| ==> p.rows[j].rowNumber == j + 1
    ensures id in Targets(p.table.rows, p.rows, fails) <==> exists j :: Creates(p, j, id) && !fails(j + 1)
  {
    hide Resolve;
    if id in Targets(p.table.rows, p.rows, fails) {
      var k :| 0 <= k < |p.rows| && IsTarget(p.table.rows, p.rows, fails, k) && Resolve(p.table.rows, p.rows[k].ref).value == id;
      assert Creates(p, k, id);
    }
    if j :| Creates(p, j, id) && !fails(j + 1) {
      assert IsTarget(p.table.rows, p.rows, fails, j);
    }
  }

  /** One name twice in one file: recorded as imported and as its duplicate, and rolled back to nothing. */
  lemma {:induction false} RepeatedNameIsRolledBack(kind: Kind, e: Entry)
    requires !kind.Subcategories?
    ensures var env := Env(NoFault, 0, 0);
            var p := Process(kind, Table([], 0), [e, e], [env, env]);
            && p.rows[1].status == Duplicate && p.rows[1].ref == ById(0)
            && HasId(p.table.rows, 0)
            && UndoAll(p.table.rows, p.rows, Never).rows == []
  {
    var t, env := Table([], 0), Env(NoFault, 0, 0);
    var p := Process(kind, t, [e, e], [env, env]);
    assert NoLostWrites(kind, t, [e, e], [env, env]);
    RunIsRemoved(kind, t, [e, e], [env, env]);
    TwoRows(kind, t, e, env);
    var created := NewEntity(t, e, None);
    FoundAgain(kind, created, e, env);
    assert [created][0].id == 0;
  }

  lemma TwoRows(kind: Kind, t: Table, e: Entry, env: Env)
    ensures var p := Process(kind, t, [e, e], [env, env]);
            var o := ImportRow(kind, t, e, env);
            var o' := ImportRow(kind, o.table, e, env);
            p == Progress(o'.table, [LedgerRow(1, o.status, o.ref, e), LedgerRow(2, o'.status, o'.ref, e)])
  {
    var entries, envs := [e, e], [env, env];
    assert entries[..2] == entries && envs[..2] == envs && entries[..0] == [] && envs[..0] == [];
    PrefixStep(kind, t, entries, envs, 0);
    PrefixStep(kind, t, entries, envs, 1);
  }

  lemma FoundAgain(kind: Kind, created: Entity, e: Entry, env: Env)
    requires !kind.Subcategories? && env.fault.NoFault? && created.name == e.name && created.slug == Slugs.Slugify(e.name)
    ensures ImportRow(kind, Table([], created.id), e, env).table.rows == [Entity(created.id, created.slug, created.name, None)]
    ensures ImportRow(kind, Table([created], created.id + 1), e, env) == Outcome(Table([created], created.id + 1), Duplicate, ById(created.id))
  {
    var q := ExistingQuery(e, None);
    assert Matches(q, created);
    assert [created][1..] == [];
    assert Select([created], q) == [created];
    assert forall n: nat :: n % 1 == 0;
  }

  /** A write that takes hold and is reported as failed: the ledger calls the row an error, and no rollback removes what it created. */
  lemma LostWriteStays(kind: Kind, e: Entry, fails: nat -> bool)
    requires !kind.Subcategories?
    ensures var p := Process(kind, Table([], 0), [e], [Env(AfterWrite, 0, 0)]);
            && p.rows[0].status == Error
            && p.table.rows == [Entity(0, Slugs.Slugify(e.name), e.name, None)]
            && UndoAll(p.table.rows, p.rows, fails).rows == p.table.rows
  {
    var t, env := Table([], 0), Env(AfterWrite, 0, 0);
    hide Slugs.Slugify;
    SingleRun(kind, t, e, env);
    assert [LedgerRow(1, Error, NoRef, e)][..0] == [];
  }

  // ---------- what a rollback reports ----------

  /**
   The rollback of a run's own ledger, in any order of its rows: each imported row counts once, as
   rolled back when its deletion works and as an error when it fails.
   */
  lemma {:induction false} OwnRollbackCounts(kind: Kind, t: Table, entries: seq<Entry>, envs: seq<Env>, fails: nat -> bool)
    requires |entries| == |envs| && ValidTable(t)
    ensures var p := Process(kind, t, entries, envs);
            var u := UndoAll(p.table.rows, p.rows, fails);
            && u.errors == |set i | 0 <= i < |p.rows| && p.rows[i].status == Imported && fails(i + 1)|
            && u.rolledBack == |set i | 0 <= i < |p.rows| && p.rows[i].status == Imported && !fails(i + 1)|
            && u.rolledBack + u.errors == |Having(p.rows, Imported)|
  {
    hide Process;
    hide NoLostWrites;
    hide UndoAll;
    var p := Process(kind, t, entries, envs);
    var rows := p.table.rows;
    ProcessKeepsValid(kind, t, entries, envs);
    RunCreatesOnce(kind, t, entries, envs);
    LedgerRows(kind, t, entries, envs);
    UndoCountsErrors(rows, p.rows, fails);
    UndoRemovesTargets(rows, p.rows, fails);
    OwnErrors(t, p, fails);
    OwnTargets(t, p, fails);
    var good := set i | 0 <= i < |p.rows| && p.rows[i].status == Imported && !fails(i + 1);
    var bad := set i | 0 <= i < |p.rows| && p.rows[i].status == Imported && fails(i + 1);
    assert Having(p.rows, Imported) == good + bad && good !! bad;
  }

  lemma OwnErrors(t: Table, p: Progress, fails: nat -> bool)
    requires PointsIntoRun(t, p.table, p.rows) && CreatedOnce(p)
    requires forall i :: 0 <= i < |p.rows| ==> p.rows[i].rowNumber == i + 1
    ensures ErrorRows(p.table.rows, p.rows, fails) == set i | 0 <= i < |p.rows| && p.rows[i].status == Imported && fails(i + 1)
  {
    var rows := p.table.rows;
    forall i | 0 <= i < |p.rows| && p.rows[i].status == Imported
      ensures IsErrorRow(rows, p.rows, fails, i) <==> fails(i + 1)
    {
      OwnError(t, p, fails, i);
    }
  }

  /** The reference of an imported row is there, and no other row has deleted it. */
  lemma OwnError(t: Table, p: Progress, fails: nat -> bool, i: nat)
    requires PointsIntoRun(t, p.table, p.rows) && CreatedOnce(p)
    requires i < |p.rows| && p.rows[i].status == Imported && p.rows[i].rowNumber == i + 1
    ensures IsErrorRow(p.table.rows, p.rows, fails, i) <==> fails(i + 1)
  {
    hide HasId;
    var rows := p.table.rows;
    var ref := p.rows[i].ref;
    assert Resolve(rows, ref).Some?;
    if ref.ById? {
      assert Creates(p, i, ref.id);
      forall j | 0 <= j < i && IsTarget(rows, p.rows, fails, j)
        ensures Resolve(rows, p.rows[j].ref) != Some(ref.id)
      {
        assert Creates(p, j, Resolve(rows, p.rows[j].ref).value);
      }
    }
  }

  lemma OwnTargets(t: Table, p: Progress, fails: nat -> bool)
    requires PointsIntoRun(t, p.table, p.rows) && CreatedOnce(p)
    requires forall i :: 0 <= i < |p.rows| ==> p.rows[i].rowNumber == i + 1
    ensures |Targets(p.table.rows, p.rows, fails)| == |set i | 0 <= i < |p.rows| && p.rows[i].status == Imported && !fails(i + 1)|
  {
    var rows := p.table.rows;
    var good := set i | 0 <= i < |p.rows| && p.rows[i].status == Imported && !fails(i + 1);
    forall i, j | i in good && j in good && Resolve(rows, p.rows[i].ref) == Resolve(rows, p.rows[j].ref)
      ensures i == j
    {
      var id := Resolve(rows, p.rows[i].ref).value;
      assert Creates(p, i, id) && Creates(p, j, id);
    }
    forall id
      ensures id in Targets(rows, p.rows, fails) <==> exists i :: i in good && Resolve(rows, p.rows[i].ref).value == id
    {
      if i :| i in good && Resolve(rows, p.rows[i].ref).value == id {
        assert IsTarget(rows, p.rows, fails, i);
      }
    }
    ImageSize(rows, p.rows, good, Targets(rows, p.rows, fails));
  }

  lemma SomeMember<T>(s: set<T>) returns (x: T)
    requires s != {}
    ensures x in s
  {
    x :| x in s;
  }

  lemma {:induction false} ImageSize(rows: seq<Entity>, ledger: seq<LedgerRow>, good: set<int>, ids: set<nat>)
    requires forall i :: i in good ==> 0 <= i < |ledger| && Resolve(rows, ledger[i].ref).Some?
    requires forall i, j :: i in good && j in good && Resolve(rows, ledger[i].ref) == Resolve(rows, ledger[j].ref) ==> i == j
    requires forall id :: id in ids <==> exists i :: i in good && Resolve(rows, ledger[i].ref).value == id
    ensures |ids| == |good|
    decreases |good|
  {
    if good != {} {
      var k := SomeMember(good);
      var id := Resolve(rows, ledger[k].ref).value;
      assert id in ids;
      forall x
        ensures x in ids - {id} <==> exists i :: i in good - {k} && Resolve(rows, ledger[i].ref).value == x
      {
        if x in ids - {id} {
          var i :| i in good && Resolve(rows, ledger[i].ref).value == x;
          assert i in good - {k};
        }
        if i :| i in good - {k} && Resolve(rows, ledger[i].ref).value == x {
          assert i in good && x in ids;
        }
      }
      ImageSize(rows, ledger, good - {k}, ids - {id});
    } else {
      assert ids == {};
    }
  }

  /** What a rollback makes of the job: which status it has, and which rows are marked. */
  lemma JobAfterRollbackMeans(job: Job, kind: Kind, stop: Stop)
    ensures var after := JobAfterRollback(job, kind, stop);
            && (stop == BeforeUndo ==> after == job)
            && (stop == AtMark || stop == AtEnd ==> after.status == RollingBack)
            && (stop == NoStop ==> after.status == Undone)
            && (stop == AtMark || job.kind != kind ==> after.rows == job.rows)
            && (job.kind == kind && (stop == AtEnd || stop == NoStop) ==>
                  |after.rows| == |job.rows| && forall i :: 0 <= i < |job.rows| ==>
                    after.rows[i] == if job.rows[i].status == Imported then job.rows[i].(status := RolledBack) else job.rows[i])
            && after.kind == job.kind && after.totalRows == job.totalRows
            && after.importedRows == job.importedRows && after.duplicateRows == job.duplicateRows && after.errorRows == job.errorRows
  {
  }

  /** Another seeder's job: a rollback deletes nothing and marks nothing, and still calls the job rolled back. */
  lemma ForeignRollback(kind: Kind, s: Site, jobId: nat, fails: nat -> bool)
    requires jobId in s.log.jobs && s.log.jobs[jobId].kind != kind
    ensures var after := RollbackOn(kind, s, jobId, fails, NoStop);
            && after.table == s.table
            && after.log.jobs[jobId] == s.log.jobs[jobId].(status := Undone)
  {
  }

  // ---------- jobs that were cut short ----------

  /** The rows a rollback cannot reach: those whose ledger row was never written, and those whose deletion fails. */
  function Unreached(written: nat, fails: nat -> bool): nat -> bool {
    (n: nat) => written < n || fails(n)
  }

  lemma TargetsOfPrefix(rows: seq<Entity>, ledger: seq<LedgerRow>, m: nat, fails: nat -> bool)
    requires m <= |ledger| && forall i :: 0 <= i < |ledger| ==> ledger[i].rowNumber == i + 1
    ensures Targets(rows, ledger[..m], fails) == Targets(rows, ledger, Unreached(m, fails))
  {
    hide Resolve;
    forall i
      ensures IsTarget(rows, ledger[..m], fails, i) <==> IsTarget(rows, ledger, Unreached(m, fails), i)
    {
    }
    forall i | 0 <= i < m
      ensures ledger[..m][i] == ledger[i]
    {
    }
    forall id | id in Targets(rows, ledger[..m], fails)
      ensures id in Targets(rows, ledger, Unreached(m, fails))
    {
      var i :| 0 <= i < m && IsTarget(rows, ledger[..m], fails, i) && Resolve(rows, ledger[..m][i].ref).value == id;
      assert IsTarget(rows, ledger, Unreached(m, fails), i);
    }
    forall id | id in Targets(rows, ledger, Unreached(m, fails))
      ensures id in Targets(rows, ledger[..m], fails)
    {
      var i :| 0 <= i < |ledger| && IsTarget(rows, ledger, Unreached(m, fails), i) && Resolve(rows, ledger[i].ref).value == id;
      assert IsTarget(rows, ledger[..m], fails, i);
    }
  }

  /**
   A run that is cut short while its ledger is written leaves a job that cannot be resumed, and
   whose rollback, in any order, leaves behind what the unwritten rows created. So the table is
   restored exactly when every imported row was written, its deletion works, and no write was lost
   to the ledger.
   */
  lemma {:induction false} CutShortRollback(kind: Kind, t: Table, entries: seq<Entry>, envs: seq<Env>, crash: Crash,
                                            order: seq<LedgerRow>, fails: nat -> bool)
    requires |entries| == |envs| && ValidTable(t)
    requires CutShort(Process(kind, t, entries, envs).rows, crash)
    requires SameRows(order, JobAfter(kind, Process(kind, t, entries, envs).rows, crash).rows)
    ensures var p := Process(kind, t, entries, envs);
            var job := JobAfter(kind, p.rows, crash);
            var unreached := Unreached(|job.rows|, fails);
            && !CanResume(job.status)
            && UndoAll(p.table.rows, order, fails).rows == t.rows + Survivors(kind, t, entries, envs, unreached)
            && (UndoAll(p.table.rows, order, fails).rows == t.rows <==>
                NoLostWrites(kind, t, entries, envs)
                && forall i :: 0 <= i < |p.rows| && p.rows[i].status == Imported ==> i < |job.rows| && !fails(i + 1))
  {
    hide Process;
    hide UndoAll;
    hide Remove;
    hide Survivors;
    hide NoLostWrites;
    var p := Process(kind, t, entries, envs);
    var written := JobAfter(kind, p.rows, crash).rows;
    var unreached := Unreached(|written|, fails);
    LedgerRows(kind, t, entries, envs);
    assert written == p.rows[..|written|];
    ProcessKeepsValid(kind, t, entries, envs);
    TargetsIgnoreOrder(p.table.rows, order, written, fails);
    TargetsOfPrefix(p.table.rows, p.rows, |written|, fails);
    UndoRemovesTargets(p.table.rows, order, fails);
    UndoRemovesTargets(p.table.rows, p.rows, unreached);
    RollbackLeavesSurvivors(kind, t, entries, envs, p.rows, unreached);
    RollbackUndoesRun(kind, t, entries, envs, p.rows, unreached);
  }

  // ---------- a rollback that is cut short, and repeated ----------

  /** Neither of two rollbacks gets the deletion done. */
  function BothFail(f: nat -> bool, g: nat -> bool): nat -> bool {
    (n: nat) => f(n) && g(n)
  }

  lemma EitherTargets(rows: seq<Entity>, ledger: seq<LedgerRow>, f: nat -> bool, g: nat -> bool)
    ensures Targets(rows, ledger, f) + Targets(rows, ledger, g) == Targets(rows, ledger, BothFail(f, g))
  {
    hide Resolve;
    forall i
      ensures IsTarget(rows, ledger, BothFail(f, g), i) <==> IsTarget(rows, ledger, f, i) || IsTarget(rows, ledger, g, i)
    {
    }
    forall id
      ensures id in Targets(rows, ledger, f) + Targets(rows, ledger, g) <==> id in Targets(rows, ledger, BothFail(f, g))
    {
      if i :| 0 <= i < |ledger| && IsTarget(rows, ledger, f, i) && Resolve(rows, ledger[i].ref).value == id {
        assert IsTarget(rows, ledger, BothFail(f, g), i);
      }
      if i :| 0 <= i < |ledger| && IsTarget(rows, ledger, g, i) && Resolve(rows, ledger[i].ref).value == id {
        assert IsTarget(rows, ledger, BothFail(f, g), i);
      }
      if i :| 0 <= i < |ledger| && IsTarget(rows, ledger, BothFail(f, g), i) && Resolve(rows, ledger[i].ref).value == id {
        assert IsTarget(rows, ledger, f, i) || IsTarget(rows, ledger, g, i);
      }
    }
  }

  /** Undoing the same rows twice leaves what one pass leaves in which only the deletions fail that fail in both. */
  lemma {:induction false} UndoTwice(rows: seq<Entity>, ledger: seq<LedgerRow>, f: nat -> bool, g: nat -> bool)
    requires UniqueSlugs(rows)
    ensures UndoAll(UndoAll(rows, ledger, f).rows, ledger, g).rows == UndoAll(rows, ledger, BothFail(f, g)).rows
  {
    hide *;
    var first, second := Targets(rows, ledger, f), Targets(rows, ledger, g);
    UndoRemovesTargets(rows, ledger, f);
    RemoveKeepsSlugsUnique(rows, first);
    UndoRemovesTargets(Remove(rows, first), ledger, g);
    TargetsAfterRemove(rows, first, ledger, g);
    RemoveTwice(rows, first, second - first);
    UndoRemovesTargets(rows, ledger, BothFail(f, g));
    EitherTargets(rows, ledger, f, g);
    assert first + (second - first) == first + second;
  }

  /**
   A second rollback of a job, after one that was cut short: when marking the rows threw, they are
   still IMPORTED, and the second acts on them again, so that only what fails both times is left.
   When they were marked, nothing is left to act on.
   */
  lemma {:induction false} RollbackAgain(kind: Kind, s: Site, jobId: nat, fails: nat -> bool, stop: Stop, again: nat -> bool, stop': Stop)
    requires ValidSite(s) && jobId in s.log.jobs && !stop'.BeforeUndo?
    ensures var first := RollbackOn(kind, s, jobId, fails, stop);
            var second := RollbackOn(kind, first, jobId, again, stop');
            var rows := Selected(s.log.jobs[jobId], kind);
            second.table.rows ==
            match stop
            case BeforeUndo => UndoAll(s.table.rows, rows, again).rows
            case AtMark => UndoAll(s.table.rows, rows, BothFail(fails, again)).rows
            case AtEnd => UndoAll(s.table.rows, rows, fails).rows
            case NoStop => UndoAll(s.table.rows, rows, fails).rows
  {
    hide UndoAll;
    var job := s.log.jobs[jobId];
    var first := RollbackOn(kind, s, jobId, fails, stop);
    ValidHasUniqueSlugs(s.table);
    UndoTwice(s.table.rows, Selected(job, kind), fails, again);
    SecondRollbackDoesNothing(first.table.rows, Selected(job, kind), again);
    NothingSelected(first.table.rows, again);
  }

  lemma NothingSelected(rows: seq<Entity>, fails: nat -> bool)
    ensures UndoAll(rows, [], fails).rows == rows
  {
  }

  // ---------- after other writers ----------

  /** Rows that are not the job's own stay exactly as they are. */
  ghost predicate SparesOthers(now: seq<Entity>, order: seq<LedgerRow>, fails: nat -> bool, own: nat -> bool) {
    forall x :: x in now && !own(x.id) ==> x in UndoAll(now, order, fails).rows
  }

  /** Some row that is not the job's own hangs under a row the rollback deletes, and becomes a root. */
  ghost predicate Orphans(now: seq<Entity>, order: seq<LedgerRow>, fails: nat -> bool, own: nat -> bool) {
    exists x :: x in now && !own(x.id) && x.parent.Some? && x.parent.value in Targets(now, order, fails)
  }

  lemma ResolvedExists(rows: seq<Entity>, ref: Ref)
    requires Resolve(rows, ref).Some?
    ensures HasId(rows, Resolve(rows, ref).value)
  {
    if ref.BySlug? {
      IdOfSlugFound(rows, ref.slug);
    }
  }

  /**
   Row by row: a target goes, and every other row stays, its parent cleared if that is a target. So
   a row that is no target stays exactly as it was if and only if its parent is no target.
   */
  lemma {:induction false} RowStaysExactly(now: seq<Entity>, order: seq<LedgerRow>, fails: nat -> bool, x: Entity)
    requires UniqueSlugs(now) && x in now
    ensures var targets := Targets(now, order, fails);
            var left := UndoAll(now, order, fails).rows;
            && (x.id in targets <==> !HasId(left, x.id))
            && (x.id !in targets ==> Cleared(x, targets) in left)
            && (x in left <==> x.id !in targets && (x.parent.Some? ==> x.parent.value !in targets))
  {
    hide Targets;
    hide Remove;
    var targets := Targets(now, order, fails);
    UndoRemovesTargets(now, order, fails);
    var i :| 0 <= i < |now| && now[i] == x;
    assert HasId(now, x.id);
    HasIdAfterRemove(now, targets, x.id);
    RemoveMember(now, targets, x);
    RemoveMember(now, targets, Cleared(x, targets));
  }

  /**
   Whatever has happened to the table since the run, and whatever ids count as the job's own: the
   rollback leaves every other row exactly as it is if and only if each ledger row it acts on
   stands, in the table as it is now, for one of them, and it orphans no other row.
   */
  lemma {:induction false} SparesOthersExactly(now: seq<Entity>, order: seq<LedgerRow>, fails: nat -> bool, own: nat -> bool)
    requires UniqueSlugs(now)
    ensures SparesOthers(now, order, fails, own) <==>
            (forall i :: IsTarget(now, order, fails, i) ==> own(Resolve(now, order[i].ref).value))
            && !Orphans(now, order, fails, own)
  {
    hide UndoAll;
    forall x | x in now
      ensures x in UndoAll(now, order, fails).rows <==>
              x.id !in Targets(now, order, fails) && (x.parent.Some? ==> x.parent.value !in Targets(now, order, fails))
    {
      RowStaysExactly(now, order, fails, x);
    }
    forall i | IsTarget(now, order, fails, i)
      ensures exists x :: x in now && x.id == Resolve(now, order[i].ref).value && x.id in Targets(now, order, fails)
    {
      ResolvedExists(now, order[i].ref);
      var k :| 0 <= k < |now| && now[k].id == Resolve(now, order[i].ref).value;
      assert now[k] in now;
    }
  }

  /** A child of another job under a deleted category: it stays, as a root. */
  lemma ChildBecomesRoot(root: Entity, child: Entity, entry: Entry)
    requires root.id != child.id && child.parent == Some(root.id)
    ensures UndoAll([root, child], [LedgerRow(1, Imported, ById(root.id), entry)], Never).rows == [child.(parent := None)]
  {
    var row := LedgerRow(1, Imported, ById(root.id), entry);
    assert [row][..0] == [];
    assert [root, child][0].id == root.id;
    RemoveLast([root], child, {root.id});
    RemoveOne(root, {root.id});
    assert [root] + [child] == [root, child];
  }

  /** The ids a run has given out. */
  ghost function OwnIds(t: Table, after: Table): nat -> bool {
    id => t.nextId <= id < after.nextId
  }

  /** An imported row refers to an id the run gave out, or to the slug of its own name. */
  lemma ImportedRefAt(kind: Kind, t: Table, entries: seq<Entry>, envs: seq<Env>, i: nat)
    requires |entries| == |envs| && ValidTable(t)
    requires i < |entries| && Process(kind, t, entries, envs).rows[i].status == Imported
    ensures var p := Process(kind, t, entries, envs);
            var ref := p.rows[i].ref;
            if SlugKeyed(kind) then ref == BySlug(Slugs.Slugify(entries[i].name))
            else ref.ById? && OwnIds(t, p.table)(ref.id)
  {
    hide Process;
    hide Slugs.Slugify;
    hide AllRecorded;
    hide NoLostWrites;
    hide DuplicatesExist;
    hide CreatedOnce;
    RowAt(kind, t, entries, envs, i);
    RunCreatesOnce(kind, t, entries, envs);
    ProcessKeepsValid(kind, t, entries[..i], envs[..i]);
    var before := Process(kind, t, entries[..i], envs[..i]).table;
    ImportedRow(kind, before, before, entries[i], envs[i]);
    AppendedRow(kind, before, entries[i], envs[i]);
  }

  /**
   The category seeders keep ids, so their rollback acts on no row the run did not create, whatever
   has been written since: it leaves the other rows exactly as they are if and only if none of them
   hangs under a category it deletes.
   */
  lemma {:induction false} IdReferencesSpareOthersExactly(kind: Kind, t: Table, entries: seq<Entry>, envs: seq<Env>,
                                                          now: seq<Entity>, order: seq<LedgerRow>, fails: nat -> bool)
    requires |entries| == |envs| && ValidTable(t) && UniqueSlugs(now) && !SlugKeyed(kind)
    requires SameRows(order, Process(kind, t, entries, envs).rows)
    ensures var own := OwnIds(t, Process(kind, t, entries, envs).table);
            && (forall id :: id in Targets(now, order, fails) ==> own(id))
            && (SparesOthers(now, order, fails, own) <==> !Orphans(now, order, fails, own))
  {
    hide Process;
    hide SparesOthers;
    hide Orphans;
    var p := Process(kind, t, entries, envs);
    forall i | IsTarget(now, order, fails, i)
      ensures OwnIds(t, p.table)(Resolve(now, order[i].ref).value)
    {
      assert order[i] in p.rows;
      var j :| 0 <= j < |p.rows| && p.rows[j] == order[i];
      ImportedRefAt(kind, t, entries, envs, j);
    }
    SparesOthersExactly(now, order, fails, OwnIds(t, p.table));
  }

  /** The two master tables have no column for a parent. */
  ghost predicate NoParents(rows: seq<Entity>) {
    forall x :: x in rows ==> x.parent.None?
  }

  /** Row `i` was imported, its deletion works, and its slug is in the table now. */
  ghost predicate SlugIsHit(now: seq<Entity>, entries: seq<Entry>, rows: seq<LedgerRow>, fails: nat -> bool, i: int) {
    0 <= i < |rows| == |entries| && rows[i].status == Imported && !fails(i + 1)
    && IdOfSlug(now, Slugs.Slugify(entries[i].name)).Some?
  }

  /**
   The master seeders keep slugs, in tables whose rows have no parent: their rollback leaves every
   row the run did not create exactly as it is if and only if each recorded slug that is still in
   use is borne by a row of the run.
   */
  lemma {:induction false} SlugReferencesSpareOthersExactly(kind: Kind, t: Table, entries: seq<Entry>, envs: seq<Env>,
                                                            now: seq<Entity>, order: seq<LedgerRow>, fails: nat -> bool)
    requires |entries| == |envs| && ValidTable(t) && UniqueSlugs(now) && SlugKeyed(kind) && NoParents(now)
    requires SameRows(order, Process(kind, t, entries, envs).rows)
    ensures var p := Process(kind, t, entries, envs);
            var own := OwnIds(t, p.table);
            SparesOthers(now, order, fails, own) <==>
            forall i :: SlugIsHit(now, entries, p.rows, fails, i) ==> own(IdOfSlug(now, Slugs.Slugify(entries[i].name)).value)
  {
    hide Slugs.Slugify;
    hide SparesOthers;
    hide IdOfSlug;
    hide UndoAll;
    hide Process;
    var p := Process(kind, t, entries, envs);
    var own := OwnIds(t, p.table);
    SparesOthersExactly(now, order, fails, own);
    LedgerRows(kind, t, entries, envs);
    forall j | 0 <= j < |p.rows| && p.rows[j].status == Imported
      ensures p.rows[j].ref == BySlug(Slugs.Slugify(entries[j].name))
    {
      ImportedRefAt(kind, t, entries, envs, j);
    }
    forall j | SlugIsHit(now, entries, p.rows, fails, j)
      ensures exists i :: IsTarget(now, order, fails, i) && order[i].ref == BySlug(Slugs.Slugify(entries[j].name))
    {
      assert p.rows[j] in order;
      var i :| 0 <= i < |order| && order[i] == p.rows[j];
      assert IsTarget(now, order, fails, i);
    }
    forall i | IsTarget(now, order, fails, i)
      ensures exists j :: SlugIsHit(now, entries, p.rows, fails, j) && order[i].ref == BySlug(Slugs.Slugify(entries[j].name))
    {
      assert order[i] in p.rows;
      var j :| 0 <= j < |p.rows| && p.rows[j] == order[i];
      assert SlugIsHit(now, entries, p.rows, fails, j);
    }
  }

  /**
   Slug references name whatever row bears the slug now. If someone deletes the created row and a
   later job creates another under the same slug, rolling back the first job deletes the row of
   the second; an id reference would have left it alone.
   */
  lemma {:induction false} SlugReferenceHitsSuccessor(slug: string, name: string, entry: Entry, id: nat, later: nat)
    requires id != later
    ensures var successor := [Entity(later, slug, name, None)];
            && UndoAll(successor, [LedgerRow(1, Imported, BySlug(slug), entry)], Never) == Undo([], 1, 0)
            && UndoAll(successor, [LedgerRow(1, Imported, ById(id), entry)], Never) == Undo(successor, 0, 1)
  {
    var e := Entity(later, slug, name, None);
    var bySlug, byId := LedgerRow(1, Imported, BySlug(slug), entry), LedgerRow(1, Imported, ById(id), entry);
    assert [bySlug][..0] == [] && [byId][..0] == [];
    assert [e][0] == e;
    RemoveOne(e, {later});
    assert Resolve([e], BySlug(slug)) == Some(later);
    assert Resolve([e], ById(id)) == None;
  }
}
