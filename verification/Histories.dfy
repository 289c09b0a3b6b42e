/**
 Whole histories of the four seeders on one database: any sequence of runs, resumptions and rollbacks, with
 whatever fails in them. What every reachable database keeps, and what follows for the jobs in it.
 */
module Histories {
  import opened Wrappers
  import opened Text
  import opened ImportModel
  import opened ImportTheorems
  import opened RollbackTheorems
  import ParentChoice
  import RollbackReach
  import Slugs

  // ---------- the database and its actions ----------

  /** The category table, which two seeders share, the two master tables, and the log of jobs. */
  datatype World = World(categories: Table, products: Table, services: Table, log: Log)

  const START: World := World(Table([], 0), Table([], 0), Table([], 0), Log(map[], 0))

  function TableOf(w: World, kind: Kind): Table {
    match kind
    case Categories => w.categories
    case Subcategories => w.categories
    case ProductMasters => w.products
    case ServiceMasters => w.services
  }

  /** What a seeder of this kind works on. */
  function SiteOf(w: World, kind: Kind): Site {
    Site(TableOf(w, kind), w.log)
  }

  function WithSite(w: World, kind: Kind, s: Site): World {
    match kind
    case Categories => World(s.table, w.products, w.services, s.log)
    case Subcategories => World(s.table, w.products, w.services, s.log)
    case ProductMasters => World(w.categories, s.table, w.services, s.log)
    case ServiceMasters => World(w.categories, w.products, s.table, s.log)
  }

  datatype Action =
    | Run(kind: Kind, entries: seq<Entry>, envs: seq<Env>, crash: Crash)
    | Resume(kind: Kind, jobId: nat, envOf: nat -> Env, crash: Crash)
    | Rollback(kind: Kind, jobId: nat, fails: nat -> bool, stop: Stop)

  predicate Legal(a: Action) {
    a.Run? ==> |a.entries| == |a.envs|
  }

  /** What the methods of `ImportEngine.Seeder` are proved to do. */
  function ActOn(s: Site, a: Action): Site
    requires Legal(a)
  {
    match a
    case Run(kind, entries, envs, crash) => RunOn(kind, s, entries, envs, crash)
    case Resume(kind, jobId, envOf, crash) => ResumeOn(kind, s, jobId, envOf, crash)
    case Rollback(kind, jobId, fails, stop) => RollbackOn(kind, s, jobId, fails, stop)
  }

  function Act(w: World, a: Action): World
    requires Legal(a)
  {
    WithSite(w, a.kind, ActOn(SiteOf(w, a.kind), a))
  }

  /** Which tables an action can change: that of its seeder, and the two category seeders share theirs. */
  lemma ActChanges(w: World, a: Action)
    requires Legal(a)
    ensures var w' := Act(w, a);
            && (a.kind == Categories || a.kind == Subcategories ==>
                  w' == World(ActOn(Site(w.categories, w.log), a).table, w.products, w.services, w'.log))
            && (a.kind == ProductMasters ==>
                  w' == World(w.categories, ActOn(Site(w.products, w.log), a).table, w.services, w'.log))
            && (a.kind == ServiceMasters ==>
                  w' == World(w.categories, w.products, ActOn(Site(w.services, w.log), a).table, w'.log))
            && w'.log == ActOn(SiteOf(w, a.kind), a).log
  {
    hide ActOn;
  }

  ghost predicate AllLegal(history: seq<Action>) {
    forall k :: 0 <= k < |history| ==> Legal(history[k])
  }

  ghost function After(history: seq<Action>): World
    requires AllLegal(history)
    decreases |history|
  {
    if history == [] then START else Act(After(history[..|history| - 1]), history[|history| - 1])
  }

  // ---------- what every reachable table keeps ----------

  ghost predicate SlugsFollowNames(rows: seq<Entity>) {
    forall x :: x in rows ==> x.slug == Slugs.Slugify(x.name)
  }

  ghost predicate IsRoot(rows: seq<Entity>, id: nat) {
    exists p :: p in rows && p.id == id && p.parent.None?
  }

  /** The tree has two levels: a parent exists, and is a root. */
  ghost predicate TwoLevels(rows: seq<Entity>) {
    forall x :: x in rows && x.parent.Some? ==> IsRoot(rows, x.parent.value)
  }

  ghost predicate Seeded(t: Table) {
    ValidTable(t) && SlugsFollowNames(t.rows) && TwoLevels(t.rows)
  }

  lemma RowKeepsSeeded(kind: Kind, t: Table, e: Entry, env: Env)
    requires Seeded(t)
    ensures Seeded(ImportRow(kind, t, e, env).table)
  {
    hide Slugs.Slugify;
    var o := ImportRow(kind, t, e, env);
    ImportRowKeepsValid(kind, t, e, env);
    ImportedRow(kind, t, t, e, env);
    if o.table != t {
      var parent := ParentOf(kind, t.rows, e, env);
      var created := NewEntity(t, e, parent);
      assert o.table == Added(t, created);
      if parent.Some? {
        assert parent.value in t.rows && parent.value.parent.None?;
      }
      TwoLevelsStep(t.rows, created);
    }
  }

  lemma TwoLevelsStep(rows: seq<Entity>, e: Entity)
    requires TwoLevels(rows) && (e.parent.Some? ==> IsRoot(rows, e.parent.value))
    ensures TwoLevels(rows + [e])
  {
    forall x | x in rows + [e] && x.parent.Some?
      ensures IsRoot(rows + [e], x.parent.value)
    {
      assert IsRoot(rows, x.parent.value);
      var p :| p in rows && p.id == x.parent.value && p.parent.None?;
      assert p in rows + [e];
    }
  }

  lemma {:induction false} RunKeepsSeeded(kind: Kind, t: Table, entries: seq<Entry>, envs: seq<Env>)
    requires |entries| == |envs| && Seeded(t)
    ensures Seeded(Process(kind, t, entries, envs).table)
    decreases |entries|
  {
    if entries != [] {
      hide Seeded;
      hide ImportRow;
      var n := |entries| - 1;
      RunKeepsSeeded(kind, t, entries[..n], envs[..n]);
      RowKeepsSeeded(kind, Process(kind, t, entries[..n], envs[..n]).table, entries[n], envs[n]);
    }
  }

  lemma RemoveKeepsSeeded(t: Table, ids: set<nat>)
    requires Seeded(t)
    ensures Seeded(Table(Remove(t.rows, ids), t.nextId))
  {
    hide Remove;
    hide Slugs.Slugify;
    var left := Remove(t.rows, ids);
    RemoveKeepsValid(t.rows, ids, t.nextId);
    forall y | y in left
      ensures y.slug == Slugs.Slugify(y.name)
      ensures y.parent.Some? ==> IsRoot(left, y.parent.value)
    {
      RemoveMember(t.rows, ids, y);
      var x :| x in t.rows && x.id !in ids && y == Cleared(x, ids);
      if y.parent.Some? {
        assert IsRoot(t.rows, x.parent.value);
        var p :| p in t.rows && p.id == x.parent.value && p.parent.None?;
        RemoveMember(t.rows, ids, p);
        assert p == Cleared(p, ids);
      }
    }
  }

  lemma UndoKeepsSeeded(t: Table, ledger: seq<LedgerRow>, fails: nat -> bool)
    requires Seeded(t)
    ensures Seeded(Table(UndoAll(t.rows, ledger, fails).rows, t.nextId))
  {
    hide UndoAll;
    hide Remove;
    ValidHasUniqueSlugs(t);
    UndoRemovesTargets(t.rows, ledger, fails);
    RemoveKeepsSeeded(t, Targets(t.rows, ledger, fails));
  }

  lemma ActionKeepsSeeded(s: Site, a: Action)
    requires Legal(a) && Seeded(s.table) && ValidLog(s.log)
    ensures Seeded(ActOn(s, a).table) && ValidLog(ActOn(s, a).log)
  {
    hide Process;
    hide UndoAll;
    hide Seeded;
    match a
    case Run(kind, entries, envs, crash) =>
      RunKeepsSeeded(kind, s.table, entries, envs);
    case Resume(kind, jobId, envOf, crash) =>
      if Resumable(s.log, jobId) {
        var retries := Retries(kind, s.log.jobs[jobId].kind, s.log.jobs[jobId].rows);
        RunKeepsSeeded(kind, s.table, retries, EnvsFor(retries, envOf));
      }
    case Rollback(kind, jobId, fails, stop) =>
      if jobId in s.log.jobs {
        UndoKeepsSeeded(s.table, Selected(s.log.jobs[jobId], kind), fails);
      }
  }

  ghost predicate Sound(w: World) {
    (forall kind :: Seeded(TableOf(w, kind))) && ValidLog(w.log)
  }

  lemma ActionKeepsSound(w: World, a: Action)
    requires Legal(a) && Sound(w)
    ensures Sound(Act(w, a))
  {
    hide Seeded;
    hide ActOn;
    hide ValidLog;
    assert Seeded(TableOf(w, a.kind));
    ActionKeepsSeeded(SiteOf(w, a.kind), a);
    forall kind
      ensures Seeded(TableOf(Act(w, a), kind))
    {
      assert Seeded(TableOf(w, kind));
    }
  }

  lemma StartIsSound()
    ensures Sound(START)
  {
  }

  /**
   Safety over whole histories: whatever has been run, resumed and rolled back, and whatever has
   failed, every table is valid, every slug is that of its row's name, and the category tree has
   two levels.
   */
  lemma {:induction false} ReachedIsSeeded(history: seq<Action>)
    requires AllLegal(history)
    ensures Sound(After(history))
    decreases |history|
  {
    hide Sound;
    hide Act;
    StartIsSound();
    if history != [] {
      var n := |history| - 1;
      ReachedIsSeeded(history[..n]);
      ActionKeepsSound(After(history[..n]), history[n]);
    }
  }

  /** In such a table names are distinct up to case, so the unordered lookup of a parent has no choice. */
  lemma SeededNamesAreUnique(t: Table, x: Entity, y: Entity)
    requires Seeded(t) && x in t.rows && y in t.rows && SameName(x.name, y.name)
    ensures x == y
  {
    Slugs.SlugIgnoresCase(x.name, y.name);
    var i :| 0 <= i < |t.rows| && t.rows[i] == x;
    var j :| 0 <= j < |t.rows| && t.rows[j] == y;
    assert x.slug == y.slug;
  }

  lemma {:induction false} SeededHasNoChoice(kind: Kind, t: Table, entries: seq<Entry>)
    requires Seeded(t)
    ensures UniqueRoots(t) && ChoicesAreFree(kind, t, entries)
  {
    forall p, q | p in t.rows && q in t.rows && p.parent.None? && q.parent.None? && SameName(p.name, q.name)
      ensures p == q
    {
      SeededNamesAreUnique(t, p, q);
    }
    UniqueRootsAgree(kind, t, entries);
  }

  // ---------- which jobs can be resumed ----------

  /** Action `a` creates job `j` and is cut short. */
  ghost predicate CutsShort(w: World, a: Action, j: nat)
    requires Legal(a)
  {
    j == w.log.next &&
    match a
    case Run(kind, entries, envs, crash) =>
      !crash.BeforeJob? && CutShort(Process(kind, TableOf(w, kind), entries, envs).rows, crash)
    case Resume(kind, jobId, envOf, crash) =>
      && Resumable(w.log, jobId) && !crash.BeforeJob?
      && var retries := Retries(kind, w.log.jobs[jobId].kind, w.log.jobs[jobId].rows);
         CutShort(Process(kind, TableOf(w, kind), retries, EnvsFor(retries, envOf)).rows, crash)
    case Rollback(_, _, _, _) => false
  }

  /** Action `a` is a rollback of job `j`, by any seeder, that gets past its first update. */
  ghost predicate RollsBack(w: World, a: Action, j: nat) {
    a.Rollback? && a.jobId == j && j in w.log.jobs && !a.stop.BeforeUndo?
  }

  ghost predicate WasCutShort(history: seq<Action>, j: nat)
    requires AllLegal(history)
  {
    exists k :: 0 <= k < |history| && CutsShort(After(history[..k]), history[k], j)
  }

  ghost predicate WasRolledBack(history: seq<Action>, j: nat)
    requires AllLegal(history)
  {
    exists k :: 0 <= k < |history| && RollsBack(After(history[..k]), history[k], j)
  }

  lemma WasStep(history: seq<Action>, j: nat)
    requires AllLegal(history) && history != []
    ensures var n := |history| - 1;
            var w := After(history[..n]);
            && (WasCutShort(history, j) <==> WasCutShort(history[..n], j) || CutsShort(w, history[n], j))
            && (WasRolledBack(history, j) <==> WasRolledBack(history[..n], j) || RollsBack(w, history[n], j))
  {
    hide After;
    hide CutsShort;
    hide RollsBack;
    var n := |history| - 1;
    forall k | 0 <= k < n
      ensures history[..n][..k] == history[..k] && history[..n][k] == history[k]
    {
    }
    if k :| 0 <= k < n && CutsShort(After(history[..k]), history[k], j) {
      assert CutsShort(After(history[..n][..k]), history[..n][k], j);
    }
    if k :| 0 <= k < n && RollsBack(After(history[..k]), history[k], j) {
      assert RollsBack(After(history[..n][..k]), history[..n][k], j);
    }
  }

  /** What happens to the log in one action: one job may be added, one may be rolled back. */
  lemma LogStep(w: World, a: Action, j: nat)
    requires Legal(a) && ValidLog(w.log) && j in Act(w, a).log.jobs
    ensures var job := Act(w, a).log.jobs[j];
            || (j in w.log.jobs && !RollsBack(w, a, j) && job == w.log.jobs[j])
            || (RollsBack(w, a, j) && !CanResume(job.status))
            || (j == w.log.next && (CanResume(job.status) <==> !CutsShort(w, a, j) && HasError(job.rows)))
  {
    hide Process;
    hide UndoAll;
    match a
    case Run(kind, entries, envs, crash) =>
      CreatedJob(kind, TableOf(w, kind), entries, envs, crash);
    case Resume(kind, jobId, envOf, crash) =>
      if Resumable(w.log, jobId) {
        var retries := Retries(kind, w.log.jobs[jobId].kind, w.log.jobs[jobId].rows);
        CreatedJob(kind, TableOf(w, kind), retries, EnvsFor(retries, envOf), crash);
      }
    case Rollback(kind, jobId, fails, stop) =>
  }

  lemma CreatedJob(kind: Kind, t: Table, entries: seq<Entry>, envs: seq<Env>, crash: Crash)
    requires |entries| == |envs|
    ensures var rows := Process(kind, t, entries, envs).rows;
            var job := JobAfter(kind, rows, crash);
            CanResume(job.status) <==> !CutShort(rows, crash) && HasError(job.rows)
  {
    hide Process;
    LedgerIsComplete(kind, t, entries, envs);
  }

  /**
   Over every history: a job can be resumed if and only if its run was not cut short, it was never
   rolled back, and it has an ERROR row.
   */
  lemma {:induction false} ResumableExactly(history: seq<Action>, j: nat)
    requires AllLegal(history)
    ensures var log := After(history).log;
            && (j in log.jobs ==>
                  (CanResume(log.jobs[j].status) <==>
                   !WasCutShort(history, j) && !WasRolledBack(history, j) && HasError(log.jobs[j].rows)))
            && (log.next <= j ==> j !in log.jobs && !WasCutShort(history, j) && !WasRolledBack(history, j))
    decreases |history|
  {
    ReachedIsSeeded(history);
    if history != [] {
      hide WasCutShort;
      hide WasRolledBack;
      hide CanResume;
      hide HasError;
      var n := |history| - 1;
      var w, a := After(history[..n]), history[n];
      ReachedIsSeeded(history[..n]);
      ResumableExactly(history[..n], j);
      WasStep(history, j);
      NextGrows(w, a);
      NotTwice(w, a, j);
      if j in Act(w, a).log.jobs {
        LogStep(w, a, j);
      }
    }
  }

  lemma NextGrows(w: World, a: Action)
    requires Legal(a)
    ensures w.log.next <= Act(w, a).log.next
    ensures forall j: nat :: CutsShort(w, a, j) ==> j < Act(w, a).log.next
  {
    hide Process;
    hide UndoAll;
  }

  lemma NotTwice(w: World, a: Action, j: nat)
    requires Legal(a) && ValidLog(w.log)
    ensures RollsBack(w, a, j) ==> j < w.log.next && !CutsShort(w, a, j)
    ensures CutsShort(w, a, j) ==> j == w.log.next
  {
  }

  /**
   So a refusal can leave failed rows behind: one category whose write fails, its job cut short at
   the last update or rolled back.
   */
  lemma RefusedWithErrors(e: Entry, pick: nat)
    requires e.name != []
    ensures var rows := Process(Categories, Table([], 0), [e], [Env(AtWrite, pick, pick)]).rows;
            var cut, undone := JobAfter(Categories, rows, AtFinish), JobAfterRollback(FinishedJob(Categories, rows), Categories, NoStop);
            && CanResume(FinishedJob(Categories, rows).status)
            && !CanResume(cut.status) && Retries(Categories, Categories, cut.rows) == [e]
            && !CanResume(undone.status) && Retries(Categories, Categories, undone.rows) == [e]
  {
    var env := Env(AtWrite, pick, pick);
    var row := LedgerRow(1, Error, NoRef, e);
    SingleRun(Categories, Table([], 0), e, env);
    FirstRow(e, env);
    OneErrorIsRetried(row);
    assert MarkRolledBack([row]) == [row];
    CountIsPositive([row], Error);
    assert [row][0].status == Error;
  }

  lemma OneErrorIsRetried(row: LedgerRow)
    requires row.status == Error && row.entry.name != []
    ensures Retries(Categories, Categories, [row]) == [row.entry]
  {
    assert [row][..0] == [];
  }

  // ---------- resumption and rollback on a reachable database ----------

  /** The table of a seeder after a fault-free or faulty run that is not cut short. */
  lemma RunReaches(w: World, kind: Kind, entries: seq<Entry>, envs: seq<Env>)
    requires |entries| == |envs|
    ensures var p := Process(kind, TableOf(w, kind), entries, envs);
            var first := Act(w, Run(kind, entries, envs, NoCrash));
            && TableOf(first, kind) == p.table
            && w.log.next in first.log.jobs && first.log.jobs[w.log.next] == FinishedJob(kind, p.rows)
  {
    hide Process;
  }

  /** Resuming that job without faults runs its readable error rows again, or does nothing when there are none. */
  lemma ResumeReaches(w: World, kind: Kind, entries: seq<Entry>, envs: seq<Env>, envOf: nat -> Env)
    requires |entries| == |envs|
    ensures var p := Process(kind, TableOf(w, kind), entries, envs);
            var retries := Retries(kind, kind, p.rows);
            var first := Act(w, Run(kind, entries, envs, NoCrash));
            TableOf(Act(first, Resume(kind, w.log.next, envOf, NoCrash)), kind) ==
            Process(kind, p.table, retries, EnvsFor(retries, envOf)).table
  {
    var p := Process(kind, TableOf(w, kind), entries, envs);
    var retries := Retries(kind, kind, p.rows);
    NothingLeftToRetry(kind, TableOf(w, kind), entries, envs);
    EmptyRun(kind, p.table, retries, EnvsFor(retries, envOf));
    RunReaches(w, kind, entries, envs);
    hide Process;
    hide Retries;
  }

  lemma NothingLeftToRetry(kind: Kind, t: Table, entries: seq<Entry>, envs: seq<Env>)
    requires |entries| == |envs|
    ensures var rows := Process(kind, t, entries, envs).rows;
            !CanResume(FinishedJob(kind, rows).status) ==> Retries(kind, kind, rows) == []
  {
    hide Process;
    if !CanResume(FinishedJob(kind, Process(kind, t, entries, envs).rows).status) {
      NothingToResume(kind, t, entries, envs);
    }
  }

  lemma EmptyRun(kind: Kind, t: Table, entries: seq<Entry>, envs: seq<Env>)
    requires |entries| == |envs|
    ensures entries == [] ==> Process(kind, t, entries, envs).table == t
  {
  }

  ghost predicate NeverFaulty(envOf: nat -> Env) {
    forall i: nat :: envOf(i).fault.NoFault?
  }

  /**
   Resumption on any database the seeders have reached, rollbacks included: a run with any faults,
   resumed without faults, leaves the slugs of a fault-free run if and only if every slug whose
   row `resume` drops is supplied otherwise. No condition on parents is left.
   */
  lemma {:induction false} ReachedResumption(history: seq<Action>, kind: Kind, entries: seq<Entry>, envs: seq<Env>, clean: seq<Env>, envOf: nat -> Env)
    requires AllLegal(history) && |entries| == |envs| == |clean| && FaultFree(clean) && NeverFaulty(envOf)
    ensures var w := After(history);
            var t := TableOf(w, kind);
            var first := Act(w, Run(kind, entries, envs, NoCrash));
            var resumed := Act(first, Resume(kind, w.log.next, envOf, NoCrash));
            var rows := first.log.jobs[w.log.next].rows;
            SlugsOf(TableOf(resumed, kind).rows) == SlugsOf(TableOf(Act(w, Run(kind, entries, clean, NoCrash)), kind).rows)
            <==> forall i :: Lost(kind, t, entries, envs, rows, i) ==> Supplied(kind, t, entries, envs, rows, Slugs.Slugify(entries[i].name))
  {
    hide Process;
    hide Act;
    hide Retries;
    var w := After(history);
    var t := TableOf(w, kind);
    var rows := Process(kind, t, entries, envs).rows;
    var retries := Retries(kind, kind, rows);
    ReachedIsSeeded(history);
    SeededHasNoChoice(kind, t, entries);
    RetriesAreRetries(kind, rows);
    RunReaches(w, kind, entries, envs);
    RunReaches(w, kind, entries, clean);
    ResumeReaches(w, kind, entries, envs, envOf);
    ResumeMatchesCleanRun(kind, t, entries, envs, clean, retries, EnvsFor(retries, envOf));
  }

  /** A second run on a reachable database imports nothing after a fault-free one, with no condition on parents. */
  lemma {:induction false} ReachedSecondRun(history: seq<Action>, kind: Kind, entries: seq<Entry>, envs: seq<Env>, again: seq<Env>)
    requires AllLegal(history) && |entries| == |envs| == |again| && FaultFree(envs)
    ensures var first := Act(After(history), Run(kind, entries, envs, NoCrash));
            var second := Act(first, Run(kind, entries, again, NoCrash));
            && TableOf(second, kind) == TableOf(first, kind)
            && second.log.jobs[first.log.next].importedRows == 0
  {
    hide Process;
    hide Act;
    var w := After(history);
    var first := Act(w, Run(kind, entries, envs, NoCrash));
    ReachedIsSeeded(history);
    SeededHasNoChoice(kind, TableOf(w, kind), entries);
    SecondRunImportsNothing(kind, TableOf(w, kind), entries, envs, again);
    RunReaches(w, kind, entries, envs);
    RunReaches(first, kind, entries, again);
  }

  /** A run, cut short or not, and the rollback of its job. */
  lemma RollbackReaches(w: World, kind: Kind, entries: seq<Entry>, envs: seq<Env>, crash: Crash, fails: nat -> bool, stop: Stop)
    requires |entries| == |envs| && !crash.BeforeJob? && !stop.BeforeUndo?
    ensures var p := Process(kind, TableOf(w, kind), entries, envs);
            TableOf(Act(Act(w, Run(kind, entries, envs, crash)), Rollback(kind, w.log.next, fails, stop)), kind).rows ==
            UndoAll(p.table.rows, JobAfter(kind, p.rows, crash).rows, fails).rows
  {
    hide Process;
    hide UndoAll;
    hide Count;
    hide LedgerWritten;
    hide MarkRolledBack;
  }

  /**
   A run on a reachable database, however cut short, then its rollback: the table is what it was
   exactly when every imported row was written to the ledger, its deletion works, and no write was
   lost to the ledger.
   */
  lemma {:induction false} ReachedRollback(history: seq<Action>, kind: Kind, entries: seq<Entry>, envs: seq<Env>, crash: Crash,
                                           fails: nat -> bool, stop: Stop)
    requires AllLegal(history) && |entries| == |envs| && !crash.BeforeJob? && !stop.BeforeUndo?
    ensures var w := After(history);
            var rows := Process(kind, TableOf(w, kind), entries, envs).rows;
            var undone := Act(Act(w, Run(kind, entries, envs, crash)), Rollback(kind, w.log.next, fails, stop));
            TableOf(undone, kind).rows == TableOf(w, kind).rows <==>
            NoLostWrites(kind, TableOf(w, kind), entries, envs)
            && forall i :: 0 <= i < |rows| && rows[i].status == Imported ==> i < |LedgerWritten(rows, crash)| && !fails(i + 1)
  {
    var w := After(history);
    ReachedIsSeeded(history);
    RollbackReaches(w, kind, entries, envs, crash, fails, stop);
    RollbackOfRun(kind, TableOf(w, kind), entries, envs, crash, fails);
    hide *;
  }

  lemma RollbackOfRun(kind: Kind, t: Table, entries: seq<Entry>, envs: seq<Env>, crash: Crash, fails: nat -> bool)
    requires |entries| == |envs| && ValidTable(t)
    ensures var p := Process(kind, t, entries, envs);
            var job := JobAfter(kind, p.rows, crash);
            && job.rows == LedgerWritten(p.rows, crash)
            && (UndoAll(p.table.rows, job.rows, fails).rows == t.rows <==>
                NoLostWrites(kind, t, entries, envs)
                && forall i :: 0 <= i < |p.rows| && p.rows[i].status == Imported ==> i < |job.rows| && !fails(i + 1))
  {
    hide Process;
    hide UndoAll;
    var rows := Process(kind, t, entries, envs).rows;
    var job := JobAfter(kind, rows, crash);
    if CutShort(rows, crash) {
      RollbackReach.CutShortRollback(kind, t, entries, envs, crash, job.rows, fails);
    } else {
      RollbackUndoesRun(kind, t, entries, envs, job.rows, fails);
    }
  }
}
