/**
 The seeders of prisma/seeds as they run: tables and a log of jobs that are updated in place, a slug
 set kept in memory, and the loops of `run`, `resume` and `rollback`. One class serves the four
 seeders, which differ only in `kind` and in the table they write.
 */
module ImportEngine {
  import opened Wrappers
  import opened ImportModel
  import ImportTheorems
  import RollbackTheorems
  import Slugs

  /** One table. The category and the subcategory seeder share one, the master seeders have one each. */
  class Store {
    var table: Table

    ghost predicate Valid()
      reads this
    {
      ValidTable(table)
    }

    constructor ()
      ensures Valid() && table == Table([], 0)
    {
      table := Table([], 0);
    }

    method FindFirst(q: Query, pick: nat) returns (found: Option<Entity>)
      ensures found == ImportModel.FindFirst(table.rows, q, pick)
    {
      found := ImportModel.FindFirst(table.rows, q, pick);
    }

    /** Update the row with this slug if there is one, else create it. */
    method Upsert(slug: string, name: string, parent: Option<nat>) returns (entity: Entity, created: bool)
      modifies this`table
      ensures created <==> slug !in SlugsOf(old(table).rows)
      ensures created ==> entity == Entity(old(table).nextId, slug, name, parent) && table == Added(old(table), entity)
      ensures !created ==> table.nextId == old(table).nextId
                           && exists i :: IsUpdated(old(table).rows, table.rows, i, entity)
                                          && entity == Entity(old(table).rows[i].id, slug, name,
                                                              if parent.Some? then parent else old(table).rows[i].parent)
    {
      for i := 0 to |table.rows|
        invariant table == old(table)
        invariant forall j :: 0 <= j < i ==> table.rows[j].slug != slug
      {
        if table.rows[i].slug == slug {
          assert table.rows[i] in table.rows;
          entity := table.rows[i].(name := name, parent := if parent.Some? then parent else table.rows[i].parent);
          table := Table(table.rows[i := entity], table.nextId);
          assert IsUpdated(old(table).rows, table.rows, i, entity);
          return entity, false;
        }
      }
      entity := Entity(table.nextId, slug, name, parent);
      table := Added(table, entity);
      created := true;
    }

    static ghost predicate IsUpdated(before: seq<Entity>, after: seq<Entity>, i: int, e: Entity) {
      0 <= i < |before| && after == before[i := e] && before[i].id == e.id
    }

    /** `delete` by primary key; fails when the row is missing. */
    method Delete(id: nat) returns (ok: bool)
      modifies this`table
      ensures ok <==> HasId(old(table).rows, id)
      ensures table == if ok then Table(Remove(old(table).rows, {id}), old(table).nextId) else old(table)
    {
      ok := HasId(table.rows, id);
      if ok {
        table := Table(Remove(table.rows, {id}), table.nextId);
      }
    }
  }

  /** The jobs of all seeders, with their rows. */
  class JobLog {
    var jobs: map<nat, Job>
    var next: nat

    ghost predicate Valid()
      reads this
    {
      ValidLog(Contents())
    }

    function Contents(): Log
      reads this
    {
      Log(jobs, next)
    }

    constructor ()
      ensures Valid() && Contents() == Log(map[], 0)
    {
      jobs, next := map[], 0;
    }

    method CreateJob(kind: Kind, total: nat) returns (jobId: nat)
      requires Valid()
      modifies this
      ensures Valid() && jobId == old(next)
      ensures Contents() == WithJob(old(Contents()), Job(kind, Running, total, [], 0, 0, 0))
    {
      jobId := next;
      jobs := jobs[jobId := Job(kind, Running, total, [], 0, 0, 0)];
      next := next + 1;
    }

    /** `importJobRow.createMany` */
    method CreateMany(jobId: nat, batch: seq<LedgerRow>)
      requires jobId in jobs
      modifies this`jobs
      ensures jobs == old(jobs)[jobId := old(jobs)[jobId].(rows := old(jobs)[jobId].rows + batch)]
    {
      var job := jobs[jobId];
      jobs := jobs[jobId := job.(rows := job.rows + batch)];
    }

    method UpdateJob(jobId: nat, job: Job)
      requires jobId in jobs
      modifies this`jobs
      ensures jobs == old(jobs)[jobId := job]
    {
      jobs := jobs[jobId := job];
    }
  }

  datatype SeedResult = SeedResult(jobId: nat, status: JobStatus, imported: nat, duplicate: nat, error: nat, refused: bool)

  class Seeder {
    const kind: Kind
    const store: Store
    const log: JobLog

    constructor (kind: Kind, store: Store, log: JobLog)
      ensures this.kind == kind && this.store == store && this.log == log
    {
      this.kind, this.store, this.log := kind, store, log;
    }

    ghost predicate Valid()
      reads store, log
    {
      store.Valid() && log.Valid()
    }

    ghost function Site(): Site
      reads store, log
    {
      ImportModel.Site.Site(store.table, log.Contents())
    }

    /**
     The body of the row loop, with its try/catch. Given a slug set without foreign slugs it leaves
     one, and given one that agrees with the table it leaves one that agrees, unless a write takes
     hold and then fails. In any case the suffix search is never entered, and `upsert` never finds
     a row to overwrite.
     */
    method TryRow(entry: Entry, env: Env, existingSlugs: set<string>)
      returns (status: RowStatus, ref: Ref, slugs: set<string>, suffixTries: nat, overwrites: bool)
      requires existingSlugs <= SlugsOf(store.table.rows)
      modifies store`table
      ensures Outcome(store.table, status, ref) == ImportRow(kind, old(store.table), entry, env)
      ensures existingSlugs <= slugs <= SlugsOf(store.table.rows)
      ensures existingSlugs == SlugsOf(old(store.table).rows) && !env.fault.AfterWrite? ==> slugs == SlugsOf(store.table.rows)
      ensures suffixTries == 0 && !overwrites
    {
      hide Slugs.Slugify;
      slugs, suffixTries, overwrites := existingSlugs, 0, false;
      var parent: Option<Entity> := None;
      if kind.Subcategories? {
        if env.fault.AtParent? {
          return Error, NoRef, slugs, 0, false;
        }
        parent := store.FindFirst(RootNamed(entry.category), env.parentPick);
        if parent.None? {
          return Error, NoRef, slugs, 0, false;
        }
      }
      if env.fault.AtLookup? {
        return Error, NoRef, slugs, 0, false;
      }
      var existing := store.FindFirst(ExistingQuery(entry, parent), env.matchPick);
      if existing.Some? {
        slugs := slugs + {existing.value.slug};
        return Duplicate, ById(existing.value.id), slugs, 0, false;
      }
      var slug;
      slug, suffixTries := Slugs.GenerateUniqueSlug(entry.name, existingSlugs);
      SlugIsFree(store.table.rows, entry, parent);
      if WriteFails(kind, env.fault) {
        return Error, NoRef, slugs, suffixTries, false;
      }
      var entity, created := store.Upsert(slug, entry.name, if parent.Some? then Some(parent.value.id) else None);
      overwrites := !created;
      assert store.table.rows == old(store.table).rows + [entity];
      if env.fault.AfterWrite? {
        return Error, NoRef, slugs, suffixTries, overwrites;
      }
      slugs := slugs + {slug};
      status, ref := Imported, RefOf(kind, entity);
    }

    /** The lookup has already tried the plain slug, so it is free. */
    static lemma SlugIsFree(rows: seq<Entity>, entry: Entry, parent: Option<Entity>)
      requires forall e :: e in rows ==> !Matches(ExistingQuery(entry, parent), e)
      ensures Slugs.Slugify(entry.name) !in SlugsOf(rows)
    {
    }

    /** The ledger, written in slices of at most 100 rows, up to the slice whose write throws. */
    method WriteLedger(jobId: nat, rows: seq<LedgerRow>, crash: Crash) returns (written: seq<seq<LedgerRow>>, ok: bool)
      requires jobId in log.jobs && log.jobs[jobId].rows == []
      modifies log`jobs
      ensures ok <==> !(crash.AtBatch? && crash.k * BATCH_SIZE < |rows|)
      ensures ok ==> written == Batches(rows)
      ensures log.jobs == old(log.jobs)[jobId := old(log.jobs)[jobId].(rows := LedgerWritten(rows, crash))]
    {
      written := [];
      ghost var jobs, job := log.jobs, log.jobs[jobId];
      ghost var done: nat := 0;
      var i, batchNumber := 0, 0;
      assert job.(rows := rows[..0]) == job;
      NoBatch();
      hide Batches;
      while i < |rows|
        invariant i == batchNumber * BATCH_SIZE && done == if i < |rows| then i else |rows|
        invariant crash.AtBatch? ==> i <= crash.k * BATCH_SIZE || |rows| <= crash.k * BATCH_SIZE
        invariant log.jobs == jobs[jobId := job.(rows := rows[..done])]
        invariant written + Batches(rows[done..]) == Batches(rows)
      {
        if crash.AtBatch? && crash.k == batchNumber {
          return written, false;
        }
        var end := if i + BATCH_SIZE <= |rows| then i + BATCH_SIZE else |rows|;
        var batch := rows[i..end];
        log.CreateMany(jobId, batch);
        assert rows[..i] + batch == rows[..end];
        assert written + [batch] + Batches(rows[end..]) == Batches(rows) by {
          NextBatch(rows, i, end);
          assert written + ([batch] + Batches(rows[end..])) == written + [batch] + Batches(rows[end..]);
        }
        written := written + [batch];
        i := i + BATCH_SIZE;
        batchNumber := batchNumber + 1;
        done := end;
      }
      assert rows[..|rows|] == rows;
      ok := true;
    }

    static lemma NoBatch()
      ensures Batches([]) == []
    {
    }

    static lemma NextBatch(rows: seq<LedgerRow>, i: nat, end: nat)
      requires i < |rows| && end == if i + BATCH_SIZE <= |rows| then i + BATCH_SIZE else |rows|
      ensures Batches(rows[i..]) == [rows[i..end]] + Batches(rows[end..])
    {
      var rest := rows[i..];
      if |rest| <= BATCH_SIZE {
        assert rows[i..end] == rest;
      } else {
        assert rest[..BATCH_SIZE] == rows[i..end] && rest[BATCH_SIZE..] == rows[end..];
      }
    }

    /**
     One run. A call outside the row loop that throws ends it: then there is no result, and what
     the rows did stays.
     */
    method Run(entries: seq<Entry>, envs: seq<Env>, crash: Crash) returns (result: Option<SeedResult>)
      requires |entries| == |envs| && Valid()
      modifies store, log
      ensures Valid()
      ensures Site() == RunOn(kind, old(Site()), entries, envs, crash)
      ensures result == RunResult(old(Site()), entries, envs, crash)
      ensures result.Some? ==> Reported(result.value)
    {
      hide ImportTheorems.StatusFits;
      hide ImportTheorems.CountsFit;
      hide Process;
      hide Count;
      hide Batches;
      hide FinalStatus;
      if crash.BeforeJob? {
        return None;
      }
      RollbackTheorems.ProcessKeepsValid(kind, store.table, entries, envs);
      var jobId := log.CreateJob(kind, |entries|);
      var rows, imported, duplicate, error := ImportRows(entries, envs);
      var written, ok := WriteLedger(jobId, rows, crash);
      if !ok || crash.AtFinish? {
        return None;
      }
      ImportTheorems.JobAfterMeans(kind, rows, crash);
      var finalStatus := FinalStatus(imported, error);
      log.UpdateJob(jobId, log.jobs[jobId].(status := finalStatus, importedRows := imported, duplicateRows := duplicate, errorRows := error));
      result := Some(SeedResult(jobId, finalStatus, imported, duplicate, error, false));
    }

    /** A result agrees with the rows of its job: its status and its counts do, and so do the job's own. */
    ghost predicate Reported(r: SeedResult)
      reads log
    {
      && r.jobId in log.jobs
      && var job := log.jobs[r.jobId];
      && ImportTheorems.StatusFits(r.status, job.rows) && job.status == r.status
      && ImportTheorems.CountsFit(r.imported, r.duplicate, r.error, job.rows)
      && ImportTheorems.CountsFit(job.importedRows, job.duplicateRows, job.errorRows, job.rows)
    }

    /** What `Run` returns: the counts and status of the job, unless it is cut short. */
    function RunResult(before: Site, entries: seq<Entry>, envs: seq<Env>, crash: Crash): Option<SeedResult>
      requires |entries| == |envs|
    {
      var rows := Process(kind, before.table, entries, envs).rows;
      var job := FinishedJob(kind, rows);
      if CutShort(rows, crash) then None
      else Some(SeedResult(before.log.next, job.status, job.importedRows, job.duplicateRows, job.errorRows, false))
    }

    /** The row loop. At every step the slug set agrees with the table, as long as no write has taken hold and then failed. */
    method ImportRows(entries: seq<Entry>, envs: seq<Env>)
      returns (rows: seq<LedgerRow>, imported: nat, duplicate: nat, error: nat)
      requires |entries| == |envs|
      modifies store`table
      ensures Progress(store.table, rows) == Process(kind, old(store.table), entries, envs)
      ensures imported == Count(rows, Imported) && duplicate == Count(rows, Duplicate) && error == Count(rows, Error)
    {
      hide Slugs.Slugify;
      var existingSlugs := SlugsOf(store.table.rows);
      rows, imported, duplicate, error := [], 0, 0, 0;
      for i := 0 to |entries|
        invariant existingSlugs <= SlugsOf(store.table.rows)
        invariant (forall k :: 0 <= k < i ==> !envs[k].fault.AfterWrite?) ==> existingSlugs == SlugsOf(store.table.rows)
        invariant Progress(store.table, rows) == Process(kind, old(store.table), entries[..i], envs[..i])
        invariant imported == Count(rows, Imported) && duplicate == Count(rows, Duplicate) && error == Count(rows, Error)
      {
        hide ImportRow;
        hide Process;
        ghost var before := Progress(store.table, rows);
        ImportTheorems.PrefixStep(kind, old(store.table), entries, envs, i);
        var status, ref, tries, overwrites;
        status, ref, existingSlugs, tries, overwrites := TryRow(entries[i], envs[i], existingSlugs);
        ImportTheorems.RowIsNeverRolledBack(kind, before.table, entries[i], envs[i]);
        rows := rows + [LedgerRow(i + 1, status, ref, entries[i])];
        assert rows[..|rows| - 1] == before.rows;
        match status
        case Imported => imported := imported + 1;
        case Duplicate => duplicate := duplicate + 1;
        case Error => error := error + 1;
      }
      assert entries[..|entries|] == entries && envs[..|envs|] == envs;
    }

    /**
     `findUnique` of the job, then a new run over what can be read back from its error rows. The job
     may be another seeder's: nothing checks its type.
     */
    method Resume(jobId: nat, envOf: nat -> Env, crash: Crash) returns (result: Option<SeedResult>)
      requires Valid()
      modifies store, log
      ensures Valid()
      ensures Site() == ResumeOn(kind, old(Site()), jobId, envOf, crash)
      ensures jobId !in old(log.jobs) ==> result == Some(SeedResult(jobId, Failed, 0, 0, 0, true))
      ensures jobId in old(log.jobs) && !CanResume(old(log.jobs)[jobId].status) ==>
                result == Some(SeedResult(jobId, old(log.jobs)[jobId].status, 0, 0, 0, true))
      ensures Resumable(old(log.Contents()), jobId) ==>
                var retries := Retries(kind, old(log.jobs)[jobId].kind, old(log.jobs)[jobId].rows);
                result == RunResult(old(Site()), retries, EnvsFor(retries, envOf), crash)
      ensures Resumable(old(log.Contents()), jobId) && result.Some? ==> Reported(result.value)
    {
      if jobId !in log.jobs {
        return Some(SeedResult(jobId, Failed, 0, 0, 0, true));
      }
      var job := log.jobs[jobId];
      if job.status != Failed && job.status != Partial {
        return Some(SeedResult(jobId, job.status, 0, 0, 0, true));
      }
      var failed: seq<Entry> := [];
      for i := 0 to |job.rows|
        invariant failed == Retries(kind, job.kind, job.rows[..i])
      {
        assert job.rows[..i + 1][..i] == job.rows[..i];
        var entry := ReadBack(kind, job.kind, job.rows[i].entry);
        if job.rows[i].status == Error && entry.Some? {
          failed := failed + [entry.value];
        }
      }
      assert job.rows[..|job.rows|] == job.rows;
      result := Run(failed, EnvsFor(failed, envOf), crash);
    }

    /**
     Deletes what the IMPORTED rows of the job stand for, one row at a time, then marks those rows
     ROLLED_BACK whether or not their deletion worked. The filter on the entity type leaves no
     row when the job belongs to another seeder. A call outside the loop that throws ends it.
     */
    method Rollback(jobId: nat, fails: nat -> bool, stop: Stop) returns (result: Option<SeedResult>)
      requires Valid()
      modifies store, log
      ensures Valid()
      ensures Site() == RollbackOn(kind, old(Site()), jobId, fails, stop)
      ensures jobId !in old(log.jobs) ==> result == Some(SeedResult(jobId, Failed, 0, 0, 0, true))
      ensures jobId in old(log.jobs) ==>
                var undo := UndoAll(old(store.table).rows, Selected(old(log.jobs)[jobId], kind), fails);
                result == if stop.NoStop? then Some(SeedResult(jobId, Undone, undo.rolledBack, 0, undo.errors, false)) else None
    {
      hide MarkRolledBack;
      hide UndoAll;
      if jobId !in log.jobs {
        return Some(SeedResult(jobId, Failed, 0, 0, 0, true));
      }
      if stop.BeforeUndo? {
        return None;
      }
      var job := log.jobs[jobId];
      var selected := Selected(job, kind);
      log.UpdateJob(jobId, job.(status := RollingBack));
      RollbackTheorems.UndoKeepsValid(store.table, selected, fails);
      var rolledBack, errors := UndoRows(selected, fails);
      if stop.AtMark? {
        return None;
      }
      var marked := if job.kind == kind then MarkRolledBack(job.rows) else job.rows;
      log.UpdateJob(jobId, job.(status := RollingBack, rows := marked));
      if stop.AtEnd? {
        return None;
      }
      log.UpdateJob(jobId, job.(status := Undone, rows := marked));
      result := Some(SeedResult(jobId, Undone, rolledBack, 0, errors, false));
    }

    /** The deletion loop. */
    method UndoRows(selected: seq<LedgerRow>, fails: nat -> bool) returns (rolledBack: nat, errors: nat)
      modifies store`table
      ensures Undo(store.table.rows, rolledBack, errors) == UndoAll(old(store.table).rows, selected, fails)
      ensures store.table.nextId == old(store.table).nextId
    {
      rolledBack, errors := 0, 0;
      for i := 0 to |selected|
        invariant store.table.nextId == old(store.table).nextId
        invariant Undo(store.table.rows, rolledBack, errors) == UndoAll(old(store.table).rows, selected[..i], fails)
      {
        var row := selected[i];
        assert selected[..i + 1][..i] == selected[..i];
        if row.status == Imported && !row.ref.NoRef? {
          var deleted, failed := UndoOne(row, fails(row.rowNumber));
          if deleted {
            rolledBack := rolledBack + 1;
          }
          if failed {
            errors := errors + 1;
          }
        }
      }
      assert selected[..|selected|] == selected;
    }

    /** One guarded deletion: by id, or by looking the slug up first. */
    method UndoOne(row: LedgerRow, fails: bool) returns (deleted: bool, failed: bool)
      requires row.status == Imported && !row.ref.NoRef?
      modifies store`table
      ensures store.table.nextId == old(store.table).nextId
      ensures forall n: nat, m: nat ::
                UndoRow(Undo(old(store.table).rows, n, m), row, fails) ==
                Undo(store.table.rows, if deleted then n + 1 else n, if failed then m + 1 else m)
    {
      if fails {
        return false, true;
      }
      match row.ref
      case ById(id) =>
        deleted := store.Delete(id);
        failed := !deleted;
      case BySlug(slug) =>
        failed := false;
        deleted := false;
        var id := IdOfSlug(store.table.rows, slug);
        if id.Some? {
          FoundIdExists(store.table.rows, slug);
          deleted := store.Delete(id.value);
        }
    }

    static lemma {:induction false} FoundIdExists(rows: seq<Entity>, slug: string)
      requires IdOfSlug(rows, slug).Some?
      ensures HasId(rows, IdOfSlug(rows, slug).value)
      decreases |rows|
    {
      var n := |rows| - 1;
      if rows[n].slug == slug {
        assert rows[n].id == IdOfSlug(rows, slug).value;
      } else {
        FoundIdExists(rows[..n], slug);
        var i :| 0 <= i < n && rows[..n][i].id == IdOfSlug(rows, slug).value;
        assert rows[i].id == IdOfSlug(rows, slug).value;
      }
    }
  }
}
