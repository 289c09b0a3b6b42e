/**
 The import jobs of the four seeders under prisma/seeds as values: the table, the lookups, what one row does,
 and what a run does. `ImportEngine` is proved against these functions; `ImportTheorems` proves
 what they promise.
 */
module ImportModel {
  import opened Wrappers
  import opened Text
  import Slugs

  /** The four seeders. The first two write the category table, the others a table of their own. */
  datatype Kind = Categories | Subcategories | ProductMasters | ServiceMasters

  /**
   One input row. `name` is the name the row is to bear, the field `subCategory` of a subcategory's
   raw data. `category` is the parent's name for Subcategories; the other kinds do not look rows up
   by it. `subCategory` is the column of that name in the raw data of the two master tables.
   */
  datatype Entry = Entry(category: string, name: string, subCategory: string)

  datatype Entity = Entity(id: nat, slug: string, name: string, parent: Option<nat>)

  /** Rows in storage order, and the next identifier, never used before. */
  datatype Table = Table(rows: seq<Entity>, nextId: nat)

  function SlugsOf(rows: seq<Entity>): set<string> {
    set e | e in rows :: e.slug
  }

  /** The constraints of the schema: primary key, unique slug, parent references. */
  ghost predicate ValidTable(t: Table) {
    && (forall i :: 0 <= i < |t.rows| ==> t.rows[i].id < t.nextId)
    && (forall i, j :: 0 <= i < j < |t.rows| ==> t.rows[i].id != t.rows[j].id)
    && (forall i, j :: 0 <= i < j < |t.rows| ==> t.rows[i].slug != t.rows[j].slug)
    && (forall i :: 0 <= i < |t.rows| && t.rows[i].parent.Some? ==> t.rows[i].parent.value < t.nextId)
  }

  // ---------- lookups ----------

  predicate SameName(m: string, n: string) {
    Lower(m) == Lower(n)
  }

  datatype Query =
    | RootNamed(name: string)
    | SlugOrName(slug: string, name: string)
    | SlugOrChildNamed(slug: string, name: string, parent: nat)

  predicate Matches(q: Query, e: Entity) {
    match q
    case RootNamed(name) => SameName(e.name, name) && e.parent.None?
    case SlugOrName(slug, name) => e.slug == slug || SameName(e.name, name)
    case SlugOrChildNamed(slug, name, parent) => e.slug == slug || (SameName(e.name, name) && e.parent == Some(parent))
  }

  function Select(rows: seq<Entity>, q: Query): (found: seq<Entity>)
    ensures forall e :: e in found <==> e in rows && Matches(q, e)
  {
    if rows == [] then []
    else
      assert rows == [rows[0]] + rows[1..];
      (if Matches(q, rows[0]) then [rows[0]] else []) + Select(rows[1..], q)
  }

  /** `findFirst` without an order: any matching row, the choice made by `pick`. */
  function FindFirst(rows: seq<Entity>, q: Query, pick: nat): (found: Option<Entity>)
    ensures found.Some? ==> found.value in rows && Matches(q, found.value)
    ensures found.None? ==> forall e :: e in rows ==> !Matches(q, e)
  {
    var all := Select(rows, q);
    if all == [] then None else Some(all[pick % |all|])
  }

  // ---------- one row ----------

  /** The database call that fails, if any. It has no effect, except that a write may take hold before it fails. */
  datatype Fault = NoFault | AtParent | AtLookup | AtWrite | AfterWrite

  datatype Env = Env(fault: Fault, parentPick: nat, matchPick: nat)

  datatype RowStatus = Imported | Duplicate | Error | RolledBack

  /** The ledger's entity id: an id, or for the two master tables a slug. */
  datatype Ref = NoRef | ById(id: nat) | BySlug(slug: string)

  datatype LedgerRow = LedgerRow(rowNumber: nat, status: RowStatus, ref: Ref, entry: Entry)

  datatype Outcome = Outcome(table: Table, status: RowStatus, ref: Ref)

  predicate SlugKeyed(kind: Kind) {
    kind.ProductMasters? || kind.ServiceMasters?
  }

  /** The two master seeders look up category and subcategory between naming and writing. */
  predicate WriteFails(kind: Kind, fault: Fault) {
    fault.AtWrite? || (fault.AtParent? && SlugKeyed(kind))
  }

  function ExistingQuery(e: Entry, parent: Option<Entity>): Query {
    var slug := Slugs.Slugify(e.name);
    if parent.Some? then SlugOrChildNamed(slug, e.name, parent.value.id) else SlugOrName(slug, e.name)
  }

  function ParentOf(kind: Kind, rows: seq<Entity>, e: Entry, env: Env): Option<Entity> {
    if kind.Subcategories? then FindFirst(rows, RootNamed(e.category), env.parentPick) else None
  }

  function RefOf(kind: Kind, e: Entity): Ref {
    if SlugKeyed(kind) then BySlug(e.slug) else ById(e.id)
  }

  function NewEntity(t: Table, e: Entry, parent: Option<Entity>): Entity {
    Entity(t.nextId, Slugs.Slugify(e.name), e.name, if parent.Some? then Some(parent.value.id) else None)
  }

  function Added(t: Table, e: Entity): Table {
    Table(t.rows + [e], t.nextId + 1)
  }

  /**
   What one row does, with neither slug set nor suffix search nor upsert: an unblocked row appends
   one entity under its plain slug, even if its write is then reported as failed, and every other
   row leaves the table alone.
   */
  function ImportRow(kind: Kind, t: Table, e: Entry, env: Env): Outcome {
    var parent := ParentOf(kind, t.rows, e, env);
    if kind.Subcategories? && (env.fault.AtParent? || parent.None?) then Outcome(t, Error, NoRef)
    else if env.fault.AtLookup? then Outcome(t, Error, NoRef)
    else
      var existing := FindFirst(t.rows, ExistingQuery(e, parent), env.matchPick);
      if existing.Some? then Outcome(t, Duplicate, ById(existing.value.id))
      else if WriteFails(kind, env.fault) then Outcome(t, Error, NoRef)
      else
        var created := NewEntity(t, e, parent);
        if env.fault.AfterWrite? then Outcome(Added(t, created), Error, NoRef)
        else Outcome(Added(t, created), Imported, RefOf(kind, created))
  }

  // ---------- a run ----------

  datatype Progress = Progress(table: Table, rows: seq<LedgerRow>)

  /** All rows in input order. */
  function Process(kind: Kind, t: Table, entries: seq<Entry>, envs: seq<Env>): (p: Progress)
    requires |entries| == |envs|
    ensures |p.rows| == |entries|
    decreases |entries|
  {
    if entries == [] then Progress(t, [])
    else
      var n := |entries| - 1;
      var p := Process(kind, t, entries[..n], envs[..n]);
      var o := ImportRow(kind, p.table, entries[n], envs[n]);
      Progress(o.table, p.rows + [LedgerRow(n + 1, o.status, o.ref, entries[n])])
  }

  function Count(rows: seq<LedgerRow>, status: RowStatus): nat {
    if rows == [] then 0
    else Count(rows[..|rows| - 1], status) + (if rows[|rows| - 1].status == status then 1 else 0)
  }

  datatype JobStatus = Running | Completed | Partial | Failed | RollingBack | Undone

  function FinalStatus(imported: nat, error: nat): JobStatus {
    if error > 0 then if imported > 0 then Partial else Failed else Completed
  }

  datatype Job = Job(kind: Kind, status: JobStatus, totalRows: nat, rows: seq<LedgerRow>,
                     importedRows: nat, duplicateRows: nat, errorRows: nat)

  function FinishedJob(kind: Kind, rows: seq<LedgerRow>): Job {
    var imported, error := Count(rows, Imported), Count(rows, Error);
    Job(kind, FinalStatus(imported, error), |rows|, rows, imported, Count(rows, Duplicate), error)
  }

  const BATCH_SIZE: nat := 100

  /** `rows.slice(i, i + BATCH_SIZE)` for i = 0, 100, ... */
  function Batches(rows: seq<LedgerRow>): seq<seq<LedgerRow>> {
    if rows == [] then []
    else if |rows| <= BATCH_SIZE then [rows]
    else [rows[..BATCH_SIZE]] + Batches(rows[BATCH_SIZE..])
  }

  // ---------- the job of a run that is cut short ----------

  /** A call outside the guarded row loop that throws, and ends the run. */
  datatype Crash = NoCrash | BeforeJob | AtBatch(k: nat) | AtFinish

  /** The ledger that gets written: batch `k` and those after it are lost when its write fails. */
  function LedgerWritten(rows: seq<LedgerRow>, crash: Crash): seq<LedgerRow> {
    if crash.AtBatch? && crash.k * BATCH_SIZE < |rows| then rows[..crash.k * BATCH_SIZE] else rows
  }

  predicate CutShort(rows: seq<LedgerRow>, crash: Crash) {
    crash.BeforeJob? || crash.AtFinish? || (crash.AtBatch? && crash.k * BATCH_SIZE < |rows|)
  }

  /** A run that is cut short after its job was created leaves it RUNNING, with no counts. */
  function JobAfter(kind: Kind, rows: seq<LedgerRow>, crash: Crash): Job {
    if CutShort(rows, crash) then Job(kind, Running, |rows|, LedgerWritten(rows, crash), 0, 0, 0)
    else FinishedJob(kind, rows)
  }

  // ---------- resume ----------

  /** The entries `resume` can read back from its own raw data; an empty string counts as missing. */
  predicate Retryable(kind: Kind, e: Entry) {
    e.name != [] && (kind.Subcategories? ==> e.category != [])
  }

  /**
   What the `resume` of one seeder reads from a raw row that a seeder of kind `origin` wrote: it
   takes any job, and looks for the fields it needs. A category row has the field `name`, a
   subcategory row `category` and `subCategory`, a master row all three.
   */
  function ReadBack(kind: Kind, origin: Kind, e: Entry): Option<Entry> {
    if kind == origin then
      if Retryable(kind, e) then Some(e) else None
    else if kind.Subcategories? then
      if origin.Categories? || e.category == [] || e.subCategory == [] then None
      else Some(Entry(e.category, e.subCategory, []))
    else if origin.Subcategories? || e.name == [] then None
    else if SlugKeyed(kind) && SlugKeyed(origin) then Some(e)
    else Some(Entry([], e.name, []))
  }

  function Retries(kind: Kind, origin: Kind, rows: seq<LedgerRow>): seq<Entry> {
    if rows == [] then []
    else Retries(kind, origin, rows[..|rows| - 1]) + Retry(kind, origin, rows[|rows| - 1])
  }

  function Retry(kind: Kind, origin: Kind, row: LedgerRow): seq<Entry> {
    var entry := ReadBack(kind, origin, row.entry);
    if row.status == Error && entry.Some? then [entry.value] else []
  }

  predicate CanResume(status: JobStatus) {
    status == Failed || status == Partial
  }

  // ---------- rollback ----------

  /** Deleting rows of the category table clears the parent of their children. */
  function Cleared(e: Entity, ids: set<nat>): Entity {
    if e.parent.Some? && e.parent.value in ids then e.(parent := None) else e
  }

  function Remove(rows: seq<Entity>, ids: set<nat>): seq<Entity> {
    if rows == [] then []
    else
      Remove(rows[..|rows| - 1], ids)
      + (if rows[|rows| - 1].id in ids then [] else [Cleared(rows[|rows| - 1], ids)])
  }

  predicate HasId(rows: seq<Entity>, id: nat) {
    exists i :: 0 <= i < |rows| && rows[i].id == id
  }

  /** `findUnique({ slug })` */
  function IdOfSlug(rows: seq<Entity>, slug: string): Option<nat> {
    if rows == [] then None
    else if rows[|rows| - 1].slug == slug then Some(rows[|rows| - 1].id)
    else IdOfSlug(rows[..|rows| - 1], slug)
  }

  /** The row a ledger reference stands for now. */
  function Resolve(rows: seq<Entity>, ref: Ref): Option<nat> {
    match ref
    case NoRef => None
    case ById(id) => if HasId(rows, id) then Some(id) else None
    case BySlug(slug) => IdOfSlug(rows, slug)
  }

  datatype Undo = Undo(rows: seq<Entity>, rolledBack: nat, errors: nat)

  /**
   One ledger row of a rollback; `fails` says that its database call fails. Deleting a missing id
   is an error; a slug that is no longer there is not.
   */
  function UndoRow(u: Undo, row: LedgerRow, fails: bool): Undo {
    if row.status != Imported || row.ref.NoRef? then u
    else
      var id := Resolve(u.rows, row.ref);
      if fails || (row.ref.ById? && id.None?) then u.(errors := u.errors + 1)
      else if id.None? then u
      else Undo(Remove(u.rows, {id.value}), u.rolledBack + 1, u.errors)
  }

  /** Undoing the ledger rows one after the other; `fails` is indexed by row number. */
  function UndoAll(rows: seq<Entity>, ledger: seq<LedgerRow>, fails: nat -> bool): Undo {
    if ledger == [] then Undo(rows, 0, 0)
    else
      var last := ledger[|ledger| - 1];
      UndoRow(UndoAll(rows, ledger[..|ledger| - 1], fails), last, fails(last.rowNumber))
  }

  function MarkRolledBack(rows: seq<LedgerRow>): (marked: seq<LedgerRow>)
    ensures |marked| == |rows|
    ensures forall i :: 0 <= i < |rows| ==>
              marked[i] == if rows[i].status == Imported then rows[i].(status := RolledBack) else rows[i]
  {
    seq(|rows|, i requires 0 <= i < |rows| =>
      if rows[i].status == Imported then rows[i].(status := RolledBack) else rows[i])
  }

  /** A call outside the guarded deletion loop that throws, and ends the rollback. */
  datatype Stop = NoStop | BeforeUndo | AtMark | AtEnd

  /** The rows a seeder's rollback selects: none when the job belongs to another seeder. */
  function Selected(job: Job, kind: Kind): seq<LedgerRow> {
    if job.kind == kind then job.rows else []
  }

  /** The job after a rollback that got as far as `stop`: its rows stay IMPORTED when marking them throws. */
  function JobAfterRollback(job: Job, kind: Kind, stop: Stop): Job {
    var marked := if job.kind == kind then MarkRolledBack(job.rows) else job.rows;
    match stop
    case BeforeUndo => job
    case AtMark => job.(status := RollingBack)
    case AtEnd => job.(status := RollingBack, rows := marked)
    case NoStop => job.(status := Undone, rows := marked)
  }

  // ---------- what one call of a seeder does ----------

  datatype Log = Log(jobs: map<nat, Job>, next: nat)

  /** The part of the database a seeder works on: its table and the log of jobs. */
  datatype Site = Site(table: Table, log: Log)

  function WithJob(log: Log, job: Job): Log {
    Log(log.jobs[log.next := job], log.next + 1)
  }

  function RunOn(kind: Kind, s: Site, entries: seq<Entry>, envs: seq<Env>, crash: Crash): Site
    requires |entries| == |envs|
  {
    if crash.BeforeJob? then s
    else
      var p := Process(kind, s.table, entries, envs);
      Site(p.table, WithJob(s.log, JobAfter(kind, p.rows, crash)))
  }

  predicate Resumable(log: Log, jobId: nat) {
    jobId in log.jobs && CanResume(log.jobs[jobId].status)
  }

  function EnvsFor(entries: seq<Entry>, envOf: nat -> Env): (envs: seq<Env>)
    ensures |envs| == |entries|
    ensures forall i :: 0 <= i < |entries| ==> envs[i] == envOf(i)
  {
    seq(|entries|, i requires 0 <= i < |entries| => envOf(i))
  }

  function ResumeOn(kind: Kind, s: Site, jobId: nat, envOf: nat -> Env, crash: Crash): Site {
    if !Resumable(s.log, jobId) then s
    else
      var retries := Retries(kind, s.log.jobs[jobId].kind, s.log.jobs[jobId].rows);
      RunOn(kind, s, retries, EnvsFor(retries, envOf), crash)
  }

  function RollbackOn(kind: Kind, s: Site, jobId: nat, fails: nat -> bool, stop: Stop): Site {
    if jobId !in s.log.jobs || stop.BeforeUndo? then s
    else
      var job := s.log.jobs[jobId];
      Site(Table(UndoAll(s.table.rows, Selected(job, kind), fails).rows, s.table.nextId),
           s.log.(jobs := s.log.jobs[jobId := JobAfterRollback(job, kind, stop)]))
  }

  /** The constraints that every call keeps. */
  ghost predicate ValidSite(s: Site) {
    ValidTable(s.table) && ValidLog(s.log)
  }

  ghost predicate ValidLog(log: Log) {
    forall j :: j in log.jobs ==> j < log.next
  }
}
