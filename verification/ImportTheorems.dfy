/** What the import jobs promise: complete ledgers, faithful resumption, exact rollback. */
module ImportTheorems {
  import opened Wrappers
  import opened Text
  import opened ImportModel
  import Slugs

  // ---------- the ledger ----------

  lemma RowIsNeverRolledBack(kind: Kind, t: Table, e: Entry, env: Env)
    ensures ImportRow(kind, t, e, env).status != RolledBack
  {
  }

  /** What one entry does to a table, as a ledger row. */
  function RowFor(kind: Kind, t: Table, e: Entry, env: Env, number: nat): LedgerRow {
    var o := ImportRow(kind, t, e, env);
    LedgerRow(number, o.status, o.ref, e)
  }

  /** A run over one entry more: the table moves on by that entry, and the ledger grows by its row. */
  lemma PrefixStep(kind: Kind, t: Table, entries: seq<Entry>, envs: seq<Env>, m: nat)
    requires m < |entries| == |envs|
    ensures var p := Process(kind, t, entries[..m], envs[..m]);
            Process(kind, t, entries[..m + 1], envs[..m + 1]) ==
            Progress(ImportRow(kind, p.table, entries[m], envs[m]).table,
                     p.rows + [RowFor(kind, p.table, entries[m], envs[m], m + 1)])
  {
    assert entries[..m + 1][..m] == entries[..m] && envs[..m + 1][..m] == envs[..m];
  }

  /** The whole run is the run without its last entry, and one row more. */
  lemma LastRow(kind: Kind, t: Table, entries: seq<Entry>, envs: seq<Env>)
    requires |entries| == |envs| > 0
    ensures var n := |entries| - 1;
            var p := Process(kind, t, entries[..n], envs[..n]);
            Process(kind, t, entries, envs) ==
            Progress(ImportRow(kind, p.table, entries[n], envs[n]).table, p.rows + [RowFor(kind, p.table, entries[n], envs[n], n + 1)])
  {
    hide ImportRow;
  }

  /** The earlier rows stay. */
  lemma RowStays(kind: Kind, t: Table, entries: seq<Entry>, envs: seq<Env>, i: nat, m: nat)
    requires i < m < |entries| == |envs|
    ensures Process(kind, t, entries[..m + 1], envs[..m + 1]).rows[i] == Process(kind, t, entries[..m], envs[..m]).rows[i]
  {
    PrefixStep(kind, t, entries, envs, m);
  }

  lemma {:induction false} RowAtPrefix(kind: Kind, t: Table, entries: seq<Entry>, envs: seq<Env>, i: nat, m: nat)
    requires i < m <= |entries| == |envs|
    ensures Process(kind, t, entries[..m], envs[..m]).rows[i] == Process(kind, t, entries[..i + 1], envs[..i + 1]).rows[i]
    decreases m
  {
    hide *;
    if i < m - 1 {
      RowStays(kind, t, entries, envs, i, m - 1);
      RowAtPrefix(kind, t, entries, envs, i, m - 1);
    }
  }

  /** Row `i` is what its entry did to the table the rows before it left. */
  lemma RowAt(kind: Kind, t: Table, entries: seq<Entry>, envs: seq<Env>, i: nat)
    requires i < |entries| == |envs|
    ensures Process(kind, t, entries, envs).rows[i] ==
            RowFor(kind, Process(kind, t, entries[..i], envs[..i]).table, entries[i], envs[i], i + 1)
  {
    assert entries[..|entries|] == entries && envs[..|envs|] == envs;
    RowAtPrefix(kind, t, entries, envs, i, |entries|);
    PrefixStep(kind, t, entries, envs, i);
  }

  lemma LedgerRows(kind: Kind, t: Table, entries: seq<Entry>, envs: seq<Env>)
    requires |entries| == |envs|
    ensures var rows := Process(kind, t, entries, envs).rows;
            forall i :: 0 <= i < |entries| ==>
              rows[i].rowNumber == i + 1 && rows[i].entry == entries[i] && rows[i].status != RolledBack
  {
    forall i | 0 <= i < |entries|
      ensures var row := Process(kind, t, entries, envs).rows[i];
              row.rowNumber == i + 1 && row.entry == entries[i] && row.status != RolledBack
    {
      RowAt(kind, t, entries, envs, i);
      RowIsNeverRolledBack(kind, Process(kind, t, entries[..i], envs[..i]).table, entries[i], envs[i]);
    }
  }

  lemma {:induction false} CountsAddUp(rows: seq<LedgerRow>)
    requires forall i :: 0 <= i < |rows| ==> rows[i].status != RolledBack
    ensures Count(rows, Imported) + Count(rows, Duplicate) + Count(rows, Error) == |rows|
    decreases |rows|
  {
    if rows != [] {
      CountsAddUp(rows[..|rows| - 1]);
    }
  }

  lemma {:induction false} CountIsPositive(rows: seq<LedgerRow>, status: RowStatus)
    ensures Count(rows, status) > 0 <==> exists i :: 0 <= i < |rows| && rows[i].status == status
    decreases |rows|
  {
    if rows != [] {
      var front := rows[..|rows| - 1];
      CountIsPositive(front, status);
      if i :| 0 <= i < |rows| && rows[i].status == status {
        assert i < |front| ==> front[i].status == status;
      }
      if i :| 0 <= i < |front| && front[i].status == status {
        assert rows[i].status == status;
      }
    }
  }

  ghost predicate HasError(rows: seq<LedgerRow>) {
    exists i :: 0 <= i < |rows| && rows[i].status == Error
  }

  /**
   For every pattern of faults: one ledger row per input, in order; the three counts of a finished
   job add up to the input; and the job can be resumed exactly when the run was not cut short and
   some row is an error.
   */
  lemma {:induction false} LedgerIsComplete(kind: Kind, t: Table, entries: seq<Entry>, envs: seq<Env>)
    requires |entries| == |envs|
    ensures var rows := Process(kind, t, entries, envs).rows;
            var job := FinishedJob(kind, rows);
            && |rows| == |entries|
            && (forall i :: 0 <= i < |entries| ==> rows[i].rowNumber == i + 1 && rows[i].entry == entries[i])
            && job.importedRows + job.duplicateRows + job.errorRows == |entries|
            && forall crash :: CanResume(JobAfter(kind, rows, crash).status) <==> !CutShort(rows, crash) && HasError(rows)
  {
    LedgerRows(kind, t, entries, envs);
    var rows := Process(kind, t, entries, envs).rows;
    CountsAddUp(rows);
    CountIsPositive(rows, Error);
  }

  // ---------- the status and the counts of a job ----------

  ghost predicate HasStatus(rows: seq<LedgerRow>, status: RowStatus) {
    exists i :: 0 <= i < |rows| && rows[i].status == status
  }

  /** The rows of one status. */
  ghost function Having(rows: seq<LedgerRow>, status: RowStatus): set<int> {
    set i | 0 <= i < |rows| && rows[i].status == status
  }

  lemma {:induction false} CountIsSize(rows: seq<LedgerRow>, status: RowStatus)
    ensures Count(rows, status) == |Having(rows, status)|
    decreases |rows|
  {
    if rows == [] {
      assert Having(rows, status) == {};
    } else {
      CountIsSize(rows[..|rows| - 1], status);
      HavingStep(rows, status);
    }
  }

  lemma HavingStep(rows: seq<LedgerRow>, status: RowStatus)
    requires rows != []
    ensures var n := |rows| - 1;
            |Having(rows, status)| == |Having(rows[..n], status)| + if rows[n].status == status then 1 else 0
  {
    var n := |rows| - 1;
    var some := Having(rows[..n], status);
    assert Having(rows, status) == if rows[n].status == status then some + {n} else some;
  }

  /** PARTIAL: some rows failed and some were imported. FAILED: some failed and none was imported. COMPLETED: none failed. */
  ghost predicate StatusFits(status: JobStatus, rows: seq<LedgerRow>) {
    && (status == Partial <==> HasStatus(rows, Error) && HasStatus(rows, Imported))
    && (status == Failed <==> HasStatus(rows, Error) && !HasStatus(rows, Imported))
    && (status == Completed <==> !HasStatus(rows, Error))
  }

  ghost predicate CountsFit(imported: nat, duplicate: nat, error: nat, rows: seq<LedgerRow>) {
    imported == |Having(rows, Imported)| && duplicate == |Having(rows, Duplicate)| && error == |Having(rows, Error)|
  }

  /** What the job of a run says about its rows: everything, or RUNNING and nothing when the run was cut short. */
  lemma JobAfterMeans(kind: Kind, rows: seq<LedgerRow>, crash: Crash)
    ensures var job := JobAfter(kind, rows, crash);
            && job.kind == kind && job.totalRows == |rows|
            && (!CutShort(rows, crash) ==>
                  && job.rows == rows && StatusFits(job.status, rows)
                  && CountsFit(job.importedRows, job.duplicateRows, job.errorRows, rows))
            && (CutShort(rows, crash) ==>
                  job.rows <= rows && job.status == Running && job.importedRows == job.duplicateRows == job.errorRows == 0)
  {
    CountIsPositive(rows, Imported);
    CountIsPositive(rows, Error);
    CountIsSize(rows, Imported);
    CountIsSize(rows, Duplicate);
    CountIsSize(rows, Error);
  }

  function Concat(batches: seq<seq<LedgerRow>>): seq<LedgerRow> {
    if batches == [] then [] else batches[0] + Concat(batches[1..])
  }

  /** The batches are nonempty, hold at most 100 rows, and concatenate to the ledger. */
  lemma {:induction false} BatchesCover(rows: seq<LedgerRow>)
    ensures Concat(Batches(rows)) == rows
    ensures forall b :: b in Batches(rows) ==> 0 < |b| <= 100
    ensures |Batches(rows)| == (|rows| + 99) / 100
    decreases |rows|
  {
    if |rows| > BATCH_SIZE {
      BatchesCover(rows[BATCH_SIZE..]);
      assert rows == rows[..BATCH_SIZE] + rows[BATCH_SIZE..];
    } else if rows != [] {
      assert Batches(rows)[1..] == [];
      assert rows + [] == rows;
    }
  }

  // ---------- one row ----------

  /** `t` is `t0` after rows of this kind were appended, each under the slug of its own name. */
  ghost predicate Extends(kind: Kind, t0: Table, t: Table) {
    && t0.rows <= t.rows
    && forall i :: |t0.rows| <= i < |t.rows| ==>
         t.rows[i].slug == Slugs.Slugify(t.rows[i].name) && (kind.Subcategories? ==> t.rows[i].parent.Some?)
  }

  /** Some root of the table bears the entry's category name. */
  ghost predicate IsParent(t: Table, e: Entry, p: Entity) {
    p in t.rows && Matches(RootNamed(e.category), p)
  }

  ghost predicate NameTakenUnder(t: Table, e: Entry, parent: nat) {
    exists x :: x in t.rows && SameName(x.name, e.name) && x.parent == Some(parent)
  }

  ghost predicate NameTaken(t: Table, e: Entry) {
    exists x :: x in t.rows && SameName(x.name, e.name)
  }

  /** By its name, the entry is new to the table: no such row, or for a subcategory no such child of its parent. */
  ghost predicate Eligible(kind: Kind, t: Table, e: Entry) {
    if kind.Subcategories? then exists p :: IsParent(t, e, p) && !NameTakenUnder(t, e, p.id)
    else !NameTaken(t, e)
  }

  /** Whichever of the equally named parents a lookup picks, the answer is the same. */
  ghost predicate ParentsAgree(kind: Kind, t: Table, e: Entry) {
    kind.Subcategories? ==>
      forall p, q :: IsParent(t, e, p) && IsParent(t, e, q) ==>
        (NameTakenUnder(t, e, p.id) <==> NameTakenUnder(t, e, q.id))
  }

  /** The choice among equally named parents makes no difference: they agree, or the slug is taken anyway. */
  ghost predicate ChoiceIsFree(kind: Kind, t: Table, e: Entry) {
    ParentsAgree(kind, t, e) || Slugs.Slugify(e.name) in SlugsOf(t.rows)
  }

  ghost predicate ChoicesAreFree(kind: Kind, t: Table, entries: seq<Entry>) {
    forall e :: e in entries ==> ChoiceIsFree(kind, t, e)
  }

  /** By its name, the entry is new under the parent its lookup picks. */
  ghost predicate Allowed(kind: Kind, t: Table, e: Entry, env: Env) {
    if kind.Subcategories? then
      var parent := ParentOf(kind, t.rows, e, env);
      parent.Some? && !NameTakenUnder(t, e, parent.value.id)
    else !NameTaken(t, e)
  }

  /** Root names are distinct up to case. */
  ghost predicate UniqueRoots(t: Table) {
    forall p, q :: p in t.rows && q in t.rows && p.parent.None? && q.parent.None? && SameName(p.name, q.name) ==> p == q
  }

  lemma UniqueRootsAgree(kind: Kind, t: Table, entries: seq<Entry>)
    requires UniqueRoots(t)
    ensures ChoicesAreFree(kind, t, entries)
  {
    forall e | e in entries
      ensures ParentsAgree(kind, t, e)
    {
    }
  }

  lemma SplitTable(kind: Kind, t0: Table, t: Table, x: Entity)
    requires Extends(kind, t0, t) && x in t.rows
    ensures x in t0.rows || (x.slug == Slugs.Slugify(x.name) && (kind.Subcategories? ==> x.parent.Some?))
  {
    var i :| 0 <= i < |t.rows| && t.rows[i] == x;
    assert i < |t0.rows| ==> t.rows[i] == t0.rows[i];
  }

  lemma KeptByExtension(kind: Kind, t0: Table, t: Table, x: Entity)
    requires Extends(kind, t0, t) && x in t0.rows
    ensures x in t.rows
  {
    var i :| 0 <= i < |t0.rows| && t0.rows[i] == x;
    assert t.rows[i] == x;
  }

  lemma SameParents(kind: Kind, t0: Table, t: Table, e: Entry, p: Entity)
    requires Extends(kind, t0, t) && kind.Subcategories?
    ensures IsParent(t, e, p) <==> IsParent(t0, e, p)
  {
    if IsParent(t, e, p) {
      SplitTable(kind, t0, t, p);
    } else if p in t0.rows {
      KeptByExtension(kind, t0, t, p);
    }
  }

  lemma {:induction false} SelectSplits(rows: seq<Entity>, more: seq<Entity>, q: Query)
    ensures Select(rows + more, q) == Select(rows, q) + Select(more, q)
    decreases |rows|
  {
    if rows == [] {
      assert rows + more == more;
    } else {
      assert (rows + more)[1..] == rows[1..] + more;
      SelectSplits(rows[1..], more, q);
    }
  }

  lemma {:induction false} NothingSelected(rows: seq<Entity>, q: Query)
    requires forall x :: x in rows ==> !Matches(q, x)
    ensures Select(rows, q) == []
  {
    if rows != [] {
      assert rows[0] in rows;
      NothingSelected(rows[1..], q);
    }
  }

  /** Created subcategories are no roots, so the lookup of the parent answers as it did before them. */
  lemma SameChoice(kind: Kind, t0: Table, t: Table, e: Entry, env: Env)
    requires Extends(kind, t0, t)
    ensures ParentOf(kind, t.rows, e, env) == ParentOf(kind, t0.rows, e, env)
  {
    hide Slugs.Slugify;
    hide Select;
    if kind.Subcategories? {
      var q := RootNamed(e.category);
      var more := t.rows[|t0.rows|..];
      assert t.rows == t0.rows + more;
      SelectSplits(t0.rows, more, q);
      forall x | x in more
        ensures !Matches(q, x)
      {
        var i :| 0 <= i < |more| && more[i] == x;
        assert more[i] == t.rows[|t0.rows| + i];
      }
      NothingSelected(more, q);
    }
  }

  /**
   A row changes the table when it is imported, or when its write takes hold before it fails. Then
   its entry was allowed, and it adds its own slug.
   */
  lemma {:induction false} ImportedRow(kind: Kind, t0: Table, t: Table, e: Entry, env: Env)
    requires Extends(kind, t0, t)
    ensures var o := ImportRow(kind, t, e, env);
            && Extends(kind, t0, o.table)
            && o.status != RolledBack
            && (o.status == Imported ==> o.table != t)
            && (o.table != t ==>
                  && (o.status == Imported || (o.status == Error && env.fault.AfterWrite?))
                  && o.table == Added(t, NewEntity(t, e, ParentOf(kind, t.rows, e, env)))
                  && Allowed(kind, t0, e, env) && Slugs.Slugify(e.name) !in SlugsOf(t.rows)
                  && SlugsOf(o.table.rows) == SlugsOf(t.rows) + {Slugs.Slugify(e.name)})
  {
    hide Slugs.Slugify;
    hide SameName;
    var o := ImportRow(kind, t, e, env);
    if o.table != t {
      var parent := ParentOf(kind, t.rows, e, env);
      var q := ExistingQuery(e, parent);
      assert forall x :: x in t.rows ==> !Matches(q, x);
      assert o.table.rows == t.rows + [NewEntity(t, e, parent)];
      SameChoice(kind, t0, t, e, env);
      forall x | x in t0.rows
        ensures !Matches(q, x)
      {
        KeptByExtension(kind, t0, t, x);
      }
    }
  }

  lemma AllowedIsEligible(kind: Kind, t: Table, e: Entry, env: Env)
    requires Allowed(kind, t, e, env)
    ensures Eligible(kind, t, e)
  {
    if kind.Subcategories? {
      assert IsParent(t, e, ParentOf(kind, t.rows, e, env).value);
    }
  }

  /** A row found to be a duplicate has its slug in the table already, or was not allowed to begin with. */
  lemma DuplicateRow(kind: Kind, t0: Table, t: Table, e: Entry, env: Env)
    requires Extends(kind, t0, t)
    requires ImportRow(kind, t, e, env).status == Duplicate
    ensures Slugs.Slugify(e.name) in SlugsOf(t.rows) || !Allowed(kind, t0, e, env)
  {
    var parent := ParentOf(kind, t.rows, e, env);
    SameChoice(kind, t0, t, e, env);
    var x := FindFirst(t.rows, ExistingQuery(e, parent), env.matchPick).value;
    if x.slug != Slugs.Slugify(e.name) {
      assert SameName(x.name, e.name);
      Slugs.SlugIgnoresCase(x.name, e.name);
      SplitTable(kind, t0, t, x);
      assert x in t0.rows;
    }
  }

  /** Without a fault, the only error is a missing parent. */
  lemma CleanErrorRow(kind: Kind, t0: Table, t: Table, e: Entry, env: Env)
    requires Extends(kind, t0, t) && env.fault.NoFault?
    requires ImportRow(kind, t, e, env).status == Error
    ensures !Eligible(kind, t0, e)
  {
    assert kind.Subcategories? && ParentOf(kind, t.rows, e, env).None?;
    forall p
      ensures !IsParent(t0, e, p)
    {
      SameParents(kind, t0, t, e, p);
    }
  }

  /** Some row of the table has the entry's slug, or its name up to case; for a subcategory, its name under the parent. */
  ghost predicate Found(t: Table, e: Entry, parent: Option<Entity>) {
    exists x :: x in t.rows && FoundAs(e, parent, x)
  }

  ghost predicate FoundAs(e: Entry, parent: Option<Entity>, x: Entity) {
    x.slug == Slugs.Slugify(e.name) || (Lower(x.name) == Lower(e.name) && (parent.Some? ==> x.parent == Some(parent.value.id)))
  }

  /** The call that fails, or the missing parent, ends the row before the lookup of the entry. */
  ghost predicate Hindered(kind: Kind, t: Table, e: Entry, env: Env) {
    env.fault == AtLookup
    || (kind == Subcategories && (env.fault == AtParent || forall p :: p in t.rows && p.parent == None ==> Lower(p.name) != Lower(e.category)))
  }

  /** The write fails, whether or not it takes hold; the master seeders look up their categories just before it. */
  ghost predicate WriteHindered(kind: Kind, env: Env) {
    env.fault == AtWrite || env.fault == AfterWrite
    || (env.fault == AtParent && (kind == ProductMasters || kind == ServiceMasters))
  }

  /**
   One row in full: an error exactly when it is hindered before the lookup or, with nothing found,
   at the write; a duplicate exactly when something is found; imported otherwise. What it refers
   to, and when the table changes.
   */
  lemma RowOutcome(kind: Kind, t: Table, e: Entry, env: Env)
    ensures var o := ImportRow(kind, t, e, env);
            var parent := ParentOf(kind, t.rows, e, env);
            var found := Found(t, e, parent);
            && (o.status == Error <==> Hindered(kind, t, e, env) || (!found && WriteHindered(kind, env)))
            && (o.status == Duplicate <==> !Hindered(kind, t, e, env) && found)
            && (o.status == Imported <==> !Hindered(kind, t, e, env) && !found && !WriteHindered(kind, env))
            && (o.status == Error ==> o.ref == NoRef)
            && (o.status == Duplicate ==> exists x :: x in t.rows && FoundAs(e, parent, x) && o.ref == ById(x.id))
            && (o.status == Imported ==>
                  o.ref == if kind == ProductMasters || kind == ServiceMasters then BySlug(Slugs.Slugify(e.name)) else ById(t.nextId))
            && o.table == if !Hindered(kind, t, e, env) && !found && (o.status == Imported || env.fault == AfterWrite)
                          then Added(t, NewEntity(t, e, parent)) else t
  {
    hide Slugs.Slugify;
    var parent := ParentOf(kind, t.rows, e, env);
    ParentLookup(kind, t, e, env);
    MatchesMeaning(t, e, parent);
  }

  lemma ParentLookup(kind: Kind, t: Table, e: Entry, env: Env)
    ensures kind == Subcategories ==>
              (ParentOf(kind, t.rows, e, env).None? <==> forall p :: p in t.rows && p.parent == None ==> Lower(p.name) != Lower(e.category))
  {
    if kind == Subcategories {
      var q := RootNamed(e.category);
      assert forall p :: p in t.rows ==> (Matches(q, p) <==> p.parent == None && Lower(p.name) == Lower(e.category));
    }
  }

  lemma MatchesMeaning(t: Table, e: Entry, parent: Option<Entity>)
    ensures forall x :: x in t.rows ==> (Matches(ExistingQuery(e, parent), x) <==> FoundAs(e, parent, x))
  {
    hide Slugs.Slugify;
  }

  // ---------- a run ----------

  lemma {:induction false} RunExtends(kind: Kind, t0: Table, t: Table, entries: seq<Entry>, envs: seq<Env>)
    requires |entries| == |envs| && Extends(kind, t0, t)
    ensures Extends(kind, t0, Process(kind, t, entries, envs).table)
    decreases |entries|
  {
    if entries != [] {
      var n := |entries| - 1;
      RunExtends(kind, t0, t, entries[..n], envs[..n]);
      ImportedRow(kind, t0, Process(kind, t, entries[..n], envs[..n]).table, entries[n], envs[n]);
    }
  }

  /** The row is no error, or only the report of its write failed. */
  ghost predicate TookEffect(row: LedgerRow, env: Env) {
    row.status != Error || env.fault.AfterWrite?
  }

  /** Row `i` took effect and its entry was allowed. */
  ghost predicate Adds(kind: Kind, t0: Table, entries: seq<Entry>, envs: seq<Env>, rows: seq<LedgerRow>, i: int) {
    0 <= i < |entries| == |envs| == |rows| && TookEffect(rows[i], envs[i]) && Allowed(kind, t0, entries[i], envs[i])
  }

  /** The slugs a run stands for: those of its allowed entries that are no errors. */
  ghost function Supply(kind: Kind, t0: Table, entries: seq<Entry>, envs: seq<Env>, rows: seq<LedgerRow>): set<string> {
    set i | 0 <= i < |entries| && Adds(kind, t0, entries, envs, rows, i) :: Slugs.Slugify(entries[i].name)
  }

  /** Row `i` supplies the slug `s`. */
  ghost predicate Supplies(kind: Kind, t0: Table, entries: seq<Entry>, envs: seq<Env>, rows: seq<LedgerRow>, s: string, i: int) {
    Adds(kind, t0, entries, envs, rows, i) && Slugs.Slugify(entries[i].name) == s
  }

  lemma SuppliesEarlier(kind: Kind, t0: Table, entries: seq<Entry>, envs: seq<Env>, rows: seq<LedgerRow>, s: string, i: nat)
    requires |entries| == |envs| == |rows| && i < |entries| - 1
    ensures var n := |entries| - 1;
            Supplies(kind, t0, entries[..n], envs[..n], rows[..n], s, i) <==> Supplies(kind, t0, entries, envs, rows, s, i)
  {
  }

  lemma SupplyStep(kind: Kind, t0: Table, entries: seq<Entry>, envs: seq<Env>, rows: seq<LedgerRow>)
    requires |entries| == |envs| == |rows| > 0
    ensures var n := |entries| - 1;
            Supply(kind, t0, entries, envs, rows) ==
            Supply(kind, t0, entries[..n], envs[..n], rows[..n])
            + if Adds(kind, t0, entries, envs, rows, n) then {Slugs.Slugify(entries[n].name)} else {}
  {
    var n := |entries| - 1;
    forall s
      ensures s in Supply(kind, t0, entries, envs, rows) <==>
              s in Supply(kind, t0, entries[..n], envs[..n], rows[..n]) || Supplies(kind, t0, entries, envs, rows, s, n)
    {
      SupplyStepAt(kind, t0, entries, envs, rows, s);
    }
  }

  lemma SupplyStepAt(kind: Kind, t0: Table, entries: seq<Entry>, envs: seq<Env>, rows: seq<LedgerRow>, s: string)
    requires |entries| == |envs| == |rows| > 0
    ensures var n := |entries| - 1;
            s in Supply(kind, t0, entries, envs, rows) <==>
            s in Supply(kind, t0, entries[..n], envs[..n], rows[..n]) || Supplies(kind, t0, entries, envs, rows, s, n)
  {
    hide Slugs.Slugify;
    hide Supplies;
    hide Adds;
    var n := |entries| - 1;
    SupplyMember(kind, t0, entries, envs, rows, s);
    SupplyMember(kind, t0, entries[..n], envs[..n], rows[..n], s);
    forall i | 0 <= i < n
      ensures Supplies(kind, t0, entries[..n], envs[..n], rows[..n], s, i) <==> Supplies(kind, t0, entries, envs, rows, s, i)
    {
      SuppliesEarlier(kind, t0, entries, envs, rows, s, i);
    }
  }

  lemma SupplyMember(kind: Kind, t0: Table, entries: seq<Entry>, envs: seq<Env>, rows: seq<LedgerRow>, s: string)
    ensures s in Supply(kind, t0, entries, envs, rows) <==>
            exists i :: 0 <= i < |entries| && Supplies(kind, t0, entries, envs, rows, s, i)
  {
    if i :| 0 <= i < |entries| && Adds(kind, t0, entries, envs, rows, i) && Slugs.Slugify(entries[i].name) == s {
      assert Supplies(kind, t0, entries, envs, rows, s, i);
    }
  }

  /**
   The slugs after a run, for every table, every pattern of faults and every choice of the lookups:
   those before, and those of the entries that were new under the parent picked for them and whose
   rows are no errors.
   */
  lemma {:induction false} SlugsAfterRun(kind: Kind, t0: Table, t: Table, entries: seq<Entry>, envs: seq<Env>)
    requires |entries| == |envs| && Extends(kind, t0, t)
    ensures var p := Process(kind, t, entries, envs);
            && Extends(kind, t0, p.table)
            && SlugsOf(p.table.rows) == SlugsOf(t.rows) + Supply(kind, t0, entries, envs, p.rows)
    decreases |entries|
  {
    if entries != [] {
      var n := |entries| - 1;
      SlugsAfterRun(kind, t0, t, entries[..n], envs[..n]);
      SlugsAfterLastRow(kind, t0, t, entries, envs);
    }
  }

  lemma SlugsAfterLastRow(kind: Kind, t0: Table, t: Table, entries: seq<Entry>, envs: seq<Env>)
    requires |entries| == |envs| > 0
    requires var n := |entries| - 1;
             var p := Process(kind, t, entries[..n], envs[..n]);
             && Extends(kind, t0, p.table)
             && SlugsOf(p.table.rows) == SlugsOf(t.rows) + Supply(kind, t0, entries[..n], envs[..n], p.rows)
    ensures var p := Process(kind, t, entries, envs);
            && Extends(kind, t0, p.table)
            && SlugsOf(p.table.rows) == SlugsOf(t.rows) + Supply(kind, t0, entries, envs, p.rows)
  {
    hide ImportRow;
    hide Slugs.Slugify;
    var n := |entries| - 1;
    var p := Process(kind, t, entries[..n], envs[..n]);
    var q := Process(kind, t, entries, envs);
    var o := ImportRow(kind, p.table, entries[n], envs[n]);
    assert q.table == o.table && q.rows == p.rows + [LedgerRow(n + 1, o.status, o.ref, entries[n])];
    SupplyStep(kind, t0, entries, envs, q.rows);
    assert q.rows[..n] == p.rows;
    RowAddsSlug(kind, t0, p.table, entries[n], envs[n]);
  }

  /** One row, whatever its outcome. */
  lemma RowAddsSlug(kind: Kind, t0: Table, t: Table, e: Entry, env: Env)
    requires Extends(kind, t0, t)
    ensures var o := ImportRow(kind, t, e, env);
            && Extends(kind, t0, o.table)
            && SlugsOf(o.table.rows) == SlugsOf(t.rows)
               + if (o.status != Error || env.fault.AfterWrite?) && Allowed(kind, t0, e, env) then {Slugs.Slugify(e.name)} else {}
  {
    ImportedRow(kind, t0, t, e, env);
    SameChoice(kind, t0, t, e, env);
    if ImportRow(kind, t, e, env).status == Duplicate {
      DuplicateRow(kind, t0, t, e, env);
    }
  }

  /** Row `i` took effect and its entry was eligible. */
  ghost predicate Contributes(kind: Kind, t0: Table, entries: seq<Entry>, envs: seq<Env>, rows: seq<LedgerRow>, i: int) {
    0 <= i < |entries| == |envs| == |rows| && TookEffect(rows[i], envs[i]) && Eligible(kind, t0, entries[i])
  }

  /** The slugs of the contributing entries: no word of what the lookups picked. */
  ghost function Named(kind: Kind, t0: Table, entries: seq<Entry>, envs: seq<Env>, rows: seq<LedgerRow>): set<string> {
    set i | 0 <= i < |entries| && Contributes(kind, t0, entries, envs, rows, i) :: Slugs.Slugify(entries[i].name)
  }

  /** A subcategory row that took effect has found a parent, and the one picked speaks for all when they agree. */
  lemma AgreedParent(kind: Kind, t0: Table, t: Table, e: Entry, env: Env)
    requires Extends(kind, t0, t) && ParentsAgree(kind, t0, e)
    requires ImportRow(kind, t, e, env).status != Error || env.fault.AfterWrite?
    ensures Allowed(kind, t0, e, env) <==> Eligible(kind, t0, e)
  {
    if kind.Subcategories? {
      SameChoice(kind, t0, t, e, env);
      if ParentOf(kind, t0.rows, e, env).Some? {
        assert IsParent(t0, e, ParentOf(kind, t0.rows, e, env).value);
      }
    }
  }

  /** Row by row: allowed is eligible, or the slug was there before. */
  lemma AddsExactly(kind: Kind, t0: Table, t: Table, entries: seq<Entry>, envs: seq<Env>, i: nat)
    requires i < |entries| == |envs| && Extends(kind, t0, t) && ChoiceIsFree(kind, t0, entries[i])
    ensures var rows := Process(kind, t, entries, envs).rows;
            && (Adds(kind, t0, entries, envs, rows, i) ==> Contributes(kind, t0, entries, envs, rows, i))
            && (Contributes(kind, t0, entries, envs, rows, i) ==>
                  Adds(kind, t0, entries, envs, rows, i) || Slugs.Slugify(entries[i].name) in SlugsOf(t.rows))
  {
    var rows := Process(kind, t, entries, envs).rows;
    if Adds(kind, t0, entries, envs, rows, i) {
      AllowedIsEligible(kind, t0, entries[i], envs[i]);
    }
    if TookEffect(rows[i], envs[i]) && ParentsAgree(kind, t0, entries[i]) {
      RowAt(kind, t, entries, envs, i);
      RunExtends(kind, t0, t, entries[..i], envs[..i]);
      AgreedParent(kind, t0, Process(kind, t, entries[..i], envs[..i]).table, entries[i], envs[i]);
    }
    SlugsKept(kind, t0, t);
  }

  lemma SlugsKept(kind: Kind, t0: Table, t: Table)
    requires Extends(kind, t0, t)
    ensures SlugsOf(t0.rows) <= SlugsOf(t.rows)
  {
    forall x | x in t0.rows
      ensures x in t.rows
    {
      KeptByExtension(kind, t0, t, x);
    }
  }

  /** Where no choice matters, the slugs after a run are those before and those of the eligible entries whose rows took effect. */
  lemma FreeChoiceSlugs(kind: Kind, t0: Table, t: Table, entries: seq<Entry>, envs: seq<Env>)
    requires |entries| == |envs| && Extends(kind, t0, t) && ChoicesAreFree(kind, t0, entries)
    ensures var p := Process(kind, t, entries, envs);
            && Extends(kind, t0, p.table)
            && SlugsOf(p.table.rows) == SlugsOf(t.rows) + Named(kind, t0, entries, envs, p.rows)
  {
    SlugsAfterRun(kind, t0, t, entries, envs);
    forall i | 0 <= i < |entries|
      ensures var rows := Process(kind, t, entries, envs).rows;
              && (Adds(kind, t0, entries, envs, rows, i) ==> Contributes(kind, t0, entries, envs, rows, i))
              && (Contributes(kind, t0, entries, envs, rows, i) ==>
                    Adds(kind, t0, entries, envs, rows, i) || Slugs.Slugify(entries[i].name) in SlugsOf(t.rows))
    {
      assert entries[i] in entries;
      AddsExactly(kind, t0, t, entries, envs, i);
    }
  }

  ghost predicate FaultFree(envs: seq<Env>) {
    forall i :: 0 <= i < |envs| ==> envs[i].fault.NoFault?
  }

  ghost predicate ErrorsIneligible(kind: Kind, t0: Table, entries: seq<Entry>, rows: seq<LedgerRow>) {
    |rows| == |entries|
    && forall i :: 0 <= i < |entries| && rows[i].status == Error ==> !Eligible(kind, t0, entries[i])
  }

  lemma CleanErrorAt(kind: Kind, t0: Table, t: Table, entries: seq<Entry>, envs: seq<Env>, i: nat)
    requires i < |entries| == |envs| && Extends(kind, t0, t) && envs[i].fault.NoFault?
    requires Process(kind, t, entries, envs).rows[i].status == Error
    ensures !Eligible(kind, t0, entries[i])
  {
    RowAt(kind, t, entries, envs, i);
    RunExtends(kind, t0, t, entries[..i], envs[..i]);
    CleanErrorRow(kind, t0, Process(kind, t, entries[..i], envs[..i]).table, entries[i], envs[i]);
  }

  lemma CleanErrors(kind: Kind, t0: Table, t: Table, entries: seq<Entry>, envs: seq<Env>)
    requires |entries| == |envs| && Extends(kind, t0, t) && FaultFree(envs)
    ensures ErrorsIneligible(kind, t0, entries, Process(kind, t, entries, envs).rows)
  {
    var rows := Process(kind, t, entries, envs).rows;
    forall i | 0 <= i < |entries| && rows[i].status == Error
      ensures !Eligible(kind, t0, entries[i])
    {
      CleanErrorAt(kind, t0, t, entries, envs, i);
    }
  }

  /** Entry `e` has nothing left to import. */
  ghost predicate Settled(kind: Kind, t0: Table, t: Table, e: Entry) {
    Slugs.Slugify(e.name) in SlugsOf(t.rows) || !Eligible(kind, t0, e)
  }

  lemma {:induction false} SettledRun(kind: Kind, t0: Table, t: Table, entries: seq<Entry>, envs: seq<Env>)
    requires |entries| == |envs| && Extends(kind, t0, t)
    requires forall e :: e in entries ==> Settled(kind, t0, t, e)
    ensures var p := Process(kind, t, entries, envs);
            p.table == t && forall i :: 0 <= i < |entries| ==> p.rows[i].status != Imported
    decreases |entries|
  {
    if entries != [] {
      var n := |entries| - 1;
      assert entries[n] in entries;
      SettledRun(kind, t0, t, entries[..n], envs[..n]);
      ImportedRow(kind, t0, t, entries[n], envs[n]);
    }
  }

  lemma CleanRunSettles(kind: Kind, t0: Table, t: Table, entries: seq<Entry>, envs: seq<Env>)
    requires |entries| == |envs| && Extends(kind, t0, t) && ChoicesAreFree(kind, t0, entries) && FaultFree(envs)
    ensures var p := Process(kind, t, entries, envs);
            forall e :: e in entries ==> Settled(kind, t0, p.table, e)
  {
    var p := Process(kind, t, entries, envs);
    FreeChoiceSlugs(kind, t0, t, entries, envs);
    CleanErrors(kind, t0, t, entries, envs);
    forall e | e in entries
      ensures Settled(kind, t0, p.table, e)
    {
      var i :| 0 <= i < |entries| && entries[i] == e;
      if Eligible(kind, t0, e) {
        assert Contributes(kind, t0, entries, envs, p.rows, i);
      }
    }
  }

  /** A second run after a fault-free one imports nothing and changes no entity, whatever fails in it. */
  lemma {:induction false} SecondRunImportsNothing(kind: Kind, t: Table, entries: seq<Entry>, envs: seq<Env>, again: seq<Env>)
    requires |entries| == |envs| == |again| && ChoicesAreFree(kind, t, entries) && FaultFree(envs)
    ensures var first := Process(kind, t, entries, envs);
            var second := Process(kind, first.table, entries, again);
            second.table == first.table && Count(second.rows, Imported) == 0
  {
    var first := Process(kind, t, entries, envs);
    FreeChoiceSlugs(kind, t, t, entries, envs);
    CleanRunSettles(kind, t, t, entries, envs);
    SettledRun(kind, t, first.table, entries, again);
    CountIsPositive(Process(kind, first.table, entries, again).rows, Imported);
  }

  // ---------- resume ----------

  /** `retries` holds exactly the retryable entries of error rows; the order is the database's. */
  ghost predicate AreRetries(kind: Kind, rows: seq<LedgerRow>, retries: seq<Entry>) {
    forall e :: e in retries <==> exists i :: 0 <= i < |rows| && rows[i].status == Error && rows[i].entry == e && Retryable(kind, e)
  }

  /** The fields a seeder writes to the raw data of a row. */
  function Raw(origin: Kind, e: Entry): map<string, string> {
    match origin
    case Categories => map["name" := e.name]
    case Subcategories => map["category" := e.category, "subCategory" := e.name]
    case ProductMasters => map["category" := e.category, "subCategory" := e.subCategory, "name" := e.name]
    case ServiceMasters => map["category" := e.category, "subCategory" := e.subCategory, "name" := e.name]
  }

  /** The fields its `resume` asks for. */
  function Needed(kind: Kind): set<string> {
    if kind.Subcategories? then {"category", "subCategory"} else {"name"}
  }

  /**
   What can be read back: a row does exactly when every field the resuming seeder asks for is there
   and not empty, and the entry it reads has those fields; its own rows it reads back unchanged.
   */
  lemma ReadBackMeans(kind: Kind, origin: Kind, e: Entry)
    ensures var raw := Raw(origin, e);
            var read := ReadBack(kind, origin, e);
            && (read.Some? <==> forall f :: f in Needed(kind) ==> f in raw && raw[f] != [])
            && (read.Some? ==> forall f :: f in Needed(kind) ==> f in Raw(kind, read.value) && Raw(kind, read.value)[f] == raw[f])
            && (read.Some? && (kind == origin || (SlugKeyed(kind) && SlugKeyed(origin))) ==> read.value == e)
  {
    assert "name"[0] != "category"[0] && "name"[0] != "subCategory"[0] && "category"[0] != "subCategory"[0];
    var raw := Raw(origin, e);
    assert "name" in Needed(kind) || ("category" in Needed(kind) && "subCategory" in Needed(kind));
  }

  /** Whatever kind of job is resumed, exactly what its error rows read back as is run again. */
  lemma {:induction false} RetriesAreReadBack(kind: Kind, origin: Kind, rows: seq<LedgerRow>, e: Entry)
    ensures e in Retries(kind, origin, rows) <==>
            exists i :: 0 <= i < |rows| && rows[i].status == Error && ReadBack(kind, origin, rows[i].entry) == Some(e)
    decreases |rows|
  {
    if rows != [] {
      var front, last := rows[..|rows| - 1], rows[|rows| - 1];
      RetriesAreReadBack(kind, origin, front, e);
      if i :| 0 <= i < |rows| && rows[i].status == Error && ReadBack(kind, origin, rows[i].entry) == Some(e) {
        assert i < |front| ==> front[i].status == Error && ReadBack(kind, origin, front[i].entry) == Some(e);
      }
      if i :| 0 <= i < |front| && front[i].status == Error && ReadBack(kind, origin, front[i].entry) == Some(e) {
        assert rows[i].status == Error && ReadBack(kind, origin, rows[i].entry) == Some(e);
      }
    }
  }

  lemma RetriesAreRetries(kind: Kind, rows: seq<LedgerRow>)
    ensures AreRetries(kind, rows, Retries(kind, kind, rows))
  {
    forall e
      ensures e in Retries(kind, kind, rows) <==>
              exists i :: 0 <= i < |rows| && rows[i].status == Error && rows[i].entry == e && Retryable(kind, e)
    {
      RetriesAreReadBack(kind, kind, rows, e);
      forall i | 0 <= i < |rows|
        ensures ReadBack(kind, kind, rows[i].entry) == Some(e) <==> rows[i].entry == e && Retryable(kind, e)
      {
      }
    }
  }

  /** Row `i` is an error that took no effect, and that `resume` drops although it would import something. */
  ghost predicate Lost(kind: Kind, t: Table, entries: seq<Entry>, envs: seq<Env>, rows: seq<LedgerRow>, i: int) {
    0 <= i < |entries| == |envs| == |rows| && !TookEffect(rows[i], envs[i]) && !Retryable(kind, entries[i])
    && Eligible(kind, t, entries[i])
  }

  /** Slug `s` is there before the run, or comes from an eligible entry that is not lost. */
  ghost predicate Supplied(kind: Kind, t: Table, entries: seq<Entry>, envs: seq<Env>, rows: seq<LedgerRow>, s: string)
    requires |entries| == |envs| == |rows|
  {
    s in SlugsOf(t.rows)
    || exists i :: 0 <= i < |entries| && Slugs.Slugify(entries[i].name) == s
                   && Eligible(kind, t, entries[i]) && !Lost(kind, t, entries, envs, rows, i)
  }

  lemma SlugsAfterResume(kind: Kind, t: Table, entries: seq<Entry>, envs: seq<Env>, retries: seq<Entry>, again: seq<Env>, s: string)
    requires |entries| == |envs| && |retries| == |again| && ChoicesAreFree(kind, t, entries) && FaultFree(again)
    requires AreRetries(kind, Process(kind, t, entries, envs).rows, retries)
    ensures var p := Process(kind, t, entries, envs);
            s in SlugsOf(Process(kind, p.table, retries, again).table.rows) <==> Supplied(kind, t, entries, envs, p.rows, s)
  {
    hide Process;
    hide Slugs.Slugify;
    hide Eligible;
    hide FaultFree;
    var p := Process(kind, t, entries, envs);
    var q := Process(kind, p.table, retries, again);
    RetriesAreEntries(kind, t, entries, envs, retries);
    FreeChoiceSlugs(kind, t, t, entries, envs);
    FreeChoiceSlugs(kind, t, p.table, retries, again);
    CleanErrors(kind, t, p.table, retries, again);
    if s in Named(kind, t, retries, again, q.rows) {
      RetriedIsSupplied(kind, t, entries, envs, p.rows, retries, again, q.rows, s);
    }
    if s in Named(kind, t, entries, envs, p.rows) {
      var i :| 0 <= i < |entries| && Contributes(kind, t, entries, envs, p.rows, i) && s == Slugs.Slugify(entries[i].name);
      assert !Lost(kind, t, entries, envs, p.rows, i);
    }
    if Supplied(kind, t, entries, envs, p.rows, s) && s !in SlugsOf(t.rows) {
      SuppliedIsNamed(kind, t, entries, envs, p.rows, retries, again, q.rows, s);
    }
  }

  lemma RetriesAreEntries(kind: Kind, t: Table, entries: seq<Entry>, envs: seq<Env>, retries: seq<Entry>)
    requires |entries| == |envs| && AreRetries(kind, Process(kind, t, entries, envs).rows, retries)
    ensures forall i :: 0 <= i < |entries| ==> Process(kind, t, entries, envs).rows[i].entry == entries[i]
    ensures forall e :: e in retries ==> e in entries
  {
    var rows := Process(kind, t, entries, envs).rows;
    LedgerRows(kind, t, entries, envs);
    forall e | e in retries
      ensures e in entries
    {
      var i :| 0 <= i < |rows| && rows[i].status == Error && rows[i].entry == e;
      assert entries[i] == e;
    }
  }

  lemma RetriedIsSupplied(kind: Kind, t: Table, entries: seq<Entry>, envs: seq<Env>, rows: seq<LedgerRow>,
                          retries: seq<Entry>, again: seq<Env>, retried: seq<LedgerRow>, s: string)
    requires |entries| == |envs| == |rows| && forall i :: 0 <= i < |entries| ==> rows[i].entry == entries[i]
    requires AreRetries(kind, rows, retries) && s in Named(kind, t, retries, again, retried)
    ensures Supplied(kind, t, entries, envs, rows, s)
  {
    var j :| 0 <= j < |retries| && Contributes(kind, t, retries, again, retried, j) && s == Slugs.Slugify(retries[j].name);
    assert retries[j] in retries;
    var i :| 0 <= i < |rows| && rows[i].status == Error && rows[i].entry == retries[j] && Retryable(kind, retries[j]);
    assert entries[i] == retries[j] && !Lost(kind, t, entries, envs, rows, i);
  }

  lemma SuppliedIsNamed(kind: Kind, t: Table, entries: seq<Entry>, envs: seq<Env>, rows: seq<LedgerRow>,
                        retries: seq<Entry>, again: seq<Env>, retried: seq<LedgerRow>, s: string)
    requires |entries| == |envs| == |rows| && forall i :: 0 <= i < |entries| ==> rows[i].entry == entries[i]
    requires AreRetries(kind, rows, retries) && |retries| == |again| == |retried|
    requires forall j :: 0 <= j < |retries| && retried[j].status == Error ==> !Eligible(kind, t, retries[j])
    requires Supplied(kind, t, entries, envs, rows, s) && s !in SlugsOf(t.rows)
    ensures s in Named(kind, t, entries, envs, rows) || s in Named(kind, t, retries, again, retried)
  {
    var i :| 0 <= i < |entries| && Slugs.Slugify(entries[i].name) == s
             && Eligible(kind, t, entries[i]) && !Lost(kind, t, entries, envs, rows, i);
    if TookEffect(rows[i], envs[i]) {
      assert Contributes(kind, t, entries, envs, rows, i);
    } else {
      assert rows[i].entry == entries[i] && entries[i] in retries;
      var j :| 0 <= j < |retries| && retries[j] == entries[i];
      assert Contributes(kind, t, retries, again, retried, j);
    }
  }

  /**
   Resumption is faithful, exactly: a run with any faults, resumed without faults in any order,
   leaves the slugs of one fault-free run if and only if every slug whose row `resume` drops (an
   empty name, or for a subcategory an empty category) is supplied some other way.
   */
  lemma {:induction false} ResumeMatchesCleanRun(kind: Kind, t: Table, entries: seq<Entry>, envs: seq<Env>, clean: seq<Env>,
                              retries: seq<Entry>, again: seq<Env>)
    requires |entries| == |envs| == |clean| && |retries| == |again|
    requires ChoicesAreFree(kind, t, entries) && FaultFree(clean) && FaultFree(again)
    requires AreRetries(kind, Process(kind, t, entries, envs).rows, retries)
    ensures var p := Process(kind, t, entries, envs);
            SlugsOf(Process(kind, p.table, retries, again).table.rows) == SlugsOf(Process(kind, t, entries, clean).table.rows)
            <==> forall i :: Lost(kind, t, entries, envs, p.rows, i) ==> Supplied(kind, t, entries, envs, p.rows, Slugs.Slugify(entries[i].name))
  {
    hide Process;
    hide Slugs.Slugify;
    hide Eligible;
    hide Retryable;
    hide FaultFree;
    hide ChoicesAreFree;
    var p := Process(kind, t, entries, envs);
    var resumed := SlugsOf(Process(kind, p.table, retries, again).table.rows);
    var c := Process(kind, t, entries, clean);
    FreeChoiceSlugs(kind, t, t, entries, clean);
    CleanErrors(kind, t, t, entries, clean);
    forall s
      ensures s in resumed <==> Supplied(kind, t, entries, envs, p.rows, s)
    {
      SlugsAfterResume(kind, t, entries, envs, retries, again, s);
    }
    forall i | 0 <= i < |entries| && Eligible(kind, t, entries[i])
      ensures Slugs.Slugify(entries[i].name) in SlugsOf(c.table.rows)
    {
      assert Contributes(kind, t, entries, clean, c.rows, i);
    }
    assert resumed <= SlugsOf(c.table.rows);
    if forall i :: Lost(kind, t, entries, envs, p.rows, i) ==> Supplied(kind, t, entries, envs, p.rows, Slugs.Slugify(entries[i].name)) {
      forall s | s in Named(kind, t, entries, clean, c.rows)
        ensures s in resumed
      {
        var i :| 0 <= i < |entries| && Contributes(kind, t, entries, clean, c.rows, i) && s == Slugs.Slugify(entries[i].name);
        if !Lost(kind, t, entries, envs, p.rows, i) {
          assert Supplied(kind, t, entries, envs, p.rows, s);
        }
      }
    }
    forall i | Lost(kind, t, entries, envs, p.rows, i)
      ensures Slugs.Slugify(entries[i].name) in SlugsOf(c.table.rows)
    {
    }
  }

  /**
   A condition on the input alone: the slug of every entry `resume` cannot read back is in the
   table before, or is shared by an eligible entry that it can.
   */
  ghost predicate SafeToResume(kind: Kind, t: Table, entries: seq<Entry>) {
    forall e :: e in entries && !Retryable(kind, e) && Eligible(kind, t, e) ==> Shared(kind, t, entries, Slugs.Slugify(e.name))
  }

  ghost predicate Shared(kind: Kind, t: Table, entries: seq<Entry>, s: string) {
    s in SlugsOf(t.rows)
    || exists e :: e in entries && Retryable(kind, e) && Eligible(kind, t, e) && Slugs.Slugify(e.name) == s
  }

  /** On safe input resumption is faithful whatever fails. Entries that can all be read back are safe. */
  lemma {:induction false} SafeInputResumes(kind: Kind, t: Table, entries: seq<Entry>, envs: seq<Env>, clean: seq<Env>,
                         retries: seq<Entry>, again: seq<Env>)
    requires |entries| == |envs| == |clean| && |retries| == |again|
    requires ChoicesAreFree(kind, t, entries) && FaultFree(clean) && FaultFree(again)
    requires AreRetries(kind, Process(kind, t, entries, envs).rows, retries)
    requires SafeToResume(kind, t, entries)
    ensures var p := Process(kind, t, entries, envs);
            SlugsOf(Process(kind, p.table, retries, again).table.rows) == SlugsOf(Process(kind, t, entries, clean).table.rows)
  {
    var rows := Process(kind, t, entries, envs).rows;
    ResumeMatchesCleanRun(kind, t, entries, envs, clean, retries, again);
    forall i | Lost(kind, t, entries, envs, rows, i)
      ensures Supplied(kind, t, entries, envs, rows, Slugs.Slugify(entries[i].name))
    {
      var s := Slugs.Slugify(entries[i].name);
      assert entries[i] in entries;
      if s !in SlugsOf(t.rows) {
        var e :| e in entries && Retryable(kind, e) && Eligible(kind, t, e) && Slugs.Slugify(e.name) == s;
        var j :| 0 <= j < |entries| && entries[j] == e;
        assert !Lost(kind, t, entries, envs, rows, j);
      }
    }
  }

  lemma FailedLookupIsError(kind: Kind, t: Table, e: Entry, env: Env)
    requires env.fault.AtLookup?
    ensures ImportRow(kind, t, e, env).status == Error && ImportRow(kind, t, e, env).table == t
  {
  }

  /** On unsafe input it is not: when every lookup of the first run fails, resuming misses a slug. */
  lemma {:induction false} UnsafeInputLosesSlugs(kind: Kind, t: Table, entries: seq<Entry>, envs: seq<Env>, clean: seq<Env>,
                              retries: seq<Entry>, again: seq<Env>)
    requires |entries| == |envs| == |clean| && |retries| == |again|
    requires ChoicesAreFree(kind, t, entries) && FaultFree(clean) && FaultFree(again)
    requires AreRetries(kind, Process(kind, t, entries, envs).rows, retries)
    requires !SafeToResume(kind, t, entries) && forall i :: 0 <= i < |envs| ==> envs[i].fault.AtLookup?
    ensures var p := Process(kind, t, entries, envs);
            SlugsOf(Process(kind, p.table, retries, again).table.rows) != SlugsOf(Process(kind, t, entries, clean).table.rows)
  {
    hide Slugs.Slugify;
    hide Process;
    hide Lost;
    hide Supplied;
    hide SafeToResume;
    var rows := Process(kind, t, entries, envs).rows;
    ResumeMatchesCleanRun(kind, t, entries, envs, clean, retries, again);
    forall i | 0 <= i < |entries|
      ensures rows[i].status == Error
    {
      RowAt(kind, t, entries, envs, i);
      FailedLookupIsError(kind, Process(kind, t, entries[..i], envs[..i]).table, entries[i], envs[i]);
    }
    var i := LostForGood(kind, t, entries, envs, rows);
  }

  lemma LostForGood(kind: Kind, t: Table, entries: seq<Entry>, envs: seq<Env>, rows: seq<LedgerRow>) returns (i: nat)
    requires |entries| == |envs| == |rows| && !SafeToResume(kind, t, entries)
    requires forall j :: 0 <= j < |rows| ==> !TookEffect(rows[j], envs[j])
    ensures Lost(kind, t, entries, envs, rows, i) && !Supplied(kind, t, entries, envs, rows, Slugs.Slugify(entries[i].name))
  {
    hide Slugs.Slugify;
    hide Eligible;
    var e :| e in entries && !Retryable(kind, e) && Eligible(kind, t, e) && !Shared(kind, t, entries, Slugs.Slugify(e.name));
    i :| 0 <= i < |entries| && entries[i] == e;
    forall j | 0 <= j < |entries| && Slugs.Slugify(entries[j].name) == Slugs.Slugify(e.name) && Eligible(kind, t, entries[j])
      ensures Lost(kind, t, entries, envs, rows, j)
    {
      assert entries[j] in entries;
    }
  }

  /** Resuming the same job once more adds nothing, whatever fails in it. */
  lemma {:induction false} ResumeAgainAddsNothing(kind: Kind, t: Table, entries: seq<Entry>, envs: seq<Env>, retries: seq<Entry>,
                               again: seq<Env>, reordered: seq<Entry>, third: seq<Env>)
    requires |entries| == |envs| && |retries| == |again| && |reordered| == |third|
    requires ChoicesAreFree(kind, t, entries) && FaultFree(again)
    requires AreRetries(kind, Process(kind, t, entries, envs).rows, retries)
    requires AreRetries(kind, Process(kind, t, entries, envs).rows, reordered)
    ensures var resumed := Process(kind, Process(kind, t, entries, envs).table, retries, again).table;
            Process(kind, resumed, reordered, third).table == resumed
  {
    var p := Process(kind, t, entries, envs);
    RetriesAreEntries(kind, t, entries, envs, retries);
    FreeChoiceSlugs(kind, t, t, entries, envs);
    FreeChoiceSlugs(kind, t, p.table, retries, again);
    CleanRunSettles(kind, t, p.table, retries, again);
    assert forall e :: e in reordered <==> e in retries;
    SettledRun(kind, t, Process(kind, p.table, retries, again).table, reordered, third);
  }

  /** A job that has run to its end and is refused for its status has no error row, and so nothing to retry. */
  lemma {:induction false} NothingToResume(kind: Kind, t: Table, entries: seq<Entry>, envs: seq<Env>)
    requires |entries| == |envs| && !CanResume(FinishedJob(kind, Process(kind, t, entries, envs).rows).status)
    ensures Retries(kind, kind, Process(kind, t, entries, envs).rows) == []
  {
    var rows := Process(kind, t, entries, envs).rows;
    LedgerIsComplete(kind, t, entries, envs);
    assert JobAfter(kind, rows, NoCrash) == FinishedJob(kind, rows);
    RetriesAreRetries(kind, rows);
    if Retries(kind, kind, rows) != [] {
      assert Retries(kind, kind, rows)[0] in Retries(kind, kind, rows);
    }
  }

  // ---------- whole histories ----------

  /** One job over some entries, with whatever failed in it. */
  datatype Attempt = Attempt(entries: seq<Entry>, envs: seq<Env>)

  ghost predicate Over(history: seq<Attempt>, entries: seq<Entry>) {
    forall k :: 0 <= k < |history| ==>
      |history[k].entries| == |history[k].envs| && forall e :: e in history[k].entries ==> e in entries
  }

  /** The table after a history of jobs. */
  ghost function After(kind: Kind, t: Table, history: seq<Attempt>, entries: seq<Entry>): Table
    requires Over(history, entries)
    decreases |history|
  {
    if history == [] then t
    else
      var n := |history| - 1;
      Process(kind, After(kind, t, history[..n], entries), history[n].entries, history[n].envs).table
  }

  /** The slugs a list of entries calls for: those there before and those of its eligible entries. */
  ghost predicate CalledFor(kind: Kind, t: Table, entries: seq<Entry>, s: string) {
    s in SlugsOf(t.rows) || exists e :: e in entries && Eligible(kind, t, e) && Slugs.Slugify(e.name) == s
  }

  lemma NamedIsCalledFor(kind: Kind, t: Table, entries: seq<Entry>, some: seq<Entry>, envs: seq<Env>, rows: seq<LedgerRow>, s: string)
    requires forall e :: e in some ==> e in entries
    requires s in Named(kind, t, some, envs, rows)
    ensures CalledFor(kind, t, entries, s)
  {
    var i :| 0 <= i < |some| && Contributes(kind, t, some, envs, rows, i) && s == Slugs.Slugify(some[i].name);
    assert some[i] in some;
  }

  /** No history creates a slug the entries do not call for. */
  lemma {:induction false} HistoryStaysWithin(kind: Kind, t: Table, history: seq<Attempt>, entries: seq<Entry>)
    requires Over(history, entries) && ChoicesAreFree(kind, t, entries)
    ensures var after := After(kind, t, history, entries);
            && Extends(kind, t, after)
            && SlugsOf(t.rows) <= SlugsOf(after.rows)
            && forall s :: s in SlugsOf(after.rows) ==> CalledFor(kind, t, entries, s)
    decreases |history|
  {
    if history != [] {
      var n := |history| - 1;
      var before, a := After(kind, t, history[..n], entries), history[n];
      HistoryStaysWithin(kind, t, history[..n], entries);
      FreeChoiceSlugs(kind, t, before, a.entries, a.envs);
      var p := Process(kind, before, a.entries, a.envs);
      forall s | s in SlugsOf(p.table.rows)
        ensures CalledFor(kind, t, entries, s)
      {
        if s !in SlugsOf(before.rows) {
          NamedIsCalledFor(kind, t, entries, a.entries, a.envs, p.rows, s);
        }
      }
    }
  }

  /**
   Convergence of whole histories: however many jobs have run over the entries, in whatever order
   and with whatever faults, one fault-free job over everything not yet settled leaves exactly the
   slugs the entries call for, which are those of a single fault-free run.
   */
  lemma {:induction false} HistoryConverges(kind: Kind, t: Table, history: seq<Attempt>, entries: seq<Entry>, last: Attempt)
    requires Over(history, entries) && ChoicesAreFree(kind, t, entries)
    requires |last.entries| == |last.envs| && FaultFree(last.envs) && forall e :: e in last.entries ==> e in entries
    requires forall e :: e in entries ==> e in last.entries || Settled(kind, t, After(kind, t, history, entries), e)
    ensures var final := Process(kind, After(kind, t, history, entries), last.entries, last.envs).table;
            forall s :: s in SlugsOf(final.rows) <==> CalledFor(kind, t, entries, s)
  {
    var before := After(kind, t, history, entries);
    var p := Process(kind, before, last.entries, last.envs);
    HistoryStaysWithin(kind, t, history, entries);
    FreeChoiceSlugs(kind, t, before, last.entries, last.envs);
    CleanRunSettles(kind, t, before, last.entries, last.envs);
    forall s | s in SlugsOf(p.table.rows)
      ensures CalledFor(kind, t, entries, s)
    {
      if s !in SlugsOf(before.rows) {
        NamedIsCalledFor(kind, t, entries, last.entries, last.envs, p.rows, s);
      }
    }
    forall s | CalledFor(kind, t, entries, s)
      ensures s in SlugsOf(p.table.rows)
    {
      if s !in SlugsOf(t.rows) {
        var e :| e in entries && Eligible(kind, t, e) && Slugs.Slugify(e.name) == s;
        assert Settled(kind, t, p.table, e);
      }
    }
  }

  /** A dropped row really can be missed: one empty name, one fault. */
  lemma {:induction false} EmptyNameIsLost(pick: nat)
    ensures var t := Table([], 0);
            var entries := [Entry("", "", "")];
            var p := Process(Categories, t, entries, [Env(AtWrite, pick, pick)]);
            && Retries(Categories, Categories, p.rows) == []
            && SlugsOf(p.table.rows) == {}
            && SlugsOf(Process(Categories, t, entries, [Env(NoFault, pick, pick)]).table.rows) == {"item"}
  {
    var t, e := Table([], 0), Entry("", "", "");
    SingleRun(Categories, t, e, Env(AtWrite, pick, pick));
    SingleRun(Categories, t, e, Env(NoFault, pick, pick));
    FirstRow(e, Env(AtWrite, pick, pick));
    FirstRow(e, Env(NoFault, pick, pick));
    SlugOfNothing();
    OneErrorRow(LedgerRow(1, Error, NoRef, e));
  }

  lemma SlugOfNothing()
    ensures Slugs.Slugify("") == "item"
  {
  }

  lemma OneErrorRow(row: LedgerRow)
    requires row.status == Error && row.entry.name == []
    ensures Retries(Categories, Categories, [row]) == []
  {
    assert [row][..0] == [];
  }

  /** The first category of an empty table. */
  lemma FirstRow(e: Entry, env: Env)
    requires env.fault.NoFault? || env.fault.AtWrite?
    ensures var o := ImportRow(Categories, Table([], 0), e, env);
            if env.fault.AtWrite? then o == Outcome(Table([], 0), Error, NoRef)
            else o.status == Imported && SlugsOf(o.table.rows) == {Slugs.Slugify(e.name)}
  {
    var o := ImportRow(Categories, Table([], 0), e, env);
    if env.fault.NoFault? {
      assert o.table.rows == [Entity(0, Slugs.Slugify(e.name), e.name, None)];
    }
  }

  lemma SingleRun(kind: Kind, t: Table, e: Entry, env: Env)
    ensures var o := ImportRow(kind, t, e, env);
            Process(kind, t, [e], [env]) == Progress(o.table, [LedgerRow(1, o.status, o.ref, e)])
  {
    assert [e][..0] == [] && [env][..0] == [];
  }
}
