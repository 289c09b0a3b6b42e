/**
 Seeders in sequence, as prisma/seeds/seed.ts runs them: first the categories, then the
 subcategories that look their parents up by name.
 */
module PipelineTheorems {
  import opened Wrappers
  import opened Text
  import opened ImportModel
  import opened ImportTheorems
  import opened ParentChoice
  import Slugs

  // ---------- one row per slug ----------

  lemma PrefixOfRun(kind: Kind, t: Table, entries: seq<Entry>, envs: seq<Env>, i: nat)
    requires i <= |entries| == |envs|
    ensures Process(kind, t, entries[..i], envs[..i]).rows == Process(kind, t, entries, envs).rows[..i]
  {
    hide *;
    assert entries[..|entries|] == entries && envs[..|envs|] == envs;
    forall j | 0 <= j < i
      ensures Process(kind, t, entries[..i], envs[..i]).rows[j] == Process(kind, t, entries, envs).rows[j]
    {
      RowAtPrefix(kind, t, entries, envs, j, i);
      RowAtPrefix(kind, t, entries, envs, j, |entries|);
    }
  }

  /** The slugs row `i` finds: those before the run, and those its earlier rows supplied. */
  lemma SlugsBeforeRow(kind: Kind, t: Table, entries: seq<Entry>, envs: seq<Env>, i: nat, s: string)
    requires i <= |entries| == |envs|
    ensures var rows := Process(kind, t, entries, envs).rows;
            s in SlugsOf(Process(kind, t, entries[..i], envs[..i]).table.rows) <==>
            s in SlugsOf(t.rows) || exists j :: 0 <= j < i && Supplies(kind, t, entries, envs, rows, s, j)
  {
    hide Slugs.Slugify;
    hide Process;
    var rows := Process(kind, t, entries, envs).rows;
    SlugsAfterRun(kind, t, t, entries[..i], envs[..i]);
    PrefixOfRun(kind, t, entries, envs, i);
    SupplyMember(kind, t, entries[..i], envs[..i], rows[..i], s);
    forall j | 0 <= j < i
      ensures Supplies(kind, t, entries[..i], envs[..i], rows[..i], s, j) <==> Supplies(kind, t, entries, envs, rows, s, j)
    {
    }
  }

  /**
   Exactly when an entry is imported, for every kind, every table and every pattern of faults and
   choices: its row is no error, its name is new under the parent picked for it, its slug is free
   in the table before the run, and no earlier row has supplied that slug.
   */
  lemma {:induction false} ImportedExactly(kind: Kind, t: Table, entries: seq<Entry>, envs: seq<Env>, i: nat)
    requires i < |entries| == |envs|
    ensures var rows := Process(kind, t, entries, envs).rows;
            var s := Slugs.Slugify(entries[i].name);
            rows[i].status == Imported <==>
            && rows[i].status != Error && Allowed(kind, t, entries[i], envs[i])
            && s !in SlugsOf(t.rows)
            && forall j :: 0 <= j < i ==> !Supplies(kind, t, entries, envs, rows, s, j)
  {
    hide Process;
    var before := Process(kind, t, entries[..i], envs[..i]).table;
    var s := Slugs.Slugify(entries[i].name);
    RowAt(kind, t, entries, envs, i);
    RunExtends(kind, t, t, entries[..i], envs[..i]);
    SlugsBeforeRow(kind, t, entries, envs, i, s);
    RowImportsExactly(kind, t, before, entries[i], envs[i]);
  }

  lemma RowImportsExactly(kind: Kind, t0: Table, t: Table, e: Entry, env: Env)
    requires Extends(kind, t0, t)
    ensures var status := ImportRow(kind, t, e, env).status;
            status == Imported <==>
            status != Error && Allowed(kind, t0, e, env) && Slugs.Slugify(e.name) !in SlugsOf(t.rows)
  {
    ImportedRow(kind, t0, t, e, env);
    if ImportRow(kind, t, e, env).status == Duplicate {
      DuplicateRow(kind, t0, t, e, env);
    }
  }

  /**
   Without faults, and where no choice of the lookups matters: imported exactly when eligible, with
   a slug that is free before the run and that no earlier eligible entry shares. So of a
   subcategory name used under two categories only the first is imported: the lookup tests the
   slug across the whole table.
   */
  lemma {:induction false} FaultFreeImportsExactly(kind: Kind, t: Table, entries: seq<Entry>, envs: seq<Env>, i: nat)
    requires i < |entries| == |envs| && FaultFree(envs) && ChoicesAreFree(kind, t, entries)
    ensures var s := Slugs.Slugify(entries[i].name);
            Process(kind, t, entries, envs).rows[i].status == Imported <==>
            && Eligible(kind, t, entries[i])
            && s !in SlugsOf(t.rows)
            && forall j :: 0 <= j < i && Slugs.Slugify(entries[j].name) == s ==> !Eligible(kind, t, entries[j])
  {
    hide Process;
    var rows := Process(kind, t, entries, envs).rows;
    var s := Slugs.Slugify(entries[i].name);
    ImportedExactly(kind, t, entries, envs, i);
    CleanErrors(kind, t, t, entries, envs);
    if s !in SlugsOf(t.rows) {
      forall j | 0 <= j < |entries| && Slugs.Slugify(entries[j].name) == s
        ensures Supplies(kind, t, entries, envs, rows, s, j) <==> Eligible(kind, t, entries[j])
      {
        assert entries[j] in entries;
        AddsExactly(kind, t, t, entries, envs, j);
      }
      assert Supplies(kind, t, entries, envs, rows, s, i) <==> Eligible(kind, t, entries[i]);
    }
  }

  /** So two entries with the same slug are never both imported by one run, even under different parents. */
  lemma {:induction false} OneImportPerSlug(kind: Kind, t: Table, entries: seq<Entry>, envs: seq<Env>, i: nat, j: nat)
    requires i < j < |entries| == |envs|
    requires Slugs.Slugify(entries[i].name) == Slugs.Slugify(entries[j].name)
    requires Process(kind, t, entries, envs).rows[i].status == Imported
    ensures Process(kind, t, entries, envs).rows[j].status != Imported
  {
    hide Process;
    ImportedExactly(kind, t, entries, envs, i);
    ImportedExactly(kind, t, entries, envs, j);
    assert Supplies(kind, t, entries, envs, Process(kind, t, entries, envs).rows, Slugs.Slugify(entries[i].name), i);
  }

  // ---------- which parents the category seeder provides ----------

  /** The first entry that claims a slug, among those whose names are new to the table. */
  ghost function Claimant(t: Table, entries: seq<Entry>, slug: string): Option<Entry> {
    if entries == [] then None
    else
      var n := |entries| - 1;
      var earlier := Claimant(t, entries[..n], slug);
      if earlier.Some? then earlier
      else if Slugs.Slugify(entries[n].name) == slug && Eligible(Categories, t, entries[n]) then Some(entries[n])
      else None
  }

  /** The rows of a fault-free category run so far: per new slug, one root bearing its claimant's name. */
  ghost predicate Claimed(t: Table, now: Table, entries: seq<Entry>) {
    && Extends(Categories, t, now)
    && (forall i :: |t.rows| <= i < |now.rows| ==>
          now.rows[i].parent.None? && ClaimedBy(t, entries, now.rows[i]))
    && (forall s :: s in SlugsOf(now.rows) <==> s in SlugsOf(t.rows) || Claimant(t, entries, s).Some?)
  }

  ghost predicate ClaimedBy(t: Table, entries: seq<Entry>, x: Entity) {
    x.slug !in SlugsOf(t.rows)
    && Claimant(t, entries, x.slug).Some? && Claimant(t, entries, x.slug).value.name == x.name
  }

  lemma {:induction false} CleanRunClaims(t: Table, entries: seq<Entry>, envs: seq<Env>)
    requires |entries| == |envs| && FaultFree(envs)
    ensures Claimed(t, Process(Categories, t, entries, envs).table, entries)
    decreases |entries|
  {
    if entries != [] {
      var n := |entries| - 1;
      CleanRunClaims(t, entries[..n], envs[..n]);
      ClaimStep(t, Process(Categories, t, entries[..n], envs[..n]).table, entries, envs[n]);
    }
  }

  lemma ClaimStep(t: Table, now: Table, entries: seq<Entry>, env: Env)
    requires entries != [] && env.fault.NoFault? && Claimed(t, now, entries[..|entries| - 1])
    ensures Claimed(t, ImportRow(Categories, now, entries[|entries| - 1], env).table, entries)
  {
    hide Slugs.Slugify;
    var n := |entries| - 1;
    var e := entries[n];
    var o := ImportRow(Categories, now, e, env);
    ImportedRow(Categories, t, now, e, env);
    ClaimantStep(t, entries);
    if o.status == Imported {
      NewClaim(t, now, entries, env);
    } else {
      if o.status == Duplicate {
        DuplicateRow(Categories, t, now, e, env);
      } else {
        CleanErrorRow(Categories, t, now, e, env);
      }
    }
  }

  lemma ClaimantStep(t: Table, entries: seq<Entry>)
    requires entries != []
    ensures var n := |entries| - 1;
            forall s :: Claimant(t, entries, s) ==
                        if Claimant(t, entries[..n], s).Some? then Claimant(t, entries[..n], s)
                        else if Slugs.Slugify(entries[n].name) == s && Eligible(Categories, t, entries[n]) then Some(entries[n])
                        else None
  {
  }

  lemma NewClaim(t: Table, now: Table, entries: seq<Entry>, env: Env)
    requires entries != [] && env.fault.NoFault? && Claimed(t, now, entries[..|entries| - 1])
    requires ImportRow(Categories, now, entries[|entries| - 1], env).status == Imported
    ensures Claimed(t, ImportRow(Categories, now, entries[|entries| - 1], env).table, entries)
  {
    var n := |entries| - 1;
    var e := entries[n];
    var after := ImportRow(Categories, now, e, env).table;
    ImportedRow(Categories, t, now, e, env);
    ClaimantStep(t, entries);
    var created := NewEntity(now, e, None);
    assert after == Added(now, created);
    assert ClaimedBy(t, entries, created);
    forall i | |t.rows| <= i < |after.rows|
      ensures after.rows[i].parent.None? && ClaimedBy(t, entries, after.rows[i])
    {
      if i < |now.rows| {
        assert after.rows[i] == now.rows[i];
      }
    }
  }

  ghost predicate HasRoot(t: Table, name: string) {
    exists p :: p in t.rows && Matches(RootNamed(name), p)
  }

  /** The category seeder provides a root of this name. */
  ghost predicate Provides(t: Table, categories: seq<Entry>, name: string) {
    var slug := Slugs.Slugify(name);
    && slug !in SlugsOf(t.rows)
    && Claimant(t, categories, slug).Some?
    && SameName(Claimant(t, categories, slug).value.name, name)
  }

  /**
   After a fault-free category run, a root of a given name exists exactly when there was one
   before, or the name's slug was free and the first category to claim it has that name. So a
   category whose slug is claimed by a differently spelled one gets no root of its own.
   */
  lemma {:induction false} RootsAfterCategoryRun(t: Table, categories: seq<Entry>, envs: seq<Env>, name: string)
    requires |categories| == |envs| && FaultFree(envs)
    ensures HasRoot(Process(Categories, t, categories, envs).table, name) <==>
            HasRoot(t, name) || Provides(t, categories, name)
  {
    var now := Process(Categories, t, categories, envs).table;
    CleanRunClaims(t, categories, envs);
    if HasRoot(t, name) {
      var p :| p in t.rows && Matches(RootNamed(name), p);
      KeptByExtension(Categories, t, now, p);
    } else if HasRoot(now, name) {
      var p :| p in now.rows && Matches(RootNamed(name), p);
      var i :| 0 <= i < |now.rows| && now.rows[i] == p;
      PrefixRows(t, now);
      Slugs.SlugIgnoresCase(p.name, name);
    }
    if Provides(t, categories, name) {
      ProvidedRoot(t, now, categories, name);
    }
  }

  lemma ProvidedRoot(t: Table, now: Table, categories: seq<Entry>, name: string)
    requires Claimed(t, now, categories) && Provides(t, categories, name)
    ensures HasRoot(now, name)
  {
    var slug := Slugs.Slugify(name);
    assert slug in SlugsOf(now.rows);
    var x :| x in now.rows && x.slug == slug;
    var i :| 0 <= i < |now.rows| && now.rows[i] == x;
    PrefixRows(t, now);
    assert Matches(RootNamed(name), x);
  }

  lemma PrefixRows(t: Table, now: Table)
    requires t.rows <= now.rows
    ensures forall i :: 0 <= i < |t.rows| ==> now.rows[i] in t.rows && now.rows[i].slug in SlugsOf(t.rows)
  {
  }

  /**
   The two seeders in sequence, without faults: a subcategory row is an error exactly when its
   category had no root before and the category run did not provide one.
   */
  lemma {:induction false} SubcategoryErrorsExactly(t: Table, categories: seq<Entry>, envs: seq<Env>, subs: seq<Entry>, subEnvs: seq<Env>, i: nat)
    requires |categories| == |envs| && FaultFree(envs)
    requires i < |subs| == |subEnvs| && FaultFree(subEnvs)
    ensures var now := Process(Categories, t, categories, envs).table;
            Process(Subcategories, now, subs, subEnvs).rows[i].status == Error <==>
            !HasRoot(t, subs[i].category) && !Provides(t, categories, subs[i].category)
  {
    var now := Process(Categories, t, categories, envs).table;
    var later := Process(Subcategories, now, subs[..i], subEnvs[..i]).table;
    RootsAfterCategoryRun(t, categories, envs, subs[i].category);
    RowAt(Subcategories, now, subs, subEnvs, i);
    RunExtends(Subcategories, now, now, subs[..i], subEnvs[..i]);
    StatusByParent(later, subs[i], subEnvs[i]);
    forall p
      ensures IsParent(later, subs[i], p) <==> IsParent(now, subs[i], p)
    {
      SameParents(Subcategories, now, later, subs[i], p);
    }
    assert HasRoot(now, subs[i].category) <==> exists p :: IsParent(now, subs[i], p);
  }

  // ---------- resuming another seeder's job ----------

  /** Row `i` of a master job failed, and its name is new to the table and calls for the slug `s`. */
  ghost predicate FailedName(t: Table, rows: seq<LedgerRow>, i: int, s: string) {
    0 <= i < |rows| && rows[i].status == Error && rows[i].entry.name != []
    && !NameTaken(t, rows[i].entry) && Slugs.Slugify(rows[i].entry.name) == s
  }

  /**
   `resume` does not look at the type of the job. Resumed by the category seeder, a product or
   service job has the names of its failed rows created as root categories, and nothing else.
   */
  lemma {:induction false} ForeignNamesBecomeRoots(origin: Kind, t: Table, rows: seq<LedgerRow>, envs: seq<Env>)
    requires SlugKeyed(origin) && |envs| == |Retries(Categories, origin, rows)| && FaultFree(envs)
    ensures var now := Process(Categories, t, Retries(Categories, origin, rows), envs).table;
            && t.rows <= now.rows
            && (forall i :: |t.rows| <= i < |now.rows| ==> now.rows[i].parent.None?)
            && forall s :: s in SlugsOf(now.rows) <==> s in SlugsOf(t.rows) || exists i :: FailedName(t, rows, i, s)
  {
    var retries := Retries(Categories, origin, rows);
    var p := Process(Categories, t, retries, envs);
    CleanRunClaims(t, retries, envs);
    forall s
      ensures s in SlugsOf(p.table.rows) <==> s in SlugsOf(t.rows) || exists i :: FailedName(t, rows, i, s)
    {
      hide Process;
      FreeChoiceSlugs(Categories, t, t, retries, envs);
      CleanErrors(Categories, t, t, retries, envs);
      if i :| FailedName(t, rows, i, s) {
        FailedNameIsRetried(origin, t, rows, envs, p.rows, i, s);
      }
      if s in Named(Categories, t, retries, envs, p.rows) {
        var i := RetriedNameFailed(origin, t, rows, envs, p.rows, s);
      }
    }
  }

  lemma FailedNameIsRetried(origin: Kind, t: Table, rows: seq<LedgerRow>, envs: seq<Env>, retried: seq<LedgerRow>, i: int, s: string)
    requires SlugKeyed(origin) && FailedName(t, rows, i, s) && |envs| == |Retries(Categories, origin, rows)|
    requires ErrorsIneligible(Categories, t, Retries(Categories, origin, rows), retried)
    ensures s in Named(Categories, t, Retries(Categories, origin, rows), envs, retried)
  {
    var retries := Retries(Categories, origin, rows);
    var e := Entry([], rows[i].entry.name, []);
    assert ReadBack(Categories, origin, rows[i].entry) == Some(e);
    RetriesAreReadBack(Categories, origin, rows, e);
    var j :| 0 <= j < |retries| && retries[j] == e;
    assert Contributes(Categories, t, retries, envs, retried, j);
  }

  lemma RetriedNameFailed(origin: Kind, t: Table, rows: seq<LedgerRow>, envs: seq<Env>, retried: seq<LedgerRow>, s: string) returns (i: int)
    requires SlugKeyed(origin) && s in Named(Categories, t, Retries(Categories, origin, rows), envs, retried)
    ensures FailedName(t, rows, i, s)
  {
    var retries := Retries(Categories, origin, rows);
    var j :| 0 <= j < |retries| && Contributes(Categories, t, retries, envs, retried, j) && s == Slugs.Slugify(retries[j].name);
    assert retries[j] in retries;
    RetriesAreReadBack(Categories, origin, rows, retries[j]);
    i :| 0 <= i < |rows| && rows[i].status == Error && ReadBack(Categories, origin, rows[i].entry) == Some(retries[j]);
  }

  /**
   Other jobs of another seeder read back as nothing: the seeder runs over no rows and reports
   COMPLETED, and the failed rows stay failed.
   */
  lemma {:induction false} NothingReadBack(kind: Kind, origin: Kind, t: Table, rows: seq<LedgerRow>)
    requires kind != origin && (origin.Subcategories? || (kind.Subcategories? && origin.Categories?))
    ensures Retries(kind, origin, rows) == []
    ensures Process(kind, t, [], []).table == t && FinishedJob(kind, []).status == Completed
  {
    if Retries(kind, origin, rows) != [] {
      var e := Retries(kind, origin, rows)[0];
      RetriesAreReadBack(kind, origin, rows, e);
      assert false;
    }
  }

  // ---------- a category that gets no root ----------

  lemma BangChangesNoSlug(name: string)
    ensures Slugs.Slugify(name + ['!']) == Slugs.Slugify(name)
  {
    assert Lower(name + ['!']) == Lower(name) + ['!'];
    KeepDropsLast(Lower(name), Slugs.IsKept, '!');
  }

  /**
   Two category names with one slug, any name and that name with an exclamation mark: the second is
   taken for a duplicate and gets no root, so a subcategory entered under it is an error.
   */
  lemma SlugClashLosesCategory(name: string, sub: string, pick: nat)
    ensures var categories := [Entry([], name, []), Entry([], name + ['!'], [])];
            var clean := Env(NoFault, pick, pick);
            var now := Process(Categories, Table([], 0), categories, [clean, clean]).table;
            && !HasRoot(now, name + ['!'])
            && Process(Subcategories, now, [Entry(name + ['!'], sub, [])], [clean]).rows[0].status == Error
  {
    hide Process;
    var t := Table([], 0);
    var first, second := Entry([], name, []), Entry([], name + ['!'], []);
    var clean := Env(NoFault, pick, pick);
    BangChangesNoSlug(name);
    FirstClaims(t, first, second);
    RootsAfterCategoryRun(t, [first, second], [clean, clean], name + ['!']);
    SubcategoryErrorsExactly(t, [first, second], [clean, clean], [Entry(name + ['!'], sub, [])], [clean], 0);
  }

  lemma FirstClaims(t: Table, first: Entry, second: Entry)
    requires Eligible(Categories, t, first)
    ensures Claimant(t, [first, second], Slugs.Slugify(first.name)) == Some(first)
  {
    assert [first, second][..1] == [first] && [first][..0] == [];
    ClaimantStep(t, [first]);
    ClaimantStep(t, [first, second]);
  }

  /** A subcategory name under two categories: both entries are eligible, and only the first is imported. */
  lemma SharedNameImportedOnce(t: Table, first: Entry, second: Entry, envs: seq<Env>)
    requires |envs| == 2 && FaultFree(envs) && ChoicesAreFree(Subcategories, t, [first, second])
    requires Eligible(Subcategories, t, first) && Eligible(Subcategories, t, second)
    requires Slugs.Slugify(first.name) == Slugs.Slugify(second.name) && Slugs.Slugify(first.name) !in SlugsOf(t.rows)
    ensures var rows := Process(Subcategories, t, [first, second], envs).rows;
            rows[0].status == Imported && rows[1].status == Duplicate
  {
    hide Process;
    var entries := [first, second];
    FaultFreeImportsExactly(Subcategories, t, entries, envs, 0);
    FaultFreeImportsExactly(Subcategories, t, entries, envs, 1);
    CleanErrors(Subcategories, t, t, entries, envs);
    LedgerRows(Subcategories, t, entries, envs);
    assert entries[0] == first && entries[1] == second;
  }
}
