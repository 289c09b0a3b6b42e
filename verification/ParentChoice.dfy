/**
 The subcategory seeder looks its parent up without an order, so equally named roots leave it a
 choice. When that choice matters: for one row, for the slugs of a run, and across fault-free runs.
 */
module ParentChoice {
  import opened Wrappers
  import opened ImportModel
  import opened ImportTheorems
  import Slugs

  // ---------- one row ----------

  /** An unordered lookup can return any matching row. */
  lemma PickReaches(rows: seq<Entity>, q: Query, e: Entity) returns (pick: nat)
    requires e in rows && Matches(q, e)
    ensures FindFirst(rows, q, pick) == Some(e)
  {
    var all := Select(rows, q);
    assert e in all;
    pick :| 0 <= pick < |all| && all[pick] == e;
    SmallModulus(pick, |all|);
  }

  lemma SmallModulus(x: nat, n: nat)
    requires x < n
    ensures x % n == x
  {
  }

  ghost predicate SameStatusForAllPicks(t: Table, e: Entry) {
    forall a: Env, b: Env :: a.fault.NoFault? && b.fault.NoFault? ==>
      ImportRow(Subcategories, t, e, a).status == ImportRow(Subcategories, t, e, b).status
  }

  /**
   One row: which of several equally named roots the unordered lookup returns does not matter
   exactly when they agree on whether they have a child of this name, or the slug is taken anyway.
   */
  lemma {:induction false} ParentChoiceMatters(t: Table, e: Entry)
    ensures SameStatusForAllPicks(t, e) <==> ChoiceIsFree(Subcategories, t, e)
  {
    if ChoiceIsFree(Subcategories, t, e) {
      forall a: Env, b: Env | a.fault.NoFault? && b.fault.NoFault?
        ensures ImportRow(Subcategories, t, e, a).status == ImportRow(Subcategories, t, e, b).status
      {
        StatusByParent(t, e, a);
        StatusByParent(t, e, b);
      }
    } else {
      ChoiceChangesStatus(t, e);
    }
  }

  lemma Disagreement(kind: Kind, t: Table, e: Entry) returns (p: Entity, q: Entity)
    requires !ChoiceIsFree(kind, t, e)
    ensures kind.Subcategories? && IsParent(t, e, p) && IsParent(t, e, q)
    ensures NameTakenUnder(t, e, p.id) && !NameTakenUnder(t, e, q.id) && Slugs.Slugify(e.name) !in SlugsOf(t.rows)
  {
    hide IsParent;
    hide NameTakenUnder;
    p, q :| IsParent(t, e, p) && IsParent(t, e, q) && NameTakenUnder(t, e, p.id) && !NameTakenUnder(t, e, q.id);
  }

  /** A fault-free row whose lookup picks the given parent. */
  lemma PickParent(t: Table, e: Entry, p: Entity) returns (env: Env)
    requires IsParent(t, e, p)
    ensures env.fault.NoFault?
    ensures ImportRow(Subcategories, t, e, env).status ==
            if Slugs.Slugify(e.name) in SlugsOf(t.rows) || NameTakenUnder(t, e, p.id) then Duplicate else Imported
  {
    hide Slugs.Slugify;
    hide ImportRow;
    hide FindFirst;
    hide NameTakenUnder;
    var pick := PickReaches(t.rows, RootNamed(e.category), p);
    env := Env(NoFault, pick, 0);
    StatusByParent(t, e, env);
  }

  lemma ChoiceChangesStatus(t: Table, e: Entry)
    requires !ChoiceIsFree(Subcategories, t, e)
    ensures !SameStatusForAllPicks(t, e)
  {
    hide Slugs.Slugify;
    hide ImportRow;
    hide NameTakenUnder;
    hide ChoiceIsFree;
    hide SlugsOf;
    var p, q := Disagreement(Subcategories, t, e);
    var a := PickParent(t, e, p);
    var b := PickParent(t, e, q);
    assert ImportRow(Subcategories, t, e, a).status != ImportRow(Subcategories, t, e, b).status;
  }

  lemma StatusByParent(t: Table, e: Entry, env: Env)
    requires env.fault.NoFault?
    ensures var parent := ParentOf(Subcategories, t.rows, e, env);
            && (parent.None? <==> forall p :: !IsParent(t, e, p))
            && (parent.Some? ==> IsParent(t, e, parent.value))
            && ImportRow(Subcategories, t, e, env).status ==
               if parent.None? then Error
               else if Slugs.Slugify(e.name) in SlugsOf(t.rows) || NameTakenUnder(t, e, parent.value.id) then Duplicate
               else Imported
  {
    hide Slugs.Slugify;
    var parent := ParentOf(Subcategories, t.rows, e, env);
    if parent.None? {
      assert forall p :: p in t.rows ==> !Matches(RootNamed(e.category), p);
    } else {
      assert IsParent(t, e, parent.value);
      var q := ExistingQuery(e, parent);
      MatchedByChild(t, e, parent.value);
    }
  }

  lemma MatchedByChild(t: Table, e: Entry, parent: Entity)
    ensures (exists x :: x in t.rows && Matches(ExistingQuery(e, Some(parent)), x)) <==>
            Slugs.Slugify(e.name) in SlugsOf(t.rows) || NameTakenUnder(t, e, parent.id)
  {
  }

  // ---------- the slugs of a run ----------

  /** No row of a run could change the table it starts with. */
  ghost predicate Blocked(kind: Kind, t: Table, entries: seq<Entry>, envs: seq<Env>)
    requires |entries| == |envs|
  {
    forall i :: 0 <= i < |entries| ==> ImportRow(kind, t, entries[i], envs[i]).table == t
  }

  lemma {:induction false} BlockedRun(kind: Kind, t: Table, entries: seq<Entry>, envs: seq<Env>)
    requires |entries| == |envs| && Blocked(kind, t, entries, envs)
    ensures Process(kind, t, entries, envs).table == t
    decreases |entries|
  {
    if entries != [] {
      var n := |entries| - 1;
      BlockedRun(kind, t, entries[..n], envs[..n]);
      ImportedRow(kind, t, t, entries[n], envs[n]);
    }
  }

  lemma BlockedRow(kind: Kind, t: Table, entries: seq<Entry>, envs: seq<Env>, i: nat)
    requires i < |entries| == |envs| && Blocked(kind, t, entries, envs)
    ensures Process(kind, t, entries, envs).rows[i].status == ImportRow(kind, t, entries[i], envs[i]).status
  {
    RowAt(kind, t, entries, envs, i);
    BlockedRun(kind, t, entries[..i], envs[..i]);
  }

  /** The slugs after a run are given by eligibility alone. */
  ghost predicate EligibilityDecides(kind: Kind, t: Table, entries: seq<Entry>, envs: seq<Env>)
    requires |entries| == |envs|
  {
    var p := Process(kind, t, entries, envs);
    SlugsOf(p.table.rows) == SlugsOf(t.rows) + Named(kind, t, entries, envs, p.rows)
  }

  /** That is so for every pattern of faults and choices exactly when no choice matters. */
  lemma {:induction false} EligibilityDecidesExactly(kind: Kind, t: Table, entries: seq<Entry>)
    ensures ChoicesAreFree(kind, t, entries) <==>
            forall envs: seq<Env> :: |envs| == |entries| ==> EligibilityDecides(kind, t, entries, envs)
  {
    if ChoicesAreFree(kind, t, entries) {
      forall envs: seq<Env> | |envs| == |entries|
        ensures EligibilityDecides(kind, t, entries, envs)
      {
        FreeChoiceSlugs(kind, t, t, entries, envs);
      }
    } else {
      var e :| e in entries && !ChoiceIsFree(kind, t, e);
      var k :| 0 <= k < |entries| && entries[k] == e;
      var envs := ChoiceMissesSlug(kind, t, entries, k);
      assert !EligibilityDecides(kind, t, entries, envs);
    }
  }

  /** Every other lookup fails, and the one for row `k` picks a parent that has such a child. */
  lemma ChoiceMissesSlug(kind: Kind, t: Table, entries: seq<Entry>, k: nat) returns (envs: seq<Env>)
    requires k < |entries| && !ChoiceIsFree(kind, t, entries[k])
    ensures |envs| == |entries| && !EligibilityDecides(kind, t, entries, envs)
  {
    hide Slugs.Slugify;
    hide Process;
    hide ImportRow;
    hide NameTakenUnder;
    hide IsParent;
    hide ChoiceIsFree;
    hide SlugsOf;
    var e := entries[k];
    var p, q := Disagreement(kind, t, e);
    var chosen := PickParent(t, e, p);
    envs := seq(|entries|, i requires 0 <= i < |entries| => if i == k then chosen else Env(AtLookup, 0, 0));
    forall i | 0 <= i < |entries| && i != k
      ensures ImportRow(kind, t, entries[i], envs[i]).table == t
    {
      FailedLookupIsError(kind, t, entries[i], envs[i]);
    }
    ImportedRow(kind, t, t, e, chosen);
    BlockedRun(kind, t, entries, envs);
    BlockedRow(kind, t, entries, envs, k);
    assert Eligible(kind, t, e);
    assert Contributes(kind, t, entries, envs, Process(kind, t, entries, envs).rows, k);
    assert Slugs.Slugify(e.name) in Named(kind, t, entries, envs, Process(kind, t, entries, envs).rows);
  }

  // ---------- fault-free runs ----------

  /** New under every parent a lookup may return: for a subcategory there is one, and none has such a child. */
  ghost predicate SurelyEligible(kind: Kind, t: Table, e: Entry) {
    Eligible(kind, t, e) && (kind.Subcategories? ==> forall p :: IsParent(t, e, p) ==> !NameTakenUnder(t, e, p.id))
  }

  lemma SureIsAllowed(kind: Kind, t: Table, e: Entry, env: Env)
    requires SurelyEligible(kind, t, e)
    ensures Allowed(kind, t, e, env)
  {
    if kind.Subcategories? {
      var p :| IsParent(t, e, p);
      var parent := ParentOf(kind, t.rows, e, env);
      assert Matches(RootNamed(e.category), p);
      assert IsParent(t, e, parent.value);
    }
  }

  /** A choice under which the entry is allowed, if there is one. */
  ghost function Best(kind: Kind, t: Table, e: Entry): Env {
    if exists pick: nat :: Allowed(kind, t, e, Env(NoFault, pick, 0)) then
      var pick: nat :| Allowed(kind, t, e, Env(NoFault, pick, 0));
      Env(NoFault, pick, 0)
    else Env(NoFault, 0, 0)
  }

  /** A choice under which it is not, if there is one. */
  ghost function Worst(kind: Kind, t: Table, e: Entry): Env {
    if exists pick: nat :: !Allowed(kind, t, e, Env(NoFault, pick, 0)) then
      var pick: nat :| !Allowed(kind, t, e, Env(NoFault, pick, 0));
      Env(NoFault, pick, 0)
    else Env(NoFault, 0, 0)
  }

  lemma BestIsAllowed(kind: Kind, t: Table, e: Entry)
    requires Eligible(kind, t, e)
    ensures Allowed(kind, t, e, Best(kind, t, e))
  {
    if kind.Subcategories? {
      var p :| IsParent(t, e, p) && !NameTakenUnder(t, e, p.id);
      var pick := PickReaches(t.rows, RootNamed(e.category), p);
      assert Allowed(kind, t, e, Env(NoFault, pick, 0));
    }
  }

  lemma WorstIsSure(kind: Kind, t: Table, e: Entry)
    requires Allowed(kind, t, e, Worst(kind, t, e))
    ensures SurelyEligible(kind, t, e)
  {
    AllowedIsEligible(kind, t, e, Worst(kind, t, e));
    if kind.Subcategories? {
      forall p | IsParent(t, e, p)
        ensures !NameTakenUnder(t, e, p.id)
      {
        var pick := PickReaches(t.rows, RootNamed(e.category), p);
        assert Allowed(kind, t, e, Env(NoFault, pick, 0));
      }
    }
  }

  ghost function AllBest(kind: Kind, t: Table, entries: seq<Entry>): (envs: seq<Env>)
    ensures |envs| == |entries| && FaultFree(envs)
  {
    seq(|entries|, i requires 0 <= i < |entries| => Best(kind, t, entries[i]))
  }

  ghost function AllWorst(kind: Kind, t: Table, entries: seq<Entry>): (envs: seq<Env>)
    ensures |envs| == |entries| && FaultFree(envs)
  {
    seq(|entries|, i requires 0 <= i < |entries| => Worst(kind, t, entries[i]))
  }

  function SlugsAfter(kind: Kind, t: Table, entries: seq<Entry>, envs: seq<Env>): set<string>
    requires |entries| == |envs|
  {
    SlugsOf(Process(kind, t, entries, envs).table.rows)
  }

  /** Some entry with this slug is allowed under the choice made for it. */
  ghost predicate Brings(kind: Kind, t: Table, entries: seq<Entry>, envs: seq<Env>, s: string) {
    exists i :: 0 <= i < |entries| == |envs| && Allowed(kind, t, entries[i], envs[i]) && Slugs.Slugify(entries[i].name) == s
  }

  /** A fault-free run adds the slugs it brings; `t0` is the table eligibility is judged by. */
  lemma CleanSlugs(kind: Kind, t0: Table, t: Table, entries: seq<Entry>, envs: seq<Env>, s: string)
    requires |entries| == |envs| && FaultFree(envs) && Extends(kind, t0, t)
    ensures s in SlugsAfter(kind, t, entries, envs) <==> s in SlugsOf(t.rows) || Brings(kind, t0, entries, envs, s)
  {
    hide Process;
    var rows := Process(kind, t, entries, envs).rows;
    SlugsAfterRun(kind, t0, t, entries, envs);
    CleanErrors(kind, t0, t, entries, envs);
    SupplyMember(kind, t0, entries, envs, rows, s);
    forall i | 0 <= i < |entries| && Allowed(kind, t0, entries[i], envs[i])
      ensures Adds(kind, t0, entries, envs, rows, i)
    {
      AllowedIsEligible(kind, t0, entries[i], envs[i]);
    }
    if i :| 0 <= i < |entries| && Allowed(kind, t0, entries[i], envs[i]) && Slugs.Slugify(entries[i].name) == s {
      assert Supplies(kind, t0, entries, envs, rows, s, i);
    }
  }

  /** The slug of `e` is there before, or some entry brings it whatever the lookups return. */
  ghost predicate Certain(kind: Kind, t: Table, entries: seq<Entry>, e: Entry) {
    var s := Slugs.Slugify(e.name);
    s in SlugsOf(t.rows) || exists f :: f in entries && SurelyEligible(kind, t, f) && Slugs.Slugify(f.name) == s
  }

  ghost predicate AllCertain(kind: Kind, t: Table, entries: seq<Entry>) {
    forall e :: e in entries && Eligible(kind, t, e) ==> Certain(kind, t, entries, e)
  }

  ghost predicate FaultFreeRunsAgree(kind: Kind, t: Table, entries: seq<Entry>) {
    forall a: seq<Env>, b: seq<Env> :: |a| == |b| == |entries| && FaultFree(a) && FaultFree(b) ==>
      SlugsAfter(kind, t, entries, a) == SlugsAfter(kind, t, entries, b)
  }

  /** A sure entry brings its slug in every fault-free run over a list that holds it. */
  lemma SureBrings(kind: Kind, t: Table, entries: seq<Entry>, envs: seq<Env>, f: Entry)
    requires |entries| == |envs| && f in entries && SurelyEligible(kind, t, f)
    ensures Brings(kind, t, entries, envs, Slugs.Slugify(f.name))
  {
    var j :| 0 <= j < |entries| && entries[j] == f;
    SureIsAllowed(kind, t, f, envs[j]);
  }

  lemma BroughtIsCertain(kind: Kind, t: Table, entries: seq<Entry>, envs: seq<Env>, s: string) returns (e: Entry)
    requires Brings(kind, t, entries, envs, s)
    ensures e in entries && Eligible(kind, t, e) && Slugs.Slugify(e.name) == s
  {
    var i :| 0 <= i < |entries| == |envs| && Allowed(kind, t, entries[i], envs[i]) && Slugs.Slugify(entries[i].name) == s;
    AllowedIsEligible(kind, t, entries[i], envs[i]);
    e := entries[i];
  }

  lemma CertainRun(kind: Kind, t: Table, entries: seq<Entry>, a: seq<Env>, b: seq<Env>)
    requires |a| == |b| == |entries| && FaultFree(a) && FaultFree(b) && AllCertain(kind, t, entries)
    ensures SlugsAfter(kind, t, entries, a) <= SlugsAfter(kind, t, entries, b)
  {
    hide Slugs.Slugify;
    hide Process;
    forall s | s in SlugsAfter(kind, t, entries, a)
      ensures s in SlugsAfter(kind, t, entries, b)
    {
      CleanSlugs(kind, t, t, entries, a, s);
      CleanSlugs(kind, t, t, entries, b, s);
      if s !in SlugsOf(t.rows) {
        var e := BroughtIsCertain(kind, t, entries, a, s);
        assert Certain(kind, t, entries, e);
        var f :| f in entries && SurelyEligible(kind, t, f) && Slugs.Slugify(f.name) == s;
        SureBrings(kind, t, entries, b, f);
      }
    }
  }

  /** The slug of an eligible entry is brought by the best choices. */
  lemma BestBrings(kind: Kind, t: Table, entries: seq<Entry>, e: Entry)
    requires e in entries && Eligible(kind, t, e)
    ensures Brings(kind, t, entries, AllBest(kind, t, entries), Slugs.Slugify(e.name))
  {
    var k :| 0 <= k < |entries| && entries[k] == e;
    BestIsAllowed(kind, t, e);
    assert Allowed(kind, t, entries[k], AllBest(kind, t, entries)[k]);
  }

  /** By the worst choices only what sure entries bring. */
  lemma WorstBringsSure(kind: Kind, t: Table, entries: seq<Entry>, s: string) returns (f: Entry)
    requires Brings(kind, t, entries, AllWorst(kind, t, entries), s)
    ensures f in entries && SurelyEligible(kind, t, f) && Slugs.Slugify(f.name) == s
  {
    var i :| 0 <= i < |entries| && Allowed(kind, t, entries[i], AllWorst(kind, t, entries)[i]) && Slugs.Slugify(entries[i].name) == s;
    f := entries[i];
    WorstIsSure(kind, t, f);
  }

  lemma UncertainRun(kind: Kind, t: Table, entries: seq<Entry>, e: Entry)
    requires e in entries && Eligible(kind, t, e) && !Certain(kind, t, entries, e)
    ensures Slugs.Slugify(e.name) in SlugsAfter(kind, t, entries, AllBest(kind, t, entries))
    ensures Slugs.Slugify(e.name) !in SlugsAfter(kind, t, entries, AllWorst(kind, t, entries))
  {
    var s := Slugs.Slugify(e.name);
    BestBrings(kind, t, entries, e);
    CleanSlugs(kind, t, t, entries, AllBest(kind, t, entries), s);
    CleanSlugs(kind, t, t, entries, AllWorst(kind, t, entries), s);
    if Brings(kind, t, entries, AllWorst(kind, t, entries), s) {
      var f := WorstBringsSure(kind, t, entries, s);
    }
  }

  /**
   Fault-free runs agree on their slugs, whatever the lookups return, exactly when every slug that
   some choice brings is there before or brought by every choice.
   */
  lemma {:induction false} FaultFreeRunsAgreeExactly(kind: Kind, t: Table, entries: seq<Entry>)
    ensures FaultFreeRunsAgree(kind, t, entries) <==> AllCertain(kind, t, entries)
  {
    if AllCertain(kind, t, entries) {
      forall a: seq<Env>, b: seq<Env> | |a| == |b| == |entries| && FaultFree(a) && FaultFree(b)
        ensures SlugsAfter(kind, t, entries, a) == SlugsAfter(kind, t, entries, b)
      {
        CertainRun(kind, t, entries, a, b);
        CertainRun(kind, t, entries, b, a);
      }
    } else {
      var e :| e in entries && Eligible(kind, t, e) && !Certain(kind, t, entries, e);
      UncertainRun(kind, t, entries, e);
      assert SlugsAfter(kind, t, entries, AllBest(kind, t, entries)) != SlugsAfter(kind, t, entries, AllWorst(kind, t, entries));
    }
  }

  // ---------- repetition and resumption, on any table ----------

  /** A second run over the same entries leaves the table alone, whatever fails in it. */
  ghost predicate SecondRunIdle(kind: Kind, t: Table, entries: seq<Entry>, envs: seq<Env>, again: seq<Env>)
    requires |envs| == |again| == |entries|
  {
    var first := Process(kind, t, entries, envs).table;
    Process(kind, first, entries, again).table == first
  }

  ghost predicate AlwaysIdle(kind: Kind, t: Table, entries: seq<Entry>) {
    forall envs: seq<Env>, again: seq<Env> :: |envs| == |again| == |entries| && FaultFree(envs) ==>
      SecondRunIdle(kind, t, entries, envs, again)
  }

  /** A second run after a fault-free one is idle, whatever fails in it and whatever the lookups return, exactly when all slugs are certain. */
  lemma {:induction false} SecondRunIdleExactly(kind: Kind, t: Table, entries: seq<Entry>)
    ensures AlwaysIdle(kind, t, entries) <==> AllCertain(kind, t, entries)
  {
    if AllCertain(kind, t, entries) {
      forall envs: seq<Env>, again: seq<Env> | |envs| == |again| == |entries| && FaultFree(envs)
        ensures SecondRunIdle(kind, t, entries, envs, again)
      {
        CertainSecondRun(kind, t, entries, envs, again);
      }
    } else {
      var e :| e in entries && Eligible(kind, t, e) && !Certain(kind, t, entries, e);
      var envs, again := AllWorst(kind, t, entries), AllBest(kind, t, entries);
      UncertainRun(kind, t, entries, e);
      LateImport(kind, t, entries, e);
      assert !SecondRunIdle(kind, t, entries, envs, again);
    }
  }

  lemma CertainSecondRun(kind: Kind, t: Table, entries: seq<Entry>, envs: seq<Env>, again: seq<Env>)
    requires |envs| == |again| == |entries| && FaultFree(envs) && AllCertain(kind, t, entries)
    ensures SecondRunIdle(kind, t, entries, envs, again)
  {
    hide Slugs.Slugify;
    hide Process;
    var first := Process(kind, t, entries, envs).table;
    RunExtends(kind, t, t, entries, envs);
    forall e | e in entries
      ensures Settled(kind, t, first, e)
    {
      if Eligible(kind, t, e) {
        var s := Slugs.Slugify(e.name);
        CleanSlugs(kind, t, t, entries, envs, s);
        assert Certain(kind, t, entries, e);
        if s !in SlugsOf(t.rows) {
          var f :| f in entries && SurelyEligible(kind, t, f) && Slugs.Slugify(f.name) == s;
          SureBrings(kind, t, entries, envs, f);
        }
      }
    }
    SettledRun(kind, t, first, entries, again);
  }

  lemma LateImport(kind: Kind, t: Table, entries: seq<Entry>, e: Entry)
    requires e in entries && Eligible(kind, t, e) && !Certain(kind, t, entries, e)
    ensures var first := Process(kind, t, entries, AllWorst(kind, t, entries)).table;
            Slugs.Slugify(e.name) in SlugsAfter(kind, first, entries, AllBest(kind, t, entries))
  {
    hide Process;
    var first := Process(kind, t, entries, AllWorst(kind, t, entries)).table;
    RunExtends(kind, t, t, entries, AllWorst(kind, t, entries));
    BestBrings(kind, t, entries, e);
    CleanSlugs(kind, t, first, entries, AllBest(kind, t, entries), Slugs.Slugify(e.name));
  }

  /** A run, resumed without faults, leaves the slugs of one fault-free run. */
  ghost predicate ResumesFaithfully(kind: Kind, t: Table, entries: seq<Entry>, envs: seq<Env>, clean: seq<Env>,
                                    retries: seq<Entry>, again: seq<Env>)
    requires |entries| == |envs| == |clean| && |retries| == |again|
  {
    SlugsAfter(kind, Process(kind, t, entries, envs).table, retries, again) == SlugsAfter(kind, t, entries, clean)
  }

  /** It does so for every pattern of faults, every choice of the lookups and every order of the retries. */
  ghost predicate AlwaysResumesFaithfully(kind: Kind, t: Table, entries: seq<Entry>) {
    forall envs: seq<Env>, clean: seq<Env>, retries: seq<Entry>, again: seq<Env> ::
      |entries| == |envs| == |clean| && |retries| == |again| && FaultFree(clean) && FaultFree(again)
      && AreRetries(kind, Process(kind, t, entries, envs).rows, retries) ==>
        ResumesFaithfully(kind, t, entries, envs, clean, retries, again)
  }

  /** The slug of `e` is there before, or an entry that can be read back brings it whatever the lookups return. */
  ghost predicate CertainOnRetry(kind: Kind, t: Table, entries: seq<Entry>, e: Entry) {
    var s := Slugs.Slugify(e.name);
    || s in SlugsOf(t.rows)
    || exists f :: f in entries && SurelyEligible(kind, t, f) && Retryable(kind, f) && Slugs.Slugify(f.name) == s
  }

  ghost predicate AllCertainOnRetry(kind: Kind, t: Table, entries: seq<Entry>) {
    forall e :: e in entries && Eligible(kind, t, e) ==> CertainOnRetry(kind, t, entries, e)
  }

  /**
   The law of resumption, with no condition on the table: every run, whatever fails in it, resumed
   without faults leaves the slugs of a fault-free run, if and only if each eligible entry finds
   its slug there before or shares it with one that can be read back and that no lookup can block.
   */
  lemma {:induction false} ResumptionExactly(kind: Kind, t: Table, entries: seq<Entry>)
    ensures AlwaysResumesFaithfully(kind, t, entries) <==> AllCertainOnRetry(kind, t, entries)
  {
    if AllCertainOnRetry(kind, t, entries) {
      forall envs: seq<Env>, clean: seq<Env>, retries: seq<Entry>, again: seq<Env> |
        |entries| == |envs| == |clean| && |retries| == |again| && FaultFree(clean) && FaultFree(again)
        && AreRetries(kind, Process(kind, t, entries, envs).rows, retries)
        ensures ResumesFaithfully(kind, t, entries, envs, clean, retries, again)
      {
        CertainResumption(kind, t, entries, envs, clean, retries, again);
      }
    } else {
      var e :| e in entries && Eligible(kind, t, e) && !CertainOnRetry(kind, t, entries, e);
      UncertainResumption(kind, t, entries, e);
    }
  }

  /** A slug of a resumed run was there before or belongs to an eligible entry. */
  lemma ResumedStaysWithin(kind: Kind, t: Table, entries: seq<Entry>, envs: seq<Env>, retries: seq<Entry>, again: seq<Env>, s: string)
    requires |entries| == |envs| && |retries| == |again| && FaultFree(again)
    requires AreRetries(kind, Process(kind, t, entries, envs).rows, retries)
    requires s in SlugsAfter(kind, Process(kind, t, entries, envs).table, retries, again)
    ensures s in SlugsOf(t.rows) || exists e :: e in entries && Eligible(kind, t, e) && Slugs.Slugify(e.name) == s
  {
    hide Process;
    var p := Process(kind, t, entries, envs);
    SlugsAfterRun(kind, t, t, entries, envs);
    CleanSlugs(kind, t, p.table, retries, again, s);
    RetriesAreEntries(kind, t, entries, envs, retries);
    SupplyMember(kind, t, entries, envs, p.rows, s);
    if Brings(kind, t, retries, again, s) {
      var e := BroughtIsCertain(kind, t, retries, again, s);
      assert e in entries;
    } else if s !in SlugsOf(t.rows) {
      var i :| 0 <= i < |entries| && Supplies(kind, t, entries, envs, p.rows, s, i);
      AllowedIsEligible(kind, t, entries[i], envs[i]);
      assert entries[i] in entries;
    }
  }

  /** A sure entry that can be read back has its slug in the table after resumption. */
  lemma SureOnRetry(kind: Kind, t: Table, entries: seq<Entry>, envs: seq<Env>, retries: seq<Entry>, again: seq<Env>, f: Entry)
    requires |entries| == |envs| && |retries| == |again| && FaultFree(again)
    requires AreRetries(kind, Process(kind, t, entries, envs).rows, retries)
    requires f in entries && SurelyEligible(kind, t, f) && Retryable(kind, f)
    ensures Slugs.Slugify(f.name) in SlugsAfter(kind, Process(kind, t, entries, envs).table, retries, again)
  {
    hide Process;
    var s := Slugs.Slugify(f.name);
    var p := Process(kind, t, entries, envs);
    SlugsAfterRun(kind, t, t, entries, envs);
    CleanSlugs(kind, t, p.table, retries, again, s);
    RetriesAreEntries(kind, t, entries, envs, retries);
    SupplyMember(kind, t, entries, envs, p.rows, s);
    var j :| 0 <= j < |entries| && entries[j] == f;
    SureIsAllowed(kind, t, f, envs[j]);
    if p.rows[j].status == Error {
      assert p.rows[j].entry == f;
      SureBrings(kind, t, retries, again, f);
    } else {
      assert Supplies(kind, t, entries, envs, p.rows, s, j);
    }
  }

  lemma CertainResumption(kind: Kind, t: Table, entries: seq<Entry>, envs: seq<Env>, clean: seq<Env>, retries: seq<Entry>, again: seq<Env>)
    requires |entries| == |envs| == |clean| && |retries| == |again| && FaultFree(clean) && FaultFree(again)
    requires AreRetries(kind, Process(kind, t, entries, envs).rows, retries)
    requires AllCertainOnRetry(kind, t, entries)
    ensures ResumesFaithfully(kind, t, entries, envs, clean, retries, again)
  {
    hide Process;
    hide SlugsAfter;
    var now := Process(kind, t, entries, envs).table;
    forall s
      ensures s in SlugsAfter(kind, now, retries, again) <==> s in SlugsAfter(kind, t, entries, clean)
    {
      CertainSlug(kind, t, entries, envs, clean, retries, again, s);
    }
  }

  lemma SureTwin(kind: Kind, t: Table, entries: seq<Entry>, e: Entry) returns (f: Entry)
    requires AllCertainOnRetry(kind, t, entries) && e in entries && Eligible(kind, t, e) && Slugs.Slugify(e.name) !in SlugsOf(t.rows)
    ensures f in entries && SurelyEligible(kind, t, f) && Retryable(kind, f) && Slugs.Slugify(f.name) == Slugs.Slugify(e.name)
  {
    hide Slugs.Slugify;
    assert CertainOnRetry(kind, t, entries, e);
    f :| f in entries && SurelyEligible(kind, t, f) && Retryable(kind, f) && Slugs.Slugify(f.name) == Slugs.Slugify(e.name);
  }

  lemma CertainSlug(kind: Kind, t: Table, entries: seq<Entry>, envs: seq<Env>, clean: seq<Env>, retries: seq<Entry>, again: seq<Env>, s: string)
    requires |entries| == |envs| == |clean| && |retries| == |again| && FaultFree(clean) && FaultFree(again)
    requires AreRetries(kind, Process(kind, t, entries, envs).rows, retries)
    requires AllCertainOnRetry(kind, t, entries)
    ensures s in SlugsAfter(kind, Process(kind, t, entries, envs).table, retries, again) <==> s in SlugsAfter(kind, t, entries, clean)
  {
    hide *;
    var now := Process(kind, t, entries, envs).table;
    SelfExtends(kind, t);
    CleanSlugs(kind, t, t, entries, clean, s);
    if s in SlugsOf(t.rows) {
      RunExtends(kind, t, t, entries, envs);
      SlugsKept(kind, t, now);
      CleanSlugs(kind, t, now, retries, again, s);
    } else if s in SlugsAfter(kind, now, retries, again) {
      ResumedStaysWithin(kind, t, entries, envs, retries, again, s);
      var e :| e in entries && Eligible(kind, t, e) && Slugs.Slugify(e.name) == s;
      var f := SureTwin(kind, t, entries, e);
      SureBrings(kind, t, entries, clean, f);
    } else if Brings(kind, t, entries, clean, s) {
      var e := BroughtIsCertain(kind, t, entries, clean, s);
      var f := SureTwin(kind, t, entries, e);
      SureOnRetry(kind, t, entries, envs, retries, again, f);
    }
  }

  lemma SelfExtends(kind: Kind, t: Table)
    ensures Extends(kind, t, t)
  {
  }

  /** Every lookup of the first run fails, and those of the resumption choose badly. */
  lemma UncertainResumption(kind: Kind, t: Table, entries: seq<Entry>, e: Entry)
    requires e in entries && Eligible(kind, t, e) && !CertainOnRetry(kind, t, entries, e)
    ensures !AlwaysResumesFaithfully(kind, t, entries)
  {
    hide Process;
    hide Slugs.Slugify;
    var envs := seq(|entries|, i requires 0 <= i < |entries| => Env(AtLookup, 0, 0));
    var p := Process(kind, t, entries, envs);
    var retries := Retries(kind, kind, p.rows);
    var again, clean := AllWorst(kind, t, retries), AllBest(kind, t, entries);
    RetriesAreRetries(kind, p.rows);
    AllLookupsFail(kind, t, entries, envs);
    RetriesAreEntries(kind, t, entries, envs, retries);
    BestAndWorstDiffer(kind, t, entries, retries, e);
    assert !ResumesFaithfully(kind, t, entries, envs, clean, retries, again);
  }

  lemma BestAndWorstDiffer(kind: Kind, t: Table, entries: seq<Entry>, retries: seq<Entry>, e: Entry)
    requires e in entries && Eligible(kind, t, e) && !CertainOnRetry(kind, t, entries, e)
    requires forall f :: f in retries ==> f in entries && Retryable(kind, f)
    ensures SlugsAfter(kind, t, retries, AllWorst(kind, t, retries)) != SlugsAfter(kind, t, entries, AllBest(kind, t, entries))
  {
    hide Process;
    hide Slugs.Slugify;
    hide SlugsAfter;
    hide Brings;
    var s := Slugs.Slugify(e.name);
    BestBrings(kind, t, entries, e);
    CleanSlugs(kind, t, t, entries, AllBest(kind, t, entries), s);
    CleanSlugs(kind, t, t, retries, AllWorst(kind, t, retries), s);
    if Brings(kind, t, retries, AllWorst(kind, t, retries), s) {
      var f := WorstBringsSure(kind, t, retries, s);
    }
  }

  lemma AllLookupsFail(kind: Kind, t: Table, entries: seq<Entry>, envs: seq<Env>)
    requires |entries| == |envs| && forall i :: 0 <= i < |envs| ==> envs[i].fault.AtLookup?
    ensures Process(kind, t, entries, envs).table == t
  {
    forall i | 0 <= i < |entries|
      ensures ImportRow(kind, t, entries[i], envs[i]).table == t
    {
      FailedLookupIsError(kind, t, entries[i], envs[i]);
    }
    BlockedRun(kind, t, entries, envs);
  }

  // ---------- distinct roots ----------

  /** The category seeder keeps root names distinct, which is what the subcategory seeder relies on. */
  lemma {:induction false} CategoryRunKeepsRootsUnique(t: Table, entries: seq<Entry>, envs: seq<Env>)
    requires |entries| == |envs| && UniqueRoots(t)
    ensures UniqueRoots(Process(Categories, t, entries, envs).table)
    decreases |entries|
  {
    if entries != [] {
      var n := |entries| - 1;
      CategoryRunKeepsRootsUnique(t, entries[..n], envs[..n]);
      var p := Process(Categories, t, entries[..n], envs[..n]);
      var o := ImportRow(Categories, p.table, entries[n], envs[n]);
      if o.table != p.table {
        assert forall x :: x in p.table.rows ==> !Matches(ExistingQuery(entries[n], None), x);
      }
    }
  }
}
