/**
 Rebuilding one search index, scripts/reindex-products.js: bounded retry, idempotent writes, and
 the prune scan. Documents arrive with their bodies built; an attempt that fails has no effect.
 */
module Reindex {
  import opened Wrappers

  // ---------- bounded retry ----------

  datatype Op = Exists | CreateIndex | DropIndex | Write(id: string) | Refresh | CountAll | Scan | Remove(id: string)
              | CountProducts(id: string)

  /** `fails(op, k)` says that attempt number `k` of the operation fails. */
  type Faults = (Op, nat) -> bool

  const MAX_RETRIES: nat := 3

  predicate Succeeds(fails: Faults, op: Op) {
    exists k: nat :: 1 <= k <= MAX_RETRIES && !fails(op, k)
  }

  /** Stops at the first attempt that works, and gives up after the third. */
  method WithRetry(fails: Faults, op: Op) returns (ok: bool, attempts: nat)
    ensures ok <==> Succeeds(fails, op)
    ensures 1 <= attempts <= MAX_RETRIES && (ok <==> !fails(op, attempts))
    ensures forall k :: 1 <= k < attempts ==> fails(op, k)
    ensures !ok ==> attempts == MAX_RETRIES
  {
    attempts := 1;
    while attempts <= MAX_RETRIES
      invariant 1 <= attempts <= MAX_RETRIES + 1
      invariant forall k :: 1 <= k < attempts ==> fails(op, k)
    {
      if !fails(op, attempts) {
        return true, attempts;
      }
      attempts := attempts + 1;
    }
    return false, MAX_RETRIES;
  }

  // ---------- what a run computes ----------

  /** `counted` says that the body holds the number of a company's products, queried just before the write. */
  datatype Document = Document(id: string, body: string, counted: bool)

  type Docs = map<string, string>

  function Live(selected: seq<Document>): set<string> {
    set d | d in selected :: d.id
  }

  ghost predicate DistinctIds(selected: seq<Document>) {
    forall i, j :: 0 <= i < j < |selected| ==> selected[i].id != selected[j].id
  }

  /** The selected rows as an id-to-document map. */
  function Selection(selected: seq<Document>): Docs {
    if selected == [] then map[]
    else
      var last := selected[|selected| - 1];
      Selection(selected[..|selected| - 1])[last.id := last.body]
  }

  /** The index after the write loop: each document upserted by its id, unless all attempts fail. */
  function Written(docs: Docs, selected: seq<Document>, fails: Faults): Docs {
    if selected == [] then docs
    else
      var last := selected[|selected| - 1];
      var before := Written(docs, selected[..|selected| - 1], fails);
      if Succeeds(fails, Write(last.id)) then before[last.id := last.body] else before
  }

  function CountFailed(selected: seq<Document>, fails: Faults): nat {
    if selected == [] then 0
    else
      CountFailed(selected[..|selected| - 1], fails)
      + (if Succeeds(fails, Write(selected[|selected| - 1].id)) then 0 else 1)
  }

  /** The query of the product count is not retried, and stands outside the guarded write. */
  predicate CountWorks(d: Document, fails: Faults) {
    d.counted ==> !fails(CountProducts(d.id), 1)
  }

  /** How many documents the write loop gets to before such a query throws. */
  function Reached(selected: seq<Document>, fails: Faults): (m: nat)
    ensures m <= |selected|
    ensures forall k :: 0 <= k < m ==> CountWorks(selected[k], fails)
    ensures m < |selected| ==> !CountWorks(selected[m], fails)
  {
    if selected == [] || !CountWorks(selected[0], fails) then 0 else 1 + Reached(selected[1..], fails)
  }

  function Restrict(docs: Docs, ids: set<string>): Docs {
    map id | id in docs && id in ids :: docs[id]
  }

  /** The index after a completed run. */
  function Final(docs: Docs, selected: seq<Document>, fails: Faults, prune: bool): Docs {
    var w := Written(docs, selected, fails);
    if prune then Restrict(w, Live(selected)) else w
  }

  datatype Options = Options(dryRun: bool, recreate: bool, allowDestructive: bool, prune: bool)

  function Base(present: bool, docs: Docs, recreate: bool): Docs {
    if present && !recreate then docs else map[]
  }

  /** The existence check is not retried; dropping and creating are. */
  predicate Ensures(present: bool, recreate: bool, fails: Faults) {
    && !fails(Exists, 1)
    && (present && recreate ==> Succeeds(fails, DropIndex) && Succeeds(fails, CreateIndex))
    && (!present ==> Succeeds(fails, CreateIndex))
  }

  /** Of an operation, one to three attempts are made; the existence check is attempted once. */
  lemma EnsuresMeans(present: bool, recreate: bool, fails: Faults)
    ensures Ensures(present, recreate, fails) <==>
            && !fails(Exists, 1)
            && ((present && !recreate)
                || ((present ==> !fails(DropIndex, 1) || !fails(DropIndex, 2) || !fails(DropIndex, 3))
                    && (!fails(CreateIndex, 1) || !fails(CreateIndex, 2) || !fails(CreateIndex, 3))))
  {
    ThreeAttempts(fails, DropIndex);
    ThreeAttempts(fails, CreateIndex);
  }

  lemma ThreeAttempts(fails: Faults, op: Op)
    ensures Succeeds(fails, op) <==> !fails(op, 1) || !fails(op, 2) || !fails(op, 3)
  {
  }

  /** An index that was missing or is recreated holds only selected documents after the run, with or without pruning. */
  lemma {:induction false} RecreatedHoldsSelection(present: bool, docs: Docs, recreate: bool, selected: seq<Document>, fails: Faults, prune: bool)
    requires recreate || !present
    ensures Final(Base(present, docs, recreate), selected, fails, prune).Keys <= Live(selected)
  {
    OnlySelected(map[], selected, fails);
  }

  /** One that is kept loses nothing without pruning. */
  lemma {:induction false} KeptIndexGrows(docs: Docs, selected: seq<Document>, fails: Faults)
    ensures docs.Keys <= Final(Base(true, docs, false), selected, fails, false).Keys <= docs.Keys + Live(selected)
  {
    OnlySelected(docs, selected, fails);
  }

  lemma {:induction false} OnlySelected(docs: Docs, selected: seq<Document>, fails: Faults)
    ensures docs.Keys <= Written(docs, selected, fails).Keys <= docs.Keys + Live(selected)
    decreases |selected|
  {
    if selected != [] {
      var front, last := selected[..|selected| - 1], selected[|selected| - 1];
      OnlySelected(docs, front, fails);
      assert selected == front + [last];
      assert Live(selected) == Live(front) + {last.id};
    }
  }

  /** The documents counted as failed are those all of whose attempts fail. */
  ghost function FailedAt(selected: seq<Document>, fails: Faults): set<int> {
    set i | 0 <= i < |selected| && fails(Write(selected[i].id), 1) && fails(Write(selected[i].id), 2) && fails(Write(selected[i].id), 3)
  }

  lemma {:induction false} CountFailedMeans(selected: seq<Document>, fails: Faults)
    ensures CountFailed(selected, fails) == |FailedAt(selected, fails)|
    decreases |selected|
  {
    if selected == [] {
      assert FailedAt(selected, fails) == {};
    } else {
      var n := |selected| - 1;
      CountFailedMeans(selected[..n], fails);
      ThreeAttempts(fails, Write(selected[n].id));
      var some := FailedAt(selected[..n], fails);
      assert FailedAt(selected, fails) == if Succeeds(fails, Write(selected[n].id)) then some else some + {n};
    }
  }

  const PAGE_SIZE: nat := 1000

  ghost predicate PruneCompletes(w: Docs, live: set<string>, fails: Faults) {
    && Succeeds(fails, Scan)
    && |w| < PAGE_SIZE
    && forall id :: id in w && id !in live ==> Succeeds(fails, Remove(id))
  }

  datatype IndexState = IndexState(present: bool, docs: Docs)

  /** The state of an index once it has been ensured. */
  function Ensured(s: IndexState, recreate: bool): IndexState {
    IndexState(true, Base(s.present, s.docs, recreate))
  }

  predicate Refreshes(fails: Faults) {
    Succeeds(fails, Refresh) && Succeeds(fails, CountAll)
  }

  /** The scan starts and never ends. */
  ghost predicate Hangs(w: Docs, fails: Faults) {
    Succeeds(fails, Scan) && |w| >= PAGE_SIZE
  }

  /** Refreshing and counting, in attempts. */
  lemma RefreshesMeans(fails: Faults)
    ensures Refreshes(fails) <==>
            && (!fails(Refresh, 1) || !fails(Refresh, 2) || !fails(Refresh, 3))
            && (!fails(CountAll, 1) || !fails(CountAll, 2) || !fails(CountAll, 3))
  {
    ThreeAttempts(fails, Refresh);
    ThreeAttempts(fails, CountAll);
  }

  /** Pruning, in attempts and numbers: the scan starts, fewer than 1000 documents are there, and each stale one can be deleted. */
  lemma PruneCompletesMeans(w: Docs, live: set<string>, fails: Faults)
    ensures PruneCompletes(w, live, fails) <==>
            && (!fails(Scan, 1) || !fails(Scan, 2) || !fails(Scan, 3))
            && |w| < 1000
            && forall id :: id in w && id !in live ==> !fails(Remove(id), 1) || !fails(Remove(id), 2) || !fails(Remove(id), 3)
  {
    ThreeAttempts(fails, Scan);
    forall id
      ensures Succeeds(fails, Remove(id)) <==> !fails(Remove(id), 1) || !fails(Remove(id), 2) || !fails(Remove(id), 3)
    {
      ThreeAttempts(fails, Remove(id));
    }
  }

  /** All documents are reached exactly when no product count that is asked for throws. */
  lemma ReachedMeans(selected: seq<Document>, fails: Faults)
    ensures Reached(selected, fails) == |selected| <==>
            forall i :: 0 <= i < |selected| && selected[i].counted ==> !fails(CountProducts(selected[i].id), 1)
  {
  }

  /** `w` with some stale documents gone, and every live one kept. */
  ghost predicate PartlyPruned(w: Docs, docs: Docs, live: set<string>) {
    && (forall id :: id in docs ==> id in w && docs[id] == w[id])
    && (forall id :: id in w && id in live ==> id in docs)
  }

  // ---------- the script ----------

  datatype Counts = Counts(written: nat, failed: nat)

  /** Every selected document was written or failed for good. */
  ghost predicate CountsOf(counts: Counts, selected: seq<Document>, fails: Faults) {
    counts.failed == CountFailed(selected, fails) && counts.written + counts.failed == |selected|
  }

  datatype PruneReport = Pruned(count: nat) | PruneAborted | PruneHangs

  datatype Report =
    | Refused
    | DryRun
    | Aborted
    | StillScanning
    | Finished(counts: seq<Counts>, pruned: seq<nat>)

  class SearchIndex {
    var present: bool
    var docs: Docs

    ghost predicate Valid()
      reads this
    {
      !present ==> docs == map[]
    }

    ghost function State(): IndexState
      reads this
    {
      IndexState(present, docs)
    }

    constructor ()
      ensures Valid() && !present
    {
      present, docs := false, map[];
    }

    /** Creates the index when it is missing, recreates it when asked to; false when the script throws. */
    method EnsureIndex(recreate: bool, fails: Faults) returns (ok: bool)
      requires Valid()
      modifies this
      ensures Valid()
      ensures ok <==> Ensures(old(present), recreate, fails)
      ensures ok ==> State() == Ensured(old(State()), recreate)
      ensures !ok ==> docs == old(docs) || (recreate && docs == map[])
    {
      if fails(Exists, 1) {
        return false;
      }
      var attempts;
      if present {
        if !recreate {
          return true;
        }
        ok, attempts := WithRetry(fails, DropIndex);
        if !ok {
          return;
        }
        present, docs := false, map[];
      }
      ok, attempts := WithRetry(fails, CreateIndex);
      if ok {
        present := true;
      }
    }

    /** Upserts document after document, until a product count throws. */
    method WriteAll(selected: seq<Document>, fails: Faults) returns (ok: bool, counts: Counts)
      modifies this`docs
      ensures ok <==> Reached(selected, fails) == |selected|
      ensures docs == Written(old(docs), selected[..Reached(selected, fails)], fails)
      ensures ok ==> CountsOf(counts, selected, fails)
    {
      var written, failed: nat := 0, 0;
      counts := Counts(0, 0);
      for i := 0 to |selected|
        invariant i <= Reached(selected, fails)
        invariant docs == Written(old(docs), selected[..i], fails)
        invariant failed == CountFailed(selected[..i], fails) && written + failed == i
      {
        assert selected[..i + 1][..i] == selected[..i];
        if selected[i].counted && fails(CountProducts(selected[i].id), 1) {
          assert Reached(selected, fails) == i;
          return false, counts;
        }
        var done, attempts := WithRetry(fails, Write(selected[i].id));
        if done {
          docs := docs[selected[i].id := selected[i].body];
          written := written + 1;
        } else {
          failed := failed + 1;
        }
      }
      assert selected[..|selected|] == selected;
      ok := true;
      counts := Counts(written, failed);
    }

    /** One search request: the hits of the first page. No sort is sent, so there is no later page to ask for. */
    method Search() returns (hits: seq<string>)
      ensures |hits| == if |docs| <= PAGE_SIZE then |docs| else PAGE_SIZE
      ensures forall i, j :: 0 <= i < j < |hits| ==> hits[i] != hits[j]
      ensures forall id :: id in hits ==> id in docs
      ensures |docs| <= PAGE_SIZE ==> forall id :: id in docs ==> id in hits
    {
      hits := [];
      var rest := docs.Keys;
      while rest != {} && |hits| < PAGE_SIZE
        invariant rest <= docs.Keys && |hits| + |rest| == |docs.Keys| && |hits| <= PAGE_SIZE
        invariant forall i, j :: 0 <= i < j < |hits| ==> hits[i] != hits[j]
        invariant forall id :: id in docs.Keys <==> id in hits || id in rest
        invariant forall id :: id in hits ==> id !in rest
        decreases |rest|
      {
        var id :| id in rest;
        hits := hits + [id];
        rest := rest - {id};
      }
      assert |docs.Keys| == |docs|;
    }

    /**
     The do/while scan, watched for `patience` requests. Because every request returns the first
     page, it ends after one request or never: it ends exactly below 1000 documents.
     */
    method ScanAll(patience: nat) returns (hits: Option<seq<string>>, requests: nat)
      requires patience > 0
      ensures hits.Some? <==> |docs| < PAGE_SIZE
      ensures hits.Some? ==> requests == 1 && forall id :: id in hits.value <==> id in docs
      ensures hits.Some? ==> forall i, j :: 0 <= i < j < |hits.value| ==> hits.value[i] != hits.value[j]
      ensures hits.None? ==> requests == patience
    {
      var out: seq<string> := [];
      requests := 0;
      while requests < patience
        invariant requests <= patience
        invariant requests > 0 ==> |docs| >= PAGE_SIZE
        invariant requests == 0 ==> out == []
      {
        var page := Search();
        requests := requests + 1;
        out := out + page;
        if |page| != PAGE_SIZE {
          assert out == page;
          return Some(out), requests;
        }
      }
      return None, requests;
    }

    method RemoveStale(stale: seq<string>, live: set<string>, fails: Faults) returns (ok: bool)
      requires forall i, j :: 0 <= i < j < |stale| ==> stale[i] != stale[j]
      requires forall id :: id in stale <==> id in docs && id !in live
      modifies this`docs
      ensures ok <==> forall id :: id in old(docs) && id !in live ==> Succeeds(fails, Remove(id))
      ensures ok ==> docs == Restrict(old(docs), live)
      ensures PartlyPruned(old(docs), docs, live)
    {
      for i := 0 to |stale|
        invariant docs == old(docs) - (set k | 0 <= k < i :: stale[k])
        invariant forall k :: 0 <= k < i ==> Succeeds(fails, Remove(stale[k]))
      {
        var attempts;
        ok, attempts := WithRetry(fails, Remove(stale[i]));
        if !ok {
          assert stale[i] in stale;
          return;
        }
        docs := docs - {stale[i]};
        assert (set k | 0 <= k < i + 1 :: stale[k]) == (set k | 0 <= k < i :: stale[k]) + {stale[i]};
      }
      ok := true;
      assert (set k | 0 <= k < |stale| :: stale[k]) == set id | id in stale;
    }

    method Prune(live: set<string>, fails: Faults, patience: nat) returns (report: PruneReport)
      requires patience > 0
      modifies this`docs
      ensures report.Pruned? <==> PruneCompletes(old(docs), live, fails)
      ensures report.PruneHangs? <==> Hangs(old(docs), fails)
      ensures report.Pruned? ==> docs == Restrict(old(docs), live) && report == Pruned(|old(docs).Keys - live|)
      ensures PartlyPruned(old(docs), docs, live)
    {
      var ok, attempts := WithRetry(fails, Scan);
      if !ok {
        return PruneAborted;
      }
      var hits, requests := ScanAll(patience);
      if hits.None? {
        return PruneHangs;
      }
      var stale := Stale(hits.value, live);
      ok := RemoveStale(stale, live, fails);
      if !ok {
        return PruneAborted;
      }
      StaleSize(stale, old(docs).Keys - live);
      return Pruned(|stale|);
    }

    /** `existing.filter((h) => !live.has(h))` */
    static function Stale(hits: seq<string>, live: set<string>): (stale: seq<string>)
      ensures forall id :: id in stale <==> id in hits && id !in live
      ensures (forall i, j :: 0 <= i < j < |hits| ==> hits[i] != hits[j]) ==>
                forall i, j :: 0 <= i < j < |stale| ==> stale[i] != stale[j]
    {
      if hits == [] then []
      else
        var n := |hits| - 1;
        assert hits == hits[..n] + [hits[n]];
        Stale(hits[..n], live) + (if hits[n] in live then [] else [hits[n]])
    }

    static lemma {:induction false} StaleSize(stale: seq<string>, ids: set<string>)
      requires forall i, j :: 0 <= i < j < |stale| ==> stale[i] != stale[j]
      requires forall id :: id in stale <==> id in ids
      ensures |stale| == |ids|
      decreases |stale|
    {
      if stale == [] {
        assert ids == {};
      } else {
        var n := |stale| - 1;
        assert stale == stale[..n] + [stale[n]];
        assert stale[n] in stale;
        StaleSize(stale[..n], ids - {stale[n]});
      }
    }
  }

  // ---------- all indices ----------

  ghost predicate DistinctIndices(indices: seq<SearchIndex>) {
    forall i, j :: 0 <= i < j < |indices| ==> indices[i] != indices[j]
  }

  ghost function States(indices: seq<SearchIndex>): (states: seq<IndexState>)
    reads indices
    ensures |states| == |indices|
  {
    seq(|indices|, k requires 0 <= k < |indices| reads indices => indices[k].State())
  }

  /** Creates or recreates every index, stopping at the first that fails. */
  method EnsureAll(indices: seq<SearchIndex>, recreate: bool, fails: seq<Faults>) returns (ok: bool)
    requires |fails| == |indices| && DistinctIndices(indices)
    requires forall k :: 0 <= k < |indices| ==> indices[k].Valid()
    modifies indices
    ensures forall k :: 0 <= k < |indices| ==> indices[k].Valid()
    ensures ok <==> forall k :: 0 <= k < |indices| ==> Ensures(old(States(indices))[k].present, recreate, fails[k])
    ensures ok ==> forall k :: 0 <= k < |indices| ==> States(indices)[k] == Ensured(old(States(indices))[k], recreate)
    ensures forall k :: 0 <= k < |indices| ==>
              indices[k].docs == old(indices[k].docs) || (recreate && indices[k].docs == map[])
  {
    ghost var before := States(indices);
    for i := 0 to |indices|
      invariant forall k :: 0 <= k < |indices| ==> indices[k].Valid()
      invariant forall k :: 0 <= k < i ==> Ensures(before[k].present, recreate, fails[k]) && indices[k].State() == Ensured(before[k], recreate)
      invariant forall k :: i <= k < |indices| ==> indices[k].State() == before[k]
    {
      ok := indices[i].EnsureIndex(recreate, fails[i]);
      if !ok {
        return;
      }
    }
    ok := true;
  }

  /** All documents of an index get to be written. */
  predicate Reaches(selected: seq<Document>, fails: Faults) {
    Reached(selected, fails) == |selected|
  }

  /** Writing has gone through for the first `i` indices. */
  ghost predicate WrittenUpTo(before: seq<Docs>, docs: seq<Docs>, selected: seq<seq<Document>>, fails: seq<Faults>, i: int) {
    && 0 <= i <= |before| == |docs| == |selected| == |fails|
    && (forall k :: 0 <= k < i ==> Reaches(selected[k], fails[k]) && docs[k] == Written(before[k], selected[k], fails[k]))
    && (forall k :: i <= k < |before| ==> docs[k] == before[k])
  }

  /** Writing stopped at index `j`: those before it are written, it is in part, and those after it are as before. */
  ghost predicate WritingStoppedAt(before: seq<Docs>, docs: seq<Docs>, selected: seq<seq<Document>>, fails: seq<Faults>, j: int) {
    && 0 <= j < |before| == |docs| == |selected| == |fails|
    && !Reaches(selected[j], fails[j])
    && docs[j] == Written(before[j], selected[j][..Reached(selected[j], fails[j])], fails[j])
    && WrittenUpTo(before, docs[j := before[j]], selected, fails, j)
  }

  /** The write loops, one index after the other. */
  method WriteEach(indices: seq<SearchIndex>, selected: seq<seq<Document>>, fails: seq<Faults>) returns (ok: bool, counts: seq<Counts>)
    requires |selected| == |fails| == |indices| && DistinctIndices(indices)
    modifies indices
    ensures forall k :: 0 <= k < |indices| ==> indices[k].present == old(indices[k].present)
    ensures ok <==> forall k :: 0 <= k < |indices| ==> Reaches(selected[k], fails[k])
    ensures ok ==> DocsOf(indices) == AllWritten(old(DocsOf(indices)), selected, fails) && Counted(counts, selected, fails)
    ensures !ok ==> exists j :: WritingStoppedAt(old(DocsOf(indices)), DocsOf(indices), selected, fails, j)
  {
    hide Written;
    hide Reached;
    hide CountsOf;
    ghost var before := DocsOf(indices);
    counts := [];
    for i := 0 to |indices|
      invariant |counts| == i
      invariant forall k :: 0 <= k < |indices| ==> indices[k].present == old(indices[k].present)
      invariant WrittenUpTo(before, DocsOf(indices), selected, fails, i)
      invariant forall k :: 0 <= k < i ==> CountsOf(counts[k], selected[k], fails[k])
    {
      ghost var docs := DocsOf(indices);
      var c;
      ok, c := indices[i].WriteAll(selected[i], fails[i]);
      assert DocsOf(indices) == docs[i := indices[i].docs];
      if !ok {
        assert DocsOf(indices)[i := before[i]] == docs;
        assert WritingStoppedAt(before, DocsOf(indices), selected, fails, i);
        return;
      }
      assert selected[i][..|selected[i]|] == selected[i];
      counts := counts + [c];
    }
    ok := true;
  }

  /** Refreshing and counting, index by index. */
  method RefreshEach(fails: seq<Faults>) returns (ok: bool)
    ensures ok <==> forall k :: 0 <= k < |fails| ==> Refreshes(fails[k])
  {
    for i := 0 to |fails|
      invariant forall k :: 0 <= k < i ==> Refreshes(fails[k])
    {
      var attempts;
      ok, attempts := WithRetry(fails[i], Refresh);
      if ok {
        ok, attempts := WithRetry(fails[i], CountAll);
      }
      if !ok {
        assert !Refreshes(fails[i]);
        return;
      }
    }
    ok := true;
  }

  /** Pruning went through up to index `j`, stopped there, and did not reach the others. */
  ghost predicate StoppedAt(w: seq<Docs>, docs: seq<Docs>, selected: seq<seq<Document>>, fails: seq<Faults>, j: int) {
    && 0 <= j < |w| == |docs| == |selected| == |fails|
    && !PruneCompletes(w[j], Live(selected[j]), fails[j])
    && (forall k :: 0 <= k < j ==> PruneCompletes(w[k], Live(selected[k]), fails[k]) && docs[k] == Restrict(w[k], Live(selected[k])))
    && PartlyPruned(w[j], docs[j], Live(selected[j]))
    && (forall k :: j < k < |w| ==> docs[k] == w[k])
  }

  ghost function DocsOf(indices: seq<SearchIndex>): (docs: seq<Docs>)
    reads indices
    ensures |docs| == |indices|
  {
    seq(|indices|, k requires 0 <= k < |indices| reads indices => indices[k].docs)
  }

  /** Pruning has gone through for the first `i` indices. */
  ghost predicate PrunedUpTo(w: seq<Docs>, docs: seq<Docs>, selected: seq<seq<Document>>, fails: seq<Faults>, pruned: seq<nat>, i: int) {
    && 0 <= i == |pruned| <= |w| == |docs| == |selected| == |fails|
    && (forall k :: 0 <= k < i ==>
          && PruneCompletes(w[k], Live(selected[k]), fails[k])
          && docs[k] == Restrict(w[k], Live(selected[k])) && pruned[k] == |w[k].Keys - Live(selected[k])|)
    && (forall k :: i <= k < |w| ==> docs[k] == w[k])
  }

  lemma OneMorePruned(w: seq<Docs>, docs: seq<Docs>, selected: seq<seq<Document>>, fails: seq<Faults>, pruned: seq<nat>, i: nat, d: Docs)
    requires PrunedUpTo(w, docs, selected, fails, pruned, i) && i < |w|
    requires PruneCompletes(w[i], Live(selected[i]), fails[i]) && d == Restrict(w[i], Live(selected[i]))
    ensures PrunedUpTo(w, docs[i := d], selected, fails, pruned + [|w[i].Keys - Live(selected[i])|], i + 1)
  {
    hide PruneCompletes;
    hide Restrict;
  }

  lemma StoppedHere(w: seq<Docs>, docs: seq<Docs>, selected: seq<seq<Document>>, fails: seq<Faults>, pruned: seq<nat>, i: nat, d: Docs)
    requires PrunedUpTo(w, docs, selected, fails, pruned, i) && i < |w|
    requires !PruneCompletes(w[i], Live(selected[i]), fails[i]) && PartlyPruned(w[i], d, Live(selected[i]))
    ensures StoppedAt(w, docs[i := d], selected, fails, i)
  {
    hide PruneCompletes;
    hide Restrict;
    hide PartlyPruned;
  }

  /** Prunes one index after the other, stopping at the first whose pruning aborts or never ends. */
  method PruneEach(indices: seq<SearchIndex>, selected: seq<seq<Document>>, fails: seq<Faults>, patience: nat)
    returns (report: PruneReport, pruned: seq<nat>)
    requires |selected| == |fails| == |indices| && DistinctIndices(indices) && patience > 0
    modifies indices
    ensures forall k :: 0 <= k < |indices| ==> indices[k].present == old(indices[k].present)
    ensures var w := old(DocsOf(indices));
            && (report.Pruned? <==> PrunedUpTo(w, DocsOf(indices), selected, fails, pruned, |indices|))
            && (!report.Pruned? ==>
                  exists j :: StoppedAt(w, DocsOf(indices), selected, fails, j) && (report.PruneHangs? <==> Hangs(w[j], fails[j])))
  {
    hide PruneCompletes;
    hide PartlyPruned;
    hide Restrict;
    hide Hangs;
    hide PrunedUpTo;
    ghost var w := DocsOf(indices);
    pruned := [];
    NothingPruned(w, selected, fails);
    for i := 0 to |indices|
      invariant forall k :: 0 <= k < |indices| ==> indices[k].present == old(indices[k].present)
      invariant PrunedUpTo(w, DocsOf(indices), selected, fails, pruned, i)
    {
      ghost var docs := DocsOf(indices);
      StillToPrune(w, docs, selected, fails, pruned, i);
      report := indices[i].Prune(Live(selected[i]), fails[i], patience);
      assert DocsOf(indices) == docs[i := indices[i].docs];
      if !report.Pruned? {
        StoppedHere(w, docs, selected, fails, pruned, i, indices[i].docs);
        StoppedIsNotThrough(w, DocsOf(indices), selected, fails, pruned, i);
        return;
      }
      OneMorePruned(w, docs, selected, fails, pruned, i, indices[i].docs);
      pruned := pruned + [report.count];
    }
    report := Pruned(0);
  }

  lemma NothingPruned(w: seq<Docs>, selected: seq<seq<Document>>, fails: seq<Faults>)
    requires |w| == |selected| == |fails|
    ensures PrunedUpTo(w, w, selected, fails, [], 0)
  {
  }

  lemma StillToPrune(w: seq<Docs>, docs: seq<Docs>, selected: seq<seq<Document>>, fails: seq<Faults>, pruned: seq<nat>, i: nat)
    requires PrunedUpTo(w, docs, selected, fails, pruned, i) && i < |w|
    ensures docs[i] == w[i]
  {
  }

  lemma StoppedIsNotThrough(w: seq<Docs>, docs: seq<Docs>, selected: seq<seq<Document>>, fails: seq<Faults>, pruned: seq<nat>, j: nat)
    requires StoppedAt(w, docs, selected, fails, j)
    ensures !PrunedUpTo(w, docs, selected, fails, pruned, |w|)
  {
  }

  /** What each index holds once it has been written. */
  ghost function AllWritten(docs: seq<Docs>, selected: seq<seq<Document>>, fails: seq<Faults>): (w: seq<Docs>)
    requires |selected| == |fails| == |docs|
    ensures |w| == |docs|
  {
    seq(|docs|, k requires 0 <= k < |docs| => Written(docs[k], selected[k], fails[k]))
  }

  /** One pair of counters for each index. */
  ghost predicate Counted(counts: seq<Counts>, selected: seq<seq<Document>>, fails: seq<Faults>) {
    |counts| == |selected| == |fails| && forall k :: 0 <= k < |counts| ==> CountsOf(counts[k], selected[k], fails[k])
  }

  /** Nothing stops the work on the indices, which hold `w` once written. */
  ghost predicate AllComplete(w: seq<Docs>, selected: seq<seq<Document>>, prune: bool, fails: seq<Faults>) {
    |w| == |selected| == |fails|
    && forall k :: 0 <= k < |w| ==>
         && Reaches(selected[k], fails[k])
         && Refreshes(fails[k])
         && (prune ==> PruneCompletes(w[k], Live(selected[k]), fails[k]))
  }

  /**
   How a run that was stopped leaves the indices: stopped while writing; or all written; or all
   written, those before some index pruned and those after it not.
   */
  ghost predicate StoppedLate(before: seq<Docs>, docs: seq<Docs>, selected: seq<seq<Document>>, prune: bool, fails: seq<Faults>, hangs: bool)
    requires |selected| == |fails| == |before|
  {
    var w := AllWritten(before, selected, fails);
    || (!hangs && exists j :: WritingStoppedAt(before, docs, selected, fails, j))
    || (docs == w && !hangs && exists k :: 0 <= k < |fails| && !Refreshes(fails[k]))
    || (prune && exists j :: StoppedAt(w, docs, selected, fails, j) && (hangs <==> Hangs(w[j], fails[j])))
  }

  /** Writing, refreshing and pruning the indices, once they are there. */
  method WriteAndPrune(indices: seq<SearchIndex>, selected: seq<seq<Document>>, prune: bool, fails: seq<Faults>, patience: nat)
    returns (report: Report)
    requires |selected| == |fails| == |indices| && DistinctIndices(indices) && patience > 0
    modifies indices
    ensures report.Finished? || report.Aborted? || report.StillScanning?
    ensures forall k :: 0 <= k < |indices| ==> indices[k].present == old(indices[k].present)
    ensures var w := AllWritten(old(DocsOf(indices)), selected, fails);
            && (report.Finished? <==> AllComplete(w, selected, prune, fails))
            && (report.Finished? ==>
                  Counted(report.counts, selected, fails)
                  && forall k :: 0 <= k < |w| ==> DocsOf(indices)[k] == if prune then Restrict(w[k], Live(selected[k])) else w[k])
            && (!report.Finished? ==> StoppedLate(old(DocsOf(indices)), DocsOf(indices), selected, prune, fails, report.StillScanning?))
  {
    hide Written;
    hide Refreshes;
    hide Restrict;
    hide PruneCompletes;
    hide Hangs;
    hide Reaches;
    hide WritingStoppedAt;
    var ok, counts := WriteEach(indices, selected, fails);
    if !ok {
      return Aborted;
    }
    ok := RefreshEach(fails);
    if !ok {
      return Aborted;
    }
    if !prune {
      return Finished(counts, []);
    }
    var pruning, pruned := PruneEach(indices, selected, fails, patience);
    match pruning
    case Pruned(_) => report := Finished(counts, pruned);
    case PruneAborted => report := Aborted;
    case PruneHangs => report := StillScanning;
  }

  /** The documents of the indices once they have been ensured. */
  ghost function Bases(states: seq<IndexState>, recreate: bool): (docs: seq<Docs>)
    ensures |docs| == |states|
  {
    seq(|states|, k requires 0 <= k < |states| => Ensured(states[k], recreate).docs)
  }

  ghost predicate AllEnsured(states: seq<IndexState>, recreate: bool, fails: seq<Faults>) {
    |fails| == |states| && forall k :: 0 <= k < |states| ==> Ensures(states[k].present, recreate, fails[k])
  }

  /**
   The script: ensure all indices, write all, refresh all, prune all. It finishes exactly when
   nothing in the work on any index stops it. If some index cannot be ensured, none has been
   written; a run stopped later leaves them as `StoppedLate` says.
   */
  method Rebuild(indices: seq<SearchIndex>, selected: seq<seq<Document>>, options: Options, fails: seq<Faults>, patience: nat)
    returns (report: Report)
    requires |selected| == |fails| == |indices| && DistinctIndices(indices) && patience > 0
    requires forall k :: 0 <= k < |indices| ==> indices[k].Valid()
    modifies indices
    ensures report.Refused? <==> options.recreate && !options.allowDestructive
    ensures report.DryRun? <==> !report.Refused? && options.dryRun
    ensures report.Refused? || report.DryRun? ==> States(indices) == old(States(indices))
    ensures var before := old(States(indices));
            var w := AllWritten(Bases(before, options.recreate), selected, fails);
            !report.Refused? && !report.DryRun? ==>
              && (report.Finished? <==>
                  AllEnsured(before, options.recreate, fails) && AllComplete(w, selected, options.prune, fails))
              && (report.Finished? ==> Counted(report.counts, selected, fails) && forall k :: 0 <= k < |indices| ==>
                    States(indices)[k] ==
                    IndexState(true, Final(Bases(before, options.recreate)[k], selected[k], fails[k], options.prune)))
              && (!AllEnsured(before, options.recreate, fails) ==> report.Aborted? && forall k :: 0 <= k < |indices| ==>
                    indices[k].docs == old(indices[k].docs) || (options.recreate && indices[k].docs == map[]))
              && (AllEnsured(before, options.recreate, fails) && !report.Finished? ==>
                    StoppedLate(Bases(before, options.recreate), DocsOf(indices), selected, options.prune, fails, report.StillScanning?))
  {
    if options.recreate && !options.allowDestructive {
      return Refused;
    }
    if options.dryRun {
      return DryRun;
    }
    hide Written;
    hide Ensures;
    hide Restrict;
    hide AllComplete;
    hide StoppedLate;
    hide Counted;
    var ok := EnsureAll(indices, options.recreate, fails);
    if !ok {
      return Aborted;
    }
    assert DocsOf(indices) == Bases(old(States(indices)), options.recreate);
    report := WriteAndPrune(indices, selected, options.prune, fails, patience);
  }

  // ---------- convergence ----------

  lemma {:induction false} SelectionAt(selected: seq<Document>)
    requires DistinctIds(selected)
    ensures Selection(selected).Keys == Live(selected)
    ensures forall d :: d in selected ==> d.id in Selection(selected) && Selection(selected)[d.id] == d.body
    decreases |selected|
  {
    if selected != [] {
      var front, last := selected[..|selected| - 1], selected[|selected| - 1];
      assert selected == front + [last];
      SelectionAt(front);
      forall d | d in front
        ensures d.id != last.id
      {
        var i :| 0 <= i < |front| && front[i] == d;
        assert selected[i] == d;
      }
    }
  }

  /** After the write loop, a selected id holds its new document if some attempt worked, and what it held before if not; other ids are untouched. */
  lemma {:induction false} WrittenAt(docs: Docs, selected: seq<Document>, fails: Faults)
    requires DistinctIds(selected)
    ensures var w := Written(docs, selected, fails);
            && (forall d :: d in selected && Succeeds(fails, Write(d.id)) ==> d.id in w && w[d.id] == d.body)
            && (forall d :: d in selected && !Succeeds(fails, Write(d.id)) ==>
                  (d.id in w <==> d.id in docs) && (d.id in docs ==> w[d.id] == docs[d.id]))
            && (forall id :: id !in Live(selected) ==> (id in w <==> id in docs) && (id in docs ==> w[id] == docs[id]))
    decreases |selected|
  {
    if selected != [] {
      var front, last := selected[..|selected| - 1], selected[|selected| - 1];
      assert selected == front + [last];
      assert last in selected;
      WrittenAt(docs, front, fails);
      LastIdIsNew(selected);
    }
  }

  lemma LastIdIsNew(selected: seq<Document>)
    requires selected != [] && DistinctIds(selected)
    ensures var front, last := selected[..|selected| - 1], selected[|selected| - 1];
            last.id !in Live(front) && Live(selected) == Live(front) + {last.id}
  {
    var front, last := selected[..|selected| - 1], selected[|selected| - 1];
    assert selected == front + [last];
    forall d | d in front
      ensures d.id != last.id
    {
      var i :| 0 <= i < |front| && front[i] == d;
      assert selected[i] == d;
    }
  }

  /** `d` is in the index with its present body. */
  predicate UpToDate(docs: Docs, d: Document) {
    d.id in docs && docs[d.id] == d.body
  }

  /**
   After a completed run with pruning the index is the selection, exactly when every document
   that could not be written was already up to date. In any case nothing outside the selection
   is left.
   */
  lemma {:induction false} PruningConverges(docs: Docs, selected: seq<Document>, fails: Faults)
    requires DistinctIds(selected)
    ensures Final(docs, selected, fails, true).Keys <= Live(selected)
    ensures Final(docs, selected, fails, true) == Selection(selected) <==>
            forall d :: d in selected && !Succeeds(fails, Write(d.id)) ==> UpToDate(docs, d)
  {
    WrittenAt(docs, selected, fails);
    if forall d :: d in selected && !Succeeds(fails, Write(d.id)) ==> UpToDate(docs, d) {
      UpToDateConverges(docs, selected, fails);
    } else {
      var d :| d in selected && !Succeeds(fails, Write(d.id)) && !UpToDate(docs, d);
      SelectionAt(selected);
      assert !UpToDate(Final(docs, selected, fails, true), d);
      assert UpToDate(Selection(selected), d);
    }
  }

  lemma UpToDateConverges(docs: Docs, selected: seq<Document>, fails: Faults)
    requires DistinctIds(selected)
    requires forall d :: d in selected && !Succeeds(fails, Write(d.id)) ==> UpToDate(docs, d)
    ensures Final(docs, selected, fails, true) == Selection(selected)
  {
    var final, selection := Final(docs, selected, fails, true), Selection(selected);
    WrittenAt(docs, selected, fails);
    SelectionAt(selected);
    assert forall d :: d in selected ==> UpToDate(final, d) && UpToDate(selection, d);
    AgreeOnSelection(final, selection, selected);
  }

  lemma AgreeOnSelection(a: Docs, b: Docs, selected: seq<Document>)
    requires a.Keys <= Live(selected) && b.Keys <= Live(selected)
    requires forall d :: d in selected ==> UpToDate(a, d) && UpToDate(b, d)
    ensures a == b
  {
    forall id | id in Live(selected)
      ensures id in a && id in b && a[id] == b[id]
    {
      var d :| d in selected && d.id == id;
    }
  }

  /** Once every document is up to date, the write loop changes nothing, whatever fails. */
  lemma UpToDateIsFixed(docs: Docs, selected: seq<Document>, fails: Faults)
    requires DistinctIds(selected) && forall d :: d in selected ==> UpToDate(docs, d)
    ensures Written(docs, selected, fails) == docs
  {
    WrittenAt(docs, selected, fails);
    var w := Written(docs, selected, fails);
    forall id
      ensures id in w <==> id in docs
      ensures id in docs ==> w[id] == docs[id]
    {
      if id in Live(selected) {
        var d :| d in selected && d.id == id;
      }
    }
  }

  /** After a completed run with no permanent write failure, a second run leaves the index unchanged, with or without pruning. */
  lemma SecondRunChangesNothing(docs: Docs, selected: seq<Document>, fails: Faults, again: Faults, prune: bool)
    requires DistinctIds(selected) && forall d :: d in selected ==> Succeeds(fails, Write(d.id))
    ensures var once := Final(docs, selected, fails, prune);
            Final(once, selected, again, prune) == once
  {
    var once := Final(docs, selected, fails, prune);
    WrittenAt(docs, selected, fails);
    assert forall d :: d in selected ==> UpToDate(once, d);
    UpToDateIsFixed(once, selected, again);
  }

  // ---------- an index that cannot be pruned ----------

  /** `n` documents with the ids "x", "xx", ... */
  function Filled(n: nat): Docs {
    if n == 0 then map[] else Filled(n - 1)[Crosses(n) := ""]
  }

  function Crosses(n: nat): string {
    seq(n, i => 'x')
  }

  lemma {:induction false} FilledSize(n: nat)
    ensures |Filled(n)| == n && forall id :: id in Filled(n) ==> |id| <= n
    decreases n
  {
    if n > 0 {
      FilledSize(n - 1);
      var before := Filled(n - 1);
      assert Crosses(n) !in before;
      assert Filled(n).Keys == before.Keys + {Crosses(n)};
      assert |Filled(n).Keys| == |before.Keys| + 1;
    }
  }

  /** From 1000 documents on pruning hangs, although every document is live and nothing is to be removed. */
  lemma FullIndexHangs(n: nat, fails: Faults)
    requires n >= PAGE_SIZE && Succeeds(fails, Scan)
    ensures var w := Filled(n);
            Hangs(w, fails) && !PruneCompletes(w, w.Keys, fails) && Restrict(w, w.Keys) == w
  {
    FilledSize(n);
  }
}
