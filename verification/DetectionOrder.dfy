/**
 When the answer of the duplicate search depends on the order of the map it iterates over, and when it
 does not: for the confidence alone, and for the confidence together with the reported id.
 */
module DetectionOrder {
  import opened Wrappers
  import opened Text
  import opened InsertionOrder
  import opened DuplicateDetector
  import EditDistance

  // ---------- reorderings ----------

  ghost predicate Reorders<T>(s: seq<T>, t: seq<T>) {
    multiset(s) == multiset(t)
  }

  lemma ReordersKeepsMembers<T>(s: seq<T>, t: seq<T>)
    requires Reorders(s, t)
    ensures forall x :: x in s <==> x in t
  {
    forall x
      ensures x in s <==> x in t
    {
      assert x in s <==> x in multiset(s);
      assert x in t <==> x in multiset(t);
    }
  }

  function Without<T>(s: seq<T>, k: nat): seq<T>
    requires k < |s|
  {
    s[..k] + s[k + 1..]
  }

  function MoveLast<T>(s: seq<T>, k: nat): seq<T>
    requires k < |s|
  {
    Without(s, k) + [s[k]]
  }

  function MoveFirst<T>(s: seq<T>, k: nat): seq<T>
    requires k < |s|
  {
    [s[k]] + Without(s, k)
  }

  lemma MovesReorder<T>(s: seq<T>, k: nat)
    requires k < |s|
    ensures Reorders(MoveLast(s, k), s) && Reorders(MoveFirst(s, k), s)
  {
    assert s == s[..k] + [s[k]] + s[k + 1..];
  }

  // ---------- the best candidates ----------

  ghost predicate HasStrongOverlap(cs: seq<Candidate>) {
    exists i :: 0 <= i < |cs| && cs[i].verdict.Overlapping? && cs[i].verdict.confidence > 0.8
  }

  /** No match at distance 2 competes with an overlap match of higher confidence. */
  ghost predicate Calm(cs: seq<Candidate>) {
    HasNear(cs, 0) || HasNear(cs, 1) || !HasNear(cs, 2) || !HasStrongOverlap(cs)
  }

  /** Of the least distance below 3, or failing such, of the greatest overlap confidence. */
  ghost predicate Top(cs: seq<Candidate>, c: Candidate) {
    c in cs &&
    match c.verdict
    case Unrelated => false
    case Near(d) => forall x :: x in cs && x.verdict.Near? ==> d <= x.verdict.distance
    case Overlapping(_, confidence) =>
      forall x :: x in cs ==> !x.verdict.Near? && (x.verdict.Overlapping? ==> x.verdict.confidence <= confidence)
  }

  lemma NearMember(cs: seq<Candidate>, c: Candidate)
    requires c in cs && c.verdict.Near?
    ensures HasNear(cs, c.verdict.distance)
  {
    var i :| 0 <= i < |cs| && cs[i] == c;
    assert cs[i].verdict == Near(c.verdict.distance);
  }

  lemma StrongMember(cs: seq<Candidate>, c: Candidate)
    requires c in cs && c.verdict.Overlapping? && c.verdict.confidence > 0.8
    ensures HasStrongOverlap(cs)
  {
    var i :| 0 <= i < |cs| && cs[i] == c;
  }

  lemma ValidMember(cs: seq<Candidate>, c: Candidate)
    requires AllValid(cs) && c in cs
    ensures ValidVerdict(c.verdict)
  {
  }

  /** A top candidate, once found, stays. */
  lemma TopStays(cs: seq<Candidate>, top: Candidate, c: Candidate)
    requires AllValid(cs) && Calm(cs) && Top(cs, top) && c in cs
    ensures Better(Better(None, top), c) == Better(None, top)
  {
    Confidences();
    ValidMember(cs, top);
    ValidMember(cs, c);
    if top.verdict == Near(2) {
      CalmAtTwo(cs, top);
      WeakMember(cs, c);
    }
  }

  lemma CalmAtTwo(cs: seq<Candidate>, top: Candidate)
    requires Calm(cs) && Top(cs, top) && top.verdict == Near(2)
    ensures !HasStrongOverlap(cs)
  {
    NearMember(cs, top);
    assert forall i :: 0 <= i < |cs| ==> cs[i] in cs;
  }

  lemma WeakMember(cs: seq<Candidate>, c: Candidate)
    requires !HasStrongOverlap(cs) && c in cs
    ensures c.verdict.Overlapping? ==> c.verdict.confidence <= 0.8
  {
  }

  /** It displaces any other. */
  lemma TopBeats(cs: seq<Candidate>, top: Candidate, c: Candidate)
    requires AllValid(cs) && Top(cs, top) && c in cs && !c.verdict.Unrelated? && !Top(cs, c)
    ensures Better(Better(None, c), top) == Better(None, top)
  {
    ValidMember(cs, top);
    ValidMember(cs, c);
  }

  ghost predicate SameMembers(s: seq<Candidate>, t: seq<Candidate>) {
    forall c :: c in s <==> c in t
  }

  /** What the search has found after some of the candidates: the first top one among them, or a lesser one. */
  ghost predicate FoundSoFar(all: seq<Candidate>, cs: seq<Candidate>) {
    if exists c :: c in cs && Top(all, c) then
      exists c :: c in cs && Top(all, c) && Pick(cs) == Better(None, c)
    else
      Pick(cs) == None || exists c :: c in cs && !c.verdict.Unrelated? && Pick(cs) == Better(None, c)
  }

  lemma {:induction false} PickFindsTop(all: seq<Candidate>, cs: seq<Candidate>)
    requires AllValid(all) && Calm(all) && forall c :: c in cs ==> c in all
    ensures FoundSoFar(all, cs)
    decreases |cs|
  {
    if cs != [] {
      var front, last := cs[..|cs| - 1], cs[|cs| - 1];
      assert cs == front + [last];
      PickFindsTop(all, front);
      if c :| c in front && Top(all, c) && Pick(front) == Better(None, c) {
        TopStays(all, c, last);
        assert c in cs && Top(all, c) && Pick(cs) == Better(None, c);
      } else if Pick(front) == None {
        assert last in cs;
      } else {
        var c :| c in front && !c.verdict.Unrelated? && Pick(front) == Better(None, c);
        assert c in cs && last in cs;
        if Top(all, last) {
          TopBeats(all, last, c);
        } else if !last.verdict.Unrelated? {
          assert Pick(cs) == Better(None, c) || Pick(cs) == Better(None, last);
        }
      }
    }
  }

  /** Some candidate is top as soon as one is related. */
  lemma {:induction false} TopExists(cs: seq<Candidate>)
    ensures (exists c :: Top(cs, c)) <==> exists c :: c in cs && !c.verdict.Unrelated?
    decreases |cs|
  {
    if cs != [] {
      var front, last := cs[..|cs| - 1], cs[|cs| - 1];
      assert cs == front + [last];
      TopExists(front);
      if c :| Top(front, c) {
        assert Top(cs, c) || Top(cs, last);
      } else if !last.verdict.Unrelated? {
        assert Top(cs, last);
      }
    }
  }

  /** On a calm list the search returns a top candidate, or nothing when all are unrelated. */
  lemma CalmPick(cs: seq<Candidate>)
    requires AllValid(cs) && Calm(cs)
    ensures Pick(cs) == None || exists c :: Top(cs, c) && Pick(cs) == Better(None, c)
    ensures Pick(cs) == None <==> forall c :: !Top(cs, c)
  {
    PickFindsTop(cs, cs);
    TopExists(cs);
  }

  lemma TopsAreEqual(cs: seq<Candidate>, c: Candidate, d: Candidate)
    requires Top(cs, c) && Top(cs, d)
    ensures Better(None, c).value.overlap == Better(None, d).value.overlap
  {
  }

  lemma SameMembersSameTops(s: seq<Candidate>, t: seq<Candidate>)
    requires SameMembers(s, t)
    ensures forall c :: Top(s, c) <==> Top(t, c)
    ensures Calm(s) <==> Calm(t)
    ensures AllValid(s) <==> AllValid(t)
  {
    SameMembersSameCalm(s, t);
    SameMembersSameCalm(t, s);
    assert forall i :: 0 <= i < |s| ==> s[i] in t;
    assert forall i :: 0 <= i < |t| ==> t[i] in s;
    assert AllValid(s) <==> forall c :: c in s ==> ValidVerdict(c.verdict);
    assert AllValid(t) <==> forall c :: c in t ==> ValidVerdict(c.verdict);
  }

  lemma SameMembersSameCalm(s: seq<Candidate>, t: seq<Candidate>)
    requires SameMembers(s, t)
    ensures forall d: nat :: HasNear(s, d) ==> HasNear(t, d)
    ensures HasStrongOverlap(s) ==> HasStrongOverlap(t)
  {
    forall d: nat | HasNear(s, d)
      ensures HasNear(t, d)
    {
      var i :| 0 <= i < |s| && s[i].verdict == Near(d);
      NearMember(t, s[i]);
    }
    if HasStrongOverlap(s) {
      var i :| 0 <= i < |s| && s[i].verdict.Overlapping? && s[i].verdict.confidence > 0.8;
      StrongMember(t, s[i]);
    }
  }

  // ---------- the confidence ----------

  function ConfidenceOf(cs: seq<Candidate>): real {
    Reported(Pick(cs)).confidence
  }

  lemma CalmConfidence(s: seq<Candidate>, t: seq<Candidate>)
    requires AllValid(s) && Calm(s) && SameMembers(s, t)
    ensures ConfidenceOf(s) == ConfidenceOf(t)
  {
    SameMembersSameTops(s, t);
    CalmPick(s);
    CalmPick(t);
    if Pick(s).Some? {
      var c :| Top(s, c) && Pick(s) == Better(None, c);
      var d :| Top(t, d) && Pick(t) == Better(None, d);
      TopsAreEqual(s, c, d);
    }
  }

  /** Otherwise a distance-2 match in last place gives 0.8, and a strong overlap match there gives more. */
  lemma TwoLast(cs: seq<Candidate>, k: nat)
    requires AllValid(cs) && !HasNear(cs, 0) && !HasNear(cs, 1) && k < |cs| && cs[k].verdict == Near(2)
    ensures ConfidenceOf(MoveLast(cs, k)) == 0.8
  {
    var ds := MoveLast(cs, k);
    MovedMembers(cs, k);
    SameMembersSameTops(cs, ds);
    SameMembersSameCalm(ds, cs);
    assert ds[|ds| - 1].verdict == Near(2) && Undisturbed(ds, |ds| - 1);
    TwoWinsExactlyWhenSettled(ds);
  }

  lemma StrongLast(cs: seq<Candidate>, k: nat)
    requires k < |cs| && cs[k].verdict.Overlapping? && cs[k].verdict.confidence > 0.8
    ensures ConfidenceOf(MoveLast(cs, k)) > 0.8
  {
    var ds := MoveLast(cs, k);
    assert ds[..|ds| - 1] == Without(cs, k) && ds[|ds| - 1] == cs[k];
  }

  lemma MovedMembers(cs: seq<Candidate>, k: nat)
    requires k < |cs|
    ensures SameMembers(cs, MoveLast(cs, k)) && SameMembers(cs, MoveFirst(cs, k))
  {
    MovesReorder(cs, k);
    ReordersKeepsMembers(MoveLast(cs, k), cs);
    ReordersKeepsMembers(MoveFirst(cs, k), cs);
  }

  /** The two positions that decide when the list is not calm. */
  lemma NotCalm(cs: seq<Candidate>) returns (i: nat, j: nat)
    requires AllValid(cs) && !Calm(cs)
    ensures i < |cs| && j < |cs|
    ensures ConfidenceOf(MoveLast(cs, i)) == 0.8 && ConfidenceOf(MoveLast(cs, j)) > 0.8
  {
    i :| i < |cs| && cs[i].verdict == Near(2);
    j :| j < |cs| && cs[j].verdict.Overlapping? && cs[j].verdict.confidence > 0.8;
    TwoLast(cs, i);
    StrongLast(cs, j);
  }

  /** The confidence is the same for every order of the candidates exactly when they are calm. */
  lemma ConfidenceFreeExactly(cs: seq<Candidate>)
    requires AllValid(cs)
    ensures (forall ds :: Reorders(ds, cs) ==> ConfidenceOf(ds) == ConfidenceOf(cs)) <==> Calm(cs)
  {
    if Calm(cs) {
      forall ds | Reorders(ds, cs)
        ensures ConfidenceOf(ds) == ConfidenceOf(cs)
      {
        ReordersKeepsMembers(ds, cs);
        CalmConfidence(cs, ds);
      }
    } else {
      var i, j := NotCalm(cs);
      MovesReorder(cs, i);
      MovesReorder(cs, j);
      assert ConfidenceOf(MoveLast(cs, i)) != ConfidenceOf(MoveLast(cs, j));
    }
  }

  // ---------- the whole report ----------

  /** All top candidates bear the same id. */
  ghost predicate OneTopId(cs: seq<Candidate>) {
    forall c, d :: Top(cs, c) && Top(cs, d) ==> c.id == d.id
  }

  lemma CalmReport(s: seq<Candidate>, t: seq<Candidate>)
    requires AllValid(s) && Calm(s) && OneTopId(s) && SameMembers(s, t)
    ensures Reported(Pick(s)) == Reported(Pick(t))
  {
    SameMembersSameTops(s, t);
    CalmPick(s);
    CalmPick(t);
    if Pick(s).Some? {
      var c :| Top(s, c) && Pick(s) == Better(None, c);
      var d :| Top(t, d) && Pick(t) == Better(None, d);
      TopsAreEqual(s, c, d);
    }
  }

  /** A top candidate in first place is the match. */
  lemma {:induction false} TopFirst(all: seq<Candidate>, top: Candidate, rest: seq<Candidate>)
    requires AllValid(all) && Calm(all) && Top(all, top) && forall c :: c in rest ==> c in all
    ensures Pick([top] + rest) == Better(None, top)
    decreases |rest|
  {
    var cs := [top] + rest;
    if rest == [] {
      assert cs == [top];
      PickOne(top);
    } else {
      var n := |rest| - 1;
      TopFirst(all, top, rest[..n]);
      assert cs[..n + 1] == [top] + rest[..n];
      TopStays(all, top, rest[n]);
    }
  }

  lemma TopMovedFirst(cs: seq<Candidate>, k: nat)
    requires AllValid(cs) && Calm(cs) && k < |cs| && Top(cs, cs[k])
    ensures Reported(Pick(MoveFirst(cs, k))).existingId == Some(cs[k].id)
  {
    TopFirst(cs, cs[k], Without(cs, k));
  }

  /** Id and confidence are the same for every order exactly when the candidates are calm and the top ones share one id. */
  lemma ReportFreeExactly(cs: seq<Candidate>)
    requires AllValid(cs)
    ensures (forall ds :: Reorders(ds, cs) ==> Reported(Pick(ds)) == Reported(Pick(cs))) <==> Calm(cs) && OneTopId(cs)
  {
    if Calm(cs) && OneTopId(cs) {
      forall ds | Reorders(ds, cs)
        ensures Reported(Pick(ds)) == Reported(Pick(cs))
      {
        ReordersKeepsMembers(ds, cs);
        CalmReport(cs, ds);
      }
    } else if !Calm(cs) {
      var i, j := NotCalm(cs);
      MovesReorder(cs, i);
      MovesReorder(cs, j);
      assert Reported(Pick(MoveLast(cs, i))) != Reported(Pick(MoveLast(cs, j)));
    } else {
      var i, j := TwoTops(cs);
      MovesReorder(cs, i);
      MovesReorder(cs, j);
      TopMovedFirst(cs, i);
      TopMovedFirst(cs, j);
      assert Reported(Pick(MoveFirst(cs, i))) != Reported(Pick(MoveFirst(cs, j)));
    }
  }

  lemma TwoTops(cs: seq<Candidate>) returns (i: nat, j: nat)
    requires !OneTopId(cs)
    ensures i < |cs| && j < |cs| && Top(cs, cs[i]) && Top(cs, cs[j]) && cs[i].id != cs[j].id
  {
    var c, d :| Top(cs, c) && Top(cs, d) && c.id != d.id;
    i :| i < |cs| && cs[i] == c;
    j :| j < |cs| && cs[j] == d;
  }

  // ---------- the map ----------

  /** An entry of the category at distance 3 or 4 that shares more than four fifths of the terms. */
  ghost predicate StronglyOverlaps(q: Query, e: Entry)
    requires q.terms != {}
  {
    (AtDistance(q, e, 3) || AtDistance(q, e, 4)) && TermOverlap(q.terms, SignificantTerms(NamePiece(e))) > 0.8
  }

  /** Some entry is at distance 0 or 1, or none is at distance 2, or none overlaps strongly. */
  ghost predicate CalmMap(q: Query, existing: Index)
    requires q.terms != {}
  {
    || (exists e :: e in existing && (AtDistance(q, e, 0) || AtDistance(q, e, 1)))
    || (forall e :: e in existing ==> !AtDistance(q, e, 2))
    || (forall e :: e in existing ==> !StronglyOverlaps(q, e))
  }

  lemma CalmMapMeaning(q: Query, existing: Index)
    requires q.terms != {}
    ensures CalmMap(q, existing) <==> Calm(Candidates(q, existing))
  {
    var cs := Candidates(q, existing);
    forall d: nat | d <= 2
      ensures HasNear(cs, d) <==> exists e :: e in existing && AtDistance(q, e, d)
    {
      NearMeansDistance(q, existing, d);
    }
    StrongMeansOverlap(q, existing);
  }

  lemma NearMeansDistance(q: Query, existing: Index, d: nat)
    requires q.terms != {} && d <= 2
    ensures HasNear(Candidates(q, existing), d) <==> exists e :: e in existing && AtDistance(q, e, d)
  {
    var cs := Candidates(q, existing);
    forall i | 0 <= i < |existing|
      ensures cs[i].verdict == Near(d) <==> AtDistance(q, existing[i], d)
    {
      assert cs[i].verdict == Judge(q, existing[i]);
    }
    if e :| e in existing && AtDistance(q, e, d) {
      var i :| 0 <= i < |existing| && existing[i] == e;
      assert cs[i].verdict == Near(d);
    }
  }

  lemma StrongMeansOverlap(q: Query, existing: Index)
    requires q.terms != {}
    ensures HasStrongOverlap(Candidates(q, existing)) <==> exists e :: e in existing && StronglyOverlaps(q, e)
  {
    var cs := Candidates(q, existing);
    forall i | 0 <= i < |existing|
      ensures cs[i].verdict.Overlapping? && cs[i].verdict.confidence > 0.8 <==> StronglyOverlaps(q, existing[i])
    {
      assert cs[i].verdict == Judge(q, existing[i]);
    }
    if e :| e in existing && StronglyOverlaps(q, e) {
      var i :| 0 <= i < |existing| && existing[i] == e;
      assert cs[i].verdict.Overlapping? && cs[i].verdict.confidence > 0.8;
    }
  }

  lemma CandidatesOfReordered(q: Query, m: Index, existing: Index)
    requires q.terms != {} && Reorders(m, existing)
    ensures SameMembers(Candidates(q, m), Candidates(q, existing))
  {
    ReordersKeepsMembers(m, existing);
    CandidatesIncluded(q, m, existing);
    CandidatesIncluded(q, existing, m);
  }

  lemma CandidatesIncluded(q: Query, m: Index, existing: Index)
    requires q.terms != {} && forall e :: e in m ==> e in existing
    ensures forall c :: c in Candidates(q, m) ==> c in Candidates(q, existing)
  {
    forall c | c in Candidates(q, m)
      ensures c in Candidates(q, existing)
    {
      var i :| 0 <= i < |m| && c == Candidates(q, m)[i];
      assert m[i] in existing;
      var j :| 0 <= j < |existing| && existing[j] == m[i];
      assert Candidates(q, existing)[j] == c;
    }
  }

  lemma CandidatesOfMoved(q: Query, existing: Index, k: nat)
    requires q.terms != {} && k < |existing|
    ensures Candidates(q, MoveLast(existing, k)) == MoveLast(Candidates(q, existing), k)
    ensures Candidates(q, MoveFirst(existing, k)) == MoveFirst(Candidates(q, existing), k)
  {
  }

  ghost predicate HasKey(existing: Index, key: string) {
    exists e :: e in existing && e.key == key
  }

  lemma SameLookup(m: Index, existing: Index, key: string)
    requires Reorders(m, existing)
    ensures Lookup(m, key).Some? <==> Lookup(existing, key).Some?
    ensures Lookup(existing, key).Some? <==> HasKey(existing, key)
  {
    ReordersKeepsMembers(m, existing);
    LookupFindsKey(m, key);
    LookupFindsKey(existing, key);
  }

  ghost predicate ConfidenceIsFree(name: string, category: string, existing: Index) {
    forall m :: Reorders(m, existing) ==>
      Detection(name, category, m).confidence == Detection(name, category, existing).confidence
  }

  /**
   The confidence of a detection is the same for every order of the map exactly when the exact key is
   there, or the name has no significant term, or the map is calm.
   */
  lemma {:induction false} DetectionConfidenceFreeExactly(name: string, category: string, existing: Index)
    ensures var q := QueryOf(name, category);
            ConfidenceIsFree(name, category, existing) <==>
            HasKey(existing, Key(name, category)) || q.terms == {} || CalmMap(q, existing)
  {
    var q := QueryOf(name, category);
    var key := Key(name, category);
    if HasKey(existing, key) || q.terms == {} {
      forall m | Reorders(m, existing)
        ensures Detection(name, category, m).confidence == Detection(name, category, existing).confidence
      {
        SameLookup(m, existing, key);
      }
    } else {
      CalmMapMeaning(q, existing);
      CandidatesAreValid(q, existing);
      if CalmMap(q, existing) {
        forall m | Reorders(m, existing)
          ensures Detection(name, category, m).confidence == Detection(name, category, existing).confidence
        {
          SameLookup(m, existing, key);
          CandidatesOfReordered(q, m, existing);
          CalmConfidence(Candidates(q, existing), Candidates(q, m));
        }
      } else {
        var i, j := NotCalm(Candidates(q, existing));
        SearchOfMoved(name, category, existing, i);
        SearchOfMoved(name, category, existing, j);
        assert Detection(name, category, MoveLast(existing, i)).confidence != Detection(name, category, MoveLast(existing, j)).confidence;
      }
    }
  }

  /** Without the exact key, moving an entry of the map moves its candidate. */
  lemma SearchOfMoved(name: string, category: string, existing: Index, k: nat)
    requires QueryOf(name, category).terms != {} && !HasKey(existing, Key(name, category)) && k < |existing|
    ensures var cs := Candidates(QueryOf(name, category), existing);
            && Reorders(MoveLast(existing, k), existing) && Reorders(MoveFirst(existing, k), existing)
            && Detection(name, category, MoveLast(existing, k)) == Reported(Pick(MoveLast(cs, k)))
            && Detection(name, category, MoveFirst(existing, k)) == Reported(Pick(MoveFirst(cs, k)))
  {
    MovesReorder(existing, k);
    CandidatesOfMoved(QueryOf(name, category), existing, k);
    SameLookup(MoveLast(existing, k), existing, Key(name, category));
    SameLookup(MoveFirst(existing, k), existing, Key(name, category));
  }

  /** The keys of a map are distinct. */
  ghost predicate IsMap(existing: Index) {
    forall e, f :: e in existing && f in existing && e.key == f.key ==> e == f
  }

  lemma {:induction false} LookupInMap(existing: Index, key: string)
    ensures Lookup(existing, key).Some? ==> Entry(key, Lookup(existing, key).value) in existing
    decreases |existing|
  {
    if existing != [] && existing[0].key != key {
      LookupInMap(existing[1..], key);
    }
  }

  ghost predicate ReportIsFree(name: string, category: string, existing: Index) {
    forall m :: Reorders(m, existing) ==> Detection(name, category, m) == Detection(name, category, existing)
  }

  /**
   The whole answer, id and confidence, is the same for every order of the map exactly when the exact
   key is there, or the name has no significant term, or the map is calm and the best candidates
   share one id.
   */
  lemma {:induction false} DetectionFreeExactly(name: string, category: string, existing: Index)
    requires IsMap(existing)
    ensures var q := QueryOf(name, category);
            ReportIsFree(name, category, existing) <==>
            HasKey(existing, Key(name, category)) || q.terms == {} || (CalmMap(q, existing) && OneTopId(Candidates(q, existing)))
  {
    var q := QueryOf(name, category);
    var key := Key(name, category);
    if HasKey(existing, key) || q.terms == {} {
      forall m | Reorders(m, existing)
        ensures Detection(name, category, m) == Detection(name, category, existing)
      {
        SameLookup(m, existing, key);
        ReordersKeepsMembers(m, existing);
        LookupInMap(m, key);
        LookupInMap(existing, key);
      }
    } else {
      SearchFreeExactly(name, category, existing);
    }
  }

  lemma SearchFreeExactly(name: string, category: string, existing: Index)
    requires QueryOf(name, category).terms != {} && !HasKey(existing, Key(name, category))
    ensures var q := QueryOf(name, category);
            ReportIsFree(name, category, existing) <==> CalmMap(q, existing) && OneTopId(Candidates(q, existing))
  {
    var q := QueryOf(name, category);
    var cs := Candidates(q, existing);
    CalmMapMeaning(q, existing);
    CandidatesAreValid(q, existing);
    if Calm(cs) && OneTopId(cs) {
      forall m | Reorders(m, existing)
        ensures Detection(name, category, m) == Detection(name, category, existing)
      {
        SameLookup(m, existing, Key(name, category));
        CandidatesOfReordered(q, m, existing);
        CalmReport(cs, Candidates(q, m));
      }
    } else if !Calm(cs) {
      var i, j := NotCalm(cs);
      SearchOfMoved(name, category, existing, i);
      SearchOfMoved(name, category, existing, j);
      assert Detection(name, category, MoveLast(existing, i)) != Detection(name, category, MoveLast(existing, j));
    } else {
      var i, j := TwoTops(cs);
      TopMovedFirst(cs, i);
      TopMovedFirst(cs, j);
      SearchOfMoved(name, category, existing, i);
      SearchOfMoved(name, category, existing, j);
      assert Detection(name, category, MoveFirst(existing, i)) != Detection(name, category, MoveFirst(existing, j));
    }
  }

  /** An index of records is a map. */
  lemma IndexIsMap(records: seq<Record>)
    ensures IsMap(Indexed(records))
  {
    var index := Indexed(records);
    IndexedOrder(records);
    Distinct(RecordKeys(records));
    forall e, f | e in index && f in index && e.key == f.key
      ensures e == f
    {
      var i :| 0 <= i < |index| && index[i] == e;
      var j :| 0 <= j < |index| && index[j] == f;
      assert KeysOf(index)[i] == KeysOf(index)[j];
    }
  }

  // ---------- a map that is not calm ----------

  lemma {:induction false} WordsThenShort(current: string, s: string, x: char)
    requires !IsSpace(x)
    ensures WordsFrom(current, s + [' ', x], IsSpace) == WordsFrom(current, s, IsSpace) + [[x]]
    decreases |s|
  {
    var t := s + [' ', x];
    if s == [] {
      assert t == [' ', x];
      assert t[1..] == [x];
      assert [x][1..] == [];
      assert [] + [x] == [x];
      assert WordsFrom([], [x], IsSpace) == [[x]];
    } else {
      assert t[1..] == s[1..] + [' ', x];
      WordsThenShort(if IsSpace(s[0]) then [] else current + [s[0]], s[1..], x);
    }
  }

  lemma ShortWordChangesNoTerm(s: string, x: char)
    requires IsAlnum(x)
    ensures SignificantTerms(s + [' ', x]) == SignificantTerms(s)
  {
    assert Lower(s + [' ', x]) == Lower(s) + [' ', x];
    WordsThenShort([], Lower(s), x);
    assert Terms(s + [' ', x]) == Terms(s);
  }

  /**
   For every normalised name with a significant term there are two entries, one at distance 2 and
   one at distance 4, such that the order of the map decides between them: the later one wins.
   */
  lemma WinnerDependsOnOrder(n: string, category: string)
    requires IsNormalName(n) && SignificantTerms(n) != {} && !ContainsBars(category)
    ensures var near := Entry(n + [' ', 'x'] + BARS + category, "near");
            var far := Entry(n + [' ', 'x', ' ', 'y'] + BARS + category, "far");
            && Detection(n, category, [near, far]) == DuplicateResult(true, Some("far"), 0.9)
            && Detection(n, category, [far, near]) == DuplicateResult(true, Some("near"), 0.8)
  {
    var nx, nxy := n + [' ', 'x'], n + [' ', 'x', ' ', 'y'];
    var near, far := Entry(nx + BARS + category, "near"), Entry(nxy + BARS + category, "far");
    NormalNameIsFixed(n);
    var q := QueryOf(n, category);
    JudgeTrailing(n, category, near, far);
    NotExact(n, nx, category);
    NotExact(n, nxy, category);
    Confidences();
    TwoCandidates(q, near, far);
    TwoCandidates(q, far, near);
    LookupTwo(near, far, Key(n, category));
    LookupTwo(far, near, Key(n, category));
  }

  lemma JudgeTrailing(n: string, category: string, near: Entry, far: Entry)
    requires IsNormalName(n) && SignificantTerms(n) != {} && !ContainsBars(category)
    requires near.key == n + [' ', 'x'] + BARS + category
    requires far.key == n + [' ', 'x', ' ', 'y'] + BARS + category
    ensures var q := Query(n, category, SignificantTerms(n));
            Judge(q, near) == Near(2) && Judge(q, far) == Overlapping(4, 0.9)
  {
    EditDistance.AppendCost(n, [' ', 'x']);
    DecodesTo(near, n + [' ', 'x'], category);
    JudgeFar(n, category, far);
  }

  lemma JudgeFar(n: string, category: string, far: Entry)
    requires IsNormalName(n) && SignificantTerms(n) != {} && !ContainsBars(category)
    requires far.key == n + [' ', 'x', ' ', 'y'] + BARS + category
    ensures Judge(Query(n, category, SignificantTerms(n)), far) == Overlapping(4, 0.9)
  {
    EditDistance.AppendCost(n, [' ', 'x', ' ', 'y']);
    DecodesTo(far, n + [' ', 'x', ' ', 'y'], category);
    TwoShortWords(n);
    SelfOverlap(SignificantTerms(n));
  }

  lemma TwoShortWords(n: string)
    ensures SignificantTerms(n + [' ', 'x', ' ', 'y']) == SignificantTerms(n)
  {
    ShortWordChangesNoTerm(n, 'x');
    ShortWordChangesNoTerm(n + [' ', 'x'], 'y');
    assert n + [' ', 'x', ' ', 'y'] == n + [' ', 'x'] + [' ', 'y'];
  }

  lemma SelfOverlap(s: set<string>)
    requires s != {}
    ensures TermOverlap(s, s) == 1.0
  {
    assert s * s == s;
    var k := |s|;
    assert k * 2 == k + k;
    DivideBySelf((k * 2) as real);
  }

  lemma DivideBySelf(x: real)
    requires x > 0.0
    ensures x / x == 1.0
  {
  }

  lemma TwoCandidates(q: Query, e: Entry, f: Entry)
    requires q.terms != {}
    ensures Pick(Candidates(q, [e, f])) ==
            Better(Better(None, Candidate(e.id, Judge(q, e))), Candidate(f.id, Judge(q, f)))
  {
    assert Candidates(q, [e, f]) == [Candidate(e.id, Judge(q, e)), Candidate(f.id, Judge(q, f))];
    PickTwo(Candidate(e.id, Judge(q, e)), Candidate(f.id, Judge(q, f)));
  }

  lemma LookupTwo(e: Entry, f: Entry, key: string)
    requires e.key != key && f.key != key
    ensures Lookup([e, f], key) == None
  {
    assert [e, f][1..] == [f] && [f][1..] == [];
    assert Lookup([f], key) == None;
  }

  lemma DecodesTo(e: Entry, piece: string, category: string)
    requires BarFree(piece) && !ContainsBars(category) && e.key == piece + BARS + category
    ensures NamePiece(e) == piece && SameCategory(e, category)
  {
    SplitAfterName([], piece, category);
    FirstPiece([], category);
    assert [] + piece == piece && [] + category == category;
  }

  lemma NotExact(n: string, longer: string, category: string)
    requires |longer| != |n|
    ensures longer + BARS + category != n + BARS + category
  {
  }
}
