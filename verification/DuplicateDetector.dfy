/**
 The duplicate detector of prisma/seed-scripts/duplicate-detector.ts: normalised names, the
 composite-key index, and the search for the best match.
 */
module DuplicateDetector {
  import opened Wrappers
  import opened Text
  import opened InsertionOrder
  import EditDistance

  // ---------- normalised names ----------

  predicate IsIllegal(c: char) {
    !(IsAlnum(c) || IsSpace(c))
  }

  predicate IsNameChar(c: char) {
    IsAlnum(c) || c == ' '
  }

  function NormalizeName(name: string): string {
    var legal := Recolour(Lower(name), IsIllegal, ' ');
    Trim(Collapse(legal, IsSpace, ' '))
  }

  ghost predicate IsNormalName(s: string) {
    All(s, IsNameChar) && Tight(s, ' ')
  }

  /** A normalised name is the runs of letters and digits of the name, joined by single blanks. */
  lemma NormalizeJoinsWords(name: string)
    ensures IsNormalName(NormalizeName(name))
    ensures NormalizeName(name) == Join(Words(Lower(name), IsSeparator), ' ')
  {
    var legal := Recolour(Lower(name), IsIllegal, ' ');
    var collapsed := Collapse(legal, IsSpace, ' ');
    var normal := NormalizeName(name);
    RecolourKeepsWords([], Lower(name), IsIllegal, ' ', IsSeparator, IsSeparator);
    CollapseKeepsWords(false, [], legal, IsSpace, ' ', IsSeparator);
    StripKeepsWords(collapsed, IsSpace, IsSeparator);
    CollapseAlphabet(false, legal, IsSpace, ' ', IsNameChar);
    CollapseNoDoubled(false, legal, IsSpace, ' ');
    StripTight(collapsed, ' ', IsSpace);
    var lo, hi := StripShape(collapsed, IsSpace);
    TightIsJoined([], normal, ' ', IsSeparator);
  }

  lemma NormalizeFixedPoints(s: string)
    ensures NormalizeName(s) == s <==> IsNormalName(s)
    ensures NormalizeName(NormalizeName(s)) == NormalizeName(s)
  {
    NormalizeJoinsWords(s);
    NormalNameIsFixed(NormalizeName(s));
    if IsNormalName(s) {
      NormalNameIsFixed(s);
    }
  }

  lemma NormalNameIsFixed(s: string)
    requires IsNormalName(s)
    ensures NormalizeName(s) == s
  {
    assert Lower(s) == s;
    assert Recolour(s, IsIllegal, ' ') == s;
    CollapseFixed(false, s, IsSpace, ' ');
    StripFixed(s, IsSpace);
  }

  // ---------- significant terms ----------

  const STOP_WORDS: set<string> := {
    "the", "and", "for", "with", "from", "grade", "type", "size",
    "made", "new", "best", "high", "top", "super", "ultra", "premium",
    "quality", "standard", "industrial", "commercial"
  }

  /** The words of more than two characters. */
  function Terms(name: string): set<string> {
    set w | w in Words(Lower(name), IsSpace) && |w| > 2
  }

  function SignificantTerms(name: string): set<string> {
    Terms(name) - STOP_WORDS
  }

  // ---------- composite keys ----------

  const BARS: string := ['|', '|', '|']

  function Key(name: string, category: string): string {
    NormalizeName(name) + BARS + category
  }

  /** `key.split('|||')` */
  function SplitBars(s: string): seq<string> {
    SplitFrom([], s)
  }

  function SplitFrom(current: string, s: string): (pieces: seq<string>)
    ensures pieces != []
    decreases |s|
  {
    if s == [] then [current]
    else if BARS <= s then [current] + SplitFrom([], s[3..])
    else SplitFrom(current + [s[0]], s[1..])
  }

  ghost predicate ContainsBars(s: string)
    decreases |s|
  {
    s != [] && (BARS <= s || ContainsBars(s[1..]))
  }

  ghost predicate BarFree(s: string) {
    forall i :: 0 <= i < |s| ==> s[i] != '|'
  }

  lemma {:induction false} SplitAfterName(current: string, n: string, category: string)
    requires BarFree(n)
    ensures SplitFrom(current, n + BARS + category) == [current + n] + SplitFrom([], category)
    decreases |n|
  {
    var s := n + BARS + category;
    if n == [] {
      assert s == BARS + category;
      assert s[3..] == category;
      assert current + n == current;
    } else {
      assert s[0] == n[0] && s[1..] == n[1..] + BARS + category;
      assert !(BARS <= s) by { assert BARS[0] == '|'; }
      SplitAfterName(current + [n[0]], n[1..], category);
      assert current + [n[0]] + n[1..] == current + n;
    }
  }

  /** The first piece of a category is the whole category exactly when it contains no "|||". */
  lemma {:induction false} FirstPiece(current: string, s: string)
    ensures SplitFrom(current, s)[0] == current + s <==> !ContainsBars(s)
    ensures ContainsBars(s) ==> |SplitFrom(current, s)[0]| < |current| + |s|
    decreases |s|
  {
    if s == [] || BARS <= s {
    } else {
      FirstPiece(current + [s[0]], s[1..]);
      assert current + [s[0]] + s[1..] == current + s;
    }
  }

  lemma NormalNameIsBarFree(name: string)
    ensures BarFree(NormalizeName(name))
  {
    NormalizeJoinsWords(name);
    var n := NormalizeName(name);
    forall i | 0 <= i < |n|
      ensures n[i] != '|'
    {
      assert IsNameChar(n[i]);
    }
  }

  /** The key encoding is injective, whatever the categories contain. */
  lemma KeyInjective(m: string, c: string, n: string, d: string)
    ensures Key(m, c) == Key(n, d) <==> NormalizeName(m) == NormalizeName(n) && c == d
  {
    if Key(m, c) == Key(n, d) {
      NormalNameIsBarFree(m);
      NormalNameIsBarFree(n);
      SplitAfterName([], NormalizeName(m), c);
      SplitAfterName([], NormalizeName(n), d);
      assert SplitBars(Key(m, c))[0] == NormalizeName(m);
      assert SplitBars(Key(n, d))[0] == NormalizeName(n);
      var k := |NormalizeName(m)| + 3;
      assert Key(m, c)[k..] == c && Key(n, d)[k..] == d;
    }
  }

  // ---------- the index ----------

  datatype Entry = Entry(key: string, id: string)

  /** A JavaScript Map with string keys: entries in order of first insertion. */
  type Index = seq<Entry>

  function Lookup(index: Index, key: string): Option<string> {
    if index == [] then None
    else if index[0].key == key then Some(index[0].id)
    else Lookup(index[1..], key)
  }

  function Put(index: Index, key: string, id: string): Index {
    if index == [] then [Entry(key, id)]
    else if index[0].key == key then [Entry(key, id)] + index[1..]
    else [index[0]] + Put(index[1..], key, id)
  }

  lemma {:induction false} LookupPut(index: Index, key: string, id: string, other: string)
    ensures Lookup(Put(index, key, id), other) == if other == key then Some(id) else Lookup(index, other)
    decreases |index|
  {
    if index != [] && index[0].key != key {
      LookupPut(index[1..], key, id, other);
    }
  }

  lemma {:induction false} EntriesOfPut(index: Index, key: string, id: string, e: Entry)
    requires e in Put(index, key, id)
    ensures e in index || e == Entry(key, id)
    decreases |index|
  {
    if index != [] && index[0].key != key && e != index[0] {
      EntriesOfPut(index[1..], key, id, e);
    }
  }

  lemma {:induction false} LookupFindsKey(index: Index, key: string)
    ensures Lookup(index, key).Some? <==> exists e :: e in index && e.key == key
    decreases |index|
  {
    if index != [] {
      LookupFindsKey(index[1..], key);
      if index[0].key == key {
        assert index[0] in index;
      }
    }
  }

  datatype Record = Record(name: string, categoryId: string, id: string)

  function Indexed(records: seq<Record>): Index {
    if records == [] then []
    else
      var r := records[|records| - 1];
      Put(Indexed(records[..|records| - 1]), Key(r.name, r.categoryId), r.id)
  }

  method BuildExistingIndex(records: seq<Record>) returns (index: Index)
    ensures index == Indexed(records)
  {
    index := [];
    for i := 0 to |records|
      invariant index == Indexed(records[..i])
    {
      var key := Key(records[i].name, records[i].categoryId);
      assert records[..i + 1][..i] == records[..i];
      index := Put(index, key, records[i].id);
    }
    assert records[..|records|] == records;
  }

  /** The id of the last record with this normalised name and category. */
  function LastId(records: seq<Record>, normalized: string, category: string): Option<string> {
    if records == [] then None
    else
      var r := records[|records| - 1];
      if NormalizeName(r.name) == normalized && r.categoryId == category then Some(r.id)
      else LastId(records[..|records| - 1], normalized, category)
  }

  /** Looking a key up in the index finds the last record it stands for, and nothing else. */
  lemma {:induction false} IndexedLookup(records: seq<Record>, name: string, category: string)
    ensures Lookup(Indexed(records), Key(name, category)) == LastId(records, NormalizeName(name), category)
    decreases |records|
  {
    if records != [] {
      var r := records[|records| - 1];
      var front := records[..|records| - 1];
      IndexedLookup(front, name, category);
      LookupPut(Indexed(front), Key(r.name, r.categoryId), r.id, Key(name, category));
      KeyInjective(r.name, r.categoryId, name, category);
    }
  }

  lemma {:induction false} IndexedEntries(records: seq<Record>, e: Entry)
    requires e in Indexed(records)
    ensures exists r :: r in records && e.key == Key(r.name, r.categoryId)
    decreases |records|
  {
    var r := records[|records| - 1];
    var front := records[..|records| - 1];
    EntriesOfPut(Indexed(front), Key(r.name, r.categoryId), r.id, e);
    assert r in records;
    if e in Indexed(front) {
      IndexedEntries(front, e);
      var r' :| r' in front && e.key == Key(r'.name, r'.categoryId);
      assert r' in records;
    }
  }

  function KeysOf(index: Index): seq<string> {
    seq(|index|, i requires 0 <= i < |index| => index[i].key)
  }

  function RecordKeys(records: seq<Record>): seq<string> {
    seq(|records|, i requires 0 <= i < |records| => Key(records[i].name, records[i].categoryId))
  }

  lemma KeysOfCons(e: Entry, rest: Index)
    ensures KeysOf([e] + rest) == [e.key] + KeysOf(rest)
  {
  }

  lemma {:induction false} KeysOfPut(index: Index, key: string, id: string)
    ensures KeysOf(Put(index, key, id)) == AddOnce(KeysOf(index), key)
    decreases |index|
  {
    if index == [] {
      assert KeysOf(Put(index, key, id)) == [key];
    } else {
      var head, rest := index[0], index[1..];
      assert index == [head] + rest;
      KeysOfCons(head, rest);
      if head.key == key {
        KeysOfCons(Entry(key, id), rest);
      } else {
        KeysOfPut(rest, key, id);
        KeysOfCons(head, Put(rest, key, id));
        AddBehind(head.key, KeysOf(rest), key);
      }
    }
  }

  lemma AddBehind(head: string, rest: seq<string>, key: string)
    requires head != key
    ensures AddOnce([head] + rest, key) == [head] + AddOnce(rest, key)
  {
  }

  /** The index lists its keys once each, in order of their first record: the order the search iterates in. */
  lemma {:induction false} IndexedOrder(records: seq<Record>)
    ensures KeysOf(Indexed(records)) == FirstSeen(RecordKeys(records))
    decreases |records|
  {
    if records != [] {
      var r := records[|records| - 1];
      var front := records[..|records| - 1];
      IndexedOrder(front);
      KeysOfPut(Indexed(front), Key(r.name, r.categoryId), r.id);
      RecordKeysStep(records);
      AppendOne(RecordKeys(front), Key(r.name, r.categoryId));
    }
  }

  lemma RecordKeysStep(records: seq<Record>)
    requires records != []
    ensures var r := records[|records| - 1];
            RecordKeys(records) == RecordKeys(records[..|records| - 1]) + [Key(r.name, r.categoryId)]
  {
    var r := records[|records| - 1];
    var front := records[..|records| - 1];
    var all, some := RecordKeys(records), RecordKeys(front);
    forall i | 0 <= i < |front|
      ensures all[i] == some[i]
    {
      assert front[i] == records[i];
    }
  }

  // ---------- judging one entry ----------

  datatype Query = Query(normalized: string, category: string, terms: set<string>)

  datatype Verdict =
    | Unrelated
    | Near(distance: nat)
    | Overlapping(distance: nat, confidence: real)

  datatype Candidate = Candidate(id: string, verdict: Verdict)

  datatype Match = Match(id: string, distance: nat, overlap: real)

  function NamePiece(e: Entry): string {
    SplitBars(e.key)[0]
  }

  /** `existingCategory === categoryId`; the category is undefined when the key has no "|||". */
  predicate SameCategory(e: Entry, category: string) {
    var pieces := SplitBars(e.key);
    |pieces| > 1 && pieces[1] == category
  }

  function TermOverlap(s: set<string>, t: set<string>): real
    requires s != {}
  {
    (|s * t| * 2) as real / (|s| + |t|) as real
  }

  function Max(x: real, y: real): real {
    if x >= y then x else y
  }

  function Min(x: real, y: real): real {
    if x <= y then x else y
  }

  function NearConfidence(distance: nat): real {
    Max(0.5, 1.0 - distance as real / 10.0)
  }

  function Judge(q: Query, e: Entry): Verdict
    requires q.terms != {}
  {
    if !SameCategory(e, q.category) then Unrelated
    else
      var d := EditDistance.Distance(q.normalized, NamePiece(e));
      if d < 3 then Near(d)
      else if d < 5 then
        var overlap := TermOverlap(q.terms, SignificantTerms(NamePiece(e)));
        if overlap > 0.6 then Overlapping(d, Min(0.9, overlap)) else Unrelated
      else Unrelated
  }

  predicate ValidVerdict(v: Verdict) {
    match v
    case Unrelated => true
    case Near(d) => d <= 2
    case Overlapping(d, c) => 3 <= d <= 4 && 0.6 < c <= 0.9
  }

  // ---------- the search ----------

  function Better(best: Option<Match>, c: Candidate): Option<Match> {
    match c.verdict
    case Unrelated => best
    case Near(d) =>
      if best.None? || d < best.value.distance then Some(Match(c.id, d, NearConfidence(d))) else best
    case Overlapping(d, confidence) =>
      if best.None? || confidence > best.value.overlap then Some(Match(c.id, d, confidence)) else best
  }

  function Pick(cs: seq<Candidate>): Option<Match> {
    if cs == [] then None else Better(Pick(cs[..|cs| - 1]), cs[|cs| - 1])
  }

  function Candidates(q: Query, existing: Index): seq<Candidate>
    requires q.terms != {}
  {
    seq(|existing|, i requires 0 <= i < |existing| => Candidate(existing[i].id, Judge(q, existing[i])))
  }

  datatype DuplicateResult = DuplicateResult(isDuplicate: bool, existingId: Option<string>, confidence: real)

  const NOT_DUPLICATE: DuplicateResult := DuplicateResult(false, None, 0.0)

  function QueryOf(name: string, category: string): Query {
    Query(NormalizeName(name), category, SignificantTerms(NormalizeName(name)))
  }

  function Detection(name: string, category: string, existing: Index): DuplicateResult {
    var exact := Lookup(existing, Key(name, category));
    var q := QueryOf(name, category);
    if exact.Some? then DuplicateResult(true, exact, 1.0)
    else if q.terms == {} then NOT_DUPLICATE
    else Reported(Pick(Candidates(q, existing)))
  }

  function Reported(best: Option<Match>): DuplicateResult {
    if best.Some? then DuplicateResult(true, Some(best.value.id), best.value.overlap) else NOT_DUPLICATE
  }

  /** The spread-and-filter intersection of the source. */
  method OverlapOf(inTerms: set<string>, exTerms: set<string>) returns (overlap: real)
    requires inTerms != {}
    ensures overlap == TermOverlap(inTerms, exTerms)
  {
    var common := set t | t in inTerms && t in exTerms;
    assert common == inTerms * exTerms;
    overlap := (|common| * 2) as real / (|inTerms| + |exTerms|) as real;
  }

  lemma PickStep(q: Query, existing: Index, i: nat)
    requires q.terms != {} && i < |existing|
    ensures Pick(Candidates(q, existing)[..i + 1]) ==
            Better(Pick(Candidates(q, existing)[..i]), Candidate(existing[i].id, Judge(q, existing[i])))
  {
    var cs := Candidates(q, existing);
    assert cs[..i + 1][..i] == cs[..i];
  }

  method ConsiderNear(id: string, dist: nat, best: Option<Match>) returns (bestMatch: Option<Match>)
    ensures bestMatch == Better(best, Candidate(id, Near(dist)))
  {
    var confidence := Max(0.5, 1.0 - dist as real / 10.0);
    bestMatch := best;
    if bestMatch.None? || dist < bestMatch.value.distance {
      bestMatch := Some(Match(id, dist, confidence));
    }
  }

  method ConsiderOverlap(id: string, dist: nat, overlap: real, best: Option<Match>) returns (bestMatch: Option<Match>)
    ensures bestMatch == Better(best, Candidate(id, if overlap > 0.6 then Overlapping(dist, Min(0.9, overlap)) else Unrelated))
  {
    bestMatch := best;
    if overlap > 0.6 {
      var confidence := Min(0.9, overlap);
      if bestMatch.None? || confidence > bestMatch.value.overlap {
        bestMatch := Some(Match(id, dist, confidence));
      }
    }
  }

  /** One iteration of the search, with its early exits. */
  method Consider(normalized: string, categoryId: string, inTerms: set<string>, entry: Entry,
                  best: Option<Match>)
    returns (bestMatch: Option<Match>)
    requires inTerms != {}
    ensures bestMatch == Better(best, Candidate(entry.id, Judge(Query(normalized, categoryId, inTerms), entry)))
  {
    bestMatch := best;
    var pieces := SplitBars(entry.key);
    if |pieces| <= 1 || pieces[1] != categoryId {
      return;
    }
    var dist := EditDistance.LevenshteinDistance(normalized, pieces[0]);
    if dist < 3 {
      bestMatch := ConsiderNear(entry.id, dist, best);
    } else if dist < 5 {
      var exTerms := SignificantTerms(pieces[0]);
      var overlap := OverlapOf(inTerms, exTerms);
      bestMatch := ConsiderOverlap(entry.id, dist, overlap, best);
    }
  }

  method DetectDuplicate(name: string, categoryId: string, existing: Index) returns (result: DuplicateResult)
    ensures result == Detection(name, categoryId, existing)
  {
    var normalized := NormalizeName(name);
    var exact := Lookup(existing, normalized + BARS + categoryId);
    if exact.Some? {
      return DuplicateResult(true, exact, 1.0);
    }
    var inTerms := SignificantTerms(normalized);
    if inTerms == {} {
      return DuplicateResult(false, None, 0.0);
    }
    var bestMatch: Option<Match> := None;
    ghost var q := Query(normalized, categoryId, inTerms);
    for i := 0 to |existing|
      invariant bestMatch == Pick(Candidates(q, existing)[..i])
    {
      PickStep(q, existing, i);
      bestMatch := Consider(normalized, categoryId, inTerms, existing[i], bestMatch);
    }
    assert Candidates(q, existing)[..|existing|] == Candidates(q, existing);
    if bestMatch.Some? {
      return DuplicateResult(true, Some(bestMatch.value.id), bestMatch.value.overlap);
    }
    return DuplicateResult(false, None, 0.0);
  }

  // ---------- the search, independent of what the entries are ----------

  ghost predicate AllValid(cs: seq<Candidate>) {
    forall i :: 0 <= i < |cs| ==> ValidVerdict(cs[i].verdict)
  }

  ghost predicate HasNear(cs: seq<Candidate>, d: nat) {
    exists i :: 0 <= i < |cs| && cs[i].verdict == Near(d)
  }

  /** `m` is the first candidate at distance `d`. */
  ghost predicate FirstNear(cs: seq<Candidate>, d: nat, id: string) {
    exists i :: 0 <= i < |cs| && cs[i] == Candidate(id, Near(d))
                && forall j :: 0 <= j < i ==> cs[j].verdict != Near(d)
  }

  /** Some candidate at distance 2 is followed by no overlap match of confidence above 0.8. */
  ghost predicate SettledAtTwo(cs: seq<Candidate>) {
    exists i :: 0 <= i < |cs| && cs[i].verdict == Near(2) && Undisturbed(cs, i)
  }

  ghost predicate Undisturbed(cs: seq<Candidate>, i: nat) {
    forall j :: i < j < |cs| && cs[j].verdict.Overlapping? ==> cs[j].verdict.confidence <= 0.8
  }

  lemma Confidences()
    ensures NearConfidence(0) == 1.0 && NearConfidence(1) == 0.9 && NearConfidence(2) == 0.8
  {
  }

  lemma {:induction false} PickFindsAny(cs: seq<Candidate>)
    ensures Pick(cs).Some? <==> exists i :: 0 <= i < |cs| && !cs[i].verdict.Unrelated?
    decreases |cs|
  {
    if cs != [] {
      var front, last := cs[..|cs| - 1], cs[|cs| - 1];
      PickFindsAny(front);
      if !last.verdict.Unrelated? {
        assert !cs[|cs| - 1].verdict.Unrelated?;
      } else if Pick(front).Some? {
        var i :| 0 <= i < |front| && !front[i].verdict.Unrelated?;
        assert !cs[i].verdict.Unrelated?;
      }
    }
  }

  /** A candidate at distance 0, or failing that at distance 1, always wins; the first such one. */
  lemma {:induction false} CloseWins(cs: seq<Candidate>, d: nat)
    requires AllValid(cs) && d <= 1 && HasNear(cs, d)
    requires d == 1 ==> !HasNear(cs, 0)
    ensures Pick(cs).Some? && Pick(cs).value.distance == d && Pick(cs).value.overlap == NearConfidence(d)
    ensures FirstNear(cs, d, Pick(cs).value.id)
    decreases |cs|
  {
    var front, last := cs[..|cs| - 1], cs[|cs| - 1];
    assert forall i :: 0 <= i < |front| ==> front[i] == cs[i];
    Confidences();
    assert ValidVerdict(last.verdict);
    assert d == 1 ==> last.verdict != Near(0) by {
      if last.verdict == Near(0) { assert cs[|cs| - 1].verdict == Near(0); }
    }
    if HasNear(front, d) {
      CloseWins(front, d);
      var i :| 0 <= i < |front| && front[i] == Candidate(Pick(front).value.id, Near(d))
               && forall j :: 0 <= j < i ==> front[j].verdict != Near(d);
      assert cs[i] == front[i];
    } else {
      var i :| 0 <= i < |cs| && cs[i].verdict == Near(d);
      assert forall j :: 0 <= j < |front| ==> front[j].verdict != Near(d);
      FarSoFar(front, d);
      assert cs[|cs| - 1] == Candidate(last.id, Near(d));
      assert forall j :: 0 <= j < |cs| - 1 ==> cs[j].verdict != Near(d) by {
        forall j | 0 <= j < |cs| - 1
          ensures cs[j].verdict != Near(d)
        {
          assert front[j] == cs[j];
        }
      }
    }
  }

  lemma {:induction false} FarSoFar(cs: seq<Candidate>, d: nat)
    requires AllValid(cs) && d <= 1 && !HasNear(cs, d) && (d == 1 ==> !HasNear(cs, 0))
    ensures Pick(cs).Some? ==> Pick(cs).value.distance > d
    decreases |cs|
  {
    if cs != [] {
      var front, last := cs[..|cs| - 1], cs[|cs| - 1];
      FarSoFar(front, d);
      assert ValidVerdict(last.verdict) && last.verdict != Near(d);
      assert d == 1 ==> last.verdict != Near(0);
    }
  }

  /**
   With nothing closer than 2: a distance-2 match wins exactly when no overlap match of confidence
   above 0.8 comes after the last of them. Otherwise the winner is an overlap match.
   */
  lemma {:induction false} TwoWinsExactlyWhenSettled(cs: seq<Candidate>)
    requires AllValid(cs) && !HasNear(cs, 0) && !HasNear(cs, 1)
    ensures Pick(cs).Some? && Pick(cs).value.distance == 2 <==> SettledAtTwo(cs)
    ensures Pick(cs).Some? ==>
              2 <= Pick(cs).value.distance <= 4 && 0.6 < Pick(cs).value.overlap <= 0.9
              && (Pick(cs).value.distance == 2 ==> Pick(cs).value.overlap == 0.8)
    decreases |cs|
  {
    if cs == [] {
    } else {
      var front, last := cs[..|cs| - 1], cs[|cs| - 1];
      assert forall i :: 0 <= i < |front| ==> front[i] == cs[i];
      assert !HasNear(front, 0) && !HasNear(front, 1);
      TwoWinsExactlyWhenSettled(front);
      Confidences();
      assert ValidVerdict(last.verdict) && last.verdict != Near(0) && last.verdict != Near(1);
      SettledStep(cs);
    }
  }

  /** How one more candidate changes `SettledAtTwo`. */
  lemma SettledStep(cs: seq<Candidate>)
    requires cs != []
    ensures var last := cs[|cs| - 1].verdict;
            SettledAtTwo(cs) <==>
            last == Near(2)
            || (SettledAtTwo(cs[..|cs| - 1]) && (last.Overlapping? ==> last.confidence <= 0.8))
  {
    var front, last := cs[..|cs| - 1], cs[|cs| - 1].verdict;
    assert forall i :: 0 <= i < |front| ==> front[i] == cs[i];
    if last == Near(2) {
      assert Undisturbed(cs, |cs| - 1);
    } else if SettledAtTwo(cs) {
      var i :| 0 <= i < |cs| && cs[i].verdict == Near(2) && Undisturbed(cs, i);
      assert front[i].verdict == Near(2) && Undisturbed(front, i);
    } else if SettledAtTwo(front) && (last.Overlapping? ==> last.confidence <= 0.8) {
      var i :| 0 <= i < |front| && front[i].verdict == Near(2) && Undisturbed(front, i);
      assert cs[i].verdict == Near(2) && Undisturbed(cs, i);
    }
  }

  /** With overlap matches only, the greatest confidence wins, whatever the order. */
  lemma {:induction false} OverlapOnlyMaximises(cs: seq<Candidate>)
    requires AllValid(cs) && forall i :: 0 <= i < |cs| ==> !cs[i].verdict.Near?
    ensures forall i :: 0 <= i < |cs| && cs[i].verdict.Overlapping? ==>
              Pick(cs).Some? && cs[i].verdict.confidence <= Pick(cs).value.overlap
    ensures Pick(cs).Some? ==>
              exists i :: 0 <= i < |cs| && cs[i].verdict == Overlapping(Pick(cs).value.distance, Pick(cs).value.overlap)
                          && cs[i].id == Pick(cs).value.id
    decreases |cs|
  {
    if cs != [] {
      var front, last := cs[..|cs| - 1], cs[|cs| - 1];
      assert forall i :: 0 <= i < |front| ==> front[i] == cs[i];
      OverlapOnlyMaximises(front);
      assert cs[|cs| - 1] == last;
      if Pick(cs).Some? && Pick(cs) == Pick(front) {
        var i :| 0 <= i < |front| && front[i].verdict == Overlapping(Pick(front).value.distance, Pick(front).value.overlap)
                 && front[i].id == Pick(front).value.id;
        assert cs[i] == front[i];
      }
    }
  }

  /** The least distance wins: always with a match at 0 or 1, and otherwise, if some match is at 2, exactly when settled. */
  lemma NearestWinsExactly(cs: seq<Candidate>)
    requires AllValid(cs)
    requires exists i :: 0 <= i < |cs| && cs[i].verdict.Near?
    ensures Pick(cs).Some?
    ensures (forall i :: 0 <= i < |cs| && !cs[i].verdict.Unrelated? ==> Pick(cs).value.distance <= cs[i].verdict.distance)
            <==> HasNear(cs, 0) || HasNear(cs, 1) || SettledAtTwo(cs)
    ensures (forall i :: 0 <= i < |cs| ==> !cs[i].verdict.Overlapping?) ==>
              HasNear(cs, 0) || HasNear(cs, 1) || SettledAtTwo(cs)
  {
    var k :| 0 <= k < |cs| && cs[k].verdict.Near?;
    WithoutOverlapSettled(cs, k);
    assert ValidVerdict(cs[k].verdict);
    PickFindsAny(cs);
    if HasNear(cs, 0) {
      CloseWins(cs, 0);
    } else if HasNear(cs, 1) {
      CloseWins(cs, 1);
      NothingCloser(cs, 0);
    } else {
      TwoWinsExactlyWhenSettled(cs);
      NothingCloser(cs, 0);
      NothingCloser(cs, 1);
      assert cs[k].verdict == Near(2);
    }
  }

  lemma WithoutOverlapSettled(cs: seq<Candidate>, k: nat)
    requires AllValid(cs) && k < |cs| && cs[k].verdict.Near?
    ensures (forall i :: 0 <= i < |cs| ==> !cs[i].verdict.Overlapping?) ==>
              HasNear(cs, 0) || HasNear(cs, 1) || SettledAtTwo(cs)
  {
    assert ValidVerdict(cs[k].verdict);
    if forall i :: 0 <= i < |cs| ==> !cs[i].verdict.Overlapping? {
      assert Undisturbed(cs, k);
    }
  }

  lemma NothingCloser(cs: seq<Candidate>, d: nat)
    requires AllValid(cs) && d <= 1 && !HasNear(cs, d)
    ensures forall i :: 0 <= i < |cs| && !cs[i].verdict.Unrelated? ==> cs[i].verdict.distance != d
  {
    forall i | 0 <= i < |cs| && !cs[i].verdict.Unrelated?
      ensures cs[i].verdict.distance != d
    {
      assert ValidVerdict(cs[i].verdict);
    }
  }

  // ---------- what detection means ----------

  lemma JudgeIsValid(q: Query, e: Entry)
    requires q.terms != {}
    ensures ValidVerdict(Judge(q, e))
  {
  }

  lemma CandidatesAreValid(q: Query, existing: Index)
    requires q.terms != {}
    ensures AllValid(Candidates(q, existing))
  {
    forall i | 0 <= i < |existing|
      ensures ValidVerdict(Candidates(q, existing)[i].verdict)
    {
      JudgeIsValid(q, existing[i]);
    }
  }

  /** The fuzzy condition on one entry, in terms of edit distance and shared terms. */
  ghost predicate Resembles(name: string, category: string, e: Entry) {
    var q := QueryOf(name, category);
    var d := EditDistance.Distance(q.normalized, NamePiece(e));
    && q.terms != {}
    && SameCategory(e, category)
    && (d <= 2 || (d <= 4 && TermOverlap(q.terms, SignificantTerms(NamePiece(e))) > 0.6))
  }

  /** The verdict, with no reference to the order of the map. */
  lemma VerdictMeaning(name: string, category: string, existing: Index)
    ensures Detection(name, category, existing).isDuplicate <==>
            (exists e :: e in existing && e.key == Key(name, category))
            || (exists e :: e in existing && Resembles(name, category, e))
  {
    LookupFindsKey(existing, Key(name, category));
    var q := QueryOf(name, category);
    if q.terms != {} {
      var cs := Candidates(q, existing);
      PickFindsAny(cs);
      forall i | 0 <= i < |existing|
        ensures !cs[i].verdict.Unrelated? <==> Resembles(name, category, existing[i])
      {
        assert cs[i].verdict == Judge(q, existing[i]);
      }
    }
  }

  lemma VerdictIgnoresOrder(name: string, category: string, existing: Index, reordered: Index)
    requires multiset(existing) == multiset(reordered)
    ensures Detection(name, category, existing).isDuplicate == Detection(name, category, reordered).isDuplicate
  {
    VerdictMeaning(name, category, existing);
    VerdictMeaning(name, category, reordered);
    assert forall e :: e in existing <==> e in multiset(existing);
    assert forall e :: e in reordered <==> e in multiset(reordered);
  }

  /** An entry whose name piece is the queried name although its key is not the exact key. */
  ghost predicate Impostor(name: string, category: string, e: Entry) {
    SameCategory(e, category) && NamePiece(e) == NormalizeName(name)
  }

  /**
   Confidence, for any map: 0 for a non-duplicate, 1 for an exact key, 1 without the exact key
   exactly when the search meets an impostor, and otherwise in (0.6, 0.9].
   */
  lemma ConfidenceMeaning(name: string, category: string, existing: Index)
    ensures var r := Detection(name, category, existing);
            var exact := exists e :: e in existing && e.key == Key(name, category);
            var q := QueryOf(name, category);
            var impostor := q.terms != {} && exists e :: e in existing && Impostor(name, category, e);
            && (!r.isDuplicate ==> r.confidence == 0.0)
            && (r.confidence == 1.0 <==> exact || impostor)
            && (r.isDuplicate && !exact && !impostor ==> 0.6 < r.confidence <= 0.9)
  {
    LookupFindsKey(existing, Key(name, category));
    var q := QueryOf(name, category);
    if q.terms != {} {
      var cs := Candidates(q, existing);
      CandidatesAreValid(q, existing);
      ImpostorIsNearZero(name, category, existing);
      Confidences();
      if HasNear(cs, 0) {
        CloseWins(cs, 0);
      } else if HasNear(cs, 1) {
        CloseWins(cs, 1);
      } else {
        TwoWinsExactlyWhenSettled(cs);
      }
    }
  }

  lemma ImpostorIsNearZero(name: string, category: string, existing: Index)
    requires QueryOf(name, category).terms != {}
    ensures HasNear(Candidates(QueryOf(name, category), existing), 0)
            <==> exists e :: e in existing && Impostor(name, category, e)
  {
    var q := QueryOf(name, category);
    var cs := Candidates(q, existing);
    forall i | 0 <= i < |existing|
      ensures cs[i].verdict == Near(0) <==> Impostor(name, category, existing[i])
    {
      EditDistance.ZeroExactlyWhenEqual(q.normalized, NamePiece(existing[i]));
      assert cs[i].verdict == Judge(q, existing[i]);
    }
  }

  /** `e` is of the queried category and its name lies at edit distance `d`. */
  ghost predicate AtDistance(q: Query, e: Entry, d: nat) {
    SameCategory(e, q.category) && EditDistance.Distance(q.normalized, NamePiece(e)) == d
  }

  /**
   An entry at distance 1 wins with confidence 0.9 whatever else the map holds and in whatever
   order, short of the exact key or an impostor: the first entry at distance 1 is the match.
   */
  lemma DistanceOneWins(name: string, category: string, existing: Index, k: nat)
    requires k < |existing|
    requires QueryOf(name, category).terms != {} && AtDistance(QueryOf(name, category), existing[k], 1)
    requires forall j :: 0 <= j < k ==> !AtDistance(QueryOf(name, category), existing[j], 1)
    requires forall e :: e in existing ==> e.key != Key(name, category) && !Impostor(name, category, e)
    ensures Detection(name, category, existing) == DuplicateResult(true, Some(existing[k].id), 0.9)
  {
    var q := QueryOf(name, category);
    var cs := Candidates(q, existing);
    LookupFindsKey(existing, Key(name, category));
    CandidatesAreValid(q, existing);
    ImpostorIsNearZero(name, category, existing);
    NearOneIsAtDistanceOne(q, existing);
    assert cs[k].verdict == Near(1);
    CloseWins(cs, 1);
    Confidences();
    var i :| 0 <= i < |cs| && cs[i] == Candidate(Pick(cs).value.id, Near(1))
             && forall j :: 0 <= j < i ==> cs[j].verdict != Near(1);
    assert i == k;
  }

  lemma NearOneIsAtDistanceOne(q: Query, existing: Index)
    requires q.terms != {}
    ensures forall i :: 0 <= i < |existing| ==>
              (Candidates(q, existing)[i].verdict == Near(1) <==> AtDistance(q, existing[i], 1))
  {
    forall i | 0 <= i < |existing|
      ensures Candidates(q, existing)[i].verdict == Near(1) <==> AtDistance(q, existing[i], 1)
    {
      assert Candidates(q, existing)[i].verdict == Judge(q, existing[i]);
    }
  }

  lemma {:induction false} PickIsACandidate(cs: seq<Candidate>)
    requires Pick(cs).Some?
    ensures exists i :: 0 <= i < |cs| && cs[i].id == Pick(cs).value.id && !cs[i].verdict.Unrelated?
    decreases |cs|
  {
    var front, last := cs[..|cs| - 1], cs[|cs| - 1];
    if Pick(cs) == Pick(front) {
      PickIsACandidate(front);
      var i :| 0 <= i < |front| && front[i].id == Pick(front).value.id && !front[i].verdict.Unrelated?;
      assert cs[i] == front[i];
    } else {
      assert cs[|cs| - 1].id == Pick(cs).value.id;
    }
  }

  /** Whatever the order, the id reported for a fuzzy duplicate is that of an entry that resembles the name. */
  lemma MatchResembles(name: string, category: string, existing: Index)
    requires forall e :: e in existing ==> e.key != Key(name, category)
    requires Detection(name, category, existing).isDuplicate
    ensures exists e :: e in existing && Resembles(name, category, e)
                        && Detection(name, category, existing).existingId == Some(e.id)
  {
    LookupFindsKey(existing, Key(name, category));
    var q := QueryOf(name, category);
    var cs := Candidates(q, existing);
    PickIsACandidate(cs);
    var i :| 0 <= i < |cs| && cs[i].id == Pick(cs).value.id && !cs[i].verdict.Unrelated?;
    assert cs[i] == Candidate(existing[i].id, Judge(q, existing[i]));
    assert existing[i] in existing && Resembles(name, category, existing[i]);
  }

  /** The overlap is symmetric, lies in [0, 1], is 1 exactly for equal sets and 0 exactly for disjoint ones. */
  lemma OverlapMeaning(s: set<string>, t: set<string>)
    requires s != {} && t != {}
    ensures TermOverlap(s, t) == TermOverlap(t, s)
    ensures 0.0 <= TermOverlap(s, t) <= 1.0
    ensures TermOverlap(s, t) == 1.0 <==> s == t
    ensures TermOverlap(s, t) == 0.0 <==> s * t == {}
  {
    assert s * t == t * s;
    var k, m, n := |s * t|, |s|, |t|;
    CommonSize(s, t);
    Quotient(k * 2, m + n);
    assert k == 0 <==> s * t == {};
  }

  lemma CommonSize(s: set<string>, t: set<string>)
    ensures |s * t| * 2 <= |s| + |t|
    ensures |s * t| * 2 == |s| + |t| <==> s == t
  {
    assert s == s * t + (s - t) && t == s * t + (t - s);
    assert |s| == |s * t| + |s - t| && |t| == |s * t| + |t - s|;
    if |s - t| == 0 && |t - s| == 0 {
      assert s - t == {} && t - s == {};
    }
    if s == t {
      assert s * t == s;
    }
  }

  lemma Quotient(x: nat, y: nat)
    requires x <= y && y > 0
    ensures 0.0 <= x as real / y as real <= 1.0
    ensures x as real / y as real == 1.0 <==> x == y
    ensures x as real / y as real == 0.0 <==> x == 0
  {
    var r := x as real / y as real;
    assert r * y as real == x as real;
  }

  /** How an indexed entry decodes: the name comes back, and the category up to its first "|||". */
  lemma IndexedEntryDecodes(name: string, category: string, e: Entry)
    requires e.key == Key(name, category)
    ensures NamePiece(e) == NormalizeName(name)
    ensures forall c :: SameCategory(e, c) <==> c == SplitBars(category)[0]
    ensures SameCategory(e, category) <==> !ContainsBars(category)
  {
    NormalNameIsBarFree(name);
    SplitAfterName([], NormalizeName(name), category);
    FirstPiece([], category);
    assert [] + category == category;
    assert [] + NormalizeName(name) == NormalizeName(name);
  }

  /** A record of the same normalised name whose category, up to its first "|||", is the queried one. */
  ghost predicate Namesake(name: string, category: string, r: Record) {
    FirstCategory(r) == category && NormalizeName(r.name) == NormalizeName(name)
  }

  /** The category under which the search compares a record: the whole of it exactly when it contains no "|||". */
  function FirstCategory(r: Record): string {
    SplitBars(r.categoryId)[0]
  }

  /**
   On an index of records, confidence 1 means an exact key or, for a name with a significant term,
   a namesake; every other duplicate has confidence in (0.6, 0.9]. When no category contains "|||"
   a namesake has the exact key.
   */
  lemma IndexedConfidence(name: string, category: string, records: seq<Record>)
    ensures var d := Detection(name, category, Indexed(records));
            var exact := LastId(records, NormalizeName(name), category);
            var namesake := QueryOf(name, category).terms != {} && exists r :: r in records && Namesake(name, category, r);
            && (d.confidence == 1.0 <==> exact.Some? || namesake)
            && (exact.Some? ==> d == DuplicateResult(true, exact, 1.0))
            && (d.isDuplicate && d.confidence != 1.0 ==> 0.6 < d.confidence <= 0.9)
            && (!d.isDuplicate ==> d.confidence == 0.0)
            && (namesake && (forall r :: r in records ==> !ContainsBars(r.categoryId)) ==> exact.Some?)
  {
    var existing := Indexed(records);
    ConfidenceMeaning(name, category, existing);
    IndexedLookup(records, name, category);
    LookupFindsKey(existing, Key(name, category));
    ImpostorsAreNamesakes(name, category, records);
    forall r | r in records && Namesake(name, category, r) && !ContainsBars(r.categoryId)
      ensures LastId(records, NormalizeName(name), category).Some?
    {
      FirstPiece([], r.categoryId);
      assert [] + r.categoryId == r.categoryId;
      LastIdExists(records, r);
    }
  }

  lemma ImpostorsAreNamesakes(name: string, category: string, records: seq<Record>)
    ensures (exists e :: e in Indexed(records) && Impostor(name, category, e))
            <==> exists r :: r in records && Namesake(name, category, r)
  {
    var existing := Indexed(records);
    forall e | e in existing && Impostor(name, category, e)
      ensures exists r :: r in records && Namesake(name, category, r)
    {
      var r := RecordOf(records, e);
      IndexedEntryDecodes(r.name, r.categoryId, e);
      assert Namesake(name, category, r);
    }
    forall r | r in records && Namesake(name, category, r)
      ensures exists e :: e in existing && Impostor(name, category, e)
    {
      var e := RecordIsIndexed(records, r);
      IndexedEntryDecodes(r.name, r.categoryId, e);
      assert Impostor(name, category, e);
    }
  }

  lemma RecordOf(records: seq<Record>, e: Entry) returns (r: Record)
    requires e in Indexed(records)
    ensures r in records && e.key == Key(r.name, r.categoryId)
  {
    IndexedEntries(records, e);
    r :| r in records && e.key == Key(r.name, r.categoryId);
  }

  // ---------- what detection means for the records ----------

  /** Two names are alike for the detector. */
  ghost predicate Alike(name: string, other: string) {
    var m, n := NormalizeName(name), NormalizeName(other);
    var d := EditDistance.Distance(m, n);
    && SignificantTerms(m) != {}
    && (d <= 2 || (d <= 4 && TermOverlap(SignificantTerms(m), SignificantTerms(n)) > 0.6))
  }

  /** The record has the exact key, or its first category is the queried one and its name is alike. */
  ghost predicate Hits(name: string, category: string, r: Record) {
    || (r.categoryId == category && NormalizeName(r.name) == NormalizeName(name))
    || (FirstCategory(r) == category && Alike(name, r.name))
  }

  /** An index entry speaks for its record. */
  lemma EntryHits(name: string, category: string, r: Record, e: Entry)
    requires e.key == Key(r.name, r.categoryId)
    ensures e.key == Key(name, category) || Resembles(name, category, e) <==> Hits(name, category, r)
  {
    KeyInjective(r.name, r.categoryId, name, category);
    IndexedEntryDecodes(r.name, r.categoryId, e);
  }

  /** End to end, for any records: a name is a duplicate exactly when some record hits. */
  lemma RecordsVerdict(name: string, category: string, records: seq<Record>)
    ensures Detection(name, category, Indexed(records)).isDuplicate <==>
            exists r :: r in records && Hits(name, category, r)
  {
    hide Hits;
    hide Resembles;
    var index := Indexed(records);
    VerdictMeaning(name, category, index);
    forall e | e in index && (e.key == Key(name, category) || Resembles(name, category, e))
      ensures exists r :: r in records && Hits(name, category, r)
    {
      var r := RecordOf(records, e);
      EntryHits(name, category, r, e);
    }
    forall r | r in records && Hits(name, category, r)
      ensures exists e :: e in index && (e.key == Key(name, category) || Resembles(name, category, e))
    {
      var e := RecordIsIndexed(records, r);
      EntryHits(name, category, r, e);
    }
  }

  lemma RecordIsIndexed(records: seq<Record>, r: Record) returns (e: Entry)
    requires r in records
    ensures e in Indexed(records) && e.key == Key(r.name, r.categoryId)
  {
    IndexedLookup(records, r.name, r.categoryId);
    LastIdExists(records, r);
    LookupFindsKey(Indexed(records), Key(r.name, r.categoryId));
    e :| e in Indexed(records) && e.key == Key(r.name, r.categoryId);
  }

  lemma {:induction false} LastIdExists(records: seq<Record>, r: Record)
    requires r in records
    ensures LastId(records, NormalizeName(r.name), r.categoryId).Some?
    decreases |records|
  {
    var front, last := records[..|records| - 1], records[|records| - 1];
    assert records == front + [last];
    if last != r {
      LastIdExists(front, r);
    }
  }

  /** Neither the order of the records nor how often one occurs makes a difference to the verdict. */
  lemma RecordOrderIsIrrelevant(name: string, category: string, records: seq<Record>, others: seq<Record>)
    requires forall r :: r in records <==> r in others
    ensures Detection(name, category, Indexed(records)).isDuplicate == Detection(name, category, Indexed(others)).isDuplicate
  {
    RecordsVerdict(name, category, records);
    RecordsVerdict(name, category, others);
  }

  /** A single record whose category contains "|||" is enough to break that: full confidence without the exact key. */
  lemma BarsGiveFalseCertainty(name: string, category: string, rest: string, id: string)
    requires SignificantTerms(NormalizeName(name)) != {} && !ContainsBars(category + ['|', '|'])
    ensures var records := [Record(name, category + BARS + rest, id)];
            && LastId(records, NormalizeName(name), category) == None
            && Detection(name, category, Indexed(records)) == DuplicateResult(true, Some(id), 1.0)
  {
    var stored := category + BARS + rest;
    var records := [Record(name, stored, id)];
    var e := Entry(Key(name, stored), id);
    SingleRecord(records[0], e, category);
    KeyInjective(name, stored, name, category);
    IndexedEntryDecodes(name, stored, e);
    FirstPieceBefore([], category, rest);
    assert [] + category == category;
    var q := QueryOf(name, category);
    EditDistance.ZeroExactlyWhenEqual(q.normalized, NamePiece(e));
    assert Judge(q, e) == Near(0);
    OneCandidate(q, e);
    Confidences();
    assert Lookup([e], Key(name, category)) == None;
  }

  lemma SingleRecord(r: Record, e: Entry, category: string)
    requires e == Entry(Key(r.name, r.categoryId), r.id) && r.categoryId != category
    ensures Indexed([r]) == [e]
    ensures LastId([r], NormalizeName(r.name), category) == None
  {
    assert [r][..0] == [];
  }

  lemma OneCandidate(q: Query, e: Entry)
    requires q.terms != {}
    ensures Pick(Candidates(q, [e])) == Better(None, Candidate(e.id, Judge(q, e)))
  {
    assert Candidates(q, [e]) == [Candidate(e.id, Judge(q, e))];
    PickOne(Candidate(e.id, Judge(q, e)));
  }

  /** Two trailing bars of the category could pair with the separator; short of that, the cut is where it should be. */
  lemma {:induction false} FirstPieceBefore(current: string, category: string, rest: string)
    requires !ContainsBars(category + ['|', '|'])
    ensures SplitFrom(current, category + BARS + rest)[0] == current + category
    decreases |category|
  {
    var s := category + BARS + rest;
    if category == [] {
      assert s == BARS + rest;
      assert current + category == current;
    } else {
      var c2 := category + ['|', '|'];
      assert c2[1..] == category[1..] + ['|', '|'];
      assert s[1..] == category[1..] + BARS + rest;
      assert s[..3] == c2[..3];
      FirstPieceBefore(current + [category[0]], category[1..], rest);
      assert current + [category[0]] + category[1..] == current + category;
    }
  }

  lemma PickOne(c: Candidate)
    ensures Pick([c]) == Better(None, c)
  {
    assert [c][..0] == [];
  }

  lemma PickTwo(c: Candidate, d: Candidate)
    ensures Pick([c, d]) == Better(Better(None, c), d)
  {
    PickOne(c);
    assert [c, d][..1] == [c];
  }
}
