/**
 The text a checksum is taken of, prisma/seed-scripts/duplicate-detector.ts: the fields of a record in
 the order of their keys, as "key:value" joined by bars.
 */
module RecordText {
  import opened Json

  // ---------- key order ----------

  /** A property of the record: its key, and the text of its value. */
  datatype Field = Field(key: string, json: string)

  ghost predicate DistinctKeys(fields: seq<Field>) {
    forall i, j :: 0 <= i < j < |fields| ==> fields[i].key != fields[j].key
  }

  /** The order of `sort()` on strings: by character codes, a proper prefix first. */
  predicate Less(s: string, t: string) {
    t != [] && (s == [] || s[0] < t[0] || (s[0] == t[0] && Less(s[1..], t[1..])))
  }

  lemma {:induction false} LessIsTotal(s: string, t: string)
    ensures s == t || Less(s, t) || Less(t, s)
  {
    if s != [] && t != [] && s[0] == t[0] {
      LessIsTotal(s[1..], t[1..]);
      assert s == [s[0]] + s[1..] && t == [t[0]] + t[1..];
    }
  }

  lemma {:induction false} LessIsStrict(s: string, t: string)
    requires Less(s, t)
    ensures s != t && !Less(t, s)
  {
    if s != [] && s[0] == t[0] {
      LessIsStrict(s[1..], t[1..]);
    }
  }

  lemma {:induction false} LessIsTransitive(s: string, t: string, u: string)
    requires Less(s, t) && Less(t, u)
    ensures Less(s, u)
  {
    if s != [] && s[0] == t[0] == u[0] {
      LessIsTransitive(s[1..], t[1..], u[1..]);
    }
  }

  /** At the first difference the smaller character code decides, and the end of a string comes before any character. */
  lemma {:induction false} LessMeans(s: string, t: string)
    ensures Less(s, t) <==>
            exists i :: 0 <= i <= |s| && i < |t| && s[..i] == t[..i] && (i == |s| || s[i] as int < t[i] as int)
  {
    if s != [] && t != [] && s[0] == t[0] {
      LessMeans(s[1..], t[1..]);
      if i :| 0 <= i <= |s| && i < |t| && s[..i] == t[..i] && (i == |s| || s[i] as int < t[i] as int) {
        assert i > 0;
        assert s[1..][..i - 1] == s[..i][1..] && t[1..][..i - 1] == t[..i][1..];
      }
      if i :| 0 <= i <= |s[1..]| && i < |t[1..]| && s[1..][..i] == t[1..][..i] && (i == |s[1..]| || s[1..][i] as int < t[1..][i] as int) {
        assert s[..i + 1] == [s[0]] + s[1..][..i] && t[..i + 1] == [t[0]] + t[1..][..i];
      }
    } else if t != [] && (s == [] || s[0] < t[0]) {
      assert s[..0] == t[..0];
    } else {
      forall i | 0 < i <= |s| && i < |t|
        ensures s[..i] != t[..i]
      {
        assert s[..i][0] == s[0] && t[..i][0] == t[0];
      }
    }
  }

  function Insert(f: Field, sorted: seq<Field>): seq<Field> {
    if sorted == [] then [f]
    else if Less(f.key, sorted[0].key) then [f] + sorted
    else [sorted[0]] + Insert(f, sorted[1..])
  }

  /** The fields in the order of their keys. */
  function InKeyOrder(fields: seq<Field>): seq<Field> {
    if fields == [] then [] else Insert(fields[0], InKeyOrder(fields[1..]))
  }

  ghost predicate Ascending(fields: seq<Field>) {
    forall i, j :: 0 <= i < j < |fields| ==> Less(fields[i].key, fields[j].key)
  }

  lemma {:induction false} InsertKeeps(f: Field, sorted: seq<Field>)
    requires Ascending(sorted) && forall g :: g in sorted ==> g.key != f.key
    ensures Ascending(Insert(f, sorted))
    ensures forall g :: g in Insert(f, sorted) <==> g == f || g in sorted
    decreases |sorted|
  {
    if sorted != [] {
      var head, rest := sorted[0], sorted[1..];
      assert sorted == [head] + rest;
      if Less(f.key, head.key) {
        forall i | 1 <= i < |sorted|
          ensures Less(f.key, sorted[i].key)
        {
          LessIsTransitive(f.key, head.key, sorted[i].key);
        }
      } else {
        LessIsTotal(f.key, head.key);
        InsertKeeps(f, rest);
        AscendingCons(head, Insert(f, rest));
      }
    }
  }

  lemma AscendingCons(head: Field, rest: seq<Field>)
    requires Ascending(rest) && forall g :: g in rest ==> Less(head.key, g.key)
    ensures Ascending([head] + rest)
  {
    assert forall i :: 0 <= i < |rest| ==> rest[i] in rest;
  }

  lemma {:induction false} KeyOrderSorts(fields: seq<Field>)
    requires DistinctKeys(fields)
    ensures Ascending(InKeyOrder(fields))
    ensures forall f :: f in InKeyOrder(fields) <==> f in fields
    decreases |fields|
  {
    if fields != [] {
      var head, rest := fields[0], fields[1..];
      assert fields == [head] + rest;
      KeyOrderSorts(rest);
      InsertKeeps(head, InKeyOrder(rest));
    }
  }

  /** An ascending list is determined by its members. */
  lemma {:induction false} AscendingIsUnique(s: seq<Field>, t: seq<Field>)
    requires Ascending(s) && Ascending(t) && forall f :: f in s <==> f in t
    ensures s == t
    decreases |s|
  {
    SameEmptiness(s, t);
    SameEmptiness(t, s);
    if s != [] {
      SameHead(s, t);
      SameTail(s, t);
      SameTail(t, s);
      AscendingIsUnique(s[1..], t[1..]);
      assert s == [s[0]] + s[1..] && t == [t[0]] + t[1..];
    }
  }

  lemma SameEmptiness(s: seq<Field>, t: seq<Field>)
    requires forall f :: f in s ==> f in t
    ensures s != [] ==> t != []
  {
    if s != [] {
      assert s[0] in t;
    }
  }

  lemma SameHead(s: seq<Field>, t: seq<Field>)
    requires Ascending(s) && Ascending(t) && s != [] && t != [] && forall f :: f in s <==> f in t
    ensures s[0] == t[0]
  {
    assert s[0] in t && t[0] in s;
    var i :| 0 <= i < |t| && t[i] == s[0];
    var j :| 0 <= j < |s| && s[j] == t[0];
    assert j > 0 ==> Less(s[0].key, s[j].key);
    assert i > 0 ==> Less(t[0].key, t[i].key);
    if i > 0 {
      LessIsStrict(t[0].key, s[0].key);
    }
  }

  lemma SameTail(s: seq<Field>, t: seq<Field>)
    requires Ascending(s) && s != [] && t != [] && s[0] == t[0] && forall f :: f in s ==> f in t
    ensures forall f :: f in s[1..] ==> f in t[1..]
  {
    forall f | f in s[1..]
      ensures f in t[1..]
    {
      var i :| 1 <= i < |s| && s[i] == f;
      assert s[i] in s;
      LessIsStrict(s[0].key, s[i].key);
      assert t == [t[0]] + t[1..];
    }
  }

  // ---------- the text ----------

  function Part(f: Field): string {
    f.key + [':'] + f.json
  }

  /** `parts.join('|')` */
  function JoinParts(fields: seq<Field>): string {
    if fields == [] then []
    else if |fields| == 1 then Part(fields[0])
    else Part(fields[0]) + ['|'] + JoinParts(fields[1..])
  }

  function Canonical(fields: seq<Field>): string {
    JoinParts(InKeyOrder(fields))
  }

  /** A record of no, one and two fields: the smaller key comes first, whichever was set first. */
  lemma ShortTexts(f: Field, g: Field)
    requires Less(f.key, g.key)
    ensures Canonical([]) == ""
    ensures Canonical([f]) == f.key + ":" + f.json
    ensures Canonical([f, g]) == f.key + ":" + f.json + "|" + (g.key + ":" + g.json)
    ensures Canonical([g, f]) == Canonical([f, g])
  {
    LessIsStrict(f.key, g.key);
    assert [f, g][1..] == [g] && [g, f][1..] == [f] && [f][1..] == [] && [g][1..] == [];
    assert InKeyOrder([]) == [] && Insert(f, []) == [f] && Insert(g, []) == [g];
    assert InKeyOrder([f]) == [f] && InKeyOrder([g]) == [g];
    assert InKeyOrder([f, g]) == [f, g] && InKeyOrder([g, f]) == [f, g];
    assert JoinParts([g]) == Part(g);
  }

  /** The text, and so the checksum, does not depend on the order in which the fields were set. */
  lemma CanonicalIgnoresOrder(a: seq<Field>, b: seq<Field>)
    requires DistinctKeys(a) && DistinctKeys(b) && forall f :: f in a <==> f in b
    ensures Canonical(a) == Canonical(b)
  {
    KeyOrderSorts(a);
    KeyOrderSorts(b);
    AscendingIsUnique(InKeyOrder(a), InKeyOrder(b));
  }

  /**
   What makes the text readable: no colon in a key, and no bar in a value outside of its string
   literals, which are closed. Bars in keys and in string values do no harm.
   */
  ghost predicate Readable(fields: seq<Field>) {
    forall f :: f in fields ==> ':' !in f.key && Sealed(f.json)
  }

  lemma CutInside(a: string, x: string, b: string, y: string, c: char)
    requires a + x == b + y && |a| < |b| && (x == [] || x[0] == c)
    ensures c in b
  {
    assert b[|a|] == (b + y)[|a|] == (a + x)[|a|] == x[0];
  }

  /** What precedes the first `c` is determined. */
  lemma FirstCut(a: string, x: string, b: string, y: string, c: char)
    requires a + x == b + y && c !in a && c !in b
    requires (x == [] || x[0] == c) && (y == [] || y[0] == c)
    ensures a == b && x == y
  {
    if |a| < |b| {
      CutInside(a, x, b, y, c);
    } else if |b| < |a| {
      CutInside(b, y, a, x, c);
    }
    var s := a + x;
    assert s[..|a|] == a && s[|a|..] == x;
    assert s[..|b|] == b && s[|b|..] == y;
  }

  /** The joined text behind its first part. */
  function Rest(fields: seq<Field>): string
    requires fields != []
  {
    if |fields| == 1 then [] else ['|'] + JoinParts(fields[1..])
  }

  lemma JoinShape(fields: seq<Field>)
    requires fields != []
    ensures JoinParts(fields) == fields[0].key + ([':'] + (fields[0].json + Rest(fields)))
  {
    var f := fields[0];
    if |fields| > 1 {
      Regroup(f.key, f.json, JoinParts(fields[1..]));
    } else {
      assert f.json + [] == f.json;
      assert f.key + [':'] + f.json == f.key + ([':'] + f.json);
    }
  }

  lemma Regroup(a: string, b: string, c: string)
    ensures a + [':'] + b + ['|'] + c == a + ([':'] + (b + (['|'] + c)))
  {
  }

  lemma {:induction false} JoinIsInjective(s: seq<Field>, t: seq<Field>)
    requires Readable(s) && Readable(t) && JoinParts(s) == JoinParts(t)
    ensures s == t
    decreases |s|
  {
    hide JoinParts;
    hide Sealed;
    EmptyJoin(s);
    EmptyJoin(t);
    if s != [] {
      JoinShape(s);
      JoinShape(t);
      FirstPartIsDetermined(s, t);
      if |s| > 1 && |t| > 1 {
        assert Rest(s)[1..] == JoinParts(s[1..]) && Rest(t)[1..] == JoinParts(t[1..]);
        JoinIsInjective(s[1..], t[1..]);
      }
      assert s == [s[0]] + s[1..] && t == [t[0]] + t[1..];
    }
  }

  lemma EmptyJoin(fields: seq<Field>)
    ensures JoinParts(fields) == [] <==> fields == []
  {
    if fields != [] {
      JoinShape(fields);
    }
  }

  /** The key ends at the first colon, and the value where a sealed text must end. */
  lemma FirstPartIsDetermined(s: seq<Field>, t: seq<Field>)
    requires Readable(s) && Readable(t) && s != [] && t != []
    requires s[0].key + ([':'] + (s[0].json + Rest(s))) == t[0].key + ([':'] + (t[0].json + Rest(t)))
    ensures s[0] == t[0] && Rest(s) == Rest(t)
  {
    hide JoinParts;
    assert s[0] in s && t[0] in t;
    var u, v := s[0].json + Rest(s), t[0].json + Rest(t);
    FirstCut(s[0].key, [':'] + u, t[0].key, [':'] + v, ':');
    assert ([':'] + u)[1..] == u && ([':'] + v)[1..] == v;
    SealedCut(Outside, s[0].json, Rest(s), t[0].json, Rest(t));
  }

  /** A readable text tells records apart: equal texts, equal fields. */
  lemma CanonicalIsInjective(a: seq<Field>, b: seq<Field>)
    requires DistinctKeys(a) && DistinctKeys(b) && Readable(a) && Readable(b)
    ensures Canonical(a) == Canonical(b) <==> forall f :: f in a <==> f in b
  {
    KeyOrderSorts(a);
    KeyOrderSorts(b);
    if Canonical(a) == Canonical(b) {
      JoinIsInjective(InKeyOrder(a), InKeyOrder(b));
    } else {
      if forall f :: f in a <==> f in b {
        CanonicalIgnoresOrder(a, b);
      }
    }
  }

  // ---------- records ----------

  datatype Property = Property(key: string, value: Value)

  /** `JSON.stringify` of every value. */
  function Serialised(record: seq<Property>): (fields: seq<Field>)
    ensures |fields| == |record|
    ensures forall i :: 0 <= i < |record| ==> fields[i] == Field(record[i].key, Stringify(record[i].value))
  {
    seq(|record|, i requires 0 <= i < |record| => Field(record[i].key, Stringify(record[i].value)))
  }

  ghost predicate IsRecord(record: seq<Property>) {
    forall i, j :: 0 <= i < j < |record| ==> record[i].key != record[j].key
  }

  ghost predicate ColonFree(record: seq<Property>) {
    forall p :: p in record ==> ':' !in p.key
  }

  /** Both records have the same keys, and under each the same serialised value. */
  ghost predicate SameContents(a: seq<Property>, b: seq<Property>) {
    forall f :: f in Serialised(a) <==> f in Serialised(b)
  }

  /**
   Records without a colon in a key, whatever their values: they have one text exactly when their
   contents are the same.
   */
  lemma RecordsToldApart(a: seq<Property>, b: seq<Property>)
    requires IsRecord(a) && IsRecord(b) && ColonFree(a) && ColonFree(b)
    ensures Canonical(Serialised(a)) == Canonical(Serialised(b)) <==> SameContents(a, b)
  {
    hide Canonical;
    SerialisedIsReadable(a);
    SerialisedIsReadable(b);
    CanonicalIsInjective(Serialised(a), Serialised(b));
  }

  lemma SerialisedIsReadable(record: seq<Property>)
    requires ColonFree(record)
    ensures Readable(Serialised(record))
  {
    forall f | f in Serialised(record)
      ensures ':' !in f.key && Sealed(f.json)
    {
      var i :| 0 <= i < |record| && f == Serialised(record)[i];
      assert record[i] in record;
      StringifyIsSealed(record[i].value);
    }
  }

  // ---------- a colon in a key ----------

  /** The record with the texts of all fields but the last moved into one key. */
  function Merged(fields: seq<Field>): Field
    requires fields != []
  {
    var sorted := InKeyOrder(fields);
    var n := |sorted| - 1;
    if n < 1 then fields[0] else Field(JoinParts(sorted[..n]) + ['|'] + sorted[n].key, sorted[n].json)
  }

  lemma {:induction false} JoinLast(fields: seq<Field>)
    requires |fields| >= 2
    ensures var n := |fields| - 1;
            JoinParts(fields) == JoinParts(fields[..n]) + ['|'] + Part(fields[n])
    decreases |fields|
  {
    var n := |fields| - 1;
    if n == 1 {
      assert fields[1..] == [fields[1]] && fields[..1] == [fields[0]];
    } else {
      JoinLast(fields[1..]);
      assert fields[..n][1..] == fields[1..][..n - 1];
      JoinCons(fields[..n]);
      Reassociate(Part(fields[0]), JoinParts(fields[1..][..n - 1]), Part(fields[n]));
    }
  }

  lemma JoinCons(fields: seq<Field>)
    requires |fields| >= 2
    ensures JoinParts(fields) == Part(fields[0]) + ['|'] + JoinParts(fields[1..])
  {
  }

  lemma Reassociate(a: string, b: string, c: string)
    ensures a + ['|'] + (b + ['|'] + c) == a + ['|'] + b + ['|'] + c
  {
  }

  lemma OneAlone(f: Field)
    ensures Canonical([f]) == Part(f)
  {
    assert [f][1..] == [];
    assert InKeyOrder([f]) == [f];
  }

  lemma {:induction false} InsertLength(f: Field, sorted: seq<Field>)
    ensures |Insert(f, sorted)| == |sorted| + 1
    decreases |sorted|
  {
    if sorted != [] {
      InsertLength(f, sorted[1..]);
    }
  }

  lemma {:induction false} OrderLength(fields: seq<Field>)
    ensures |InKeyOrder(fields)| == |fields|
    decreases |fields|
  {
    if fields != [] {
      OrderLength(fields[1..]);
      InsertLength(fields[0], InKeyOrder(fields[1..]));
    }
  }

  /**
   As soon as a key may contain a colon, every record of two or more fields has a twin: a record of
   one field with the same text, and so with the same checksum.
   */
  lemma ColonInKeyCollides(fields: seq<Field>)
    requires |fields| >= 2
    ensures Canonical([Merged(fields)]) == Canonical(fields)
    ensures ':' in Merged(fields).key
  {
    var sorted := InKeyOrder(fields);
    var n := |sorted| - 1;
    OrderLength(fields);
    OneAlone(Merged(fields));
    JoinLast(sorted);
    JoinShape(sorted[..n]);
    Rebracket(JoinParts(sorted[..n]), sorted[n].key, sorted[n].json);
  }

  /** For records: the twin has other contents. */
  lemma RecordHasTwin(record: seq<Property>) returns (twin: Property)
    requires IsRecord(record) && |record| >= 2
    ensures Canonical(Serialised([twin])) == Canonical(Serialised(record))
    ensures !SameContents([twin], record)
  {
    hide Canonical;
    var fields := Serialised(record);
    var last := LastInOrder(fields);
    var i :| 0 <= i < |fields| && fields[i] == last;
    twin := Property(Merged(fields).key, record[i].value);
    assert Serialised([twin]) == [Merged(fields)];
    ColonInKeyCollides(fields);
    assert fields[0] in fields && fields[1] in fields;
    assert fields[0] != fields[1];
  }

  lemma LastInOrder(fields: seq<Field>) returns (last: Field)
    requires DistinctKeys(fields) && |fields| >= 2
    ensures last in fields && Merged(fields).json == last.json
  {
    OrderLength(fields);
    KeyOrderSorts(fields);
    last := InKeyOrder(fields)[|fields| - 1];
    assert last in InKeyOrder(fields);
  }

  lemma Rebracket(a: string, l: string, y: string)
    ensures a + ['|'] + (l + [':'] + y) == (a + ['|'] + l) + [':'] + y
  {
  }
}
