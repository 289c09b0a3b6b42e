/**
 The edit distance behind fuzzy duplicate detection
 (prisma/seed-scripts/duplicate-detector.ts).

 `Distance` is the recurrence the matrix tabulates, including its shortcut: when the two last
 characters agree, only the diagonal is consulted. `Transforms` is the independent meaning: a
 script of single-character edits, at any positions and in any order. The two are connected by
 `ScriptIsOptimal` and `NoShorterScript`.
 */
module EditDistance {

  function Last(s: string): char
    requires s != []
  {
    s[|s| - 1]
  }

  function Init(s: string): string
    requires s != []
  {
    s[..|s| - 1]
  }

  function Min(x: nat, y: nat): nat {
    if x <= y then x else y
  }

  function Distance(a: string, b: string): nat
    decreases |a| + |b|
  {
    if a == [] then |b|
    else if b == [] then |a|
    else if Last(a) == Last(b) then Distance(Init(a), Init(b))
    else 1 + Min(Distance(Init(a), Init(b)), Min(Distance(Init(a), b), Distance(a, Init(b))))
  }

  /** The matrix, filled row by row in place. */
  method LevenshteinDistance(a: string, b: string) returns (d: nat)
    ensures d == Distance(a, b)
  {
    var matrix := new nat[|b| + 1, |a| + 1];
    for i := 0 to |b| + 1
      invariant forall p :: 0 <= p < i ==> matrix[p, 0] == p
    {
      matrix[i, 0] := i;
    }
    for j := 0 to |a| + 1
      invariant forall p :: 0 <= p <= |b| ==> matrix[p, 0] == p
      invariant forall q :: 0 <= q < j ==> matrix[0, q] == q
    {
      matrix[0, j] := j;
    }
    for i := 1 to |b| + 1
      invariant forall p :: 0 <= p <= |b| ==> matrix[p, 0] == p
      invariant forall p, q :: 0 <= p < i && 0 <= q <= |a| ==> matrix[p, q] == Distance(a[..q], b[..p])
    {
      for j := 1 to |a| + 1
        invariant forall p :: 0 <= p <= |b| ==> matrix[p, 0] == p
        invariant forall p, q :: 0 <= p < i && 0 <= q <= |a| ==> matrix[p, q] == Distance(a[..q], b[..p])
        invariant forall q :: 0 <= q < j ==> matrix[i, q] == Distance(a[..q], b[..i])
      {
        if b[i - 1] == a[j - 1] {
          matrix[i, j] := matrix[i - 1, j - 1];
        } else {
          matrix[i, j] := Min(matrix[i - 1, j - 1] + 1, Min(matrix[i, j - 1] + 1, matrix[i - 1, j] + 1));
        }
        assert matrix[i, j] == Distance(a[..j], b[..i]) by {
          PrefixStep(a, b, i, j);
        }
      }
    }
    assert a[..|a|] == a && b[..|b|] == b;
    d := matrix[|b|, |a|];
  }

  /** One unfolding of the recurrence, on prefixes. */
  lemma PrefixStep(a: string, b: string, i: nat, j: nat)
    requires 1 <= i <= |b| && 1 <= j <= |a|
    ensures Distance(a[..j], b[..i]) ==
            if b[i - 1] == a[j - 1] then Distance(a[..j - 1], b[..i - 1])
            else 1 + Min(Distance(a[..j - 1], b[..i - 1]),
                         Min(Distance(a[..j - 1], b[..i]), Distance(a[..j], b[..i - 1])))
  {
    assert Init(a[..j]) == a[..j - 1] && Init(b[..i]) == b[..i - 1];
  }

  // ---------- the distance is a metric ----------

  lemma {:induction false} Symmetric(a: string, b: string)
    ensures Distance(a, b) == Distance(b, a)
    decreases |a| + |b|
  {
    if a == [] || b == [] {
    } else {
      Symmetric(Init(a), Init(b));
      Symmetric(Init(a), b);
      Symmetric(a, Init(b));
    }
  }

  lemma {:induction false} LengthBounds(a: string, b: string)
    ensures |a| - |b| <= Distance(a, b)
    ensures |b| - |a| <= Distance(a, b)
    ensures Distance(a, b) <= if |a| <= |b| then |b| else |a|
    decreases |a| + |b|
  {
    if a == [] || b == [] {
    } else {
      LengthBounds(Init(a), Init(b));
      LengthBounds(Init(a), b);
      LengthBounds(a, Init(b));
    }
  }

  lemma {:induction false} ZeroExactlyWhenEqual(a: string, b: string)
    ensures Distance(a, b) == 0 <==> a == b
    decreases |a| + |b|
  {
    if a == [] || b == [] {
    } else if Last(a) == Last(b) {
      ZeroExactlyWhenEqual(Init(a), Init(b));
      assert a == Init(a) + [Last(a)] && b == Init(b) + [Last(b)];
    } else {
      assert a != b;
    }
  }

  /** Appending one character to either side moves the distance by at most one, either way. */
  lemma {:induction false} Neighbour(a: string, b: string, x: char)
    ensures Distance(a + [x], b) <= Distance(a, b) + 1
    ensures Distance(a, b) <= Distance(a + [x], b) + 1
    decreases |a| + |b|, 0
  {
    var ax := a + [x];
    assert Init(ax) == a && Last(ax) == x;
    if b == [] {
    } else {
      var b', y := Init(b), Last(b);
      assert b == b' + [y];
      NeighbourRight(a, b', y);
      if x == y {
      } else {
        Neighbour(a, b', x);
      }
    }
  }

  lemma {:induction false} NeighbourRight(a: string, b: string, y: char)
    ensures Distance(a, b + [y]) <= Distance(a, b) + 1
    ensures Distance(a, b) <= Distance(a, b + [y]) + 1
    decreases |a| + |b|, 1
  {
    Neighbour(b, a, y);
    Symmetric(a, b);
    Symmetric(a, b + [y]);
  }

  lemma StepDiagonal(a: string, b: string)
    requires a != [] && b != []
    ensures Distance(a, b) <= Distance(Init(a), Init(b)) + (if Last(a) == Last(b) then 0 else 1)
  {
    if Last(a) != Last(b) {
      var diagonal, up, left := Distance(Init(a), Init(b)), Distance(Init(a), b), Distance(a, Init(b));
      assert Distance(a, b) == 1 + Min(diagonal, Min(up, left));
    }
  }

  lemma StepSideways(a: string, b: string)
    requires a != [] && b != []
    ensures Distance(a, b) <= Distance(Init(a), b) + 1
    ensures Distance(a, b) <= Distance(a, Init(b)) + 1
  {
    var a', b' := Init(a), Init(b);
    assert a == a' + [Last(a)] && b == b' + [Last(b)];
    Neighbour(a', b, Last(a));
    NeighbourRight(a, b', Last(b));
  }

  /** The matrix step without the shortcut: taking the full minimum is always an upper bound. */
  lemma StepUpper(a: string, b: string)
    requires a != [] && b != []
    ensures Distance(a, b) <= Distance(Init(a), Init(b)) + (if Last(a) == Last(b) then 0 else 1)
    ensures Distance(a, b) <= Distance(Init(a), b) + 1
    ensures Distance(a, b) <= Distance(a, Init(b)) + 1
  {
    StepDiagonal(a, b);
    StepSideways(a, b);
  }

  /** Some neighbour attains the step. */
  lemma StepAttained(a: string, b: string, x: char, y: char)
    ensures Distance(a + [x], b + [y]) == Distance(a, b) + (if x == y then 0 else 1)
            || Distance(a + [x], b + [y]) == Distance(a, b + [y]) + 1
            || Distance(a + [x], b + [y]) == Distance(a + [x], b) + 1
  {
    assert Init(a + [x]) == a && Init(b + [y]) == b;
  }

  /**
   The shortcut loses nothing: copying the diagonal on equal characters gives the same value as
   minimising over all three neighbours, as the textbook recurrence does.
   */
  lemma ShortcutLosesNothing(a: string, b: string, x: char, y: char)
    ensures Distance(a + [x], b + [y]) ==
            Min(Distance(a, b) + (if x == y then 0 else 1),
                Min(Distance(a, b + [y]) + 1, Distance(a + [x], b) + 1))
  {
    var ax, bz := a + [x], b + [y];
    assert Init(ax) == a && Init(bz) == b;
    StepUpper(ax, bz);
    StepAttained(a, b, x, y);
    LeastOfThree(Distance(ax, bz), Distance(a, b) + (if x == y then 0 else 1),
                 Distance(a, bz) + 1, Distance(ax, b) + 1);
  }

  lemma LeastOfThree(d: nat, x: nat, y: nat, z: nat)
    requires d <= x && d <= y && d <= z && (d == x || d == y || d == z)
    ensures d == Min(x, Min(y, z))
  {
  }

  lemma {:induction false} Triangle(a: string, b: string, c: string)
    ensures Distance(a, c) <= Distance(a, b) + Distance(b, c)
    decreases |a| + |b| + |c|
  {
    if a == [] || b == [] || c == [] {
      LengthBounds(a, b);
      LengthBounds(b, c);
      LengthBounds(a, c);
    } else {
      StepUpper(a, c);
      var a', b', c' := Init(a), Init(b), Init(c);
      if Distance(a, b) == Distance(a', b) + 1 {
        Triangle(a', b, c);
      } else if Distance(b, c) == Distance(b, c') + 1 {
        Triangle(a, b, c');
      } else if Distance(a, b) == Distance(a, b') + 1 && Distance(b, c) == Distance(b', c) + 1 {
        Triangle(a, b', c);
      } else if Distance(a, b) == Distance(a, b') + 1 {
        Triangle(a, b', c');
      } else if Distance(b, c) == Distance(b', c) + 1 {
        Triangle(a', b', c);
      } else {
        Triangle(a', b', c');
      }
    }
  }

  // ---------- edit scripts ----------

  datatype Edit =
    | Insert(at: nat, c: char)
    | Delete(at: nat)
    | Substitute(at: nat, c: char)

  predicate Applicable(e: Edit, s: string) {
    match e
    case Insert(at, _) => at <= |s|
    case Delete(at) => at < |s|
    case Substitute(at, _) => at < |s|
  }

  function Apply(e: Edit, s: string): string
    requires Applicable(e, s)
  {
    match e
    case Insert(at, c) => s[..at] + [c] + s[at..]
    case Delete(at) => s[..at] + s[at + 1..]
    case Substitute(at, c) => s[..at] + [c] + s[at + 1..]
  }

  /** Performing the edits of `script` in order turns `a` into `b`. */
  predicate Transforms(script: seq<Edit>, a: string, b: string)
    decreases |script|
  {
    if script == [] then a == b
    else Applicable(script[0], a) && Transforms(script[1..], Apply(script[0], a), b)
  }

  lemma {:induction false} CommonSuffix(a: string, b: string, s: string)
    ensures Distance(a + s, b + s) == Distance(a, b)
    decreases |s|
  {
    if s == [] {
      assert a + s == a && b + s == b;
    } else {
      CommonSuffix(a, b, Init(s));
      assert Init(a + s) == a + Init(s) && Init(b + s) == b + Init(s);
    }
  }

  lemma OneEditCostsOne(e: Edit, s: string)
    requires Applicable(e, s)
    ensures Distance(s, Apply(e, s)) <= 1
  {
    var p := s[..e.at];
    ZeroExactlyWhenEqual(p, p);
    match e
    case Insert(at, c) =>
      assert s == p + s[at..];
      CommonSuffix(p, p + [c], s[at..]);
      NeighbourRight(p, p, c);
    case Delete(at) =>
      assert s == (p + [s[at]]) + s[at + 1..];
      CommonSuffix(p + [s[at]], p, s[at + 1..]);
      Neighbour(p, p, s[at]);
    case Substitute(at, c) =>
      assert s == (p + [s[at]]) + s[at + 1..];
      CommonSuffix(p + [s[at]], p + [c], s[at + 1..]);
      StepUpper(p + [s[at]], p + [c]);
      assert Init(p + [s[at]]) == p && Init(p + [c]) == p;
  }

  /** No script that turns `a` into `b` is shorter than the distance. */
  lemma {:induction false} NoShorterScript(script: seq<Edit>, a: string, b: string)
    requires Transforms(script, a, b)
    ensures Distance(a, b) <= |script|
    decreases |script|
  {
    if script == [] {
      ZeroExactlyWhenEqual(a, b);
    } else {
      var a1 := Apply(script[0], a);
      OneEditCostsOne(script[0], a);
      NoShorterScript(script[1..], a1, b);
      Triangle(a, a1, b);
    }
  }

  /** A script of least length, read off the recurrence. */
  function LeastScript(a: string, b: string): seq<Edit>
    decreases |a| + |b|
  {
    if a == [] then
      if b == [] then [] else LeastScript(a, Init(b)) + [Insert(|b| - 1, Last(b))]
    else if b == [] then
      LeastScript(Init(a), b) + [Delete(0)]
    else if Last(a) == Last(b) then
      LeastScript(Init(a), Init(b))
    else if Distance(a, b) == 1 + Distance(Init(a), Init(b)) then
      LeastScript(Init(a), Init(b)) + [Substitute(|b| - 1, Last(b))]
    else if Distance(a, b) == 1 + Distance(Init(a), b) then
      LeastScript(Init(a), b) + [Delete(|b|)]
    else
      LeastScript(a, Init(b)) + [Insert(|b| - 1, Last(b))]
  }

  lemma ApplyBefore(e: Edit, a: string, s: string)
    requires Applicable(e, a)
    ensures Applicable(e, a + s) && Apply(e, a + s) == Apply(e, a) + s
  {
    Slices(a, s, e.at);
    if !e.Insert? {
      Slices(a, s, e.at + 1);
    }
  }

  lemma Slices(a: string, s: string, k: nat)
    requires k <= |a|
    ensures (a + s)[..k] == a[..k]
    ensures (a + s)[k..] == a[k..] + s
  {
  }

  /** A script never looks past the text it was written for. */
  lemma {:induction false} SuffixInert(script: seq<Edit>, a: string, b: string, s: string)
    requires Transforms(script, a, b)
    ensures Transforms(script, a + s, b + s)
    decreases |script|
  {
    if script != [] {
      ApplyBefore(script[0], a, s);
      SuffixInert(script[1..], Apply(script[0], a), b, s);
    }
  }

  lemma {:induction false} ThenOne(script: seq<Edit>, a: string, b: string, e: Edit)
    requires Transforms(script, a, b) && Applicable(e, b)
    ensures Transforms(script + [e], a, Apply(e, b))
    decreases |script|
  {
    if script == [] {
      assert script + [e] == [e];
      assert [e][1..] == [];
    } else {
      ThenOne(script[1..], Apply(script[0], a), b, e);
      assert (script + [e])[1..] == script[1..] + [e];
    }
  }

  lemma ThenInsert(script: seq<Edit>, a: string, b: string, y: char)
    requires Transforms(script, a, b)
    ensures Transforms(script + [Insert(|b|, y)], a, b + [y])
  {
    ThenOne(script, a, b, Insert(|b|, y));
    assert b[..|b|] + [y] + b[|b|..] == b + [y];
  }

  lemma ThenDelete(script: seq<Edit>, a: string, b: string, x: char)
    requires Transforms(script, a, b)
    ensures Transforms(script + [Delete(|b|)], a + [x], b)
  {
    SuffixInert(script, a, b, [x]);
    ThenOne(script, a + [x], b + [x], Delete(|b|));
    assert (b + [x])[..|b|] + (b + [x])[|b| + 1..] == b;
  }

  lemma ThenSubstitute(script: seq<Edit>, a: string, b: string, x: char, y: char)
    requires Transforms(script, a, b)
    ensures Transforms(script + [Substitute(|b|, y)], a + [x], b + [y])
  {
    SuffixInert(script, a, b, [x]);
    ThenOne(script, a + [x], b + [x], Substitute(|b|, y));
    assert (b + [x])[..|b|] + [y] + (b + [x])[|b| + 1..] == b + [y];
  }

  /** Some script achieves the distance. */
  lemma {:induction false} ScriptIsOptimal(a: string, b: string)
    ensures Transforms(LeastScript(a, b), a, b)
    ensures |LeastScript(a, b)| == Distance(a, b)
    decreases |a| + |b|, 2
  {
    if a == [] {
      if b != [] {
        ScriptIsOptimal(a, Init(b));
        ThenInsert(LeastScript(a, Init(b)), a, Init(b), Last(b));
        assert b == Init(b) + [Last(b)];
      }
    } else if b == [] {
      ScriptIsOptimal(Init(a), b);
      ThenDelete(LeastScript(Init(a), b), Init(a), b, Last(a));
      assert a == Init(a) + [Last(a)];
    } else {
      ScriptIsOptimalInner(a, b, Init(a), Init(b));
    }
  }

  lemma {:induction false} ScriptIsOptimalInner(a: string, b: string, a': string, b': string)
    requires a != [] && b != [] && a' == Init(a) && b' == Init(b)
    ensures Transforms(LeastScript(a, b), a, b)
    ensures |LeastScript(a, b)| == Distance(a, b)
    decreases |a| + |b|, 1
  {
    if Last(a) == Last(b) {
      KeepLast(a, b, a', b');
    } else if Distance(a, b) == 1 + Distance(a', b') {
      SubstituteLast(a, b, a', b');
    } else if Distance(a, b) == 1 + Distance(a', b) {
      DeleteLast(a, b, a', b');
    } else {
      InsertLast(a, b, a', b');
    }
  }

  lemma {:induction false} KeepLast(a: string, b: string, a': string, b': string)
    requires a != [] && b != [] && a' == Init(a) && b' == Init(b)
    requires Last(a) == Last(b)
    ensures Transforms(LeastScript(a, b), a, b)
    ensures |LeastScript(a, b)| == Distance(a, b)
    decreases |a| + |b|, 0
  {
    assert a == a' + [Last(a)] && b == b' + [Last(b)];
    ScriptIsOptimal(a', b');
    SuffixInert(LeastScript(a', b'), a', b', [Last(b)]);
  }

  lemma {:induction false} SubstituteLast(a: string, b: string, a': string, b': string)
    requires a != [] && b != [] && a' == Init(a) && b' == Init(b)
    requires Last(a) != Last(b) && Distance(a, b) == 1 + Distance(a', b')
    ensures Transforms(LeastScript(a, b), a, b)
    ensures |LeastScript(a, b)| == Distance(a, b)
    decreases |a| + |b|, 0
  {
    assert a == a' + [Last(a)] && b == b' + [Last(b)];
    ScriptIsOptimal(a', b');
    ThenSubstitute(LeastScript(a', b'), a', b', Last(a), Last(b));
  }

  lemma {:induction false} DeleteLast(a: string, b: string, a': string, b': string)
    requires a != [] && b != [] && a' == Init(a) && b' == Init(b)
    requires Last(a) != Last(b) && Distance(a, b) != 1 + Distance(a', b')
    requires Distance(a, b) == 1 + Distance(a', b)
    ensures Transforms(LeastScript(a, b), a, b)
    ensures |LeastScript(a, b)| == Distance(a, b)
    decreases |a| + |b|, 0
  {
    assert a == a' + [Last(a)] && b == b' + [Last(b)];
    ScriptIsOptimal(a', b);
    ThenDelete(LeastScript(a', b), a', b, Last(a));
  }

  lemma {:induction false} InsertLast(a: string, b: string, a': string, b': string)
    requires a != [] && b != [] && a' == Init(a) && b' == Init(b)
    requires Last(a) != Last(b) && Distance(a, b) != 1 + Distance(a', b')
    requires Distance(a, b) != 1 + Distance(a', b)
    ensures Transforms(LeastScript(a, b), a, b)
    ensures |LeastScript(a, b)| == Distance(a, b)
    decreases |a| + |b|, 0
  {
    assert a == a' + [Last(a)] && b == b' + [Last(b)];
    ScriptIsOptimal(a, b');
    ThenInsert(LeastScript(a, b'), a, b', Last(b));
  }

  // ---------- consequences used by the detector ----------

  /** Appending `s` costs exactly its length. */
  lemma AppendCost(a: string, s: string)
    ensures Distance(a, a + s) == |s|
    decreases |s|
  {
    ZeroExactlyWhenEqual(a, a);
    if s == [] {
      assert a + s == a;
    } else {
      AppendCost(a, Init(s));
      NeighbourRight(a, a + Init(s), Last(s));
      assert a + Init(s) + [Last(s)] == a + s;
      LengthBounds(a, a + s);
    }
  }
}
