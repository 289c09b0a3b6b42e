/**
 The fuzzy verdict in numbers: how many significant terms two names must share, what confidence that gives,
 and which words count as terms.
 */
module Overlap {
  import opened Wrappers
  import opened Text
  import opened DuplicateDetector
  import EditDistance
  import CharRules
  import DetectionOrder

  // ---------- the overlap in counts ----------

  /** Twice the common terms, per term of either name. */
  lemma OverlapInCounts(s: set<string>, t: set<string>)
    requires s != {}
    ensures TermOverlap(s, t) * (|s| + |t|) as real == (2 * |s * t|) as real
  {
    DivideThenMultiply((2 * |s * t|) as real, (|s| + |t|) as real);
  }

  lemma DivideThenMultiply(x: real, y: real)
    requires y > 0.0
    ensures x / y * y == x
  {
  }

  lemma CompareQuotient(x: real, y: real, q: real)
    requires y > 0.0
    ensures x / y > q <==> x > q * y
    ensures x / y < q <==> x < q * y
  {
    var r := x / y;
    DivideThenMultiply(x, y);
    if r > q {
      MultiplyKeepsOrder(q, r, y);
    } else if r < q {
      MultiplyKeepsOrder(r, q, y);
    }
  }

  lemma MultiplyKeepsOrder(x: real, z: real, y: real)
    requires x < z && y > 0.0
    ensures x * y < z * y
  {
  }

  /** The threshold of the search: more than three tenths as many common terms as terms in both names together. */
  lemma OverlapThreshold(s: set<string>, t: set<string>)
    requires s != {}
    ensures TermOverlap(s, t) > 0.6 <==> 10 * |s * t| > 3 * (|s| + |t|)
    ensures TermOverlap(s, t) < 0.9 <==> 20 * |s * t| < 9 * (|s| + |t|)
  {
    CompareQuotient((|s * t| * 2) as real, (|s| + |t|) as real, 0.6);
    CompareQuotient((|s * t| * 2) as real, (|s| + |t|) as real, 0.9);
  }

  /** A further common term raises the overlap, unless the names have the same terms already. */
  lemma CommonTermRaises(s: set<string>, t: set<string>, x: string)
    requires s != {} && x !in s && x !in t
    ensures TermOverlap(s, t) <= TermOverlap(s + {x}, t + {x})
    ensures TermOverlap(s, t) < TermOverlap(s + {x}, t + {x}) <==> s != t
  {
    assert (s + {x}) * (t + {x}) == s * t + {x};
    var k, n := |s * t|, |s| + |t|;
    assert |s + {x}| == |s| + 1 && |t + {x}| == |t| + 1 && |(s + {x}) * (t + {x})| == k + 1;
    CommonSize(s, t);
    Raised(k, n);
  }

  lemma Raised(k: nat, n: nat)
    requires n > 0 && k * 2 <= n
    ensures (k * 2) as real / n as real <= ((k + 1) * 2) as real / (n + 2) as real
    ensures (k * 2) as real / n as real < ((k + 1) * 2) as real / (n + 2) as real <==> k * 2 < n
  {
    var q := (k * 2) as real / n as real;
    DivideThenMultiply((k * 2) as real, n as real);
    CompareQuotient(((k + 1) * 2) as real, (n + 2) as real, q);
    assert q * (n + 2) as real == q * n as real + q * 2.0;
    CompareQuotient((k * 2) as real, n as real, 1.0);
  }

  /** A further term of one name alone lowers the overlap, if there is any to lower. */
  lemma UnsharedTermLowers(s: set<string>, t: set<string>, x: string)
    requires s != {} && x !in s && x !in t
    ensures TermOverlap(s, t + {x}) <= TermOverlap(s, t)
    ensures TermOverlap(s, t + {x}) < TermOverlap(s, t) <==> s * t != {}
  {
    assert s * (t + {x}) == s * t;
    assert |t + {x}| == |t| + 1;
    assert |s * t| == 0 <==> s * t == {};
    Lowered(|s * t|, |s| + |t|);
  }

  lemma Lowered(k: nat, n: nat)
    requires n > 0
    ensures (k * 2) as real / (n + 1) as real <= (k * 2) as real / n as real
    ensures (k * 2) as real / (n + 1) as real < (k * 2) as real / n as real <==> k > 0
  {
    var q := (k * 2) as real / n as real;
    DivideThenMultiply((k * 2) as real, n as real);
    CompareQuotient((k * 2) as real, (n + 1) as real, q);
    CompareQuotient((k * 2) as real, n as real, 0.0);
    assert q * (n + 1) as real == q * n as real + q;
  }

  // ---------- the verdict in counts ----------

  /** How an entry of the queried category is judged, with no overlap computed: by distance and, at 3 or 4, by counting terms. */
  ghost predicate Alike(terms: set<string>, other: set<string>, distance: nat) {
    distance <= 2 || (distance <= 4 && 10 * |terms * other| > 3 * (|terms| + |other|))
  }

  lemma ResemblesInCounts(name: string, category: string, e: Entry)
    ensures Resembles(name, category, e) <==>
            && SignificantTerms(NormalizeName(name)) != {} && SameCategory(e, category)
            && Alike(SignificantTerms(NormalizeName(name)), SignificantTerms(NamePiece(e)),
                     EditDistance.Distance(NormalizeName(name), NamePiece(e)))
  {
    var terms := SignificantTerms(NormalizeName(name));
    if terms != {} {
      OverlapThreshold(terms, SignificantTerms(NamePiece(e)));
    }
  }

  /** The verdict on any map, in counts. */
  lemma VerdictInCounts(name: string, category: string, existing: Index)
    ensures Detection(name, category, existing).isDuplicate <==>
            || (exists e :: e in existing && e.key == Key(name, category))
            || (SignificantTerms(NormalizeName(name)) != {}
                && exists e :: e in existing && SameCategory(e, category)
                               && Alike(SignificantTerms(NormalizeName(name)), SignificantTerms(NamePiece(e)),
                                        EditDistance.Distance(NormalizeName(name), NamePiece(e))))
  {
    hide Resembles;
    VerdictMeaning(name, category, existing);
    forall e
      ensures Resembles(name, category, e) <==>
              && SignificantTerms(NormalizeName(name)) != {} && SameCategory(e, category)
              && Alike(SignificantTerms(NormalizeName(name)), SignificantTerms(NamePiece(e)),
                       EditDistance.Distance(NormalizeName(name), NamePiece(e)))
    {
      ResemblesInCounts(name, category, e);
    }
  }

  /** What a match at this distance with these terms is worth: 1, 0.9 and 0.8, and beyond that the overlap, but at most 0.9. */
  ghost predicate Worth(terms: set<string>, other: set<string>, distance: nat, confidence: real) {
    match distance
    case 0 => confidence == 1.0
    case 1 => confidence == 0.9
    case 2 => confidence == 0.8
    case _ =>
      if 20 * |terms * other| < 9 * (|terms| + |other|) then confidence * (|terms| + |other|) as real == (2 * |terms * other|) as real
      else confidence == 0.9
  }

  lemma JudgedWorth(q: Query, e: Entry)
    requires q.terms != {} && !Judge(q, e).Unrelated?
    ensures var d := EditDistance.Distance(q.normalized, NamePiece(e));
            && SameCategory(e, q.category)
            && Alike(q.terms, SignificantTerms(NamePiece(e)), d)
            && Worth(q.terms, SignificantTerms(NamePiece(e)), d, Better(None, Candidate(e.id, Judge(q, e))).value.overlap)
  {
    hide EditDistance.Distance;
    hide SignificantTerms;
    hide TermOverlap;
    hide NamePiece;
    hide SameCategory;
    hide NearConfidence;
    Confidences();
    OverlapThreshold(q.terms, SignificantTerms(NamePiece(e)));
    OverlapInCounts(q.terms, SignificantTerms(NamePiece(e)));
  }

  lemma {:induction false} PickIsWhole(cs: seq<Candidate>)
    requires Pick(cs).Some?
    ensures exists i :: 0 <= i < |cs| && !cs[i].verdict.Unrelated? && Pick(cs) == Better(None, cs[i])
    decreases |cs|
  {
    var front, last := cs[..|cs| - 1], cs[|cs| - 1];
    if Pick(cs) == Pick(front) {
      PickIsWhole(front);
      var i :| 0 <= i < |front| && !front[i].verdict.Unrelated? && Pick(front) == Better(None, front[i]);
      assert cs[i] == front[i];
    } else {
      assert cs[|cs| - 1] == last && Pick(cs) == Better(None, last);
    }
  }

  /** Without the exact key, the reported id and confidence are those of one entry that is alike, in counts. */
  lemma ConfidenceInCounts(name: string, category: string, existing: Index)
    requires forall e :: e in existing ==> e.key != Key(name, category)
    requires Detection(name, category, existing).isDuplicate
    ensures var terms := SignificantTerms(NormalizeName(name));
            var r := Detection(name, category, existing);
            exists e :: e in existing && SameCategory(e, category) && r.existingId == Some(e.id)
                        && Alike(terms, SignificantTerms(NamePiece(e)), EditDistance.Distance(NormalizeName(name), NamePiece(e)))
                        && Worth(terms, SignificantTerms(NamePiece(e)), EditDistance.Distance(NormalizeName(name), NamePiece(e)), r.confidence)
  {
    LookupFindsKey(existing, Key(name, category));
    var q := QueryOf(name, category);
    var cs := Candidates(q, existing);
    PickIsWhole(cs);
    var i :| 0 <= i < |cs| && !cs[i].verdict.Unrelated? && Pick(cs) == Better(None, cs[i]);
    assert cs[i] == Candidate(existing[i].id, Judge(q, existing[i]));
    assert existing[i] in existing;
    JudgedWorth(q, existing[i]);
  }

  // ---------- which words are terms ----------

  lemma {:induction false} WordsThenWord(current: string, s: string, w: string)
    requires w != [] && forall i :: 0 <= i < |w| ==> !IsSpace(w[i])
    ensures WordsFrom(current, s + [' '] + w, IsSpace) == WordsFrom(current, s, IsSpace) + [w]
    decreases |s|
  {
    var t := s + [' '] + w;
    if s == [] {
      assert t == [' '] + w && t[1..] == w;
      OneWord([], w);
      assert [] + w == w;
    } else {
      assert t[1..] == s[1..] + [' '] + w;
      WordsThenWord(if IsSpace(s[0]) then [] else current + [s[0]], s[1..], w);
    }
  }

  lemma {:induction false} OneWord(current: string, w: string)
    requires forall i :: 0 <= i < |w| ==> !IsSpace(w[i])
    ensures WordsFrom(current, w, IsSpace) == Flush(current + w)
    decreases |w|
  {
    if w == [] {
      assert current + w == current;
    } else {
      OneWord(current + [w[0]], w[1..]);
      assert current + [w[0]] + w[1..] == current + w;
    }
  }

  /** A further word is a further term exactly when it has at least three characters and is no stop word. */
  lemma TermsOfLongerName(name: string, w: string)
    requires CharRules.IsRun(w)
    ensures SignificantTerms(name + [' '] + w) ==
            SignificantTerms(name) + (if |w| >= 3 && w !in STOP_WORDS then {w} else {})
  {
    assert Lower(w) == w;
    assert Lower(name + [' '] + w) == Lower(name) + [' '] + w;
    WordsThenWord([], Lower(name), w);
    var all, some := Words(Lower(name + [' '] + w), IsSpace), Words(Lower(name), IsSpace);
    assert all == some + [w];
    assert forall v :: v in all <==> v in some || v == w;
  }

  /** A single word. */
  lemma TermsOfWord(w: string)
    requires CharRules.IsRun(w)
    ensures SignificantTerms(w) == if |w| >= 3 && w !in STOP_WORDS then {w} else {}
  {
    assert Lower(w) == w;
    OneWord([], w);
    assert [] + w == w;
  }

  // ---------- an instance ----------

  /** Strings without a common character are as far apart as the longer one is long. */
  lemma {:induction false} NothingInCommon(a: string, b: string)
    requires forall c :: c in a ==> c !in b
    ensures EditDistance.Distance(a, b) == if |a| >= |b| then |a| else |b|
    decreases |a| + |b|
  {
    if a != [] && b != [] {
      assert EditDistance.Last(a) in a && EditDistance.Last(b) in b;
      assert (forall c :: c in EditDistance.Init(a) ==> c in a) && forall c :: c in EditDistance.Init(b) ==> c in b;
      NothingInCommon(EditDistance.Init(a), EditDistance.Init(b));
      NothingInCommon(EditDistance.Init(a), b);
      NothingInCommon(a, EditDistance.Init(b));
    }
  }

  lemma NoSixLetterStopWord()
    ensures forall v :: v in STOP_WORDS ==> |v| != 6
  {
  }

  lemma ThreeLetterStopWords()
    ensures forall v :: v in STOP_WORDS && |v| == 3 ==> v[0] != 'r' && (v[0] != 't' || v[1] != 'a')
  {
  }

  lemma NoStopWords(w: string)
    requires |w| == 6 || w == "red" || w == "tan"
    ensures w !in STOP_WORDS
  {
    hide STOP_WORDS;
    NoSixLetterStopWord();
    ThreeLetterStopWords();
  }

  lemma CableTerms(w: string)
    requires w == "red" || w == "tan"
    ensures SignificantTerms(w + [' '] + "copper" + [' '] + "cables") == {w, "copper", "cables"}
  {
    hide SignificantTerms;
    hide STOP_WORDS;
    NoStopWords(w);
    NoStopWords("copper");
    NoStopWords("cables");
    TermsOfWord(w);
    TermsOfLongerName(w, "copper");
    TermsOfLongerName(w + [' '] + "copper", "cables");
  }

  /** The name, as it is normalised, and its terms. */
  lemma CableName(w: string)
    requires w == "red" || w == "tan"
    ensures NormalizeName(w + " copper cables") == w + " copper cables"
    ensures SignificantTerms(w + " copper cables") == {w, "copper", "cables"}
  {
    hide SignificantTerms;
    hide NormalizeName;
    CableTerms(w);
    var runs := [w, "copper", "cables"];
    assert w + [' '] + "copper" + [' '] + "cables" == w + " copper cables";
    ThreeJoined(w, "copper", "cables");
    assert w + [' '] + ("copper" + [' '] + "cables") == w + " copper cables";
    CharRules.NormalizeRuns(runs, ' ');
  }

  lemma ThreeJoined(a: string, b: string, c: string)
    ensures Join([a, b, c], ' ') == a + [' '] + (b + [' '] + c)
  {
    assert [a, b, c][1..] == [b, c] && [b, c][1..] == [c];
    assert Join([c], ' ') == c && Join([b, c], ' ') == b + [' '] + c;
  }

  lemma RedAndTanDistance(rest: string)
    ensures EditDistance.Distance("red" + rest, "tan" + rest) == 3
  {
    hide EditDistance.Distance;
    EditDistance.CommonSuffix("red", "tan", rest);
    NoCommonLetter();
    NothingInCommon("red", "tan");
  }

  lemma NoCommonLetter()
    ensures forall c :: c in "red" ==> c !in "tan"
  {
    assert "red" == ['r', 'e', 'd'] && "tan" == ['t', 'a', 'n'];
  }

  lemma TwoThirds()
    ensures var s, t := {"red", "copper", "cables"}, {"tan", "copper", "cables"};
            TermOverlap(s, t) == 2.0 / 3.0 && 0.6 < 2.0 / 3.0 < 0.9
  {
    var s, t := {"red", "copper", "cables"}, {"tan", "copper", "cables"};
    assert "red"[0] != "tan"[0] && "copper"[1] != "cables"[1];
    assert s * t == {"copper", "cables"};
    assert |s| == 3 && |t| == 3 && |s * t| == 2;
  }

  /** Two of three terms in common at distance 3: a duplicate with confidence two thirds. */
  lemma RedAndTan(id: string)
    ensures Detection("red copper cables", "c", [Entry("tan copper cables" + BARS + "c", id)]) == DuplicateResult(true, Some(id), 2.0 / 3.0)
  {
    hide EditDistance.Distance;
    hide SignificantTerms;
    hide NormalizeName;
    hide TermOverlap;
    var red, tan := "red" + " copper cables", "tan" + " copper cables";
    assert red == "red copper cables" && tan == "tan copper cables";
    var e := Entry(tan + BARS + "c", id);
    CableName("red");
    CableName("tan");
    RedAndTanDistance(" copper cables");
    TwoThirds();
    TanDecodes(e);
    var q := QueryOf(red, "c");
    assert "red" in q.terms;
    OverlappingTan(q, e);
    OneCandidate(q, e);
    assert e.key[0] == 't' && Key(red, "c")[0] == 'r';
    assert [e][1..] == [] && Lookup([], Key(red, "c")) == None;
  }

  lemma TanDecodes(e: Entry)
    requires e.key == "tan copper cables" + BARS + "c"
    ensures NamePiece(e) == "tan copper cables" && SameCategory(e, "c")
  {
    hide NormalizeName;
    var tan := "tan" + " copper cables";
    assert tan == "tan copper cables";
    CableName("tan");
    NormalNameIsBarFree(tan);
    assert "c"[1..] == [] && !(BARS <= "c");
    DetectionOrder.DecodesTo(e, tan, "c");
  }

  lemma OverlappingTan(q: Query, e: Entry)
    requires q.terms != {} && SameCategory(e, q.category)
    requires EditDistance.Distance(q.normalized, NamePiece(e)) == 3
    requires TermOverlap(q.terms, SignificantTerms(NamePiece(e))) == 2.0 / 3.0
    ensures Judge(q, e) == Overlapping(3, 2.0 / 3.0)
  {
    hide EditDistance.Distance;
    hide SignificantTerms;
    hide TermOverlap;
    hide NamePiece;
  }
}
