/**
 The seeded generator and the shuffle of prisma/seed-scripts/master-directory.seed.ts:
 `mulberry32`, `pick` and `shuffled`.
 */
module Shuffle {
  import opened Wrappers
  import opened Words32

  // ---------- the generator ----------

  const INCREMENT: nat := 0x6d2b79f5

  /** `a = (a + 0x6d2b79f5) | 0` */
  function Step(a: Word): Word {
    (a + INCREMENT) % MODULUS
  }

  /** The scrambling of the state, on 32-bit words; `Math.imul` is multiplication modulo 2^32. */
  function Scramble(a: bv32): bv32 {
    var t := (a ^ (a >> 15)) * (1 | a);
    var u := (t + (t ^ (t >> 7)) * (61 | t)) ^ t;
    u ^ (u >> 14)
  }

  function Output(a: Word): Word {
    Scramble(a as bv32) as int
  }

  type Fraction = r: real | 0.0 <= r < 1.0

  /** The value returned when the state has just become `a`. */
  function Draw(a: Word): Fraction {
    Output(a) as real / MODULUS as real
  }

  /** The closure a call of `mulberry32` returns: its state, and how it turns states into values. */
  class Generator {
    const draw: Word -> Fraction
    var a: Word

    constructor Mulberry32(seed: Word)
      ensures a == seed && draw == Draw
    {
      a, draw := seed, Draw;
    }

    method Next() returns (r: Fraction)
      modifies this
      ensures a == Step(old(a)) && r == draw(a)
    {
      a := (a + INCREMENT) % MODULUS;
      r := draw(a);
    }
  }

  /** The first draws from the seed 42, which the directory seed uses. */
  lemma FirstDraws()
    ensures Step(42) == 1831565855 && Step(Step(42)) == 3663131668 && Step(Step(Step(42))) == 1199730185
    ensures Scramble(1831565855) == 2581720956 && Scramble(3663131668) == 1925393290 && Scramble(1199730185) == 3661312704
  {
  }

  /** A draw is the scrambled word as a fraction of 2^32. */
  lemma DrawMeans(a: Word)
    ensures Draw(a) * 4294967296.0 == (Scramble(a as bv32) as int) as real
  {
    hide Scramble;
  }

  /** The state after `k` draws. */
  function Advance(a: Word, k: nat): Word
    decreases k
  {
    if k == 0 then a else Advance(Step(a), k - 1)
  }

  lemma AdvanceOne(a: Word, k: nat)
    requires k > 0
    ensures Advance(a, k) == Advance(Step(a), k - 1)
  {
  }

  lemma {:induction false} AdvanceIsLinear(a: Word, k: nat)
    ensures Advance(a, k) == (a + k * INCREMENT) % MODULUS
    decreases k
  {
    if k > 0 {
      AdvanceIsLinear(Step(a), k - 1);
      AddThenReduce(a + INCREMENT, (k - 1) * INCREMENT);
    }
  }

  lemma AddThenReduce(x: nat, y: nat)
    ensures (x % MODULUS + y) % MODULUS == (x + y) % MODULUS
  {
  }

  /** The inverse of the increment modulo 2^32: the increment is odd. */
  const INVERSE: nat := 3696798301
  const QUOTIENT: nat := 1576479847

  /**
   The state returns to an earlier value exactly after a multiple of 2^32 draws, so all values of
   a full period are distinct.
   */
  lemma PeriodIsFull(a: Word, i: nat, j: nat)
    requires i <= j
    ensures Advance(a, i) == Advance(a, j) <==> (j - i) % MODULUS == 0
  {
    AdvanceIsLinear(a, i);
    AdvanceIsLinear(a, j);
    var x, y := a + i * INCREMENT, a + j * INCREMENT;
    var q := y / MODULUS - x / MODULUS;
    if Advance(a, i) == Advance(a, j) {
      assert (j - i) * INCREMENT == q * MODULUS;
      InverseCancels(j - i, q);
    }
    if (j - i) % MODULUS == 0 {
      var m := (j - i) / MODULUS;
      assert y == x + m * INCREMENT * MODULUS;
      AddMultiple(x, m * INCREMENT);
    }
  }

  lemma AddMultiple(x: nat, m: nat)
    ensures (x + m * MODULUS) % MODULUS == x % MODULUS
  {
  }

  lemma InverseCancels(d: int, q: int)
    requires d * INCREMENT == q * MODULUS
    ensures d % MODULUS == 0
  {
    assert INCREMENT * INVERSE == QUOTIENT * MODULUS + 1;
    assert d == MODULUS * (q * INVERSE - d * QUOTIENT);
  }

  /** Every 32-bit state is reached within one period. */
  lemma EveryStateIsReached(a: Word, target: Word) returns (k: nat)
    ensures k < MODULUS && Advance(a, k) == target
  {
    var gap := target - a + MODULUS;
    k := gap * INVERSE % MODULUS;
    var q := gap * INVERSE / MODULUS;
    AdvanceIsLinear(a, k);
    assert INCREMENT * INVERSE == QUOTIENT * MODULUS + 1;
    assert k * INCREMENT == gap + MODULUS * (gap * QUOTIENT - q * INCREMENT);
    assert a + k * INCREMENT == target + MODULUS * (1 + gap * QUOTIENT - q * INCREMENT);
    ReduceWord(target, a + k * INCREMENT, 1 + gap * QUOTIENT - q * INCREMENT);
  }

  lemma ReduceWord(w: Word, x: nat, m: int)
    requires x == w + MODULUS * m
    ensures x % MODULUS == w
  {
  }

  // ---------- indices ----------

  /** `Math.floor(rand() * n)` */
  function Index(r: real, n: nat): int {
    (r * n as real).Floor
  }

  lemma {:induction false} IndexInBounds(r: real, n: nat)
    requires 0.0 <= r < 1.0 && n > 0
    ensures 0 <= Index(r, n) < n
  {
    assert 0.0 <= r * n as real < n as real;
  }

  /** The index is `k` exactly for the `k`-th of `n` equal parts of the unit interval, so each index has its share of the draws. */
  lemma IndexExactly(r: real, n: nat, k: int)
    requires 0.0 <= r < 1.0 && n > 0
    ensures Index(r, n) == k <==> k as real <= r * n as real < (k + 1) as real
  {
  }

  /** JavaScript's remainder takes the sign of the dividend. */
  function Remainder(x: int, n: nat): int
    requires n > 0
  {
    if x >= 0 then x % n else -((-x) % n)
  }

  /** Reading an array outside its bounds yields undefined. */
  function Pick<T>(r: real, arr: seq<T>, offset: int): Option<T> {
    if arr == [] then None
    else
      var k := Remainder(Index(r, |arr|) + offset, |arr|);
      if 0 <= k < |arr| then Some(arr[k]) else None
  }

  /** A draw picks an element exactly when the shifted index is not negative, or divides evenly. */
  lemma {:induction false} PickInBounds<T>(r: real, arr: seq<T>, offset: int)
    requires 0.0 <= r < 1.0
    ensures var shifted := Index(r, |arr|) + offset;
            Pick(r, arr, offset).Some? <==> arr != [] && (shifted >= 0 || shifted % |arr| == 0)
    ensures arr != [] && offset >= 0 ==> Pick(r, arr, offset) == Some(arr[(Index(r, |arr|) + offset) % |arr|])
  {
    if arr != [] {
      IndexInBounds(r, |arr|);
      RemainderSign(Index(r, |arr|) + offset, |arr|);
    }
  }

  lemma RemainderSign(x: int, n: nat)
    requires n > 0
    ensures Remainder(x, n) < n
    ensures Remainder(x, n) >= 0 <==> x >= 0 || x % n == 0
  {
    if x < 0 {
      var q, m := (-x) / n, (-x) % n;
      assert x == -q * n - m;
      if m == 0 {
        MultipleHasNoRemainder(-q, n);
      } else {
        assert x == (-q - 1) * n + (n - m);
        RemainderIsUnique(x, n, -q - 1, n - m);
      }
    }
  }

  lemma MultipleHasNoRemainder(q: int, n: nat)
    requires n > 0
    ensures q * n % n == 0
  {
    RemainderIsUnique(q * n, n, q, 0);
  }

  lemma RemainderIsUnique(x: int, n: nat, q: int, m: int)
    requires n > 0 && 0 <= m < n && x == q * n + m
    ensures x % n == m
  {
    var d := x / n - q;
    assert d * n == m - x % n;
    assert d >= 1 ==> d * n >= n;
    assert d <= -1 ==> d * n <= 0 - n;
  }

  // ---------- the shuffle ----------

  /** A choice vector: position i is swapped with some j_i in 0..i. */
  ghost predicate ValidChoices(choices: seq<nat>) {
    forall i :: 0 <= i < |choices| ==> choices[i] <= i
  }

  /** What precedes the last position once the last element and element `j` have changed places. */
  function TakeOut<T>(s: seq<T>, j: nat): (t: seq<T>)
    requires j < |s|
    ensures |t| == |s| - 1
    ensures forall i :: 0 <= i < |t| ==> t[i] == if i == j then s[|s| - 1] else s[i]
  {
    if j < |s| - 1 then s[..|s| - 1][j := s[|s| - 1]] else s[..|s| - 1]
  }

  /** The shuffle as a function of its choices: last position first. */
  ghost function FisherYates<T>(s: seq<T>, choices: seq<nat>): (t: seq<T>)
    requires |choices| == |s| && ValidChoices(choices)
    ensures |t| == |s|
    decreases |s|
  {
    if s == [] then []
    else
      var n := |s| - 1;
      FisherYates(TakeOut(s, choices[n]), choices[..n]) + [s[choices[n]]]
  }

  /** One unfolding, with its two parts named. */
  lemma LastChoice<T>(s: seq<T>, choices: seq<nat>, t: seq<T>, front: seq<nat>)
    requires s != [] && |choices| == |s| && ValidChoices(choices)
    requires front == choices[..|s| - 1] && t == TakeOut(s, choices[|s| - 1])
    ensures FisherYates(s, choices) == FisherYates(t, front) + [s[choices[|s| - 1]]]
  {
  }

  /** The choices `draw` gives from state `a` on, for a list of length `n`; position 0 has no choice. */
  ghost function Choices(draw: Word -> Fraction, a: Word, n: nat): (choices: seq<nat>)
    ensures |choices| == n && ValidChoices(choices)
    decreases n
  {
    if n == 0 then []
    else if n == 1 then [0]
    else
      IndexInBounds(draw(Step(a)), n);
      Choices(draw, Step(a), n - 1) + [Index(draw(Step(a)), n)]
  }

  lemma {:induction false} ChoiceAt(draw: Word -> Fraction, a: Word, n: nat, i: nat)
    requires 0 < i < n
    ensures Choices(draw, a, n)[i] == Index(draw(Advance(a, n - i)), i + 1)
    decreases n
  {
    hide Index;
    hide Step;
    AdvanceOne(a, n - i);
    if i == n - 1 {
      assert Advance(Step(a), 0) == Step(a);
    } else {
      ChoiceAt(draw, Step(a), n - 1, i);
    }
  }

  /**
   How the choices come from the draws: position `i` of `n` is chosen by draw number `n - i`, scaled
   to one of `i + 1` equal parts.
   */
  lemma {:induction false} ChoicesMean(draw: Word -> Fraction, a: Word, n: nat, i: nat)
    requires 0 < i < n
    ensures var r, k := draw(Advance(a, n - i)), Choices(draw, a, n)[i];
            k as real <= r * (i + 1) as real < (k + 1) as real
    ensures Choices(draw, a, n)[0] == 0
  {
    hide Choices;
    hide Index;
    ChoiceAt(draw, a, n, i);
    FirstChoice(draw, a, n);
    IndexExactly(draw(Advance(a, n - i)), i + 1, Choices(draw, a, n)[i]);
  }

  lemma {:induction false} FirstChoice(draw: Word -> Fraction, a: Word, n: nat)
    requires n > 0
    ensures Choices(draw, a, n)[0] == 0
    decreases n
  {
    if n > 1 {
      FirstChoice(draw, Step(a), n - 1);
    }
  }

  /** The final order, when the first `k` positions are still to be shuffled from state `a`. */
  ghost function Remaining<T>(draw: Word -> Fraction, s: seq<T>, k: nat, a: Word): seq<T>
    requires k <= |s|
  {
    FisherYates(s[..k], Choices(draw, a, k)) + s[k..]
  }

  /** One turn of the loop: draw a position up to `i` and swap. */
  method SwapDrawn<T>(rand: Generator, copy: array<T>, i: nat)
    requires 0 < i < copy.Length
    modifies rand, copy
    ensures Remaining(rand.draw, copy[..], i, rand.a) == Remaining(rand.draw, old(copy[..]), i + 1, old(rand.a))
    ensures rand.a == Step(old(rand.a))
  {
    var r := rand.Next();
    IndexInBounds(r, i + 1);
    var j := Index(r, i + 1);
    copy[i], copy[j] := copy[j], copy[i];
    OneChoice(rand.draw, old(copy[..]), copy[..], i, j, old(rand.a));
  }

  /** The loop over the copy, from the last position down. */
  method ShuffleCells<T>(rand: Generator, copy: array<T>)
    modifies rand, copy
    ensures copy[..] == Remaining(rand.draw, old(copy[..]), copy.Length, old(rand.a))
    ensures rand.a == Advance(old(rand.a), DrawsFor(copy.Length))
  {
    ghost var target := Remaining(rand.draw, copy[..], copy.Length, rand.a);
    ghost var last := Advance(rand.a, DrawsFor(copy.Length));
    var i := copy.Length - 1;
    while i > 0
      invariant -1 <= i < copy.Length && (i == -1 ==> copy.Length == 0)
      invariant Remaining(rand.draw, copy[..], i + 1, rand.a) == target
      invariant Advance(rand.a, DrawsFor(i + 1)) == last
    {
      AdvanceOne(rand.a, i);
      SwapDrawn(rand, copy, i);
      i := i - 1;
    }
    NoneRemaining(rand.draw, copy[..], i + 1, rand.a);
  }

  /** A list of length `n` takes one draw for each position but the first. */
  function DrawsFor(n: nat): nat {
    if n == 0 then 0 else n - 1
  }

  /** The spread copy is shuffled; the argument is left alone. */
  method Shuffled<T>(rand: Generator, arr: array<T>) returns (copy: array<T>)
    modifies rand
    ensures fresh(copy) && arr[..] == old(arr[..])
    ensures copy[..] == FisherYates(arr[..], Choices(rand.draw, old(rand.a), arr.Length))
    ensures rand.a == Advance(old(rand.a), DrawsFor(arr.Length))
  {
    copy := new T[arr.Length](k requires 0 <= k < arr.Length reads arr => arr[k]);
    assert copy[..] == arr[..];
    AllRemaining(rand.draw, arr[..], rand.a);
    ShuffleCells(rand, copy);
  }

  lemma AllRemaining<T>(draw: Word -> Fraction, s: seq<T>, a: Word)
    ensures Remaining(draw, s, |s|, a) == FisherYates(s, Choices(draw, a, |s|))
  {
    assert s[..|s|] == s;
  }

  lemma NoneRemaining<T>(draw: Word -> Fraction, s: seq<T>, k: nat, a: Word)
    requires k <= 1 && k <= |s|
    ensures Remaining(draw, s, k, a) == s
  {
    if k == 1 {
      var one := s[..1];
      assert TakeOut(one, 0) == [];
      assert FisherYates(one, [0]) == [] + [one[0]];
    }
  }

  /** One turn of the loop is one unfolding of the function. */
  lemma OneChoice<T>(draw: Word -> Fraction, before: seq<T>, after: seq<T>, i: nat, j: nat, a: Word)
    requires 0 < i < |before| && j <= i && j == Index(draw(Step(a)), i + 1)
    requires |after| == |before| && after[i] == before[j] && after[j] == before[i]
    requires forall k :: 0 <= k < |before| && k != i && k != j ==> after[k] == before[k]
    ensures Remaining(draw, before, i + 1, a) == Remaining(draw, after, i, Step(a))
  {
    var s, choices := before[..i + 1], Choices(draw, a, i + 1);
    var rest := Choices(draw, Step(a), i);
    assert choices == rest + [j];
    LastChoice(s, choices, after[..i], rest) by {
      assert TakeOut(s, j) == after[..i];
      assert choices[..i] == rest;
    }
    JoinTails(FisherYates(after[..i], rest), before[j], before[i + 1..], after[i..]);
  }

  lemma JoinTails<T>(front: seq<T>, x: T, tail: seq<T>, whole: seq<T>)
    requires |whole| == |tail| + 1 && whole[0] == x && forall k :: 0 <= k < |tail| ==> whole[k + 1] == tail[k]
    ensures front + [x] + tail == front + whole
  {
    assert [x] + tail == whole;
  }

  // ---------- every permutation, once ----------

  lemma TakeOutKeepsTheRest<T>(s: seq<T>, j: nat)
    requires j < |s|
    ensures multiset(TakeOut(s, j)) + multiset{s[j]} == multiset(s)
  {
    var n := |s| - 1;
    assert s == s[..n] + [s[n]];
    if j < n {
      assert multiset(s[..n][j := s[n]]) == multiset(s[..n]) - multiset{s[j]} + multiset{s[n]};
    }
  }

  /** The shuffle permutes: it keeps the multiset of every list, distinct or not. */
  lemma {:induction false} ShuffleKeepsElements<T>(s: seq<T>, choices: seq<nat>)
    requires |choices| == |s| && ValidChoices(choices)
    ensures multiset(FisherYates(s, choices)) == multiset(s)
    decreases |s|
  {
    if s != [] {
      var n := |s| - 1;
      TakeOutKeepsTheRest(s, choices[n]);
      ShuffleKeepsElements(TakeOut(s, choices[n]), choices[..n]);
    }
  }

  ghost predicate Distinct<T>(s: seq<T>) {
    forall i, j :: 0 <= i < j < |s| ==> s[i] != s[j]
  }

  lemma TakeOutKeepsDistinct<T>(s: seq<T>, j: nat)
    requires j < |s| && Distinct(s)
    ensures Distinct(TakeOut(s, j))
  {
  }

  /** On distinct elements, different choices give different orders. */
  lemma {:induction false} ChoicesAreInjective<T>(s: seq<T>, c: seq<nat>, d: seq<nat>)
    requires |c| == |s| == |d| && ValidChoices(c) && ValidChoices(d)
    requires Distinct(s) && FisherYates(s, c) == FisherYates(s, d)
    ensures c == d
    decreases |s|
  {
    if s != [] {
      var n := |s| - 1;
      SameLast(s, c, d);
      assert c[n] == d[n];
      TakeOutKeepsDistinct(s, c[n]);
      ChoicesAreInjective(TakeOut(s, c[n]), c[..n], d[..n]);
      EqualFronts(c, d);
    }
  }

  lemma EqualFronts(c: seq<nat>, d: seq<nat>)
    requires |c| == |d| > 0 && c[..|c| - 1] == d[..|d| - 1] && c[|c| - 1] == d[|d| - 1]
    ensures c == d
  {
    assert c == c[..|c| - 1] + [c[|c| - 1]] && d == d[..|d| - 1] + [d[|d| - 1]];
  }

  lemma SameLast<T>(s: seq<T>, c: seq<nat>, d: seq<nat>)
    requires s != [] && |c| == |s| == |d| && ValidChoices(c) && ValidChoices(d)
    requires FisherYates(s, c) == FisherYates(s, d)
    ensures var n := |s| - 1;
            && s[c[n]] == s[d[n]]
            && FisherYates(TakeOut(s, c[n]), c[..n]) == FisherYates(TakeOut(s, d[n]), d[..n])
  {
    var n := |s| - 1;
    var x, y := FisherYates(TakeOut(s, c[n]), c[..n]), FisherYates(TakeOut(s, d[n]), d[..n]);
    assert (x + [s[c[n]]])[..n] == x && (y + [s[d[n]]])[..n] == y;
    assert (x + [s[c[n]]])[n] == s[c[n]] && (y + [s[d[n]]])[n] == s[d[n]];
  }

  /** Every order of the elements is reached by some choices. */
  lemma {:induction false} EveryOrderIsReached<T>(s: seq<T>, p: seq<T>) returns (choices: seq<nat>)
    requires multiset(p) == multiset(s)
    ensures |choices| == |s| && ValidChoices(choices) && FisherYates(s, choices) == p
    decreases |s|
  {
    SameSize(p, s);
    if s == [] {
      choices := [];
    } else {
      var n := |s| - 1;
      var j := LastElementPosition(s, p);
      var rest := EveryOrderIsReached(TakeOut(s, j), p[..n]);
      choices := AddChoice(s, p, j, rest);
    }
  }

  lemma AddChoice<T>(s: seq<T>, p: seq<T>, j: nat, rest: seq<nat>) returns (choices: seq<nat>)
    requires |p| == |s| == |rest| + 1 && ValidChoices(rest)
    requires j < |s| && s[j] == p[|p| - 1] && FisherYates(TakeOut(s, j), rest) == p[..|p| - 1]
    ensures |choices| == |s| && ValidChoices(choices) && FisherYates(s, choices) == p
  {
    choices := rest + [j];
    assert choices[..|rest|] == rest;
    LastChoice(s, choices, TakeOut(s, j), rest);
    assert p == p[..|rest|] + [p[|rest|]];
  }

  lemma LastElementPosition<T>(s: seq<T>, p: seq<T>) returns (j: nat)
    requires multiset(p) == multiset(s) && |p| == |s| > 0
    ensures j < |s| && s[j] == p[|p| - 1]
    ensures multiset(p[..|p| - 1]) == multiset(TakeOut(s, j))
  {
    var n := |p| - 1;
    assert p == p[..n] + [p[n]];
    assert p[n] in multiset(s);
    j :| 0 <= j < |s| && s[j] == p[n];
    TakeOutKeepsTheRest(s, j);
    assert multiset(p) == multiset(p[..n]) + multiset{p[n]};
    SubtractOne(multiset(p[..n]), multiset(TakeOut(s, j)), p[n]);
  }

  lemma SubtractOne<T>(a: multiset<T>, b: multiset<T>, x: T)
    requires a + multiset{x} == b + multiset{x}
    ensures a == b
  {
    assert a == a + multiset{x} - multiset{x};
    assert b == b + multiset{x} - multiset{x};
  }

  lemma SameSize<T>(p: seq<T>, s: seq<T>)
    requires multiset(p) == multiset(s)
    ensures |p| == |s|
  {
    assert |multiset(p)| == |p| && |multiset(s)| == |s|;
  }

  // ---------- ... exactly when the elements are distinct ----------

  function Identity(n: nat): (choices: seq<nat>)
    ensures |choices| == n && forall i :: 0 <= i < n ==> choices[i] == i
  {
    seq(n, i requires 0 <= i < n => i)
  }

  lemma {:induction false} IdentityLeavesInPlace<T>(s: seq<T>)
    ensures FisherYates(s, Identity(|s|)) == s
    decreases |s|
  {
    if s != [] {
      var n := |s| - 1;
      IdentityLeavesInPlace(s[..n]);
      assert Identity(|s|)[..n] == Identity(n);
      LastInPlace(s, Identity(|s|), Identity(n), n);
    }
  }

  /** When the last choice is an element equal to the last one, the rest decides. */
  lemma LastInPlace<T>(s: seq<T>, choices: seq<nat>, front: seq<nat>, k: nat)
    requires |choices| == |s| == |front| + 1 && ValidChoices(choices) && choices[..|front|] == front
    requires k == choices[|s| - 1] && s[k] == s[|s| - 1]
    requires FisherYates(s[..|s| - 1], front) == s[..|s| - 1]
    ensures FisherYates(s, choices) == s
  {
    var n := |s| - 1;
    TakeOutEqual(s, k);
    LastChoice(s, choices, s[..n], front);
  }

  lemma TakeOutEqual<T>(s: seq<T>, k: nat)
    requires k < |s| && s[k] == s[|s| - 1]
    ensures TakeOut(s, k) == s[..|s| - 1]
    ensures s[..|s| - 1] + [s[k]] == s
  {
  }

  /** Choosing an equal earlier element at one position changes nothing. */
  lemma {:induction false} EqualChoiceLeavesInPlace<T>(s: seq<T>, i: nat, j: nat)
    requires i < j < |s| && s[i] == s[j]
    ensures FisherYates(s, Identity(|s|)[j := i]) == s
    decreases |s|
  {
    var n := |s| - 1;
    var choices := Identity(|s|)[j := i];
    UpdatedPrefix(n, i, j);
    if j == n {
      IdentityLeavesInPlace(s[..n]);
      LastInPlace(s, choices, Identity(n), i);
    } else {
      EqualChoiceLeavesInPlace(s[..n], i, j);
      LastInPlace(s, choices, Identity(n)[j := i], n);
    }
  }

  lemma UpdatedPrefix(n: nat, i: nat, j: nat)
    requires i < j <= n
    ensures var choices := Identity(n + 1)[j := i];
            && ValidChoices(choices)
            && choices[..n] == (if j == n then Identity(n) else Identity(n)[j := i])
            && choices[n] == if j == n then i else n
  {
  }

  ghost predicate Chosen<T>(s: seq<T>, choices: seq<nat>, p: seq<T>) {
    |choices| == |s| && ValidChoices(choices) && FisherYates(s, choices) == p
  }

  ghost predicate OneToOne<T(!new)>(s: seq<T>) {
    forall c: seq<nat>, d: seq<nat>, p: seq<T> :: Chosen(s, c, p) && Chosen(s, d, p) ==> c == d
  }

  /** The shuffle maps choice vectors one-to-one to orders exactly when the elements are distinct. */
  lemma OneToOneExactlyWhenDistinct<T(!new)>(s: seq<T>)
    ensures OneToOne(s) <==> Distinct(s)
  {
    if Distinct(s) {
      DistinctIsOneToOne(s);
    } else {
      var i, j :| 0 <= i < j < |s| && s[i] == s[j];
      EqualPairCollides(s, i, j);
    }
  }

  lemma DistinctIsOneToOne<T(!new)>(s: seq<T>)
    requires Distinct(s)
    ensures OneToOne(s)
  {
    forall c: seq<nat>, d: seq<nat>, p: seq<T> | Chosen(s, c, p) && Chosen(s, d, p)
      ensures c == d
    {
      ChoicesAreInjective(s, c, d);
    }
  }

  lemma EqualPairCollides<T(!new)>(s: seq<T>, i: nat, j: nat)
    requires i < j < |s| && s[i] == s[j]
    ensures !OneToOne(s)
  {
    var c, d := Identity(|s|), Identity(|s|)[j := i];
    IdentityLeavesInPlace(s);
    EqualChoiceLeavesInPlace(s, i, j);
    assert Chosen(s, c, s) && Chosen(s, d, s);
    assert c[j] != d[j];
  }

  /** Every permutation of distinct elements arises from exactly one choice vector. */
  lemma EveryPermutationOnce<T(!new)>(s: seq<T>, p: seq<T>)
    requires Distinct(s)
    ensures (exists c: seq<nat> :: Chosen(s, c, p)) <==> multiset(p) == multiset(s)
    ensures forall c: seq<nat>, d: seq<nat> :: Chosen(s, c, p) && Chosen(s, d, p) ==> c == d
  {
    OneToOneExactlyWhenDistinct(s);
    if multiset(p) == multiset(s) {
      var c := EveryOrderIsReached(s, p);
      assert Chosen(s, c, p);
    }
    if c: seq<nat> :| Chosen(s, c, p) {
      ShuffleKeepsElements(s, c);
    }
  }
}
