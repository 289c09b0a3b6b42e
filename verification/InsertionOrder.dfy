/** The distinct elements of a sequence in order of first appearance: what a JavaScript Set iterates. */
module InsertionOrder {

  /** `set.add(x)` on an insertion-ordered set. */
  function AddOnce<T(==)>(s: seq<T>, x: T): seq<T> {
    if x in s then s else s + [x]
  }

  function FirstSeen<T(==)>(s: seq<T>): seq<T> {
    if s == [] then [] else AddOnce(FirstSeen(s[..|s| - 1]), s[|s| - 1])
  }

  /** The position of the first occurrence. */
  function FirstIndex<T(==)>(s: seq<T>, x: T): (k: nat)
    requires x in s
    ensures k < |s| && s[k] == x && x !in s[..k]
  {
    if s[0] == x then 0
    else
      assert x in s[1..];
      var k := FirstIndex(s[1..], x);
      assert s[..k + 1] == [s[0]] + s[1..][..k];
      k + 1
  }

  lemma {:induction false} SameElements<T>(s: seq<T>, x: T)
    ensures x in FirstSeen(s) <==> x in s
    decreases |s|
  {
    if s != [] {
      SameElements(s[..|s| - 1], x);
      assert s == s[..|s| - 1] + [s[|s| - 1]];
    }
  }

  lemma {:induction false} Distinct<T>(s: seq<T>)
    ensures forall i, j :: 0 <= i < j < |FirstSeen(s)| ==> FirstSeen(s)[i] != FirstSeen(s)[j]
    decreases |s|
  {
    if s != [] {
      Distinct(s[..|s| - 1]);
    }
  }

  lemma FirstIndexUnique<T>(s: seq<T>, x: T, k: nat)
    requires k < |s| && s[k] == x && x !in s[..k]
    ensures x in s && FirstIndex(s, x) == k
  {
    var j := FirstIndex(s, x);
    assert forall i :: 0 <= i < k ==> s[..k][i] == s[i];
    assert forall i :: 0 <= i < j ==> s[..j][i] == s[i];
  }

  lemma FirstIndexOfPrefix<T>(s: seq<T>, k: nat, x: T)
    requires k <= |s| && x in s[..k]
    ensures x in s && FirstIndex(s, x) == FirstIndex(s[..k], x) < k
  {
    var i := FirstIndex(s[..k], x);
    assert s[..k][..i] == s[..i];
    FirstIndexUnique(s, x, i);
  }

  /** `r` lists elements of `s` by strictly increasing first occurrence. */
  ghost predicate InFirstOrder<T>(s: seq<T>, r: seq<T>) {
    forall i, j :: 0 <= i < j < |r| ==> Before(s, r[i], r[j])
  }

  /** Both occur in `s`, and `x` does so first. */
  ghost predicate Before<T>(s: seq<T>, x: T, y: T) {
    x in s && y in s && FirstIndex(s, x) < FirstIndex(s, y)
  }

  /** Order of first appearance. With `SameElements` this determines the result. */
  lemma {:induction false} InOrder<T>(s: seq<T>)
    ensures InFirstOrder(s, FirstSeen(s))
    decreases |s|
  {
    if s != [] {
      var front, last := s[..|s| - 1], s[|s| - 1];
      InOrder(front);
      var r := FirstSeen(s);
      forall i, j | 0 <= i < j < |r|
        ensures Before(s, r[i], r[j])
      {
        assert r[i] == FirstSeen(front)[i];
        SameElements(front, r[i]);
        FirstIndexOfPrefix(s, |s| - 1, r[i]);
        if j < |FirstSeen(front)| {
          assert Before(front, FirstSeen(front)[i], FirstSeen(front)[j]);
          SameElements(front, r[j]);
          FirstIndexOfPrefix(s, |s| - 1, r[j]);
        } else {
          SameElements(front, last);
          FirstIndexUnique(s, last, |s| - 1);
        }
      }
    }
  }

  lemma AppendOne<T>(s: seq<T>, x: T)
    ensures FirstSeen(s + [x]) == AddOnce(FirstSeen(s), x)
  {
    assert (s + [x])[..|s|] == s;
  }
}
