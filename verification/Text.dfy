/**
 ASCII text: case, separators, words, and decimal numerals. The regular-expression pipelines of
 the seeders are built from `Keep`, `Collapse` and the strips below; `Words` and `Join` give
 their independent meaning.
 */
module Text {

  predicate IsSpace(c: char) {
    c == ' ' || c == '\t' || c == '\n' || c == '\r' || c == '\U{0B}' || c == '\U{0C}'
  }

  predicate IsAlnum(c: char) {
    'a' <= c <= 'z' || '0' <= c <= '9'
  }

  predicate IsSeparator(c: char) {
    !IsAlnum(c)
  }

  predicate IsDash(c: char) {
    c == '-'
  }

  predicate IsSpaceOrDash(c: char) {
    IsSpace(c) || c == '-'
  }

  function LowerChar(c: char): char {
    if 'A' <= c <= 'Z' then c - 'A' + 'a' else c
  }

  function Lower(s: string): (t: string)
    ensures |t| == |s| && forall i :: 0 <= i < |s| ==> t[i] == LowerChar(s[i])
  {
    seq(|s|, i requires 0 <= i < |s| => LowerChar(s[i]))
  }

  ghost predicate All(s: string, p: char -> bool) {
    forall i :: 0 <= i < |s| ==> p(s[i])
  }

  /** Drops the characters outside `p`: `replace(/[^...]/g, '')`. */
  function Keep(s: string, p: char -> bool): string {
    if s == [] then [] else (if p(s[0]) then [s[0]] else []) + Keep(s[1..], p)
  }

  /** Replaces each character of `p` by `to`: `replace(/[...]/g, to)`. */
  function Recolour(s: string, p: char -> bool, to: char): (t: string)
    ensures |t| == |s| && forall i :: 0 <= i < |s| ==> t[i] == if p(s[i]) then to else s[i]
  {
    seq(|s|, i requires 0 <= i < |s| => if p(s[i]) then to else s[i])
  }

  /** Replaces each maximal run of `p` by one `to`: `replace(/[...]+/g, to)`. */
  function Collapse(s: string, p: char -> bool, to: char): string {
    CollapseFrom(false, s, p, to)
  }

  function CollapseFrom(inRun: bool, s: string, p: char -> bool, to: char): string
    decreases |s|
  {
    if s == [] then []
    else if p(s[0]) then (if inRun then [] else [to]) + CollapseFrom(true, s[1..], p, to)
    else [s[0]] + CollapseFrom(false, s[1..], p, to)
  }

  function StripLeft(s: string, p: char -> bool): string {
    if s != [] && p(s[0]) then StripLeft(s[1..], p) else s
  }

  function StripRight(s: string, p: char -> bool): string {
    if s != [] && p(s[|s| - 1]) then StripRight(s[..|s| - 1], p) else s
  }

  /** Removes every leading and trailing character of `p`. */
  function Strip(s: string, p: char -> bool): string {
    StripRight(StripLeft(s, p), p)
  }

  function Trim(s: string): string {
    Strip(s, IsSpace)
  }

  /** Removes one leading and one trailing dash: `replace(/^-|-$/g, '')`. */
  function StripOneDash(s: string): string {
    var t := if s != [] && s[0] == '-' then s[1..] else s;
    if t != [] && t[|t| - 1] == '-' then t[..|t| - 1] else t
  }

  // ---------- words ----------

  /** The maximal runs of characters outside `sep`. */
  function Words(s: string, sep: char -> bool): seq<string> {
    WordsFrom([], s, sep)
  }

  function WordsFrom(current: string, s: string, sep: char -> bool): seq<string>
    decreases |s|
  {
    if s == [] then Flush(current)
    else if sep(s[0]) then Flush(current) + WordsFrom([], s[1..], sep)
    else WordsFrom(current + [s[0]], s[1..], sep)
  }

  function Flush(current: string): seq<string> {
    if current == [] then [] else [current]
  }

  function Join(words: seq<string>, c: char): string {
    if words == [] then []
    else if |words| == 1 then words[0]
    else words[0] + [c] + Join(words[1..], c)
  }

  lemma {:induction false} CollapseKeepsWords(inRun: bool, current: string, s: string,
                                              p: char -> bool, to: char, sep: char -> bool)
    requires inRun ==> current == []
    requires sep(to) && forall c :: p(c) ==> sep(c)
    ensures WordsFrom(current, CollapseFrom(inRun, s, p, to), sep) == WordsFrom(current, s, sep)
    decreases |s|
  {
    if s == [] {
    } else if p(s[0]) {
      CollapseKeepsWords(true, [], s[1..], p, to, sep);
      var rest := CollapseFrom(true, s[1..], p, to);
      assert ([to] + rest)[1..] == rest;
      assert [] + rest == rest;
    } else if sep(s[0]) {
      CollapseKeepsWords(false, [], s[1..], p, to, sep);
      var rest := CollapseFrom(false, s[1..], p, to);
      assert ([s[0]] + rest)[1..] == rest;
    } else {
      CollapseKeepsWords(false, current + [s[0]], s[1..], p, to, sep);
      var rest := CollapseFrom(false, s[1..], p, to);
      assert ([s[0]] + rest)[1..] == rest;
    }
  }

  /** Recolouring separators as separators leaves the words alone. */
  lemma {:induction false} RecolourKeepsWords(current: string, s: string, p: char -> bool, to: char,
                                              sep: char -> bool, sep': char -> bool)
    requires sep'(to)
    requires forall i :: 0 <= i < |s| ==> (sep(s[i]) <==> p(s[i]) || sep'(s[i]))
    ensures WordsFrom(current, Recolour(s, p, to), sep') == WordsFrom(current, s, sep)
    decreases |s|
  {
    if s != [] {
      assert Recolour(s, p, to)[1..] == Recolour(s[1..], p, to);
      RecolourKeepsWords(if sep(s[0]) then [] else current + [s[0]], s[1..], p, to, sep, sep');
    }
  }

  /** Two separator classes that agree on `s` cut it into the same words. */
  lemma {:induction false} SameSeparators(current: string, s: string, sep: char -> bool, sep': char -> bool)
    requires forall i :: 0 <= i < |s| ==> (sep(s[i]) <==> sep'(s[i]))
    ensures WordsFrom(current, s, sep) == WordsFrom(current, s, sep')
    decreases |s|
  {
    if s != [] {
      SameSeparators(if sep(s[0]) then [] else current + [s[0]], s[1..], sep, sep');
    }
  }

  lemma {:induction false} TrailingSeparator(current: string, s: string, c: char, sep: char -> bool)
    requires sep(c)
    ensures WordsFrom(current, s + [c], sep) == WordsFrom(current, s, sep)
    decreases |s|
  {
    if s == [] {
      assert s + [c] == [c];
      assert [c][1..] == [];
    } else {
      assert (s + [c])[1..] == s[1..] + [c];
      TrailingSeparator(if sep(s[0]) then [] else current + [s[0]], s[1..], c, sep);
    }
  }

  lemma {:induction false} StripLeftKeepsWords(s: string, p: char -> bool, sep: char -> bool)
    requires forall c :: p(c) ==> sep(c)
    ensures Words(StripLeft(s, p), sep) == Words(s, sep)
    decreases |s|
  {
    if s != [] && p(s[0]) {
      StripLeftKeepsWords(s[1..], p, sep);
    }
  }

  lemma {:induction false} StripRightKeepsWords(s: string, p: char -> bool, sep: char -> bool)
    requires forall c :: p(c) ==> sep(c)
    ensures Words(StripRight(s, p), sep) == Words(s, sep)
    decreases |s|
  {
    if s != [] && p(s[|s| - 1]) {
      StripRightKeepsWords(s[..|s| - 1], p, sep);
      TrailingSeparator([], s[..|s| - 1], s[|s| - 1], sep);
      assert s[..|s| - 1] + [s[|s| - 1]] == s;
    }
  }

  lemma StripKeepsWords(s: string, p: char -> bool, sep: char -> bool)
    requires forall c :: p(c) ==> sep(c)
    ensures Words(Strip(s, p), sep) == Words(s, sep)
  {
    StripLeftKeepsWords(s, p, sep);
    StripRightKeepsWords(StripLeft(s, p), p, sep);
  }

  lemma StripOneDashKeepsWords(s: string, sep: char -> bool)
    requires sep('-')
    ensures Words(StripOneDash(s), sep) == Words(s, sep)
  {
    var t := if s != [] && s[0] == '-' then s[1..] else s;
    assert Words(t, sep) == Words(s, sep);
    if t != [] && t[|t| - 1] == '-' {
      TrailingSeparator([], t[..|t| - 1], '-', sep);
      assert t[..|t| - 1] + ['-'] == t;
    }
  }

  // ---------- normal forms ----------

  ghost predicate NoDoubled(s: string, c: char) {
    forall i :: 0 < i < |s| ==> s[i - 1] != c || s[i] != c
  }

  /** No leading, trailing or doubled `c`. */
  ghost predicate Tight(s: string, c: char) {
    NoDoubled(s, c) && (s != [] ==> s[0] != c && s[|s| - 1] != c)
  }

  lemma {:induction false} CollapseNoDoubled(inRun: bool, s: string, p: char -> bool, to: char)
    requires p(to)
    ensures NoDoubled(CollapseFrom(inRun, s, p, to), to)
    ensures inRun ==> CollapseFrom(inRun, s, p, to) == [] || CollapseFrom(inRun, s, p, to)[0] != to
    decreases |s|
  {
    if s != [] {
      CollapseNoDoubled(p(s[0]), s[1..], p, to);
    }
  }

  lemma {:induction false} CollapseAlphabet(inRun: bool, s: string, p: char -> bool, to: char, q: char -> bool)
    requires q(to) && forall i :: 0 <= i < |s| ==> p(s[i]) || q(s[i])
    ensures All(CollapseFrom(inRun, s, p, to), q)
    decreases |s|
  {
    if s != [] {
      CollapseAlphabet(p(s[0]), s[1..], p, to, q);
    }
  }

  /** A string with no doubled `to` and no other character of `p` is left alone by `Collapse`. */
  lemma {:induction false} CollapseFixed(inRun: bool, s: string, p: char -> bool, to: char)
    requires NoDoubled(s, to)
    requires forall i :: 0 <= i < |s| && p(s[i]) ==> s[i] == to
    requires inRun && s != [] ==> s[0] != to
    ensures CollapseFrom(inRun, s, p, to) == s
    decreases |s|
  {
    if s != [] {
      CollapseFixed(p(s[0]), s[1..], p, to);
      assert s == [s[0]] + s[1..];
    }
  }

  lemma {:induction false} KeepAlphabet(s: string, p: char -> bool)
    ensures All(Keep(s, p), p)
    decreases |s|
  {
    if s != [] {
      KeepAlphabet(s[1..], p);
    }
  }

  lemma {:induction false} KeepDropsLast(s: string, p: char -> bool, c: char)
    requires !p(c)
    ensures Keep(s + [c], p) == Keep(s, p)
    decreases |s|
  {
    if s == [] {
      assert [c][1..] == [];
    } else {
      assert (s + [c])[1..] == s[1..] + [c];
      KeepDropsLast(s[1..], p, c);
    }
  }

  lemma {:induction false} KeepFixed(s: string, p: char -> bool)
    requires All(s, p)
    ensures Keep(s, p) == s
    decreases |s|
  {
    if s != [] {
      KeepFixed(s[1..], p);
    }
  }

  lemma {:induction false} StripLeftShape(s: string, p: char -> bool)
    ensures exists k :: 0 <= k <= |s| && StripLeft(s, p) == s[k..]
    ensures StripLeft(s, p) != [] ==> !p(StripLeft(s, p)[0])
    decreases |s|
  {
    if s != [] && p(s[0]) {
      StripLeftShape(s[1..], p);
      var k :| 0 <= k <= |s| - 1 && StripLeft(s[1..], p) == s[1..][k..];
      assert s[1..][k..] == s[k + 1..];
    } else {
      assert s == s[0..];
    }
  }

  lemma {:induction false} StripRightShape(s: string, p: char -> bool)
    ensures exists k :: 0 <= k <= |s| && StripRight(s, p) == s[..k]
    ensures StripRight(s, p) != [] ==> !p(StripRight(s, p)[|StripRight(s, p)| - 1])
    decreases |s|
  {
    if s != [] && p(s[|s| - 1]) {
      var t := s[..|s| - 1];
      StripRightShape(t, p);
      var k :| 0 <= k <= |t| && StripRight(t, p) == t[..k];
      assert t[..k] == s[..k];
    } else {
      assert s == s[..|s|];
    }
  }

  /** Stripping yields a slice with no `p` at either end. */
  lemma StripShape(s: string, p: char -> bool) returns (lo: nat, hi: nat)
    ensures lo <= hi <= |s| && Strip(s, p) == s[lo..hi]
    ensures lo < hi ==> !p(s[lo]) && !p(s[hi - 1])
  {
    hide StripLeft;
    hide StripRight;
    StripLeftShape(s, p);
    lo :| 0 <= lo <= |s| && StripLeft(s, p) == s[lo..];
    var t := s[lo..];
    StripRightShape(t, p);
    var k :| 0 <= k <= |t| && StripRight(t, p) == t[..k];
    hi := lo + k;
    assert t[..k] == s[lo..hi];
  }

  lemma StripFixed(s: string, p: char -> bool)
    requires s != [] ==> !p(s[0]) && !p(s[|s| - 1])
    ensures Strip(s, p) == s
  {
  }

  lemma StripTight(s: string, c: char, p: char -> bool)
    requires NoDoubled(s, c) && p(c)
    ensures Tight(Strip(s, p), c)
  {
    var lo, hi := StripShape(s, p);
  }

  lemma StripOneDashTight(s: string)
    requires NoDoubled(s, '-')
    ensures Tight(StripOneDash(s), '-')
  {
  }

  /** A tight string is its own words, joined. */
  lemma {:induction false} TightIsJoined(current: string, s: string, c: char, sep: char -> bool)
    requires forall i :: 0 <= i < |s| ==> (sep(s[i]) <==> s[i] == c)
    requires NoDoubled(s, c)
    requires s != [] ==> s[|s| - 1] != c && (current == [] ==> s[0] != c)
    ensures Join(WordsFrom(current, s, sep), c) == current + s
    decreases |s|
  {
    if s == [] {
    } else if s[0] == c {
      TightIsJoined([], s[1..], c, sep);
      var rest := WordsFrom([], s[1..], sep);
      assert rest != [];
      assert ([current] + rest)[1..] == rest;
      assert s == [c] + s[1..];
    } else {
      TightIsJoined(current + [s[0]], s[1..], c, sep);
      assert current + [s[0]] + s[1..] == current + s;
    }
  }

  // ---------- decimal numerals ----------

  function Digit(d: nat): char
    requires d < 10
  {
    '0' + d as char
  }

  predicate IsDigit(c: char) {
    '0' <= c <= '9'
  }

  function Decimal(n: nat): (s: string)
    ensures s != [] && forall i :: 0 <= i < |s| ==> IsDigit(s[i])
  {
    if n < 10 then [Digit(n)] else Decimal(n / 10) + [Digit(n % 10)]
  }

  function DecimalValue(s: string): nat
    requires forall i :: 0 <= i < |s| ==> IsDigit(s[i])
  {
    if s == [] then 0
    else
      assert IsDigit(s[|s| - 1]);
      10 * DecimalValue(s[..|s| - 1]) + (s[|s| - 1] as int - '0' as int)
  }

  /** Numerals are decimal: one digit below ten, and a further digit behind the tenth part. */
  lemma DecimalMeans(n: nat, d: nat)
    requires d < 10
    ensures Decimal(d) == [['0', '1', '2', '3', '4', '5', '6', '7', '8', '9'][d]]
    ensures n > 0 ==> Decimal(10 * n + d) == Decimal(n) + Decimal(d)
  {
  }

  lemma {:induction false} DecimalRoundTrip(n: nat)
    ensures DecimalValue(Decimal(n)) == n
  {
    if n >= 10 {
      DecimalRoundTrip(n / 10);
      assert Decimal(n)[..|Decimal(n)| - 1] == Decimal(n / 10);
    } else {
      assert [Digit(n)][..0] == [];
    }
  }

  lemma DecimalInjective(m: nat, n: nat)
    requires Decimal(m) == Decimal(n)
    ensures m == n
  {
    DecimalRoundTrip(m);
    DecimalRoundTrip(n);
  }
}
