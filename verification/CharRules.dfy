/**
 What the text pipelines come to, character by character: each character stands for some text, given by explicit
 ranges, and of the whole only the words count. `slugify`, `generateSlug` and `normalizeName` are
 three such readings, and that settles them on every input.
 */
module CharRules {
  import opened Text
  import Slugs
  import DuplicateDetector

  // ---------- readings ----------

  /** What each character stands for. */
  type Rule = char -> string

  ghost function Image(rule: Rule, s: string): string {
    if s == [] then [] else rule(s[0]) + Image(rule, s[1..])
  }

  function Is(sep: char): char -> bool {
    (c: char) => c == sep
  }

  /** The words between separators, joined by single separators; `empty` when there is none. */
  ghost function Reading(rule: Rule, sep: char, empty: string, s: string): string {
    var words := Words(Image(rule, s), Is(sep));
    if words == [] then empty else Join(words, sep)
  }

  lemma {:induction false} ImageConcat(rule: Rule, s: string, t: string)
    ensures Image(rule, s + t) == Image(rule, s) + Image(rule, t)
    decreases |s|
  {
    if s == [] {
      assert s + t == t;
    } else {
      assert (s + t)[1..] == s[1..] + t;
      ImageConcat(rule, s[1..], t);
    }
  }

  lemma ImageOne(rule: Rule, c: char)
    ensures Image(rule, [c]) == rule(c)
  {
    assert [c][1..] == [];
    assert rule(c) + [] == rule(c);
  }

  /** A part of a text can be replaced by one that stands for the same. */
  lemma SameImage(rule: Rule, sep: char, empty: string, s: string, u: string, v: string, t: string)
    requires Image(rule, u) == Image(rule, v)
    ensures Reading(rule, sep, empty, s + u + t) == Reading(rule, sep, empty, s + v + t)
  {
    ImageConcat(rule, s + u, t);
    ImageConcat(rule, s, u);
    ImageConcat(rule, s + v, t);
    ImageConcat(rule, s, v);
  }

  lemma {:induction false} PlainWord(current: string, w: string, rest: string, sep: char)
    requires sep !in w
    ensures WordsFrom(current, w + rest, Is(sep)) == WordsFrom(current + w, rest, Is(sep))
    decreases |w|
  {
    if w == [] {
      assert w + rest == rest && current + w == current;
    } else {
      assert w[0] in w && forall c :: c in w[1..] ==> c in w;
      assert (w + rest)[1..] == w[1..] + rest;
      assert current + [w[0]] + w[1..] == current + w;
      PlainWord(current + [w[0]], w[1..], rest, sep);
    }
  }

  /** Nonempty words without separators, joined, are the words again. */
  lemma {:induction false} WordsOfJoined(words: seq<string>, sep: char)
    requires forall w :: w in words ==> w != [] && sep !in w
    ensures Words(Join(words, sep), Is(sep)) == words
    decreases |words|
  {
    if words != [] {
      var w := words[0];
      assert w in words && forall v :: v in words[1..] ==> v in words;
      assert [] + w == w;
      if |words| == 1 {
        assert w + [] == w;
        PlainWord([], w, [], sep);
      } else {
        var rest := [sep] + Join(words[1..], sep);
        assert w + [sep] + Join(words[1..], sep) == w + rest;
        PlainWord([], w, rest, sep);
        assert rest[1..] == Join(words[1..], sep);
        WordsOfJoined(words[1..], sep);
        assert [w] + words[1..] == words;
      }
    }
  }

  lemma {:induction false} ImageOfFixed(rule: Rule, s: string)
    requires forall c :: c in s ==> rule(c) == [c]
    ensures Image(rule, s) == s
  {
    if s != [] {
      assert s[0] in s && forall c :: c in s[1..] ==> c in s;
      ImageOfFixed(rule, s[1..]);
    }
  }

  lemma {:induction false} WordsCut(current: string, s: string, sep: char, t: string)
    ensures WordsFrom(current, s + [sep] + t, Is(sep)) == WordsFrom(current, s, Is(sep)) + Words(t, Is(sep))
    decreases |s|
  {
    if s == [] {
      assert s + [sep] + t == [sep] + t && ([sep] + t)[1..] == t;
    } else {
      assert (s + [sep] + t)[1..] == s[1..] + [sep] + t;
      WordsCut(if s[0] == sep then [] else current + [s[0]], s[1..], sep, t);
    }
  }

  lemma NoWords(sep: char)
    ensures Words([], Is(sep)) == []
  {
  }

  /** Separators count once between words, and not at all at the ends. */
  lemma SeparatorsCollapse(rule: Rule, sep: char, empty: string, s: string, c: char, d: char, t: string)
    requires rule(c) == [sep] && rule(d) == [sep]
    ensures Reading(rule, sep, empty, s + [c, d] + t) == Reading(rule, sep, empty, s + [d] + t)
    ensures Reading(rule, sep, empty, [c] + t) == Reading(rule, sep, empty, t)
    ensures Reading(rule, sep, empty, s + [c]) == Reading(rule, sep, empty, s)
  {
    hide Words;
    WordsAround(rule, sep, s, c, [d] + t);
    WordsAround(rule, sep, [], d, t);
    WordsAround(rule, sep, s, d, t);
    WordsAround(rule, sep, [], c, t);
    WordsAround(rule, sep, s, c, []);
    NoWords(sep);
    assert Image(rule, []) == [];
    assert forall w: seq<string> :: [] + w == w && w + [] == w;
    assert s + [c, d] + t == s + [c] + ([d] + t) && [] + [d] + t == [d] + t && [] + [c] + t == [c] + t && s + [c] + [] == s + [c];
  }

  /** What is on either side of a separator makes words of its own. */
  lemma WordsAround(rule: Rule, sep: char, s: string, c: char, t: string)
    requires rule(c) == [sep]
    ensures Words(Image(rule, s + [c] + t), Is(sep)) == Words(Image(rule, s), Is(sep)) + Words(Image(rule, t), Is(sep))
  {
    ImageOne(rule, c);
    ImageConcat(rule, s + [c], t);
    ImageConcat(rule, s, [c]);
    WordsCut([], Image(rule, s), sep, Image(rule, t));
  }

  // ---------- slugify ----------

  /** Capitals stand for small letters, letters and digits for themselves, blanks and dashes for a dash, the rest for nothing. */
  function SlugRule(c: char): string {
    if 'A' <= c <= 'Z' then [c - 'A' + 'a']
    else if 'a' <= c <= 'z' || '0' <= c <= '9' then [c]
    else if c == ' ' || c == '\t' || c == '\n' || c == '\r' || c == '\U{0B}' || c == '\U{0C}' || c == '-' then ['-']
    else []
  }

  lemma {:induction false} SlugWords(current: string, s: string)
    ensures WordsFrom(current, Keep(Lower(s), Slugs.IsKept), IsSpaceOrDash) == WordsFrom(current, Image(SlugRule, s), Is('-'))
    decreases |s|
  {
    if s != [] {
      var c, l := s[0], LowerChar(s[0]);
      assert Lower(s)[1..] == Lower(s[1..]);
      var kept, image := Keep(Lower(s[1..]), Slugs.IsKept), Image(SlugRule, s[1..]);
      if SlugRule(c) == [] {
        assert [] + kept == kept && [] + image == image;
        SlugWords(current, s[1..]);
      } else {
        assert ([l] + kept)[1..] == kept && (SlugRule(c) + image)[1..] == image;
        SlugWords(if SlugRule(c) == ['-'] then [] else current + [l], s[1..]);
      }
    }
  }

  /** `slugify`, on every input. */
  lemma SlugifyReads(name: string)
    ensures Slugs.Slugify(name) == Reading(SlugRule, '-', "item", name)
  {
    Slugs.SlugifyJoinsWords(name);
    SlugWords([], name);
  }

  /** A blank of any sort counts as a dash. */
  lemma SlugifyBlank(s: string, blank: char, t: string)
    requires blank == ' ' || blank == '\t' || blank == '\n' || blank == '\r' || blank == '\U{0B}' || blank == '\U{0C}'
    ensures Slugs.Slugify(s + [blank] + t) == Slugs.Slugify(s + ['-'] + t)
  {
    SlugifyReads(s + [blank] + t);
    SlugifyReads(s + ['-'] + t);
    ImageOne(SlugRule, blank);
    ImageOne(SlugRule, '-');
    SameImage(SlugRule, '-', "item", s, [blank], ['-'], t);
  }

  /** A character that is no letter, digit, blank or dash can be left out. */
  lemma SlugifyOther(s: string, other: char, t: string)
    requires !('a' <= other <= 'z') && !('A' <= other <= 'Z') && !('0' <= other <= '9') && other != '-'
    requires other != ' ' && other != '\t' && other != '\n' && other != '\r' && other != '\U{0B}' && other != '\U{0C}'
    ensures Slugs.Slugify(s + [other] + t) == Slugs.Slugify(s + t)
  {
    SlugifyReads(s + [other] + t);
    SlugifyReads(s + t);
    ImageOne(SlugRule, other);
    SameImage(SlugRule, '-', "item", s, [other], [], t);
    assert s + [] + t == s + t;
  }

  /** A capital counts as its small letter. */
  lemma SlugifyCapital(s: string, capital: char, t: string)
    requires 'A' <= capital <= 'Z'
    ensures Slugs.Slugify(s + [capital] + t) == Slugs.Slugify(s + [capital - 'A' + 'a'] + t)
  {
    var small := capital - 'A' + 'a';
    SlugifyReads(s + [capital] + t);
    SlugifyReads(s + [small] + t);
    ImageOne(SlugRule, capital);
    ImageOne(SlugRule, small);
    SameImage(SlugRule, '-', "item", s, [capital], [small], t);
  }

  /** Two dashes count as one, and a dash at an end as none. */
  lemma SlugifyDashes(s: string, t: string)
    ensures Slugs.Slugify(s + ['-', '-'] + t) == Slugs.Slugify(s + ['-'] + t)
    ensures Slugs.Slugify(['-'] + t) == Slugs.Slugify(t)
    ensures Slugs.Slugify(s + ['-']) == Slugs.Slugify(s)
  {
    SlugifyReads(s + ['-', '-'] + t);
    SlugifyReads(s + ['-'] + t);
    SlugifyReads(['-'] + t);
    SlugifyReads(t);
    SlugifyReads(s + ['-']);
    SlugifyReads(s);
    SeparatorsCollapse(SlugRule, '-', "item", s, '-', '-', t);
  }

  /** A nonempty run of small letters and digits. */
  ghost predicate IsRun(w: string) {
    w != [] && forall i :: 0 <= i < |w| ==> 'a' <= w[i] <= 'z' || '0' <= w[i] <= '9'
  }

  /** A rule that keeps runs keeps joined runs, but for the separator. */
  lemma {:induction false} ImageOfRuns(rule: Rule, runs: seq<string>, blank: char, sep: char)
    requires forall w :: w in runs ==> IsRun(w)
    requires rule(blank) == [sep] && forall c :: 'a' <= c <= 'z' || '0' <= c <= '9' ==> rule(c) == [c]
    ensures Image(rule, Join(runs, blank)) == Join(runs, sep)
    decreases |runs|
  {
    if runs != [] {
      assert runs[0] in runs && forall v :: v in runs[1..] ==> v in runs;
      ImageOfFixed(rule, runs[0]);
      if |runs| > 1 {
        ImageOfRuns(rule, runs[1..], blank, sep);
        ImageOne(rule, blank);
        ImageConcat(rule, runs[0] + [blank], Join(runs[1..], blank));
        ImageConcat(rule, runs[0], [blank]);
      }
    }
  }

  lemma RunsRead(rule: Rule, runs: seq<string>, blank: char, sep: char, empty: string)
    requires runs != [] && forall w :: w in runs ==> IsRun(w)
    requires !('a' <= sep <= 'z') && !('0' <= sep <= '9')
    requires rule(blank) == [sep] && forall c :: 'a' <= c <= 'z' || '0' <= c <= '9' ==> rule(c) == [c]
    ensures Reading(rule, sep, empty, Join(runs, blank)) == Join(runs, sep)
  {
    ImageOfRuns(rule, runs, blank, sep);
    WordsOfJoined(runs, sep);
  }

  /** Runs joined by blanks give the runs joined by dashes. */
  lemma SlugifyRuns(runs: seq<string>)
    requires runs != [] && forall w :: w in runs ==> IsRun(w)
    ensures Slugs.Slugify(Join(runs, ' ')) == Join(runs, '-')
  {
    SlugifyReads(Join(runs, ' '));
    RunsRead(SlugRule, runs, ' ', '-', "item");
  }

  // ---------- generateSlug ----------

  /** Capitals stand for small letters, table characters for their spelling, letters, digits and dashes for themselves, the rest for a dash. */
  function SpellingRule(table: Slugs.Table): Rule {
    (c: char) =>
      if 'A' <= c <= 'Z' then [c - 'A' + 'a']
      else if 'a' <= c <= 'z' || '0' <= c <= '9' || c == '-' then [c]
      else if InTable(table, c) then Entry(table, c)
      else ['-']
  }

  predicate InTable(table: Slugs.Table, c: char) {
    exists k :: 0 <= k < |table| && table[k].0 == c
  }

  /** The first spelling of a character. */
  function Entry(table: Slugs.Table, c: char): string
    requires InTable(table, c)
  {
    if table[0].0 == c then table[0].1
    else
      assert forall k :: 0 <= k < |table| && table[k].0 == c ==> k > 0 && table[1..][k - 1].0 == c;
      Entry(table[1..], c)
  }

  lemma {:induction false} SpellingIsEntry(table: Slugs.Table, c: char)
    ensures Slugs.Spelling(table, c) == if InTable(table, c) then Entry(table, c) else [c]
    decreases |table|
  {
    if table != [] && table[0].0 != c {
      SpellingIsEntry(table[1..], c);
      assert forall k :: 0 <= k < |table| && table[k].0 == c ==> k > 0 && table[1..][k - 1].0 == c;
      assert forall k :: 0 <= k < |table[1..]| ==> table[1..][k] == table[k + 1];
    }
  }

  /** No blank is transliterated, so trimming first makes no difference. */
  ghost predicate KeepsBlanks(table: Slugs.Table) {
    forall k :: 0 <= k < |table| ==> !IsSpace(table[k].0)
  }

  lemma {:induction false} WordsOfSpelling(current: string, u: string, s: string, t: string, sep: char -> bool, sep': char -> bool)
    requires forall i :: 0 <= i < |u| ==> (sep(u[i]) <==> sep'(u[i]))
    requires forall w: string :: WordsFrom(w, s, sep) == WordsFrom(w, t, sep')
    ensures WordsFrom(current, u + s, sep) == WordsFrom(current, u + t, sep')
    decreases |u|
  {
    if u == [] {
      assert u + s == s && u + t == t;
    } else {
      assert (u + s)[1..] == u[1..] + s && (u + t)[1..] == u[1..] + t;
      WordsOfSpelling(if sep(u[0]) then [] else current + [u[0]], u[1..], s, t, sep, sep');
    }
  }

  lemma {:induction false} SpelledWords(table: Slugs.Table, current: string, s: string)
    requires Slugs.ValidTable(table)
    ensures WordsFrom(current, Slugs.SpellOut(table, Lower(s)), IsSeparator) == WordsFrom(current, Image(SpellingRule(table), s), Is('-'))
    decreases |s|
  {
    if s != [] {
      var l := LowerChar(s[0]);
      assert Lower(s)[1..] == Lower(s[1..]);
      forall w: string
        ensures WordsFrom(w, Slugs.SpellOut(table, Lower(s[1..])), IsSeparator) == WordsFrom(w, Image(SpellingRule(table), s[1..]), Is('-'))
      {
        SpelledWords(table, w, s[1..]);
      }
      SpellingIsEntry(table, l);
      var spelled, image := Slugs.Spelling(table, l), SpellingRule(table)(s[0]);
      OneCharacter(table, s[0]);
      if spelled == image {
        WordsOfSpelling(current, spelled, Slugs.SpellOut(table, Lower(s[1..])), Image(SpellingRule(table), s[1..]), IsSeparator, Is('-'));
      } else {
        assert ([l] + Slugs.SpellOut(table, Lower(s[1..])))[1..] == Slugs.SpellOut(table, Lower(s[1..]));
        assert (['-'] + Image(SpellingRule(table), s[1..]))[1..] == Image(SpellingRule(table), s[1..]);
      }
    }
  }

  /** A character is spelled as the rule says, or is a separator that the rule makes a dash. */
  lemma OneCharacter(table: Slugs.Table, c: char)
    requires Slugs.ValidTable(table)
    ensures var spelled, image := Slugs.Spelling(table, LowerChar(c)), SpellingRule(table)(c);
            || (spelled == image && forall i :: 0 <= i < |spelled| ==> (IsSeparator(spelled[i]) <==> spelled[i] == '-'))
            || (spelled == [LowerChar(c)] && IsSeparator(LowerChar(c)) && image == ['-'])
  {
    var l := LowerChar(c);
    SpellingIsEntry(table, l);
    if Slugs.IsSlugChar(l) {
      Slugs.SpellingOfSlugChar(table, l);
    } else if InTable(table, l) {
      EntryIsSlug(table, l);
    }
  }

  lemma {:induction false} EntryIsSlug(table: Slugs.Table, c: char)
    requires Slugs.ValidTable(table) && InTable(table, c)
    ensures All(Entry(table, c), Slugs.IsSlugChar)
    decreases |table|
  {
    if table[0].0 != c {
      assert forall k :: 0 <= k < |table| && table[k].0 == c ==> k > 0 && table[1..][k - 1].0 == c;
      EntryIsSlug(table[1..], c);
    }
  }

  lemma {:induction false} BlankHead(table: Slugs.Table, s: string)
    requires Slugs.ValidTable(table) && KeepsBlanks(table)
    ensures Words(Image(SpellingRule(table), StripLeft(s, IsSpace)), Is('-')) == Words(Image(SpellingRule(table), s), Is('-'))
    decreases |s|
  {
    if s != [] && IsSpace(s[0]) {
      BlankHead(table, s[1..]);
      assert SpellingRule(table)(s[0]) == ['-'];
      assert (['-'] + Image(SpellingRule(table), s[1..]))[1..] == Image(SpellingRule(table), s[1..]);
    }
  }

  lemma {:induction false} BlankTail(table: Slugs.Table, s: string)
    requires Slugs.ValidTable(table) && KeepsBlanks(table)
    ensures Words(Image(SpellingRule(table), StripRight(s, IsSpace)), Is('-')) == Words(Image(SpellingRule(table), s), Is('-'))
    decreases |s|
  {
    if s != [] && IsSpace(s[|s| - 1]) {
      var front, last := s[..|s| - 1], s[|s| - 1];
      BlankTail(table, front);
      assert s == front + [last];
      assert SpellingRule(table)(last) == ['-'];
      ImageConcat(SpellingRule(table), front, [last]);
      ImageOne(SpellingRule(table), last);
      TrailingSeparator([], Image(SpellingRule(table), front), '-', Is('-'));
    }
  }

  /** `generateSlug`, on every input. */
  lemma SlugOfReads(table: Slugs.Table, name: string)
    requires Slugs.ValidTable(table) && KeepsBlanks(table)
    ensures Slugs.SlugOf(table, name) == Reading(SpellingRule(table), '-', "untitled", name)
  {
    Slugs.SlugOfJoinsWords(table, name);
    SpelledWords(table, [], Trim(name));
    BlankHead(table, name);
    BlankTail(table, StripLeft(name, IsSpace));
  }

  /** What a character stands for stands for itself. */
  lemma RuleIsFixed(table: Slugs.Table, c: char)
    requires Slugs.ValidTable(table)
    ensures forall x :: x in SpellingRule(table)(c) ==> SpellingRule(table)(x) == [x]
  {
    if InTable(table, c) {
      EntryIsSlug(table, c);
    }
  }

  /** A character of the table counts as its spelling, a capital as its small letter, and any other that is no letter or digit as a dash. */
  lemma SlugOfCharacter(table: Slugs.Table, s: string, c: char, t: string)
    requires Slugs.ValidTable(table) && KeepsBlanks(table)
    ensures Slugs.SlugOf(table, s + [c] + t) ==
            Slugs.SlugOf(table, s + (if 'A' <= c <= 'Z' then [c - 'A' + 'a']
                                     else if 'a' <= c <= 'z' || '0' <= c <= '9' then [c]
                                     else if InTable(table, c) then Entry(table, c) else ['-']) + t)
  {
    var u := SpellingRule(table)(c);
    SlugOfReads(table, s + [c] + t);
    SlugOfReads(table, s + u + t);
    ImageOne(SpellingRule(table), c);
    RuleIsFixed(table, c);
    hide *;
    ImageOfFixed(SpellingRule(table), u);
    SameImage(SpellingRule(table), '-', "untitled", s, [c], u, t);
  }

  /** Two dashes count as one there too, and a dash at an end as none. */
  lemma SlugOfDashes(table: Slugs.Table, s: string, t: string)
    requires Slugs.ValidTable(table) && KeepsBlanks(table)
    ensures Slugs.SlugOf(table, s + ['-', '-'] + t) == Slugs.SlugOf(table, s + ['-'] + t)
    ensures Slugs.SlugOf(table, ['-'] + t) == Slugs.SlugOf(table, t)
    ensures Slugs.SlugOf(table, s + ['-']) == Slugs.SlugOf(table, s)
  {
    SlugOfReads(table, s + ['-', '-'] + t);
    SlugOfReads(table, s + ['-'] + t);
    SlugOfReads(table, ['-'] + t);
    SlugOfReads(table, t);
    SlugOfReads(table, s + ['-']);
    SlugOfReads(table, s);
    SeparatorsCollapse(SpellingRule(table), '-', "untitled", s, '-', '-', t);
  }

  // ---------- normalizeName ----------

  /** Capitals stand for small letters, letters and digits for themselves, the rest for a blank. */
  function NameRule(c: char): string {
    if 'A' <= c <= 'Z' then [c - 'A' + 'a']
    else if 'a' <= c <= 'z' || '0' <= c <= '9' then [c]
    else [' ']
  }

  lemma {:induction false} NameWords(current: string, s: string)
    ensures WordsFrom(current, Lower(s), IsSeparator) == WordsFrom(current, Image(NameRule, s), Is(' '))
    decreases |s|
  {
    if s != [] {
      var l := LowerChar(s[0]);
      assert Lower(s)[1..] == Lower(s[1..]);
      assert (NameRule(s[0]) + Image(NameRule, s[1..]))[1..] == Image(NameRule, s[1..]);
      NameWords(if IsSeparator(l) then [] else current + [l], s[1..]);
    }
  }

  /** `normalizeName`, on every input. */
  lemma NormalizeReads(name: string)
    ensures DuplicateDetector.NormalizeName(name) == Reading(NameRule, ' ', [], name)
  {
    DuplicateDetector.NormalizeJoinsWords(name);
    NameWords([], name);
  }

  /** A capital counts as its small letter, and a character that is no letter or digit as a blank. */
  lemma NormalizeCharacter(s: string, c: char, t: string)
    ensures DuplicateDetector.NormalizeName(s + [c] + t) ==
            DuplicateDetector.NormalizeName(s + [if 'A' <= c <= 'Z' then c - 'A' + 'a'
                                                 else if 'a' <= c <= 'z' || '0' <= c <= '9' then c
                                                 else ' '] + t)
  {
    var u := NameRule(c);
    NormalizeReads(s + [c] + t);
    NormalizeReads(s + u + t);
    ImageOne(NameRule, c);
    ImageOne(NameRule, u[0]);
    SameImage(NameRule, ' ', [], s, [c], u, t);
  }

  /** Two blanks count as one, and a blank at an end as none. */
  lemma NormalizeBlanks(s: string, t: string)
    ensures DuplicateDetector.NormalizeName(s + [' ', ' '] + t) == DuplicateDetector.NormalizeName(s + [' '] + t)
    ensures DuplicateDetector.NormalizeName([' '] + t) == DuplicateDetector.NormalizeName(t)
    ensures DuplicateDetector.NormalizeName(s + [' ']) == DuplicateDetector.NormalizeName(s)
  {
    NormalizeReads(s + [' ', ' '] + t);
    NormalizeReads(s + [' '] + t);
    NormalizeReads([' '] + t);
    NormalizeReads(t);
    NormalizeReads(s + [' ']);
    NormalizeReads(s);
    SeparatorsCollapse(NameRule, ' ', [], s, ' ', ' ', t);
  }

  /** Runs joined by any character that is no letter or digit give the runs joined by blanks. */
  lemma NormalizeRuns(runs: seq<string>, blank: char)
    requires runs != [] && forall w :: w in runs ==> IsRun(w)
    requires !('A' <= blank <= 'Z') && !('a' <= blank <= 'z') && !('0' <= blank <= '9')
    ensures DuplicateDetector.NormalizeName(Join(runs, blank)) == Join(runs, ' ')
  {
    NormalizeReads(Join(runs, blank));
    RunsRead(NameRule, runs, blank, ' ', []);
  }
}
