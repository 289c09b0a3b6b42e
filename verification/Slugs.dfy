/**
 URL slugs: `slugify` and `generateUniqueSlug` of prisma/seeds/seed.utils.ts, and the
 transliterating `generateSlug` of prisma/seed-scripts/slug-generator.ts.
 */
module Slugs {
  import opened Text

  predicate IsSlugChar(c: char) {
    IsAlnum(c) || c == '-'
  }

  predicate IsKept(c: char) {
    IsAlnum(c) || IsSpace(c) || c == '-'
  }

  /** The normal form of a slug. */
  ghost predicate IsSlug(s: string) {
    s != [] && All(s, IsSlugChar) && Tight(s, '-')
  }

  // ---------- slugify ----------

  function SlugBody(name: string): string {
    var kept := Keep(Lower(name), IsKept);
    var dashed := Collapse(kept, IsSpace, '-');
    var single := Collapse(dashed, IsDash, '-');
    StripOneDash(single)
  }

  function Slugify(name: string): string {
    var body := SlugBody(name);
    if body == [] then "item" else body
  }

  lemma SlugBodyShape(name: string)
    ensures All(SlugBody(name), IsSlugChar) && Tight(SlugBody(name), '-')
  {
    var kept := Keep(Lower(name), IsKept);
    var dashed := Collapse(kept, IsSpace, '-');
    var single := Collapse(dashed, IsDash, '-');
    KeepAlphabet(Lower(name), IsKept);
    CollapseAlphabet(false, kept, IsSpace, '-', IsSlugChar);
    CollapseAlphabet(false, dashed, IsDash, '-', IsSlugChar);
    CollapseNoDoubled(false, dashed, IsDash, '-');
    StripOneDashTight(single);
  }

  /**
   What a slug says: drop everything but letters, digits, blanks and dashes; cut at blanks and
   dashes; join the pieces by single dashes. A name with no piece becomes "item".
   */
  lemma SlugifyJoinsWords(name: string)
    ensures var words := Words(Keep(Lower(name), IsKept), IsSpaceOrDash);
            Slugify(name) == if words == [] then "item" else Join(words, '-')
  {
    var kept := Keep(Lower(name), IsKept);
    var dashed := Collapse(kept, IsSpace, '-');
    var single := Collapse(dashed, IsDash, '-');
    var body := SlugBody(name);
    CollapseKeepsWords(false, [], kept, IsSpace, '-', IsSpaceOrDash);
    CollapseKeepsWords(false, [], dashed, IsDash, '-', IsSpaceOrDash);
    StripOneDashKeepsWords(single, IsSpaceOrDash);
    SlugBodyShape(name);
    TightIsJoined([], body, '-', IsSpaceOrDash);
    assert Join(Words(body, IsSpaceOrDash), '-') == body;
    NoEmptyWord([], kept, IsSpaceOrDash);
  }

  lemma {:induction false} NoEmptyWord(current: string, s: string, sep: char -> bool)
    ensures [] !in WordsFrom(current, s, sep)
    ensures WordsFrom(current, s, sep) != [] ==> Join(WordsFrom(current, s, sep), '-') != []
    decreases |s|
  {
    if s != [] {
      NoEmptyWord(if sep(s[0]) then [] else current + [s[0]], s[1..], sep);
    }
  }

  lemma SlugifyYieldsSlug(name: string)
    ensures IsSlug(Slugify(name))
  {
    SlugBodyShape(name);
  }

  /** The fixed points of `slugify` are exactly the slugs, so it is idempotent. */
  lemma SlugifyFixedPoints(s: string)
    ensures Slugify(s) == s <==> IsSlug(s)
    ensures Slugify(Slugify(s)) == Slugify(s)
  {
    SlugifyYieldsSlug(s);
    SlugIsFixed(Slugify(s));
    if IsSlug(s) {
      SlugIsFixed(s);
    }
  }

  lemma SlugIsFixed(s: string)
    requires IsSlug(s)
    ensures Slugify(s) == s
  {
    assert Lower(s) == s;
    KeepFixed(s, IsKept);
    CollapseFixed(false, s, IsSpace, '-');
    CollapseFixed(false, s, IsDash, '-');
  }

  /** Names equal up to case have equal slugs. */
  lemma SlugIgnoresCase(m: string, n: string)
    requires Lower(m) == Lower(n)
    ensures Slugify(m) == Slugify(n)
  {
  }

  // ---------- transliteration ----------

  /** The source's table: single characters and their spellings, in insertion order. */
  type Table = seq<(char, string)>

  /** Every spelling is made of slug characters, and no slug character is transliterated. */
  ghost predicate ValidTable(table: Table) {
    forall k :: 0 <= k < |table| ==> !IsSlugChar(table[k].0) && All(table[k].1, IsSlugChar)
  }

  /** The entries of the source's table that lie in ASCII. */
  const ASCII_TABLE: Table := [('$', "usd"), ('%', "percent"), ('&', "and"), ('|', "or")]

  lemma AsciiTableIsValid()
    ensures ValidTable(ASCII_TABLE)
  {
    assert "usd" == ['u', 's', 'd'] && "and" == ['a', 'n', 'd'] && "or" == ['o', 'r'];
    assert "percent" == ['p', 'e', 'r', 'c', 'e', 'n', 't'];
  }

  /** Replaces every occurrence of one character. */
  function ReplaceAll(s: string, c: char, spelling: string): string {
    if s == [] then [] else (if s[0] == c then spelling else [s[0]]) + ReplaceAll(s[1..], c, spelling)
  }

  /** One replacement after the other, each over the whole text. */
  function Transliterate(table: Table, s: string): string
    decreases |table|
  {
    if table == [] then s
    else Transliterate(table[1..], ReplaceAll(s, table[0].0, table[0].1))
  }

  function Spelling(table: Table, c: char): string {
    if table == [] then [c]
    else if table[0].0 == c then table[0].1
    else Spelling(table[1..], c)
  }

  /** Every character looked up once, independently of the others. */
  function SpellOut(table: Table, s: string): string {
    if s == [] then [] else Spelling(table, s[0]) + SpellOut(table, s[1..])
  }

  lemma {:induction false} SpellOutConcat(table: Table, s: string, t: string)
    ensures SpellOut(table, s + t) == SpellOut(table, s) + SpellOut(table, t)
    decreases |s|
  {
    if s == [] {
      assert s + t == t;
    } else {
      assert (s + t)[1..] == s[1..] + t;
      SpellOutConcat(table, s[1..], t);
    }
  }

  lemma {:induction false} SpellingOfSlugChar(table: Table, c: char)
    requires ValidTable(table) && IsSlugChar(c)
    ensures Spelling(table, c) == [c]
  {
    if table != [] {
      SpellingOfSlugChar(table[1..], c);
    }
  }

  lemma {:induction false} SpellOutOfSlugChars(table: Table, s: string)
    requires ValidTable(table) && All(s, IsSlugChar)
    ensures SpellOut(table, s) == s
    decreases |s|
  {
    if s != [] {
      SpellingOfSlugChar(table, s[0]);
      SpellOutOfSlugChars(table, s[1..]);
    }
  }

  lemma {:induction false} ReplaceFirstEntry(table: Table, s: string)
    requires ValidTable(table) && table != []
    ensures SpellOut(table[1..], ReplaceAll(s, table[0].0, table[0].1)) == SpellOut(table, s)
    decreases |s|
  {
    if s != [] {
      var head := if s[0] == table[0].0 then table[0].1 else [s[0]];
      var rest := ReplaceAll(s[1..], table[0].0, table[0].1);
      ReplaceFirstEntry(table, s[1..]);
      SpellOutConcat(table[1..], head, rest);
      if s[0] == table[0].0 {
        SpellOutOfSlugChars(table[1..], head);
      } else {
        assert [s[0]][1..] == [];
        assert SpellOut(table[1..], [s[0]]) == Spelling(table[1..], s[0]);
      }
    }
  }

  /**
   The order of the replacements does not matter: because no spelling contains a character of
   the table, replacing entry after entry equals looking every character up once.
   */
  lemma {:induction false} TransliterateIsSimultaneous(table: Table, s: string)
    requires ValidTable(table)
    ensures Transliterate(table, s) == SpellOut(table, s)
    decreases |table|
  {
    if table == [] {
      SpellOutOfEmpty(s);
    } else {
      TransliterateIsSimultaneous(table[1..], ReplaceAll(s, table[0].0, table[0].1));
      ReplaceFirstEntry(table, s);
    }
  }

  lemma {:induction false} SpellOutOfEmpty(s: string)
    ensures SpellOut([], s) == s
  {
    if s != [] {
      SpellOutOfEmpty(s[1..]);
    }
  }

  // ---------- generateSlug ----------

  predicate IsIllegal(c: char) {
    !(IsAlnum(c) || IsSpace(c) || c == '-' || c == '_' || c == '.')
  }

  predicate IsBreak(c: char) {
    IsSpace(c) || c == '_' || c == '.'
  }

  function SlugFromSpelling(spelled: string): string {
    var legal := Recolour(spelled, IsIllegal, ' ');
    var dashed := Collapse(legal, IsBreak, '-');
    var single := Collapse(dashed, IsDash, '-');
    var body := Strip(single, IsDash);
    if body == [] then "untitled" else body
  }

  function SlugOf(table: Table, name: string): string {
    SlugFromSpelling(Transliterate(table, Lower(Trim(name))))
  }

  /** `slug` is rewritten once per table entry, then normalised. */
  method GenerateSlug(table: Table, name: string) returns (slug: string)
    ensures slug == SlugOf(table, name)
  {
    slug := Lower(Trim(name));
    for k := 0 to |table|
      invariant Transliterate(table[k..], slug) == Transliterate(table, Lower(Trim(name)))
    {
      assert table[k..][1..] == table[k + 1..];
      slug := ReplaceAll(slug, table[k].0, table[k].1);
    }
    slug := Recolour(slug, IsIllegal, ' ');
    slug := Collapse(slug, IsBreak, '-');
    slug := Collapse(slug, IsDash, '-');
    slug := Strip(slug, IsDash);
    slug := if slug == [] then "untitled" else slug;
  }

  lemma SpellingSlugShape(spelled: string)
    ensures IsSlug(SlugFromSpelling(spelled))
  {
    var legal := Recolour(spelled, IsIllegal, ' ');
    var dashed := Collapse(legal, IsBreak, '-');
    var single := Collapse(dashed, IsDash, '-');
    CollapseAlphabet(false, legal, IsBreak, '-', IsSlugChar);
    CollapseAlphabet(false, dashed, IsDash, '-', IsSlugChar);
    CollapseNoDoubled(false, dashed, IsDash, '-');
    StripTight(single, '-', IsDash);
    var lo, hi := StripShape(single, IsDash);
  }

  lemma SpellingSlugWords(spelled: string)
    ensures var words := Words(spelled, IsSeparator);
            SlugFromSpelling(spelled) == if words == [] then "untitled" else Join(words, '-')
  {
    var legal := Recolour(spelled, IsIllegal, ' ');
    var dashed := Collapse(legal, IsBreak, '-');
    var single := Collapse(dashed, IsDash, '-');
    var body := Strip(single, IsDash);
    RecolourKeepsWords([], spelled, IsIllegal, ' ', IsSeparator, IsSeparator);
    CollapseKeepsWords(false, [], legal, IsBreak, '-', IsSeparator);
    CollapseKeepsWords(false, [], dashed, IsDash, '-', IsSeparator);
    StripKeepsWords(single, IsDash, IsSeparator);
    if body != [] {
      SpellingSlugShape(spelled);
      TightIsJoined([], body, '-', IsSeparator);
    }
    NoEmptyWord([], spelled, IsSeparator);
  }

  /**
   What a generated slug says: spell out the trimmed, lower-cased name, take its maximal runs of
   letters and digits, and join them by single dashes.
   */
  lemma SlugOfJoinsWords(table: Table, name: string)
    requires ValidTable(table)
    ensures IsSlug(SlugOf(table, name))
    ensures var words := Words(SpellOut(table, Lower(Trim(name))), IsSeparator);
            SlugOf(table, name) == if words == [] then "untitled" else Join(words, '-')
  {
    TransliterateIsSimultaneous(table, Lower(Trim(name)));
    SpellingSlugShape(Transliterate(table, Lower(Trim(name))));
    SpellingSlugWords(Transliterate(table, Lower(Trim(name))));
  }

  lemma SlugOfFixedPoints(table: Table, s: string)
    requires ValidTable(table)
    ensures SlugOf(table, s) == s <==> IsSlug(s)
    ensures SlugOf(table, SlugOf(table, s)) == SlugOf(table, s)
  {
    SlugOfJoinsWords(table, s);
    SlugOfFixed(table, SlugOf(table, s));
    if IsSlug(s) {
      SlugOfFixed(table, s);
    }
  }

  lemma SlugOfFixed(table: Table, s: string)
    requires ValidTable(table) && IsSlug(s)
    ensures SlugOf(table, s) == s
  {
    StripFixed(s, IsSpace);
    assert Lower(s) == s;
    SlugOfJoinsWords(table, s);
    SpellOutOfSlugChars(table, s);
    TightIsJoined([], s, '-', IsSeparator);
    assert Join(Words(s, IsSeparator), '-') == s;
  }

  // ---------- unique slugs ----------

  function Suffixed(base: string, k: nat): string {
    base + ['-'] + Decimal(k)
  }

  lemma SuffixedInjective(base: string, j: nat, k: nat)
    requires Suffixed(base, j) == Suffixed(base, k)
    ensures j == k
  {
    assert Suffixed(base, j)[|base| + 1..] == Decimal(j);
    assert Suffixed(base, k)[|base| + 1..] == Decimal(k);
    DecimalInjective(j, k);
  }

  /** The suffixed candidates 2, ..., k - 1. */
  ghost function Tried(base: string, k: nat): set<string> {
    set j | 2 <= j < k :: Suffixed(base, j)
  }

  lemma {:induction false} TriedSize(base: string, k: nat)
    requires 2 <= k
    ensures |Tried(base, k)| == k - 2
    ensures base !in Tried(base, k)
    decreases k
  {
    if k == 2 {
      assert Tried(base, k) == {};
    } else {
      TriedSize(base, k - 1);
      assert Tried(base, k) == Tried(base, k - 1) + {Suffixed(base, k - 1)};
      if Suffixed(base, k - 1) in Tried(base, k - 1) {
        var j :| 2 <= j < k - 1 && Suffixed(base, k - 1) == Suffixed(base, j);
        SuffixedInjective(base, j, k - 1);
      }
    }
  }

  /** Pigeonhole: taken candidates, together with the taken base, are distinct members of `existing`. */
  lemma TakenBound(base: string, existing: set<string>, k: nat)
    requires 2 <= k && base in existing && Tried(base, k) <= existing
    ensures k - 1 <= |existing|
  {
    TriedSize(base, k);
    var all := Tried(base, k) + {base};
    assert |all| == k - 1;
    SubsetSize(all, existing);
  }

  lemma {:induction false} SubsetSize<T>(a: set<T>, b: set<T>)
    requires a <= b
    ensures |a| <= |b|
    decreases |a|
  {
    if a != {} {
      var x :| x in a;
      SubsetSize(a - {x}, b - {x});
    }
  }

  /** `slug` is what the search must return: the free base, or the least free suffix from 2. */
  ghost predicate IsUniqueSlug(base: string, existing: set<string>, slug: string) {
    slug !in existing &&
    if base !in existing then slug == base
    else exists k :: IsLeastFree(base, existing, k) && slug == Suffixed(base, k)
  }

  ghost predicate IsLeastFree(base: string, existing: set<string>, k: int) {
    2 <= k && Suffixed(base, k) !in existing && Tried(base, k) <= existing
  }

  /** The do/while search; `tries` counts its iterations. */
  method UniqueSlug(baseSlug: string, existingSlugs: set<string>) returns (slug: string, tries: nat)
    ensures IsUniqueSlug(baseSlug, existingSlugs, slug)
    ensures tries <= |existingSlugs|
    ensures tries == 0 <==> baseSlug !in existingSlugs
  {
    if baseSlug !in existingSlugs {
      return baseSlug, 0;
    }
    var counter := 2;
    assert Tried(baseSlug, 2) == {};
    TakenBound(baseSlug, existingSlugs, 2);
    slug := Suffixed(baseSlug, counter);
    counter := counter + 1;
    tries := 1;
    while slug in existingSlugs
      invariant counter == tries + 2 && 1 <= tries <= |existingSlugs|
      invariant slug == Suffixed(baseSlug, counter - 1)
      invariant Tried(baseSlug, counter - 1) <= existingSlugs
      decreases |existingSlugs| - tries
    {
      assert Tried(baseSlug, counter) <= existingSlugs;
      TakenBound(baseSlug, existingSlugs, counter);
      slug := Suffixed(baseSlug, counter);
      counter := counter + 1;
      tries := tries + 1;
    }
    assert IsLeastFree(baseSlug, existingSlugs, counter - 1);
  }

  lemma EarlierWasTried(base: string, k: nat)
    ensures forall j: nat :: 2 <= j < k ==> Suffixed(base, j) in Tried(base, k)
  {
  }

  /** The contract above leaves no freedom. */
  lemma UniqueSlugIsDetermined(base: string, existing: set<string>, s: string, t: string)
    requires IsUniqueSlug(base, existing, s) && IsUniqueSlug(base, existing, t)
    ensures s == t
  {
    if base in existing {
      var j :| IsLeastFree(base, existing, j) && s == Suffixed(base, j);
      var k :| IsLeastFree(base, existing, k) && t == Suffixed(base, k);
      EarlierWasTried(base, j);
      EarlierWasTried(base, k);
    }
  }

  /** `generateUniqueSlug` of the seeders. */
  method GenerateUniqueSlug(name: string, existingSlugs: set<string>) returns (slug: string, tries: nat)
    ensures IsUniqueSlug(Slugify(name), existingSlugs, slug)
    ensures tries <= |existingSlugs|
    ensures tries == 0 <==> Slugify(name) !in existingSlugs
  {
    slug, tries := UniqueSlug(Slugify(name), existingSlugs);
  }

  lemma SmallerIsTaken(base: string, existing: set<string>, k: nat, j: nat)
    requires IsLeastFree(base, existing, k) && 2 <= j < k
    ensures Suffixed(base, j) in existing
  {
    assert Suffixed(base, j) in Tried(base, k);
  }

  /** A taken name gets the suffix 2, and with that taken too, 3. */
  lemma FirstSuffixes(base: string, slug: string)
    ensures IsUniqueSlug(base, {base}, slug) ==> slug == base + "-2"
    ensures IsUniqueSlug(base, {base, base + "-2"}, slug) ==> slug == base + "-3"
  {
    assert Decimal(2) == "2" && Decimal(3) == "3";
    assert Suffixed(base, 2) == base + "-2" && Suffixed(base, 3) == base + "-3";
    assert (base + "-2")[|base| + 1] == '2' && (base + "-3")[|base| + 1] == '3';
    assert |base + "-2"| == |base| + 2;
    forall k | IsLeastFree(base, {base}, k)
      ensures k == 2
    {
      if k > 2 {
        SmallerIsTaken(base, {base}, k, 2);
      }
    }
    forall k | IsLeastFree(base, {base, base + "-2"}, k)
      ensures k == 3
    {
      if k > 3 {
        SmallerIsTaken(base, {base, base + "-2"}, k, 3);
      }
    }
  }

  /** Naming one after the other, each slug joining the taken ones. */
  ghost predicate NamedInTurn(names: seq<string>, existing: set<string>, slugs: seq<string>) {
    |slugs| == |names| &&
    forall i :: 0 <= i < |names| ==>
      IsUniqueSlug(Slugify(names[i]), existing + (set j | 0 <= j < i :: slugs[j]), slugs[i])
  }

  /** Any such sequence of slugs is fresh, pairwise distinct, and in normal form. */
  lemma NamedInTurnDistinct(names: seq<string>, existing: set<string>, slugs: seq<string>)
    requires NamedInTurn(names, existing, slugs)
    ensures forall i, j :: 0 <= i < j < |slugs| ==> slugs[i] != slugs[j]
    ensures forall i :: 0 <= i < |slugs| ==> slugs[i] !in existing && IsSlug(slugs[i])
  {
    forall i | 0 <= i < |slugs|
      ensures slugs[i] !in existing && IsSlug(slugs[i])
      ensures forall j :: 0 <= j < i ==> slugs[j] != slugs[i]
    {
      var taken := existing + (set j | 0 <= j < i :: slugs[j]);
      assert IsUniqueSlug(Slugify(names[i]), taken, slugs[i]);
      SlugifyYieldsSlug(names[i]);
      if Slugify(names[i]) in taken {
        var k :| IsLeastFree(Slugify(names[i]), taken, k) && slugs[i] == Suffixed(Slugify(names[i]), k);
        SuffixedIsSlug(Slugify(names[i]), k);
      }
    }
  }

  lemma SuffixedIsSlug(base: string, k: nat)
    requires IsSlug(base)
    ensures IsSlug(Suffixed(base, k))
  {
    var d := Decimal(k);
    assert IsDigit(d[0]) && IsDigit(d[|d| - 1]);
    forall i | 0 <= i < |Suffixed(base, k)|
      ensures IsSlugChar(Suffixed(base, k)[i])
    {
      if i > |base| {
        assert IsDigit(d[i - |base| - 1]);
      }
    }
  }
}
