/** `JSON.stringify`, and the one thing about it that matters to a reader of the joined text: it closes its quotes. */
module Json {

  // ---------- values ----------

  /** A number as JavaScript writes it; NaN and the infinities are written as null. */
  type Numeral = s: string | forall i :: 0 <= i < |s| ==> IsNumeralChar(s[i]) witness "0"

  predicate IsNumeralChar(c: char) {
    '0' <= c <= '9' || c == '+' || c == '-' || c == '.' || c == 'e' || c == 'E'
  }

  datatype Value =
    | Undefined
    | Null
    | Boolean(b: bool)
    | Number(n: Numeral)
    | String(s: string)
    | Array(items: Items)
    | Object(members: Members)

  datatype Items = NoItems | Item(head: Value, tail: Items)

  datatype Members = NoMembers | Member(key: string, value: Value, tail: Members)

  // ---------- texts ----------

  function HexDigit(d: nat): char
    requires d < 16
  {
    if d < 10 then '0' + d as char else 'a' + (d - 10) as char
  }

  function HexDigitValue(c: char): int {
    if c <= '9' then c as int - '0' as int else c as int - 'a' as int + 10
  }

  /** Quotes, backslashes and control characters are escaped. */
  function Escape(c: char): string {
    if c == '"' then "\\\""
    else if c == '\\' then "\\\\"
    else if c as int == 8 then "\\b"
    else if c as int == 9 then "\\t"
    else if c as int == 10 then "\\n"
    else if c as int == 12 then "\\f"
    else if c as int == 13 then "\\r"
    else if c as int < 32 then "\\u00" + [HexDigit(c as int / 16), HexDigit(c as int % 16)]
    else [c]
  }

  function EscapeAll(s: string): string {
    if s == [] then [] else Escape(s[0]) + EscapeAll(s[1..])
  }

  function Quote(s: string): string {
    ['"'] + EscapeAll(s) + ['"']
  }

  /** The text of a value; a template turns the missing text of `undefined` into its name. */
  function Stringify(v: Value): string {
    match v
    case Undefined => "undefined"
    case Null => "null"
    case Boolean(b) => if b then "true" else "false"
    case Number(n) => n
    case String(s) => Quote(s)
    case Array(items) => ['['] + ItemTexts(items) + [']']
    case Object(members) => ['{'] + MemberTexts(true, members) + ['}']
  }

  /** Within an array `undefined` is written as null. */
  function ItemTexts(items: Items): string {
    match items
    case NoItems => []
    case Item(head, tail) =>
      (if head.Undefined? then "null" else Stringify(head)) + (if tail.NoItems? then [] else [','] + ItemTexts(tail))
  }

  /** Within an object a member that is `undefined` is left out. */
  function MemberTexts(first: bool, members: Members): string
    decreases members
  {
    match members
    case NoMembers => []
    case Member(key, value, tail) =>
      if value.Undefined? then MemberTexts(first, tail)
      else (if first then [] else [',']) + Quote(key) + [':'] + Stringify(value) + MemberTexts(false, tail)
  }

  // ---------- reading a literal back ----------

  /** The escapes of section 7 of RFC 8259, undone. */
  function Unescape(s: string): string
    decreases |s|
  {
    if s == [] then []
    else if s[0] != '\\' || |s| < 2 then [s[0]] + Unescape(s[1..])
    else if s[1] == 'u' && |s| >= 6 then [Unit(s[4], s[5])] + Unescape(s[6..])
    else [Meant(s[1])] + Unescape(s[2..])
  }

  /** The character with these two low hexadecimal digits. */
  function Unit(high: char, low: char): char {
    var n := 16 * HexDigitValue(high) + HexDigitValue(low);
    if 0 <= n < 256 then n as char else '?'
  }

  function Meant(c: char): char {
    if c == 'b' then 8 as char
    else if c == 't' then 9 as char
    else if c == 'n' then 10 as char
    else if c == 'f' then 12 as char
    else if c == 'r' then 13 as char
    else c
  }

  lemma UnescapeOne(c: char, rest: string)
    ensures Unescape(Escape(c) + rest) == [c] + Unescape(rest)
  {
    var e, n := Escape(c), c as int;
    var s := e + rest;
    if e == [c] {
      assert s[1..] == rest;
    } else if n < 32 && n != 8 && n != 9 && n != 10 && n != 12 && n != 13 {
      assert e == ['\\', 'u', '0', '0', HexDigit(n / 16), HexDigit(n % 16)];
      assert s[6..] == rest && s[4] == HexDigit(n / 16) && s[5] == HexDigit(n % 16);
    } else {
      assert |e| == 2 && s[0] == '\\' && s[1] == e[1] && s[2..] == rest;
    }
  }

  /** A string literal says the string, and holds no control character and no quote that is not escaped. */
  lemma {:induction false} QuoteRoundTrip(s: string)
    ensures Unescape(EscapeAll(s)) == s
    ensures forall i :: 0 <= i < |EscapeAll(s)| ==> EscapeAll(s)[i] as int >= 32
  {
    if s != [] {
      UnescapeOne(s[0], EscapeAll(s[1..]));
      QuoteRoundTrip(s[1..]);
      assert s == [s[0]] + s[1..];
    }
  }

  lemma ItemsInTurn(x: Value, y: Value)
    requires !x.Undefined? && !y.Undefined?
    ensures ItemTexts(Item(x, Item(Undefined, Item(y, NoItems)))) == Stringify(x) + ([','] + ("null" + ([','] + Stringify(y))))
    ensures ItemTexts(NoItems) == []
  {
    hide Stringify;
    assert Stringify(y) + [] == Stringify(y);
    assert ItemTexts(Item(y, NoItems)) == Stringify(y);
    assert ItemTexts(Item(Undefined, Item(y, NoItems))) == "null" + ([','] + Stringify(y));
  }

  lemma MembersInTurn(x: Value, y: Value, k: string, l: string)
    requires !x.Undefined? && !y.Undefined?
    ensures MemberTexts(true, Member(k, x, Member(l, Undefined, Member(l, y, NoMembers)))) ==
            [] + Quote(k) + [':'] + Stringify(x) + ([','] + Quote(l) + [':'] + Stringify(y))
    ensures MemberTexts(true, NoMembers) == []
  {
    hide Stringify;
    hide Quote;
    var last := [','] + Quote(l) + [':'] + Stringify(y);
    assert last + [] == last;
    assert MemberTexts(false, Member(l, y, NoMembers)) == last;
    assert MemberTexts(false, Member(l, Undefined, Member(l, y, NoMembers))) == last;
  }

  /** Arrays and objects, `undefined` within them included. */
  lemma NestedTexts(x: Value, y: Value, k: string, l: string)
    requires !x.Undefined? && !y.Undefined?
    ensures Stringify(Array(NoItems)) == ['[', ']'] && Stringify(Object(NoMembers)) == ['{', '}']
    ensures Stringify(Array(Item(x, Item(Undefined, Item(y, NoItems))))) ==
            ['['] + (Stringify(x) + ([','] + ("null" + ([','] + Stringify(y))))) + [']']
    ensures Stringify(Object(Member(k, x, Member(l, Undefined, Member(l, y, NoMembers))))) ==
            ['{'] + ([] + Quote(k) + [':'] + Stringify(x) + ([','] + Quote(l) + [':'] + Stringify(y))) + ['}']
  {
    hide ItemTexts;
    hide MemberTexts;
    hide Quote;
    ItemsInTurn(x, y);
    MembersInTurn(x, y, k, l);
    assert ['['] + [] + [']'] == ['[', ']'] && ['{'] + [] + ['}'] == ['{', '}'];
  }

  // ---------- quotes close, and no bar stands outside them ----------

  datatype Scan = Outside | Inside | Escaped

  function Next(state: Scan, c: char): Scan {
    match state
    case Outside => if c == '"' then Inside else Outside
    case Inside => if c == '"' then Outside else if c == '\\' then Escaped else Inside
    case Escaped => Inside
  }

  /** Reading `s` leads from one state to the other, and meets no bar outside of quotes. */
  ghost predicate Reads(from: Scan, s: string, to: Scan)
    decreases |s|
  {
    if s == [] then from == to
    else !(from.Outside? && s[0] == '|') && Reads(Next(from, s[0]), s[1..], to)
  }

  /** Every bar of the text lies within a string literal, and every literal is closed. */
  ghost predicate Sealed(s: string) {
    Reads(Outside, s, Outside)
  }

  lemma {:induction false} ReadsConcat(from: Scan, s: string, mid: Scan, t: string, to: Scan)
    requires Reads(from, s, mid) && Reads(mid, t, to)
    ensures Reads(from, s + t, to)
    decreases |s|
  {
    if s == [] {
      assert s + t == t;
    } else {
      assert (s + t)[1..] == s[1..] + t;
      ReadsConcat(Next(from, s[0]), s[1..], mid, t, to);
    }
  }

  lemma SealedConcat(s: string, t: string)
    requires Sealed(s) && Sealed(t)
    ensures Sealed(s + t)
  {
    ReadsConcat(Outside, s, Outside, t, Outside);
  }

  lemma {:induction false} PlainIsSealed(s: string)
    requires '"' !in s && '|' !in s
    ensures Sealed(s)
    decreases |s|
  {
    if s != [] {
      assert s[0] in s && forall c :: c in s[1..] ==> c in s;
      PlainIsSealed(s[1..]);
    }
  }

  lemma {:induction false} PlainStaysInside(s: string)
    requires '"' !in s && '\\' !in s
    ensures Reads(Inside, s, Inside)
    decreases |s|
  {
    if s != [] {
      assert s[0] in s && forall c :: c in s[1..] ==> c in s;
      PlainStaysInside(s[1..]);
    }
  }

  lemma EscapeStaysInside(c: char)
    ensures Reads(Inside, Escape(c), Inside)
  {
    var e := Escape(c);
    if e[0] == '\\' {
      assert '"' !in e[2..] && '\\' !in e[2..];
      PlainStaysInside(e[2..]);
      assert e[1..][1..] == e[2..];
      assert Reads(Escaped, e[1..], Inside);
    } else {
      PlainStaysInside(e);
    }
  }

  lemma {:induction false} EscapeAllStaysInside(s: string)
    ensures Reads(Inside, EscapeAll(s), Inside)
  {
    if s != [] {
      EscapeStaysInside(s[0]);
      EscapeAllStaysInside(s[1..]);
      ReadsConcat(Inside, Escape(s[0]), Inside, EscapeAll(s[1..]), Inside);
    }
  }

  lemma QuoteIsSealed(s: string)
    ensures Sealed(Quote(s))
  {
    EscapeAllStaysInside(s);
    assert ['"'][1..] == [];
    ReadsConcat(Inside, EscapeAll(s), Inside, ['"'], Outside);
    ReadsConcat(Outside, ['"'], Inside, EscapeAll(s) + ['"'], Outside);
    assert Quote(s) == ['"'] + (EscapeAll(s) + ['"']);
  }

  /** What the words and the numerals are made of. */
  ghost predicate IsPlain(s: string) {
    forall i :: 0 <= i < |s| ==> s[i] != '"' && s[i] != '|'
  }

  lemma IsPlainIsSealed(s: string)
    requires IsPlain(s)
    ensures Sealed(s)
  {
    hide Reads;
    assert forall c :: c in s ==> c != '"' && c != '|';
    PlainIsSealed(s);
  }

  lemma WordsAreSealed()
    ensures Sealed("undefined") && Sealed("null") && Sealed("true") && Sealed("false")
  {
    hide Sealed;
    IsPlainIsSealed("undefined");
    IsPlainIsSealed("null");
    IsPlainIsSealed("true");
    IsPlainIsSealed("false");
  }

  lemma NumeralIsSealed(n: Numeral)
    ensures Sealed(n)
  {
    hide Sealed;
    IsPlainIsSealed(n);
  }

  /** So every bar in the text of a value lies within a string literal. */
  lemma {:induction false} StringifyIsSealed(v: Value)
    ensures Sealed(Stringify(v))
  {
    hide Sealed;
    match v
    case Undefined => WordsAreSealed();
    case Null => WordsAreSealed();
    case Boolean(b) => WordsAreSealed();
    case Number(n) => NumeralIsSealed(n);
    case String(s) => QuoteIsSealed(s);
    case Array(items) =>
      ItemsAreSealed(items);
      Bracketed('[', ItemTexts(items), ']');
    case Object(members) =>
      MembersAreSealed(true, members);
      Bracketed('{', MemberTexts(true, members), '}');
  }

  lemma Bracketed(open: char, s: string, close: char)
    requires Sealed(s) && open != '"' && open != '|' && close != '"' && close != '|'
    ensures Sealed([open] + s + [close])
  {
    hide Sealed;
    PlainIsSealed([open]);
    PlainIsSealed([close]);
    SealedConcat([open], s);
    SealedConcat([open] + s, [close]);
  }

  lemma {:induction false} ItemsAreSealed(items: Items)
    ensures Sealed(ItemTexts(items))
  {
    hide Sealed;
    PlainIsSealed("");
    match items
    case NoItems =>
    case Item(head, tail) =>
      WordsAreSealed();
      PlainIsSealed([',']);
      StringifyIsSealed(head);
      ItemsAreSealed(tail);
      var first := if head.Undefined? then "null" else Stringify(head);
      var rest := if tail.NoItems? then [] else [','] + ItemTexts(tail);
      SealedConcat([','], ItemTexts(tail));
      SealedConcat(first, rest);
  }

  lemma {:induction false} MembersAreSealed(first: bool, members: Members)
    ensures Sealed(MemberTexts(first, members))
    decreases members
  {
    hide Sealed;
    PlainIsSealed("");
    match members
    case NoMembers =>
    case Member(key, value, tail) =>
      MembersAreSealed(first, tail);
      if !value.Undefined? {
        PlainIsSealed([',']);
        PlainIsSealed([':']);
        QuoteIsSealed(key);
        StringifyIsSealed(value);
        MembersAreSealed(false, tail);
        var comma := if first then [] else [','];
        SealedConcat(comma, Quote(key));
        SealedConcat(comma + Quote(key), [':']);
        SealedConcat(comma + Quote(key) + [':'], Stringify(value));
        SealedConcat(comma + Quote(key) + [':'] + Stringify(value), MemberTexts(false, tail));
      }
  }

  // ---------- where a sealed text ends ----------

  /** Followed by nothing or by a bar, a sealed text can end in one place only. */
  lemma {:induction false} SealedCut(from: Scan, s: string, x: string, t: string, y: string)
    requires Reads(from, s, Outside) && Reads(from, t, Outside) && s + x == t + y
    requires (x == [] || x[0] == '|') && (y == [] || y[0] == '|')
    ensures s == t && x == y
    decreases |s|
  {
    if s == [] {
      assert s + x == x;
      NothingBeforeBar(x, t, y);
    } else if t == [] {
      assert t + y == y;
      NothingBeforeBar(y, s, x);
    } else {
      assert s[0] == (s + x)[0] == t[0];
      assert s[1..] + x == (s + x)[1..] && t[1..] + y == (t + y)[1..];
      SealedCut(Next(from, s[0]), s[1..], x, t[1..], y);
      assert s == [s[0]] + s[1..] && t == [t[0]] + t[1..];
    }
  }

  lemma NothingBeforeBar(x: string, t: string, y: string)
    requires x == t + y && (x == [] || x[0] == '|') && Reads(Outside, t, Outside)
    ensures t == [] && x == y
  {
    if t != [] {
      HeadOfConcat(t, y);
    } else {
      assert t + y == y;
    }
  }

  lemma HeadOfConcat(t: string, y: string)
    requires t != []
    ensures t + y != [] && (t + y)[0] == t[0]
  {
  }
}
