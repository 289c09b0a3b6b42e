/**
 The catalogue file reader of prisma/seeds/seed.utils.ts: `parseCsvLine` and `parseCsv`, paired
 with a printer.
 */
module Csv {
  import opened Wrappers
  import opened Text
  import opened InsertionOrder

  // ---------- one line ----------

  /** What the quote-state machine makes of the rest of a line. */
  function ParseFrom(line: string, current: string, inQuotes: bool): seq<string>
    decreases |line|
  {
    if line == [] then [current]
    else if line[0] == '"' then
      if inQuotes && |line| > 1 && line[1] == '"' then ParseFrom(line[2..], current + ['"'], true)
      else ParseFrom(line[1..], current, !inQuotes)
    else if line[0] == ',' && !inQuotes then [current] + ParseFrom(line[1..], [], false)
    else ParseFrom(line[1..], current + [line[0]], inQuotes)
  }

  function Fields(line: string): seq<string> {
    ParseFrom(line, [], false)
  }

  method ParseCsvLine(line: string) returns (result: seq<string>)
    ensures result == Fields(line)
  {
    result := [];
    var current: string := [];
    var inQuotes := false;
    var i := 0;
    while i < |line|
      invariant i <= |line|
      invariant result + ParseFrom(line[i..], current, inQuotes) == Fields(line)
    {
      var ch := line[i];
      ghost var rest := line[i..];
      assert rest[1..] == line[i + 1..];
      if ch == '"' {
        if inQuotes && i + 1 < |line| && line[i + 1] == '"' {
          assert rest[2..] == line[i + 2..];
          current := current + ['"'];
          i := i + 1;
        } else {
          inQuotes := !inQuotes;
        }
      } else if ch == ',' && !inQuotes {
        assert result + ([current] + ParseFrom(rest[1..], [], false)) == result + [current] + ParseFrom(rest[1..], [], false);
        result := result + [current];
        current := [];
      } else {
        current := current + [ch];
      }
      i := i + 1;
    }
    result := result + [current];
  }

  // ---------- the printer ----------

  predicate NeedsQuotes(field: string) {
    ',' in field || '"' in field
  }

  /** Quotes doubled, section 2, rule 7 of RFC 4180. */
  function Escape(field: string): string {
    if field == [] then []
    else (if field[0] == '"' then ['"', '"'] else [field[0]]) + Escape(field[1..])
  }

  function PrintField(field: string, quoted: bool): string {
    if quoted then ['"'] + Escape(field) + ['"'] else field
  }

  function PrintLine(fields: seq<string>, quoted: seq<bool>): string
    requires |fields| == |quoted|
  {
    if fields == [] then []
    else if |fields| == 1 then PrintField(fields[0], quoted[0])
    else PrintField(fields[0], quoted[0]) + [','] + PrintLine(fields[1..], quoted[1..])
  }

  lemma {:induction false} ParseEscaped(field: string, current: string, rest: string)
    requires rest == [] || rest[0] != '"'
    ensures ParseFrom(Escape(field) + ['"'] + rest, current, true) == ParseFrom(rest, current + field, false)
    decreases |field|
  {
    var line := Escape(field) + ['"'] + rest;
    if field == [] {
      assert line == ['"'] + rest;
      assert line[1..] == rest && current + field == current;
    } else {
      var tail := Escape(field[1..]) + ['"'] + rest;
      assert current + [field[0]] + field[1..] == current + field;
      ParseEscaped(field[1..], current + [field[0]], rest);
      if field[0] == '"' {
        assert line == ['"', '"'] + tail;
        assert line[2..] == tail;
      } else {
        assert line == [field[0]] + tail;
        assert line[1..] == tail;
      }
    }
  }

  lemma {:induction false} ParsePlain(field: string, current: string, rest: string)
    requires !NeedsQuotes(field)
    ensures ParseFrom(field + rest, current, false) == ParseFrom(rest, current + field, false)
    decreases |field|
  {
    if field == [] {
      assert field + rest == rest && current + field == current;
    } else {
      assert field[0] in field;
      assert (field + rest)[1..] == field[1..] + rest;
      assert current + [field[0]] + field[1..] == current + field;
      assert forall c :: c in field[1..] ==> c in field;
      ParsePlain(field[1..], current + [field[0]], rest);
    }
  }

  lemma ParseField(field: string, quoted: bool, rest: string)
    requires NeedsQuotes(field) ==> quoted
    requires rest == [] || rest[0] == ','
    ensures ParseFrom(PrintField(field, quoted) + rest, [], false) == ParseFrom(rest, field, false)
  {
    assert [] + field == field;
    if quoted {
      var line := PrintField(field, quoted) + rest;
      assert line == ['"'] + (Escape(field) + ['"'] + rest);
      assert line[1..] == Escape(field) + ['"'] + rest;
      ParseEscaped(field, [], rest);
    } else {
      ParsePlain(field, [], rest);
    }
  }

  /**
   Parsing undoes printing, for every nonempty list of fields and every choice of quoting that
   quotes at least the fields containing a comma or a quote (section 2, rules 5 to 7 of RFC 4180).
   */
  lemma {:induction false} LineRoundTrip(fields: seq<string>, quoted: seq<bool>)
    requires |fields| == |quoted| && fields != []
    requires forall i :: 0 <= i < |fields| ==> NeedsQuotes(fields[i]) ==> quoted[i]
    ensures Fields(PrintLine(fields, quoted)) == fields
    decreases |fields|
  {
    if |fields| == 1 {
      ParseField(fields[0], quoted[0], []);
      assert PrintField(fields[0], quoted[0]) + [] == PrintField(fields[0], quoted[0]);
      assert ParseFrom([], fields[0], false) == [fields[0]];
    } else {
      var tail := PrintLine(fields[1..], quoted[1..]);
      var rest := [','] + tail;
      ParseField(fields[0], quoted[0], rest);
      LineRoundTrip(fields[1..], quoted[1..]);
      assert PrintField(fields[0], quoted[0]) + [','] + tail == PrintField(fields[0], quoted[0]) + rest;
      assert rest[1..] == tail;
      assert ParseFrom(rest, fields[0], false) == [fields[0]] + Fields(tail);
    }
  }

  // ---------- rows ----------

  datatype RowType = Product | Service

  datatype CsvRow = CsvRow(
    serialNo: int, category: string, subCategory: string, name: string, rowType: RowType,
    unit: string, altUnits: string, quantityParams: string)

  function SplitLines(s: string): seq<string> {
    SplitLinesFrom([], s)
  }

  function SplitLinesFrom(current: string, s: string): (lines: seq<string>)
    ensures lines != []
    decreases |s|
  {
    if s == [] then [current]
    else if s[0] == '\n' then [current] + SplitLinesFrom([], s[1..])
    else SplitLinesFrom(current + [s[0]], s[1..])
  }

  function DigitPrefix(s: string): (d: string)
    ensures forall i :: 0 <= i < |d| ==> IsDigit(d[i])
  {
    if s != [] && IsDigit(s[0]) then [s[0]] + DigitPrefix(s[1..]) else []
  }

  /** `parseInt(s, 10) || 0` */
  function ParseSerial(s: string): int {
    var t := StripLeft(s, IsSpace);
    var negative := t != [] && t[0] == '-';
    var u := if t != [] && (t[0] == '-' || t[0] == '+') then t[1..] else t;
    var n: int := DecimalValue(DigitPrefix(u));
    if negative then -n else n
  }

  function ParseType(s: string): Option<RowType> {
    if s == "Product" then Some(Product) else if s == "Service" then Some(Service) else None
  }

  /** `(cols[k] || '').trim()` */
  function Column(cols: seq<string>, k: nat): string {
    if k < |cols| then Trim(cols[k]) else []
  }

  function RowOfColumns(cols: seq<string>): Option<CsvRow> {
    if |cols| < 5 then None
    else
      var rowType := ParseType(Trim(cols[4]));
      if Trim(cols[3]) == [] || Trim(cols[1]) == [] || rowType.None? then None
      else Some(CsvRow(ParseSerial(cols[0]), Trim(cols[1]), Trim(cols[2]), Trim(cols[3]), rowType.value,
                       Column(cols, 5), Column(cols, 6), Column(cols, 7)))
  }

  function RowOfLine(line: string): Option<CsvRow> {
    var t := Trim(line);
    if t == [] then None else RowOfColumns(Fields(t))
  }

  function Accepted(lines: seq<string>): seq<CsvRow> {
    if lines == [] then []
    else
      var r := RowOfLine(lines[|lines| - 1]);
      Accepted(lines[..|lines| - 1]) + (if r.Some? then [r.value] else [])
  }

  /** The accepted rows of a file: every line after the header that yields a row, in order. */
  function RowsOf(content: string): seq<CsvRow> {
    Accepted(SplitLines(content)[1..])
  }

  function CategoriesOf(rows: seq<CsvRow>): seq<string> {
    seq(|rows|, i requires 0 <= i < |rows| => rows[i].category)
  }

  /** The nonempty subcategories of the rows of one category, in file order. */
  function SubcategoriesOf(rows: seq<CsvRow>, category: string): seq<string> {
    if rows == [] then []
    else
      var last := rows[|rows| - 1];
      SubcategoriesOf(rows[..|rows| - 1], category)
      + (if last.category == category && last.subCategory != [] then [last.subCategory] else [])
  }

  ghost predicate Summarises(rows: seq<CsvRow>, categories: seq<string>, subcategoryMap: map<string, seq<string>>) {
    && categories == FirstSeen(CategoriesOf(rows))
    && (forall c :: c in subcategoryMap <==> c in categories)
    && (forall c :: c in subcategoryMap ==> subcategoryMap[c] == FirstSeen(SubcategoriesOf(rows, c)))
  }

  method ParseCsv(content: string)
    returns (rows: seq<CsvRow>, categories: seq<string>, subcategoryMap: map<string, seq<string>>)
    ensures rows == RowsOf(content)
    ensures Summarises(rows, categories, subcategoryMap)
  {
    var lines := SplitLines(content);
    rows, categories, subcategoryMap := [], [], map[];
    if |lines| < 2 {
      return;
    }
    ghost var body := lines[1..];
    for i := 1 to |lines|
      invariant rows == Accepted(body[..i - 1])
      invariant Summarises(rows, categories, subcategoryMap)
    {
      assert body[..i][..i - 1] == body[..i - 1] && body[i - 1] == lines[i];
      var line := Trim(lines[i]);
      if line == [] {
        continue;
      }
      var cols := ParseCsvLine(line);
      if |cols| < 5 {
        continue;
      }
      var row := RowOfColumns(cols);
      if row.None? {
        continue;
      }
      categories, subcategoryMap := Record(rows, row.value, categories, subcategoryMap);
      rows := rows + [row.value];
    }
    assert body[..|body|] == body;
  }

  /** Entering one accepted row in the category set and the subcategory map. */
  method Record(ghost rows: seq<CsvRow>, row: CsvRow, categories: seq<string>, subcategoryMap: map<string, seq<string>>)
    returns (categories': seq<string>, subcategoryMap': map<string, seq<string>>)
    requires Summarises(rows, categories, subcategoryMap)
    ensures Summarises(rows + [row], categories', subcategoryMap')
  {
    categories' := AddOnce(categories, row.category);
    subcategoryMap' := subcategoryMap;
    if row.category !in subcategoryMap' {
      subcategoryMap' := subcategoryMap'[row.category := []];
    }
    if row.subCategory != [] {
      subcategoryMap' := subcategoryMap'[row.category := AddOnce(subcategoryMap'[row.category], row.subCategory)];
    }
    CategoryAdded(rows, row);
    forall c
      ensures c in subcategoryMap' ==> subcategoryMap'[c] == FirstSeen(SubcategoriesOf(rows + [row], c))
    {
      SubcategoryAdded(rows, row, c);
    }
  }

  lemma CategoryAdded(rows: seq<CsvRow>, row: CsvRow)
    ensures FirstSeen(CategoriesOf(rows + [row])) == AddOnce(FirstSeen(CategoriesOf(rows)), row.category)
  {
    assert CategoriesOf(rows + [row]) == CategoriesOf(rows) + [row.category];
    AppendOne(CategoriesOf(rows), row.category);
  }

  lemma SubcategoryAdded(rows: seq<CsvRow>, row: CsvRow, c: string)
    ensures FirstSeen(SubcategoriesOf(rows + [row], c)) ==
            if row.category == c && row.subCategory != [] then
              AddOnce(FirstSeen(SubcategoriesOf(rows, c)), row.subCategory)
            else FirstSeen(SubcategoriesOf(rows, c))
    ensures c !in FirstSeen(CategoriesOf(rows)) ==> SubcategoriesOf(rows, c) == []
  {
    assert (rows + [row])[..|rows|] == rows;
    AppendOne(SubcategoriesOf(rows, c), row.subCategory);
    assert SubcategoriesOf(rows, c) + [] == SubcategoriesOf(rows, c);
    SameElements(CategoriesOf(rows), c);
    if c !in CategoriesOf(rows) {
      NoSubcategories(rows, c);
    }
  }

  lemma {:induction false} NoSubcategories(rows: seq<CsvRow>, category: string)
    requires category !in CategoriesOf(rows)
    ensures SubcategoriesOf(rows, category) == []
    decreases |rows|
  {
    if rows != [] {
      var front := rows[..|rows| - 1];
      assert CategoriesOf(rows)[|rows| - 1] == rows[|rows| - 1].category;
      forall i | 0 <= i < |front|
        ensures CategoriesOf(front)[i] != category
      {
        assert CategoriesOf(rows)[i] == CategoriesOf(front)[i];
      }
      NoSubcategories(front, category);
    }
  }

  lemma {:induction false} SubcategoriesMeaning(rows: seq<CsvRow>, category: string, sub: string)
    ensures sub in SubcategoriesOf(rows, category) <==>
            sub != [] && exists r :: r in rows && r.category == category && r.subCategory == sub
    decreases |rows|
  {
    if rows != [] {
      var front, last := rows[..|rows| - 1], rows[|rows| - 1];
      SubcategoriesMeaning(front, category, sub);
      assert rows == front + [last];
      assert last in rows && forall r :: r in front ==> r in rows;
    }
  }

  /** What the two summaries contain, whatever the file. */
  lemma SummaryMeaning(rows: seq<CsvRow>, categories: seq<string>, subcategoryMap: map<string, seq<string>>)
    requires Summarises(rows, categories, subcategoryMap)
    ensures forall i, j :: 0 <= i < j < |categories| ==> categories[i] != categories[j]
    ensures forall c :: c in categories <==> exists r :: r in rows && r.category == c
    ensures InFirstOrder(CategoriesOf(rows), categories)
    ensures forall c, s :: c in subcategoryMap ==>
              (s in subcategoryMap[c] <==> s != [] && exists r :: r in rows && r.category == c && r.subCategory == s)
  {
    var all := CategoriesOf(rows);
    Distinct(all);
    InOrder(all);
    forall c
      ensures c in categories <==> exists r :: r in rows && r.category == c
    {
      SameElements(all, c);
      if c in all {
        var i :| 0 <= i < |all| && all[i] == c;
        assert rows[i] in rows;
      }
      if r :| r in rows && r.category == c {
        var i :| 0 <= i < |rows| && rows[i] == r;
        assert all[i] == c;
      }
    }
    forall c, s | c in subcategoryMap
      ensures s in subcategoryMap[c] <==> s != [] && exists r :: r in rows && r.category == c && r.subCategory == s
    {
      SameElements(SubcategoriesOf(rows, c), s);
      SubcategoriesMeaning(rows, c, s);
    }
  }

  // ---------- a whole file ----------

  function PrintInt(n: int): string {
    if n < 0 then ['-'] + Decimal(-n) else Decimal(n)
  }

  function PrintType(t: RowType): string {
    if t.Product? then "Product" else "Service"
  }

  function RowFields(row: CsvRow): seq<string> {
    [PrintInt(row.serialNo), row.category, row.subCategory, row.name, PrintType(row.rowType),
     row.unit, row.altUnits, row.quantityParams]
  }

  function PrintRow(row: CsvRow): string {
    var fields := RowFields(row);
    PrintLine(fields, seq(|fields|, i requires 0 <= i < |fields| => NeedsQuotes(fields[i])))
  }

  function PrintRows(rows: seq<CsvRow>): seq<string> {
    seq(|rows|, i requires 0 <= i < |rows| => PrintRow(rows[i]))
  }

  function PrintFile(header: string, rows: seq<CsvRow>): string {
    Join([header] + PrintRows(rows), '\n')
  }

  /** A field a line can carry: no line break, no blank at either end. */
  ghost predicate Printable(field: string) {
    '\n' !in field && (field != [] ==> !IsSpace(field[0]) && !IsSpace(field[|field| - 1]))
  }

  ghost predicate PrintableRow(row: CsvRow) {
    && row.name != [] && row.category != []
    && Printable(row.category) && Printable(row.subCategory) && Printable(row.name)
    && Printable(row.unit) && Printable(row.altUnits) && Printable(row.quantityParams)
  }

  lemma {:induction false} DigitPrefixOfDigits(s: string)
    requires forall i :: 0 <= i < |s| ==> IsDigit(s[i])
    ensures DigitPrefix(s) == s
    decreases |s|
  {
    if s != [] {
      DigitPrefixOfDigits(s[1..]);
    }
  }

  /** A numeral reads back, with nothing before it or with a sign. */
  lemma NumeralRoundTrip(n: nat)
    ensures ParseSerial(Decimal(n)) == n && ParseSerial(['-'] + Decimal(n)) == 0 - n
  {
    var d := Decimal(n);
    assert IsDigit(d[0]);
    DigitPrefixOfDigits(d);
    DecimalRoundTrip(n);
    var s := ['-'] + d;
    assert s[1..] == d;
    assert StripLeft(s, IsSpace) == s && StripLeft(d, IsSpace) == d;
  }

  lemma NumeralIsPrintable(n: nat)
    ensures Printable(Decimal(n)) && Printable(['-'] + Decimal(n))
  {
    var d := Decimal(n);
    assert IsDigit(d[0]) && IsDigit(d[|d| - 1]);
    forall i | 0 <= i < |d|
      ensures d[i] != '\n'
    {
      assert IsDigit(d[i]);
    }
  }

  lemma SerialRoundTrip(n: int)
    ensures ParseSerial(PrintInt(n)) == n
    ensures Printable(PrintInt(n)) && PrintInt(n) != []
  {
    if n < 0 {
      NumeralRoundTrip(-n);
      NumeralIsPrintable(-n);
    } else {
      NumeralRoundTrip(n);
      NumeralIsPrintable(n);
    }
  }

  lemma TypeRoundTrip(t: RowType)
    ensures ParseType(PrintType(t)) == Some(t) && Printable(PrintType(t))
  {
    assert "Product" == ['P', 'r', 'o', 'd', 'u', 'c', 't'] && "Service" == ['S', 'e', 'r', 'v', 'i', 'c', 'e'];
  }

  lemma {:induction false} EscapeHasNoBreak(field: string)
    requires '\n' !in field
    ensures '\n' !in Escape(field)
    decreases |field|
  {
    if field != [] {
      assert field[0] in field && forall c :: c in field[1..] ==> c in field;
      EscapeHasNoBreak(field[1..]);
    }
  }

  /** A line of printable fields has no line break, and trimming it changes nothing. */
  lemma {:induction false} LineShape(fields: seq<string>, quoted: seq<bool>)
    requires |fields| == |quoted| && fields != []
    requires forall i :: 0 <= i < |fields| ==> Printable(fields[i])
    ensures var line := PrintLine(fields, quoted);
            && '\n' !in line
            && (line != [] ==> !IsSpace(line[|line| - 1]))
            && (|fields| > 1 ==> line != [])
            && (fields[0] != [] ==> line != [] && !IsSpace(line[0]))
    decreases |fields|
  {
    EscapeHasNoBreak(fields[0]);
    var first := PrintField(fields[0], quoted[0]);
    assert '\n' !in first;
    if |fields| > 1 {
      LineShape(fields[1..], quoted[1..]);
      var tail := PrintLine(fields[1..], quoted[1..]);
      assert PrintLine(fields, quoted) == first + [','] + tail;
      if tail != [] {
        assert PrintLine(fields, quoted)[|first| + |tail|] == tail[|tail| - 1];
      }
    }
  }

  lemma RowRoundTrip(row: CsvRow)
    requires PrintableRow(row)
    ensures RowOfLine(PrintRow(row)) == Some(row) && '\n' !in PrintRow(row)
  {
    var fields := RowFields(row);
    var quoted := seq(|fields|, i requires 0 <= i < |fields| => NeedsQuotes(fields[i]));
    SerialRoundTrip(row.serialNo);
    TypeRoundTrip(row.rowType);
    LineShape(fields, quoted);
    LineRoundTrip(fields, quoted);
    StripFixed(PrintRow(row), IsSpace);
    forall i | 0 <= i < |fields|
      ensures Trim(fields[i]) == fields[i]
    {
      StripFixed(fields[i], IsSpace);
    }
    ColumnsRoundTrip(row, fields);
  }

  lemma ColumnsRoundTrip(row: CsvRow, fields: seq<string>)
    requires fields == RowFields(row) && row.name != [] && row.category != []
    requires forall i :: 0 <= i < |fields| ==> Trim(fields[i]) == fields[i]
    ensures RowOfColumns(fields) == Some(row)
  {
    SerialRoundTrip(row.serialNo);
    TypeRoundTrip(row.rowType);
    assert Trim(fields[1]) == row.category && Trim(fields[2]) == row.subCategory && Trim(fields[3]) == row.name;
    assert Trim(fields[4]) == PrintType(row.rowType);
    assert Trim(fields[5]) == row.unit && Trim(fields[6]) == row.altUnits && Trim(fields[7]) == row.quantityParams;
  }

  lemma {:induction false} SplitOneLine(current: string, line: string, rest: string)
    requires '\n' !in line && (rest == [] || rest[0] == '\n')
    ensures SplitLinesFrom(current, line + rest) ==
            [current + line] + (if rest == [] then [] else SplitLinesFrom([], rest[1..]))
    decreases |line|
  {
    if line == [] {
      assert line + rest == rest && current + line == current;
    } else {
      assert line[0] in line && forall c :: c in line[1..] ==> c in line;
      assert (line + rest)[1..] == line[1..] + rest;
      assert current + [line[0]] + line[1..] == current + line;
      SplitOneLine(current + [line[0]], line[1..], rest);
    }
  }

  lemma {:induction false} SplitJoined(lines: seq<string>)
    requires lines != [] && forall i :: 0 <= i < |lines| ==> '\n' !in lines[i]
    ensures SplitLines(Join(lines, '\n')) == lines
    decreases |lines|
  {
    assert [] + lines[0] == lines[0];
    if |lines| == 1 {
      SplitOneLine([], lines[0], []);
      assert lines[0] + [] == lines[0];
    } else {
      var tail := Join(lines[1..], '\n');
      var rest := ['\n'] + tail;
      SplitJoined(lines[1..]);
      SplitOneLine([], lines[0], rest);
      assert lines[0] + ['\n'] + tail == lines[0] + rest && rest[1..] == tail;
    }
  }

  lemma AcceptedStep(lines: seq<string>, line: string, row: CsvRow)
    requires RowOfLine(line) == Some(row)
    ensures Accepted(lines + [line]) == Accepted(lines) + [row]
  {
    assert (lines + [line])[..|lines|] == lines;
  }

  lemma PrintRowsStep(rows: seq<CsvRow>)
    requires rows != []
    ensures PrintRows(rows) == PrintRows(rows[..|rows| - 1]) + [PrintRow(rows[|rows| - 1])]
  {
  }

  lemma {:induction false} AcceptedPrinted(rows: seq<CsvRow>)
    requires forall r :: r in rows ==> PrintableRow(r)
    ensures Accepted(PrintRows(rows)) == rows
    decreases |rows|
  {
    if rows != [] {
      var front, last := rows[..|rows| - 1], rows[|rows| - 1];
      assert rows == front + [last] && last in rows;
      AcceptedPrinted(front);
      RowRoundTrip(last);
      PrintRowsStep(rows);
      AcceptedStep(PrintRows(front), PrintRow(last), last);
    }
  }

  /** Reading undoes writing: a file of printable rows comes back row for row. */
  lemma FileRoundTrip(header: string, rows: seq<CsvRow>)
    requires '\n' !in header && forall r :: r in rows ==> PrintableRow(r)
    ensures RowsOf(PrintFile(header, rows)) == rows
  {
    var lines := [header] + PrintRows(rows);
    PrintedRowsHaveNoBreak(rows);
    SplitJoined(lines);
    AcceptedPrinted(rows);
    assert lines[1..] == PrintRows(rows);
  }

  lemma PrintedRowsHaveNoBreak(rows: seq<CsvRow>)
    requires forall r :: r in rows ==> PrintableRow(r)
    ensures forall i :: 0 <= i < |rows| ==> '\n' !in PrintRows(rows)[i]
  {
    forall i | 0 <= i < |rows|
      ensures '\n' !in PrintRows(rows)[i]
    {
      assert rows[i] in rows;
      RowRoundTrip(rows[i]);
    }
  }

  // ---------- reading, printing and reading again ----------

  lemma {:induction false} FieldsHaveNoBreak(line: string, current: string, inQuotes: bool)
    requires '\n' !in line && '\n' !in current
    ensures forall f :: f in ParseFrom(line, current, inQuotes) ==> '\n' !in f
    decreases |line|
  {
    if line != [] {
      assert line[0] in line && forall k, c :: 1 <= k <= |line| && c in line[k..] ==> c in line;
      if line[0] == '"' {
        if inQuotes && |line| > 1 && line[1] == '"' {
          FieldsHaveNoBreak(line[2..], current + ['"'], true);
        } else {
          FieldsHaveNoBreak(line[1..], current, !inQuotes);
        }
      } else if line[0] == ',' && !inQuotes {
        FieldsHaveNoBreak(line[1..], [], false);
      } else {
        FieldsHaveNoBreak(line[1..], current + [line[0]], inQuotes);
      }
    }
  }

  lemma TrimIsPrintable(s: string)
    requires '\n' !in s
    ensures Printable(Trim(s))
  {
    var lo, hi := StripShape(s, IsSpace);
    assert forall c :: c in s[lo..hi] ==> c in s;
  }

  lemma {:induction false} LinesHaveNoBreak(current: string, s: string)
    requires '\n' !in current
    ensures forall line :: line in SplitLinesFrom(current, s) ==> '\n' !in line
    decreases |s|
  {
    if s != [] {
      LinesHaveNoBreak(if s[0] == '\n' then [] else current + [s[0]], s[1..]);
    }
  }

  lemma AcceptedRowIsPrintable(line: string)
    requires '\n' !in line && RowOfLine(line).Some?
    ensures PrintableRow(RowOfLine(line).value)
  {
    TrimIsPrintable(line);
    var cols := Fields(Trim(line));
    FieldsHaveNoBreak(Trim(line), [], false);
    forall k | 0 <= k < |cols|
      ensures Printable(Trim(cols[k]))
    {
      assert cols[k] in cols;
      TrimIsPrintable(cols[k]);
    }
  }

  lemma {:induction false} AcceptedRowsArePrintable(lines: seq<string>)
    requires forall line :: line in lines ==> '\n' !in line
    ensures forall r :: r in Accepted(lines) ==> PrintableRow(r)
    decreases |lines|
  {
    if lines != [] {
      var front, last := lines[..|lines| - 1], lines[|lines| - 1];
      assert lines == front + [last] && last in lines;
      AcceptedRowsArePrintable(front);
      if RowOfLine(last).Some? {
        AcceptedRowIsPrintable(last);
      }
    }
  }

  /**
   For every input file whatever: the accepted rows have a name and a category and no field with
   blanks at its ends, and printing them gives a file that reads back as the same rows.
   */
  lemma ReadPrintRead(content: string, header: string)
    requires '\n' !in header
    ensures forall r :: r in RowsOf(content) ==> PrintableRow(r)
    ensures RowsOf(PrintFile(header, RowsOf(content))) == RowsOf(content)
  {
    var lines := SplitLines(content);
    LinesHaveNoBreak([], content);
    assert forall line :: line in lines[1..] ==> line in lines;
    AcceptedRowsArePrintable(lines[1..]);
    FileRoundTrip(header, RowsOf(content));
  }
}
