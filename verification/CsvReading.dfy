/**
 Which lines of a catalogue file are rows, and of what: for lines nobody printed carefully, with blanks around
 fields, missing columns, superfluous ones, and lines that are no rows at all.
 */
module CsvReading {
  import opened Wrappers
  import opened Text
  import opened Csv

  // ---------- blanks ----------

  /** The characters `trim` removes. */
  predicate IsBlankChar(c: char) {
    c == ' ' || c == '\t' || c == '\n' || c == '\r' || c == '\U{0B}' || c == '\U{0C}'
  }

  ghost predicate Blank(s: string) {
    forall i :: 0 <= i < |s| ==> IsBlankChar(s[i])
  }

  lemma {:induction false} StripLeftBlank(blank: string, s: string)
    requires Blank(blank)
    ensures StripLeft(blank + s, IsSpace) == StripLeft(s, IsSpace)
    decreases |blank|
  {
    if blank == [] {
      assert blank + s == s;
    } else {
      assert (blank + s)[1..] == blank[1..] + s;
      StripLeftBlank(blank[1..], s);
    }
  }

  lemma {:induction false} StripRightBlank(s: string, blank: string)
    requires Blank(blank)
    ensures StripRight(s + blank, IsSpace) == StripRight(s, IsSpace)
    decreases |blank|
  {
    if blank == [] {
      assert s + blank == s;
    } else {
      var n := |blank| - 1;
      assert (s + blank)[..|s + blank| - 1] == s + blank[..n];
      StripRightBlank(s, blank[..n]);
    }
  }

  lemma {:induction false} StripLeftKeepsTail(s: string, tail: string)
    requires !Blank(s)
    ensures StripLeft(s + tail, IsSpace) == StripLeft(s, IsSpace) + tail
    decreases |s|
  {
    if IsSpace(s[0]) {
      assert (s + tail)[1..] == s[1..] + tail;
      StripLeftKeepsTail(s[1..], tail);
    }
  }

  /** Blanks around a text make no difference to `trim`. */
  lemma TrimPadded(left: string, s: string, right: string)
    requires Blank(left) && Blank(right)
    ensures Trim(left + s + right) == Trim(s)
  {
    assert left + s + right == left + (s + right);
    StripLeftBlank(left, s + right);
    if Blank(s) {
      StripLeftBlank(s + right, []);
      StripLeftBlank(s, []);
      assert s + right + [] == s + right && s + [] == s;
    } else {
      StripLeftKeepsTail(s, right);
      StripRightBlank(StripLeft(s, IsSpace), right);
    }
  }

  /** `trim` leaves nothing exactly of a blank text. */
  lemma TrimNothing(s: string)
    ensures Trim(s) == [] <==> Blank(s)
  {
    if Blank(s) {
      TrimPadded(s, [], []);
      assert s + [] + [] == s;
    } else {
      StripLeftKeepsTail(s, []);
      var i :| 0 <= i < |s| && !IsBlankChar(s[i]);
      var lo, hi := StripShape(s, IsSpace);
      KeptByStrip(s, i);
    }
  }

  lemma {:induction false} KeptByStrip(s: string, i: nat)
    requires i < |s| && !IsSpace(s[i])
    ensures s[i] in Trim(s)
  {
    LeftKeeps(s, s[i]);
    RightKeeps(StripLeft(s, IsSpace), s[i]);
  }

  lemma {:induction false} LeftKeeps(s: string, c: char)
    requires c in s && !IsSpace(c)
    ensures c in StripLeft(s, IsSpace)
    decreases |s|
  {
    if IsSpace(s[0]) {
      assert s == [s[0]] + s[1..];
      LeftKeeps(s[1..], c);
    }
  }

  lemma {:induction false} RightKeeps(s: string, c: char)
    requires c in s && !IsSpace(c)
    ensures c in StripRight(s, IsSpace)
    decreases |s|
  {
    if IsSpace(s[|s| - 1]) {
      assert s == s[..|s| - 1] + [s[|s| - 1]];
      RightKeeps(s[..|s| - 1], c);
    }
  }

  // ---------- trimming a line first makes no difference ----------

  /** What has been read of a field comes before what the rest of the line adds to it. */
  lemma {:induction false} ParseCurrent(line: string, current: string, inQuotes: bool)
    ensures var x := ParseFrom(line, [], inQuotes);
            x != [] && ParseFrom(line, current, inQuotes) == [current + x[0]] + x[1..]
    decreases |line|
  {
    if line == [] {
      assert current + [] == current;
    } else if line[0] == '"' {
      if inQuotes && |line| > 1 && line[1] == '"' {
        ParseCurrent(line[2..], current + ['"'], true);
        ParseCurrent(line[2..], ['"'], true);
        assert [] + ['"'] == ['"'];
        Shift(current, ['"'], ParseFrom(line[2..], [], true));
      } else {
        ParseCurrent(line[1..], current, !inQuotes);
      }
    } else if line[0] == ',' && !inQuotes {
      assert current + [] == current;
    } else {
      ParseCurrent(line[1..], current + [line[0]], inQuotes);
      ParseCurrent(line[1..], [line[0]], inQuotes);
      assert [] + [line[0]] == [line[0]];
      Shift(current, [line[0]], ParseFrom(line[1..], [], inQuotes));
    }
  }

  lemma Shift(a: string, b: string, x: seq<string>)
    requires x != []
    ensures a + b + x[0] == a + (b + x[0])
    ensures ([b + x[0]] + x[1..])[0] == b + x[0] && ([b + x[0]] + x[1..])[1..] == x[1..]
  {
  }

  /** Blanks at the end of a line go to its last field. */
  lemma {:induction false} ParseTrailing(line: string, blank: string, current: string, inQuotes: bool)
    requires Blank(blank)
    ensures var x := ParseFrom(line, current, inQuotes);
            x != [] && ParseFrom(line + blank, current, inQuotes) == x[..|x| - 1] + [x[|x| - 1] + blank]
    decreases |line|
  {
    if line == [] {
      assert line + blank == blank;
      ParseBlank(blank, current, inQuotes);
    } else {
      assert (line + blank)[1..] == line[1..] + blank;
      if line[0] == '"' {
        if inQuotes && |line| > 1 && line[1] == '"' {
          assert (line + blank)[2..] == line[2..] + blank;
          ParseTrailing(line[2..], blank, current + ['"'], true);
        } else {
          assert |line| == 1 && blank != [] ==> (line + blank)[1] == blank[0];
          ParseTrailing(line[1..], blank, current, !inQuotes);
        }
      } else if line[0] == ',' && !inQuotes {
        ParseTrailing(line[1..], blank, [], false);
        var x := ParseFrom(line[1..], [], false);
        assert ([current] + x)[..|x|] == [current] + x[..|x| - 1];
      } else {
        ParseTrailing(line[1..], blank, current + [line[0]], inQuotes);
      }
    }
  }

  lemma {:induction false} ParseBlank(blank: string, current: string, inQuotes: bool)
    requires Blank(blank)
    ensures ParseFrom(blank, current, inQuotes) == [current + blank]
    decreases |blank|
  {
    if blank == [] {
      assert current + blank == current;
    } else {
      assert IsBlankChar(blank[0]);
      ParseBlank(blank[1..], current + [blank[0]], inQuotes);
      assert current + [blank[0]] + blank[1..] == current + blank;
    }
  }

  /** Field by field the same, but for blanks at the ends. */
  ghost predicate SameTrimmed(u: seq<string>, v: seq<string>) {
    |u| == |v| && forall i :: 0 <= i < |u| ==> Trim(u[i]) == Trim(v[i])
  }

  lemma PaddedLine(left: string, line: string, right: string)
    requires Blank(left) && Blank(right)
    ensures SameTrimmed(Fields(left + line + right), Fields(line))
  {
    hide Fields;
    hide Trim;
    PaddedBefore(left, line);
    PaddedBehind(left + line, right);
  }

  lemma PaddedBefore(left: string, line: string)
    requires Blank(left)
    ensures SameTrimmed(Fields(left + line), Fields(line))
  {
    hide ParseFrom;
    hide Trim;
    BlankNeedsNoQuotes(left);
    ParsePlain(left, [], line);
    assert [] + left == left;
    ParseCurrent(line, left, false);
    var x := Fields(line);
    TrimPadded(left, x[0], []);
    assert left + x[0] + [] == left + x[0];
  }

  lemma PaddedBehind(line: string, right: string)
    requires Blank(right)
    ensures SameTrimmed(Fields(line + right), Fields(line))
  {
    hide ParseFrom;
    hide Trim;
    ParseTrailing(line, right, [], false);
    var x := Fields(line);
    TrimPadded([], x[|x| - 1], right);
    assert [] + x[|x| - 1] + right == x[|x| - 1] + right;
  }

  lemma SplitTrim(s: string) returns (left: string, right: string)
    ensures Blank(left) && Blank(right) && s == left + Trim(s) + right
  {
    left := LeftBlank(s);
    var t := StripLeft(s, IsSpace);
    right := RightBlank(t);
    assert left + (Trim(s) + right) == left + Trim(s) + right;
  }

  lemma {:induction false} LeftBlank(s: string) returns (left: string)
    ensures Blank(left) && s == left + StripLeft(s, IsSpace)
    decreases |s|
  {
    left := [];
    if s != [] && IsSpace(s[0]) {
      var more := LeftBlank(s[1..]);
      left := [s[0]] + more;
      assert s == [s[0]] + s[1..];
    }
  }

  lemma {:induction false} RightBlank(s: string) returns (right: string)
    ensures Blank(right) && s == StripRight(s, IsSpace) + right
    decreases |s|
  {
    right := [];
    if s != [] && IsSpace(s[|s| - 1]) {
      var more := RightBlank(s[..|s| - 1]);
      right := more + [s[|s| - 1]];
      assert s == s[..|s| - 1] + [s[|s| - 1]];
    }
  }

  lemma {:induction false} DigitsBeforeBlank(s: string, blank: string)
    requires Blank(blank)
    ensures DigitPrefix(s + blank) == DigitPrefix(s)
    decreases |s|
  {
    if s == [] {
      assert s + blank == blank;
      assert blank != [] ==> IsBlankChar(blank[0]);
    } else {
      assert (s + blank)[1..] == s[1..] + blank;
      DigitsBeforeBlank(s[1..], blank);
    }
  }

  lemma SerialIgnoresBlanks(left: string, s: string, right: string)
    requires Blank(left) && Blank(right)
    ensures ParseSerial(left + s + right) == ParseSerial(s)
  {
    assert left + s + right == left + (s + right);
    StripLeftBlank(left, s + right);
    var t := StripLeft(s, IsSpace);
    if Blank(s) {
      StripLeftBlank(s + right, []);
      StripLeftBlank(s, []);
      assert s + right + [] == s + right && s + [] == s;
    } else {
      StripLeftKeepsTail(s, right);
      LeftShape(s);
      assert (t + right)[1..] == t[1..] + right;
      DigitsBeforeBlank(t, right);
      DigitsBeforeBlank(t[1..], right);
    }
  }

  lemma LeftShape(s: string)
    requires !Blank(s)
    ensures StripLeft(s, IsSpace) != []
  {
    var i :| 0 <= i < |s| && !IsBlankChar(s[i]);
    LeftKeeps(s, s[i]);
  }

  lemma SameTrimmedSerial(s: string, t: string)
    requires Trim(s) == Trim(t)
    ensures ParseSerial(s) == ParseSerial(t)
  {
    var l, r := SplitTrim(s);
    var l', r' := SplitTrim(t);
    SerialIgnoresBlanks(l, Trim(s), r);
    SerialIgnoresBlanks(l', Trim(t), r');
  }

  lemma SameTrimmedRow(u: seq<string>, v: seq<string>)
    requires SameTrimmed(u, v)
    ensures RowOfColumns(u) == RowOfColumns(v)
  {
    if |u| >= 5 {
      SameTrimmedSerial(u[0], v[0]);
      assert Trim(u[1]) == Trim(v[1]) && Trim(u[2]) == Trim(v[2]) && Trim(u[3]) == Trim(v[3]) && Trim(u[4]) == Trim(v[4]);
      assert Column(u, 5) == Column(v, 5) && Column(u, 6) == Column(v, 6) && Column(u, 7) == Column(v, 7);
    }
  }

  lemma LineIsItsColumns(line: string)
    ensures RowOfLine(line) == RowOfColumns(Fields(line))
  {
    var left, right := SplitTrim(line);
    PaddedLine(left, Trim(line), right);
    SameTrimmedRow(Fields(line), Fields(Trim(line)));
    if Trim(line) == [] {
      assert Fields([]) == [[]];
    }
  }

  // ---------- which lines are rejected ----------

  /**
   A line yields no row exactly when it has fewer than five fields, a blank category or name, or a
   type that is, but for blanks around it, neither of the two words.
   */
  lemma RejectedExactly(line: string)
    ensures var cols := Fields(line);
            RowOfLine(line).None? <==>
            || |cols| < 5
            || Blank(cols[1]) || Blank(cols[3])
            || (Trim(cols[4]) != "Product" && Trim(cols[4]) != "Service")
  {
    LineIsItsColumns(line);
    var cols := Fields(line);
    if |cols| >= 5 {
      TrimNothing(cols[1]);
      TrimNothing(cols[3]);
    }
  }

  /** A rejected line leaves no trace in the file. */
  lemma RejectedLineIsSkipped(before: seq<string>, line: string, after: seq<string>)
    requires RowOfLine(line).None?
    ensures Accepted(before + [line] + after) == Accepted(before + after)
  {
    AcceptedConcat(before + [line], after);
    AcceptedConcat(before, after);
    AcceptedConcat(before, [line]);
    assert [line][..0] == [] && Accepted([line]) == [];
    assert Accepted(before) + [] == Accepted(before);
  }

  lemma AcceptedLast(lines: seq<string>, line: string)
    ensures Accepted(lines + [line]) == Accepted(lines) + (if RowOfLine(line).Some? then [RowOfLine(line).value] else [])
  {
    hide RowOfLine;
    assert (lines + [line])[..|lines|] == lines;
  }

  lemma LastApart<T>(a: seq<T>, b: seq<T>)
    requires b != []
    ensures var n := |b| - 1;
            a + b == a + b[..n] + [b[n]] && b == b[..n] + [b[n]]
  {
  }

  lemma Associate<T>(a: seq<T>, b: seq<T>, c: seq<T>)
    ensures a + b + c == a + (b + c)
  {
  }

  lemma {:induction false} AcceptedConcat(a: seq<string>, b: seq<string>)
    ensures Accepted(a + b) == Accepted(a) + Accepted(b)
    decreases |b|
  {
    if b == [] {
      assert a + b == a;
    } else {
      hide *;
      var n := |b| - 1;
      AcceptedConcat(a, b[..n]);
      AcceptedLast(a + b[..n], b[n]);
      AcceptedLast(b[..n], b[n]);
      LastApart(a, b);
      Associate(Accepted(a), Accepted(b[..n]), if RowOfLine(b[n]).Some? then [RowOfLine(b[n]).value] else []);
    }
  }

  // ---------- what an untidy line reads as ----------

  /** A field as it stands in a line: quoted or not, with blanks before and behind. */
  datatype Cell = Cell(left: string, field: string, quoted: bool, right: string)

  function PrintCell(c: Cell): string {
    c.left + PrintField(c.field, c.quoted) + c.right
  }

  function PrintCells(cells: seq<Cell>): string {
    if cells == [] then []
    else if |cells| == 1 then PrintCell(cells[0])
    else PrintCell(cells[0]) + [','] + PrintCells(cells[1..])
  }

  /** Only blanks are put around a field, and a field with a comma or a quote is quoted. */
  ghost predicate Legible(c: Cell) {
    Blank(c.left) && Blank(c.right) && (NeedsQuotes(c.field) ==> c.quoted)
  }

  lemma BlankNeedsNoQuotes(blank: string)
    requires Blank(blank)
    ensures !NeedsQuotes(blank)
  {
    assert forall c :: c in blank ==> IsBlankChar(c);
  }

  lemma ParseCell(c: Cell, rest: string)
    requires Legible(c) && (rest == [] || rest[0] == ',')
    ensures ParseFrom(PrintCell(c) + rest, [], false) == ParseFrom(rest, c.left + c.field + c.right, false)
  {
    hide ParseFrom;
    hide Blank;
    BlankNeedsNoQuotes(c.left);
    BlankNeedsNoQuotes(c.right);
    var tail := c.right + rest;
    assert PrintCell(c) + rest == c.left + (PrintField(c.field, c.quoted) + tail);
    ParsePlain(c.left, [], PrintField(c.field, c.quoted) + tail);
    assert [] + c.left == c.left;
    if c.quoted {
      NoQuoteFirst(c.right, rest);
      ParseQuoted(c.field, c.left, tail);
    } else {
      ParsePlain(c.field, c.left, tail);
    }
    ParsePlain(c.right, c.left + c.field, rest);
  }

  lemma NoQuoteFirst(blank: string, rest: string)
    requires Blank(blank) && (rest == [] || rest[0] == ',')
    ensures blank + rest == [] || (blank + rest)[0] != '"'
  {
    assert blank != [] ==> IsBlankChar(blank[0]) && (blank + rest)[0] == blank[0];
  }

  lemma ParseQuoted(field: string, current: string, tail: string)
    requires tail == [] || tail[0] != '"'
    ensures ParseFrom(PrintField(field, true) + tail, current, false) == ParseFrom(tail, current + field, false)
  {
    var line := PrintField(field, true) + tail;
    assert line == ['"'] + (Escape(field) + ['"'] + tail);
    assert line[1..] == Escape(field) + ['"'] + tail;
    ParseEscaped(field, current, tail);
  }

  /** A quote that is never closed takes in the rest of the line, commas and all. */
  lemma {:induction false} UnclosedQuote(current: string, rest: string)
    requires '"' !in rest
    ensures ParseFrom(['"'] + rest, current, false) == [current + rest]
  {
    assert (['"'] + rest)[1..] == rest;
    QuotedRest(current, rest);
  }

  lemma {:induction false} QuotedRest(current: string, rest: string)
    requires '"' !in rest
    ensures ParseFrom(rest, current, true) == [current + rest]
    decreases |rest|
  {
    if rest == [] {
      assert current + rest == current;
    } else {
      assert rest[0] in rest && forall c :: c in rest[1..] ==> c in rest;
      QuotedRest(current + [rest[0]], rest[1..]);
      assert current + [rest[0]] + rest[1..] == current + rest;
    }
  }

  lemma {:induction false} CellsReadBack(cells: seq<Cell>)
    requires cells != [] && forall c :: c in cells ==> Legible(c)
    ensures var cols := Fields(PrintCells(cells));
            |cols| == |cells| && forall i :: 0 <= i < |cells| ==> Trim(cols[i]) == Trim(cells[i].field)
    decreases |cells|
  {
    var c := cells[0];
    assert c in cells;
    TrimPadded(c.left, c.field, c.right);
    if |cells| == 1 {
      ParseCell(c, []);
      assert PrintCell(c) + [] == PrintCell(c);
    } else {
      var tail := PrintCells(cells[1..]);
      var rest := [','] + tail;
      ParseCell(c, rest);
      assert PrintCell(c) + [','] + tail == PrintCell(c) + rest && rest[1..] == tail;
      assert forall d :: d in cells[1..] ==> d in cells;
      CellsReadBack(cells[1..]);
    }
  }

  function TrimmedRow(row: CsvRow): CsvRow {
    CsvRow(row.serialNo, Trim(row.category), Trim(row.subCategory), Trim(row.name), row.rowType,
           Trim(row.unit), Trim(row.altUnits), Trim(row.quantityParams))
  }

  /** The cells carry the fields of the row; columns from the sixth on may be missing if blank, and more than eight do no harm. */
  ghost predicate CellsOf(cells: seq<Cell>, row: CsvRow) {
    && |cells| >= 5 && (forall c :: c in cells ==> Legible(c))
    && (forall i :: 0 <= i < |cells| && i < 8 ==> cells[i].field == RowFields(row)[i])
    && (forall i :: |cells| <= i < 8 ==> Blank(RowFields(row)[i]))
  }

  /** Such a line reads as the row with its fields trimmed. */
  lemma UntidyLineReads(cells: seq<Cell>, row: CsvRow)
    requires CellsOf(cells, row) && !Blank(row.category) && !Blank(row.name)
    ensures RowOfLine(PrintCells(cells)) == Some(TrimmedRow(row))
  {
    var line := PrintCells(cells);
    var cols := Fields(line);
    LineIsItsColumns(line);
    CellsReadBack(cells);
    SerialRoundTrip(row.serialNo);
    TypeRoundTrip(row.rowType);
    StripFixed(PrintType(row.rowType), IsSpace);
    SameTrimmedSerial(cols[0], PrintInt(row.serialNo));
    TrimNothing(row.category);
    TrimNothing(row.name);
    OptionalColumn(cells, row, cols, 5);
    OptionalColumn(cells, row, cols, 6);
    OptionalColumn(cells, row, cols, 7);
    assert Trim(cols[4]) == PrintType(row.rowType);
  }

  lemma OptionalColumn(cells: seq<Cell>, row: CsvRow, cols: seq<string>, k: nat)
    requires CellsOf(cells, row) && 5 <= k < 8 && |cols| == |cells|
    requires forall i :: 0 <= i < |cells| ==> Trim(cols[i]) == Trim(cells[i].field)
    ensures Column(cols, k) == Trim(RowFields(row)[k])
  {
    TrimNothing(RowFields(row)[k]);
  }

  /** A file of such lines reads as the rows with their fields trimmed, in order. */
  lemma UntidyFileReads(header: string, sheet: seq<seq<Cell>>, rows: seq<CsvRow>)
    requires |sheet| == |rows| && '\n' !in header
    requires forall i :: 0 <= i < |rows| ==>
               CellsOf(sheet[i], rows[i]) && !Blank(rows[i].category) && !Blank(rows[i].name) && '\n' !in PrintCells(sheet[i])
    ensures RowsOf(Join([header] + PrintSheet(sheet), '\n')) == TrimmedRows(rows)
  {
    var lines := [header] + PrintSheet(sheet);
    assert forall i :: 0 <= i < |lines| ==> '\n' !in lines[i];
    SplitJoined(lines);
    assert lines[1..] == PrintSheet(sheet);
    UntidyLinesRead(sheet, rows);
  }

  function PrintSheet(sheet: seq<seq<Cell>>): (lines: seq<string>)
    ensures |lines| == |sheet|
    ensures forall i :: 0 <= i < |sheet| ==> lines[i] == PrintCells(sheet[i])
  {
    seq(|sheet|, i requires 0 <= i < |sheet| => PrintCells(sheet[i]))
  }

  function TrimmedRows(rows: seq<CsvRow>): (trimmed: seq<CsvRow>)
    ensures |trimmed| == |rows|
    ensures forall i :: 0 <= i < |rows| ==> trimmed[i] == TrimmedRow(rows[i])
  {
    seq(|rows|, i requires 0 <= i < |rows| => TrimmedRow(rows[i]))
  }

  lemma UntidyLinesRead(sheet: seq<seq<Cell>>, rows: seq<CsvRow>)
    requires |sheet| == |rows|
    requires forall i :: 0 <= i < |rows| ==> CellsOf(sheet[i], rows[i]) && !Blank(rows[i].category) && !Blank(rows[i].name)
    ensures Accepted(PrintSheet(sheet)) == TrimmedRows(rows)
  {
    hide RowOfLine;
    hide TrimmedRow;
    hide PrintCells;
    hide CellsOf;
    hide Blank;
    forall i | 0 <= i < |rows|
      ensures RowOfLine(PrintSheet(sheet)[i]) == Some(TrimmedRows(rows)[i])
    {
      UntidyLineReads(sheet[i], rows[i]);
    }
    AllAccepted(PrintSheet(sheet), TrimmedRows(rows));
  }

  lemma AllAccepted(lines: seq<string>, rows: seq<CsvRow>)
    requires |lines| == |rows| && forall i :: 0 <= i < |lines| ==> RowOfLine(lines[i]) == Some(rows[i])
    ensures Accepted(lines) == rows
  {
    hide *;
    AcceptedUpTo(lines, rows, |lines|);
    assert lines[..|lines|] == lines && rows[..|rows|] == rows;
  }

  lemma {:induction false} AcceptedUpTo(lines: seq<string>, rows: seq<CsvRow>, m: nat)
    requires m <= |lines| == |rows| && forall i :: 0 <= i < |lines| ==> RowOfLine(lines[i]) == Some(rows[i])
    ensures Accepted(lines[..m]) == rows[..m]
    decreases m
  {
    hide RowOfLine;
    if m > 0 {
      hide Accepted;
      AcceptedUpTo(lines, rows, m - 1);
      AcceptedStep(lines[..m - 1], lines[m - 1], rows[m - 1]);
      assert lines[..m] == lines[..m - 1] + [lines[m - 1]];
      assert rows[..m] == rows[..m - 1] + [rows[m - 1]];
    }
  }

  // ---------- serial numbers ----------

  /**
   What a serial number reads as: after blanks and an optional sign, the digits up to the first
   character that is none; nothing counts as zero.
   */
  lemma SerialMeaning(blank: string, sign: string, digits: string, rest: string)
    requires Blank(blank) && (sign == [] || sign == ['-'] || sign == ['+'])
    requires forall i :: 0 <= i < |digits| ==> '0' <= digits[i] <= '9'
    requires rest != [] ==> !('0' <= rest[0] <= '9')
    requires sign == [] && digits == [] && rest != [] ==> !IsBlankChar(rest[0]) && rest[0] != '-' && rest[0] != '+'
    ensures var n: int := DecimalValue(digits);
            ParseSerial(blank + (sign + (digits + rest))) == if sign == ['-'] then -n else n
  {
    hide DecimalValue;
    StripLeftBlank(blank, sign + (digits + rest));
    DigitsThenRest(digits, rest);
    if sign == [] {
      assert sign + (digits + rest) == digits + rest;
      Unsigned(digits, rest);
    } else {
      Signed(sign[0], digits + rest);
    }
  }

  lemma Unsigned(digits: string, rest: string)
    requires forall i :: 0 <= i < |digits| ==> '0' <= digits[i] <= '9'
    requires digits == [] && rest != [] ==> !IsBlankChar(rest[0]) && rest[0] != '-' && rest[0] != '+'
    ensures var t := digits + rest;
            StripLeft(t, IsSpace) == t && (t != [] ==> t[0] != '-' && t[0] != '+')
  {
    if digits == [] {
      assert digits + rest == rest;
    } else {
      assert (digits + rest)[0] == digits[0];
    }
  }

  lemma Signed(sign: char, rest: string)
    requires sign == '-' || sign == '+'
    ensures var t := [sign] + rest;
            StripLeft(t, IsSpace) == t && t[0] == sign && t[1..] == rest
  {
  }

  lemma {:induction false} DigitsThenRest(digits: string, rest: string)
    requires forall i :: 0 <= i < |digits| ==> '0' <= digits[i] <= '9'
    requires rest != [] ==> !('0' <= rest[0] <= '9')
    ensures DigitPrefix(digits + rest) == digits
    decreases |digits|
  {
    if digits == [] {
      assert digits + rest == rest;
    } else {
      assert (digits + rest)[1..] == digits[1..] + rest;
      DigitsThenRest(digits[1..], rest);
    }
  }
}
