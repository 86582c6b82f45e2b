/** The CSV text formats of the dashboard: the writer behind the export
    buttons and the minimal parser of the data loader. Each turns the other's
    output back, as long as no row is blank and no cell holds a carriage
    return outside quotes. */
module Csv {
  import opened Text

  /** A table: rows of cells, already turned into text. */
  type Table = seq<seq<string>>

  /** `row.some(c => (c || "").trim() !== "")`: some cell is not blank. */
  predicate NonBlank(row: seq<string>)
  {
    exists k :: 0 <= k < |row| && !IsBlank(row[k])
  }

  /** `s.trim() === ""`, as a scan: every character is white space. */
  predicate AllSpace(s: string)
  {
    |s| == 0 || (IsSpace(s[0]) && AllSpace(s[1..]))
  }

  lemma {:induction false} AllSpaceIsBlank(s: string)
    ensures AllSpace(s) <==> IsBlank(s)
    decreases |s|
  {
    if |s| > 0 {
      AllSpaceIsBlank(s[1..]);
      assert forall k :: 1 <= k < |s| ==> s[1..][k - 1] == s[k];
    }
  }

  /** The scan of `some`, from the first cell on. */
  predicate SomeNonBlank(row: seq<string>)
  {
    |row| > 0 && (!AllSpace(row[0]) || SomeNonBlank(row[1..]))
  }

  lemma {:induction false} SomeNonBlankSpec(row: seq<string>)
    ensures SomeNonBlank(row) <==> NonBlank(row)
    decreases |row|
  {
    if |row| > 0 {
      SomeNonBlankSpec(row[1..]);
      AllSpaceIsBlank(row[0]);
      assert forall k :: 1 <= k < |row| ==> row[1..][k - 1] == row[k];
      if NonBlank(row) && AllSpace(row[0]) {
        var k :| 0 <= k < |row| && !IsBlank(row[k]);
        assert k > 0 && !IsBlank(row[1..][k - 1]);
      }
    }
  }

  /** `pushRow`: a row joins the table only if it is not blank. */
  function PushRow(rows: Table, row: seq<string>): (r: Table)
  {
    if SomeNonBlank(row) then rows + [row] else rows
  }

  /** The parser's state: the rows so far, the cells of the current row,
      the current cell and whether it is inside quotes. */
  datatype St = St(rows: Table, row: seq<string>, cell: string, inQ: bool)

  /** The state the parser starts in. */
  const Start := St([], [], "", false)

  /** How many characters the next step reads: two for a doubled quote
      inside quotes, one otherwise. */
  function Width(st: St, t: string): (n: nat)
    requires |t| > 0
    ensures 1 <= n <= |t|
  {
    if st.inQ && t[0] == '"' && |t| > 1 && t[1] == '"' then 2 else 1
  }

  /** One step of the loop of `parseCSV` at the front of `t`. */
  function Next(st: St, t: string): St
    requires |t| > 0
  {
    var ch := t[0];
    if st.inQ then
      if ch == '"' then
        if |t| > 1 && t[1] == '"' then st.(cell := st.cell + ['"'])
        else st.(inQ := false)
      else st.(cell := st.cell + [ch])
    else if ch == '"' then st.(inQ := true)
    else if ch == ',' then st.(row := st.row + [st.cell], cell := "")
    else if ch == '\n' then St(PushRow(st.rows, st.row + [st.cell]), [], "", false)
    else if ch == '\r' then st
    else st.(cell := st.cell + [ch])
  }

  /** The final `pushField(); pushRow()`. */
  function Finish(st: St): Table
  {
    PushRow(st.rows, st.row + [st.cell])
  }

  /** The parser from the front of `t` on. */
  function Run(st: St, t: string): Table
    decreases |t|
  {
    if |t| == 0 then Finish(st) else Run(Next(st, t), t[Width(st, t)..])
  }

  /** Every row the parser keeps has a cell that is not blank. */
  predicate AllNonBlank(rows: Table)
  {
    forall k :: 0 <= k < |rows| ==> NonBlank(rows[k])
  }

  /** A step keeps the rows so far and only adds rows that are not blank. */
  lemma NextKeepsNonBlank(st: St, t: string)
    requires |t| > 0 && AllNonBlank(st.rows)
    ensures AllNonBlank(Next(st, t).rows)
    ensures |Next(st, t).rows| >= |st.rows| && Next(st, t).rows[..|st.rows|] == st.rows
  {
    var r := st.row + [st.cell];
    if !st.inQ && t[0] == '\n' && SomeNonBlank(r) {
      SomeNonBlankSpec(r);
      assert Next(st, t).rows == st.rows + [r];
    } else {
      assert Next(st, t).rows == st.rows;
    }
  }

  lemma {:induction false} RunKeepsNonBlank(st: St, t: string)
    requires AllNonBlank(st.rows)
    ensures AllNonBlank(Run(st, t))
    ensures |Run(st, t)| >= |st.rows| && Run(st, t)[..|st.rows|] == st.rows
    decreases |t|
  {
    if |t| == 0 {
      SomeNonBlankSpec(st.row + [st.cell]);
    } else {
      var nx := Next(st, t);
      NextKeepsNonBlank(st, t);
      RunKeepsNonBlank(nx, t[Width(st, t)..]);
      assert Run(st, t)[..|nx.rows|][..|st.rows|] == Run(st, t)[..|st.rows|];
    }
  }

  /** `parseCSV` (app.js:1735-1769): splits the text into rows at line
      feeds and into cells at commas, outside double quotes; a doubled
      quote inside quotes stands for one quote, carriage returns outside
      quotes are dropped, and blank rows are left out. */
  function ParseCsv(text: string): (rows: Table)
    ensures AllNonBlank(rows)
  {
    RunKeepsNonBlank(Start, text);
    Run(Start, text)
  }

  /** The characters that make the writer quote a cell. */
  predicate NeedsQuotes(s: string)
  {
    '"' in s || ',' in s || '\n' in s
  }

  /** One cell of the export (app.js:1509-1511): quoted, with its quotes
      doubled, when it holds a quote, a comma or a line feed; as it is
      otherwise. */
  function EncodeCell(s: string): (e: string)
    ensures !NeedsQuotes(s) ==> e == s
    ensures NeedsQuotes(s) ==> |e| >= 2 && e[0] == '"' && e[|e| - 1] == '"'
  {
    if NeedsQuotes(s) then "\"" + ReplaceAll(s, '"', "\"\"") + "\"" else s
  }

  /** `cells.join(sep)`. */
  function Join(parts: seq<string>, sep: char): string
  {
    if |parts| == 0 then ""
    else if |parts| == 1 then parts[0]
    else Join(parts[..|parts| - 1], sep) + [sep] + parts[|parts| - 1]
  }

  /** The encoded cells of a row. */
  function EncodeCells(row: seq<string>): (es: seq<string>)
    ensures |es| == |row|
  {
    if |row| == 0 then [] else EncodeCells(row[..|row| - 1]) + [EncodeCell(row[|row| - 1])]
  }

  /** The encoded rows of a table. */
  function EncodeRows(rows: Table): (ls: seq<string>)
    ensures |ls| == |rows|
    ensures forall k :: 0 <= k < |rows| ==> ls[k] == Join(EncodeCells(rows[k]), ',')
  {
    if |rows| == 0 then [] else EncodeRows(rows[..|rows| - 1]) + [Join(EncodeCells(rows[|rows| - 1]), ',')]
  }

  /** The CSV text of `downloadCSV` (app.js:1507-1512): cells joined by
      commas, rows by line feeds, no line feed at the end. */
  function ExportCsv(rows: Table): (t: string)
    ensures |rows| == 0 ==> t == ""
    ensures |rows| == 1 ==> t == Join(EncodeCells(rows[0]), ',')
  {
    Join(EncodeRows(rows), '\n')
  }

  /** A join of at least two parts is the first part, the separator and the
      join of the rest. */
  lemma {:induction false} JoinFront(parts: seq<string>, sep: char)
    requires |parts| >= 2
    ensures Join(parts, sep) == parts[0] + [sep] + Join(parts[1..], sep)
    decreases |parts|
  {
    if |parts| > 2 {
      var front := parts[..|parts| - 1];
      JoinFront(front, sep);
      assert front[1..] == parts[1..][..|parts[1..]| - 1];
      assert parts[1..][|parts[1..]| - 1] == parts[|parts| - 1];
    } else {
      assert parts[1..] == [parts[1]];
    }
  }

  /** The export line by line: the first row's encoded cells joined by
      commas, then a line feed and the export of the other rows. */
  lemma ExportLines(rows: Table)
    requires |rows| >= 2
    ensures ExportCsv(rows) == Join(EncodeCells(rows[0]), ',') + "\n" + ExportCsv(rows[1..])
  {
    JoinFront(EncodeRows(rows), '\n');
    assert EncodeRows(rows)[1..] == EncodeRows(rows[1..]);
  }

  /** A cell the parser reads back unchanged: one with a carriage return
      survives only inside quotes. */
  predicate Exportable(s: string)
  {
    '\r' !in s || NeedsQuotes(s)
  }

  /** A table the export and the parser agree on: every row has a cell that
      is not blank, and every cell is exportable. */
  predicate RoundTrips(rows: Table)
  {
    forall k :: 0 <= k < |rows| ==> NonBlank(rows[k]) && forall j :: 0 <= j < |rows[k]| ==> Exportable(rows[k][j])
  }

  /** Every cell of a row is exportable, as a scan from the last cell. */
  predicate CellsExportable(row: seq<string>)
  {
    |row| == 0 || (CellsExportable(row[..|row| - 1]) && Exportable(row[|row| - 1]))
  }

  /** `RoundTrips`, as a scan from the last row. */
  predicate RowsRoundTrip(rows: Table)
  {
    |rows| == 0
    || (RowsRoundTrip(rows[..|rows| - 1]) && SomeNonBlank(rows[|rows| - 1]) && CellsExportable(rows[|rows| - 1]))
  }

  lemma {:induction false} CellsExportableAll(row: seq<string>)
    requires forall j :: 0 <= j < |row| ==> Exportable(row[j])
    ensures CellsExportable(row)
    decreases |row|
  {
    if |row| > 0 {
      CellsExportableAll(row[..|row| - 1]);
    }
  }

  lemma {:induction false} RoundTripsScan(rows: Table)
    requires RoundTrips(rows)
    ensures RowsRoundTrip(rows)
    decreases |rows|
  {
    if |rows| > 0 {
      var last := rows[|rows| - 1];
      assert RoundTrips(rows[..|rows| - 1]);
      RoundTripsScan(rows[..|rows| - 1]);
      SomeNonBlankSpec(last);
      CellsExportableAll(last);
    }
  }

  /** What may follow a cell in the export: nothing, a comma or a line feed. */
  predicate CellEnd(rest: string)
  {
    |rest| == 0 || rest[0] == ',' || rest[0] == '\n'
  }

  /** Extending a prefix by the next element gives the longer prefix. */
  lemma SnocPrefix<T>(front: seq<T>, s: seq<T>, k: nat)
    requires 0 < k <= |s|
    ensures front + s[..k - 1] + [s[k - 1]] == front + s[..k]
    ensures front + s[..k][..k - 1] + [s[..k][k - 1]] == front + s[..k]
  {
    assert s[..k] == s[..k - 1] + [s[k - 1]];
  }

  /** The export of a table is the export of all but its last row, a line
      feed and the last row. */
  lemma ExportSnoc(rows: Table, rest: string)
    requires |rows| >= 2
    ensures ExportCsv(rows) + rest
            == ExportCsv(rows[..|rows| - 1]) + (['\n'] + (Join(EncodeCells(rows[|rows| - 1]), ',') + rest))
  {
    var n := |rows|;
    assert EncodeRows(rows)[..n - 1] == EncodeRows(rows[..n - 1]);
    assert ExportCsv(rows) == ExportCsv(rows[..n - 1]) + ['\n'] + Join(EncodeCells(rows[n - 1]), ',');
  }

  /** The steps the export's text makes the parser take, one character
      (or one doubled quote) at a time. */
  lemma StepPlain(st: St, c: char, t: string)
    requires !st.inQ && c != '"' && c != ',' && c != '\n' && c != '\r'
    ensures Run(st, [c] + t) == Run(st.(cell := st.cell + [c]), t)
  {
    assert ([c] + t)[1..] == t;
  }

  lemma StepOpen(st: St, t: string)
    requires !st.inQ
    ensures Run(st, ['"'] + t) == Run(st.(inQ := true), t)
  {
    assert (['"'] + t)[1..] == t;
  }

  lemma StepComma(st: St, t: string)
    requires !st.inQ
    ensures Run(st, [','] + t) == Run(st.(row := st.row + [st.cell], cell := ""), t)
  {
    assert ([','] + t)[1..] == t;
  }

  lemma StepNewline(st: St, t: string)
    requires !st.inQ
    ensures Run(st, ['\n'] + t) == Run(St(PushRow(st.rows, st.row + [st.cell]), [], "", false), t)
  {
    assert (['\n'] + t)[1..] == t;
  }

  lemma StepQuotedChar(st: St, c: char, t: string)
    requires st.inQ && c != '"'
    ensures Run(st, [c] + t) == Run(st.(cell := st.cell + [c]), t)
  {
    assert ([c] + t)[1..] == t;
  }

  lemma StepDoubled(st: St, t: string)
    requires st.inQ
    ensures Run(st, "\"\"" + t) == Run(st.(cell := st.cell + ['"']), t)
  {
    assert ("\"\"" + t)[2..] == t;
  }

  lemma StepClose(st: St, t: string)
    requires st.inQ && (|t| == 0 || t[0] != '"')
    ensures Run(st, ['"'] + t) == Run(st.(inQ := false), t)
  {
    assert (['"'] + t)[1..] == t;
  }

  /** An unquoted cell is read character by character into the current cell. */
  lemma {:induction false} RunPlain(st: St, s: string, rest: string)
    requires !st.inQ
    requires '"' !in s && ',' !in s && '\n' !in s && '\r' !in s
    ensures Run(st, s + rest) == Run(st.(cell := st.cell + s), rest)
    decreases |s|
  {
    if |s| > 0 {
      assert s + rest == [s[0]] + (s[1..] + rest);
      StepPlain(st, s[0], s[1..] + rest);
      RunPlain(st.(cell := st.cell + [s[0]]), s[1..], rest);
      assert st.cell + [s[0]] + s[1..] == st.cell + s;
    } else {
      assert s + rest == rest;
      assert st.cell + s == st.cell;
    }
  }

  lemma ReplaceAllCons(c: char, t: string, x: char, rep: string)
    ensures ReplaceAll([c] + t, x, rep) == (if c == x then rep else [c]) + ReplaceAll(t, x, rep)
  {
    ReplaceAllAppend([c], t, x, rep);
    ReplaceAllOne(c, x, rep);
  }

  /** Inside quotes, the doubled form of the first character of `s` is read
      as that character. */
  lemma QuotedCharStep(st: St, s: string, rest: string)
    requires st.inQ && |s| > 0
    ensures Run(st, ReplaceAll(s, '"', "\"\"") + "\"" + rest)
            == Run(st.(cell := st.cell + [s[0]]), ReplaceAll(s[1..], '"', "\"\"") + "\"" + rest)
  {
    var q := "\"\"";
    var c := s[0];
    assert s == [c] + s[1..];
    ReplaceAllCons(c, s[1..], '"', q);
    var tail := ReplaceAll(s[1..], '"', q) + "\"" + rest;
    if c == '"' {
      assert ReplaceAll(s, '"', q) + "\"" + rest == q + tail;
      StepDoubled(st, tail);
    } else {
      assert ReplaceAll(s, '"', q) + "\"" + rest == [c] + tail;
      StepQuotedChar(st, c, tail);
    }
  }

  /** Inside quotes, the doubled text of `s` followed by a closing quote is
      read as `s`, and the quotes are closed. */
  lemma {:induction false} RunQuoted(st: St, s: string, rest: string)
    requires st.inQ
    requires |rest| == 0 || rest[0] != '"'
    ensures Run(st, ReplaceAll(s, '"', "\"\"") + "\"" + rest) == Run(st.(cell := st.cell + s, inQ := false), rest)
    decreases |s|
  {
    if |s| == 0 {
      QuotedEnd(st, rest);
    } else {
      var st1 := st.(cell := st.cell + [s[0]]);
      RunQuoted(st1, s[1..], rest);
      QuotedCharStep(st, s, rest);
      assert st1.cell + s[1..] == st.cell + s;
    }
  }

  /** Inside quotes, an empty body and the closing quote only close the
      quotes. */
  lemma QuotedEnd(st: St, rest: string)
    requires st.inQ
    requires |rest| == 0 || rest[0] != '"'
    ensures Run(st, ReplaceAll("", '"', "\"\"") + "\"" + rest) == Run(st.(cell := st.cell + "", inQ := false), rest)
  {
    assert ReplaceAll("", '"', "\"\"") + "\"" + rest == ['"'] + rest;
    StepClose(st, rest);
    assert st.cell + "" == st.cell;
  }

  /** An encoded cell is read back as the cell, outside quotes. */
  lemma RunCell(st: St, s: string, rest: string)
    requires !st.inQ && st.cell == ""
    requires Exportable(s) && CellEnd(rest)
    ensures Run(st, EncodeCell(s) + rest) == Run(st.(cell := s), rest)
  {
    if NeedsQuotes(s) {
      RunQuotedCell(st, s, rest);
    } else {
      RunPlain(st, s, rest);
      assert st.cell + s == s;
    }
  }

  /** A quoted cell: the opening quote, the doubled body, the closing quote. */
  lemma RunQuotedCell(st: St, s: string, rest: string)
    requires !st.inQ && st.cell == "" && NeedsQuotes(s) && CellEnd(rest)
    ensures Run(st, EncodeCell(s) + rest) == Run(st.(cell := s), rest)
  {
    var body := ReplaceAll(s, '"', "\"\"") + "\"" + rest;
    assert EncodeCell(s) + rest == ['"'] + body;
    StepOpen(st, body);
    QuotedBody(st, s, rest);
  }

  /** After the opening quote, the doubled body and the closing quote give
      the cell back. */
  lemma QuotedBody(st: St, s: string, rest: string)
    requires !st.inQ && st.cell == "" && CellEnd(rest)
    ensures Run(st.(inQ := true), ReplaceAll(s, '"', "\"\"") + "\"" + rest) == Run(st.(cell := s), rest)
  {
    var open := st.(inQ := true);
    RunQuoted(open, s, rest);
    assert open.(cell := open.cell + s, inQ := false) == st.(cell := s);
  }

  /** The encoded cells of a non-empty row, joined by commas, leave the
      parser with every cell but the last in the row and the last one as
      the current cell. */
  lemma {:induction false} RunRow(rows: Table, row: seq<string>, cells: seq<string>, rest: string)
    requires |cells| > 0 && CellEnd(rest)
    requires CellsExportable(cells)
    ensures Run(St(rows, row, "", false), Join(EncodeCells(cells), ',') + rest)
            == Run(St(rows, row + cells[..|cells| - 1], cells[|cells| - 1], false), rest)
    decreases |cells|
  {
    var n := |cells|;
    if n == 1 {
      assert Join(EncodeCells(cells), ',') == EncodeCell(cells[0]);
      RunCell(St(rows, row, "", false), cells[0], rest);
      assert row + cells[..0] == row;
    } else {
      var init := cells[..n - 1];
      var last := cells[n - 1];
      assert EncodeCells(cells)[..n - 1] == EncodeCells(init);
      var tail := [','] + (EncodeCell(last) + rest);
      assert Join(EncodeCells(cells), ',') + rest == Join(EncodeCells(init), ',') + tail;
      RunRow(rows, row, init, tail);
      var mid := St(rows, row + init[..n - 2], init[n - 2], false);
      StepComma(mid, EncodeCell(last) + rest);
      SnocPrefix(row, cells, n - 1);
      RunCell(St(rows, row + cells[..n - 1], "", false), last, rest);
    }
  }

  /** Pushing the last pending row, complete again, adds it to the table. */
  lemma PushPending(acc: Table, rows: Table, k: nat)
    requires 0 < k <= |rows| && SomeNonBlank(rows[k - 1])
    ensures var r := rows[k - 1];
      |r| > 0 && PushRow(acc + rows[..k - 1], r[..|r| - 1] + [r[|r| - 1]]) == acc + rows[..k]
  {
    var r := rows[k - 1];
    SnocPrefix([], r, |r|);
    assert [] + r[..|r| - 1] == r[..|r| - 1];
    assert r[..|r| - 1] + [r[|r| - 1]] == r;
    SnocPrefix(acc, rows, k);
  }

  /** The parser's state after the export of `rows` from a table `acc`:
      every row but the last in the table, the last row's cells but its
      last one in the row, and its last cell current. */
  function Pending(acc: Table, rows: Table): St
    requires |rows| > 0 && |rows[|rows| - 1]| > 0
  {
    var last := rows[|rows| - 1];
    St(acc + rows[..|rows| - 1], last[..|last| - 1], last[|last| - 1], false)
  }

  /** The export of a non-empty table leaves the parser with every row but
      the last in the table and the last row pending. */
  lemma {:induction false} RunTable(acc: Table, rows: Table, rest: string)
    requires |rows| > 0 && RowsRoundTrip(rows)
    requires |rest| == 0 || rest[0] == '\n'
    ensures |rows[|rows| - 1]| > 0
    ensures Run(St(acc, [], "", false), ExportCsv(rows) + rest) == Run(Pending(acc, rows), rest)
    decreases |rows|
  {
    var n := |rows|;
    var last := rows[n - 1];
    if n == 1 {
      assert ExportCsv(rows) == Join(EncodeCells(last), ',');
      RunRow(acc, [], last, rest);
      assert acc + rows[..0] == acc;
      assert [] + last[..|last| - 1] == last[..|last| - 1];
    } else {
      var init := rows[..n - 1];
      var tail := ['\n'] + (Join(EncodeCells(last), ',') + rest);
      RunTable(acc, init, tail);
      assert SomeNonBlank(init[n - 2]);
      RunTableSnoc(acc, rows, rest, tail);
    }
  }

  /** One more row: the line feed before it pushes the row before it. */
  lemma RunTableSnoc(acc: Table, rows: Table, rest: string, tail: string)
    requires |rows| >= 2 && |rows[|rows| - 2]| > 0 && SomeNonBlank(rows[|rows| - 2])
    requires |rows[|rows| - 1]| > 0 && CellsExportable(rows[|rows| - 1])
    requires |rest| == 0 || rest[0] == '\n'
    requires tail == ['\n'] + (Join(EncodeCells(rows[|rows| - 1]), ',') + rest)
    requires Run(St(acc, [], "", false), ExportCsv(rows[..|rows| - 1]) + tail) == Run(Pending(acc, rows[..|rows| - 1]), tail)
    ensures Run(St(acc, [], "", false), ExportCsv(rows) + rest) == Run(Pending(acc, rows), rest)
  {
    ExportSnoc(rows, rest);
    NewlineThenRow(acc, rows, rest, tail);
    RunChain(St(acc, [], "", false), ExportCsv(rows) + rest, ExportCsv(rows[..|rows| - 1]) + tail,
             Pending(acc, rows[..|rows| - 1]), tail, Pending(acc, rows), rest);
  }

  /** Two runs that meet in the middle. */
  lemma RunChain(st: St, x: string, y: string, mid: St, t: string, fin: St, rest: string)
    requires x == y && Run(st, y) == Run(mid, t) && Run(mid, t) == Run(fin, rest)
    ensures Run(st, x) == Run(fin, rest)
  {
  }

  /** From the second to last row pending, the line feed and the last row
      leave the last row pending. */
  lemma NewlineThenRow(acc: Table, rows: Table, rest: string, tail: string)
    requires |rows| >= 2 && |rows[|rows| - 2]| > 0 && SomeNonBlank(rows[|rows| - 2])
    requires |rows[|rows| - 1]| > 0 && CellsExportable(rows[|rows| - 1])
    requires |rest| == 0 || rest[0] == '\n'
    requires tail == ['\n'] + (Join(EncodeCells(rows[|rows| - 1]), ',') + rest)
    ensures Run(Pending(acc, rows[..|rows| - 1]), tail) == Run(Pending(acc, rows), rest)
  {
    var line := Join(EncodeCells(rows[|rows| - 1]), ',') + rest;
    NewlinePushes(acc, rows, line);
    RowPending(acc, rows, rest);
  }

  /** The line feed after the second to last row pushes it. */
  lemma NewlinePushes(acc: Table, rows: Table, line: string)
    requires |rows| >= 2 && |rows[|rows| - 2]| > 0 && SomeNonBlank(rows[|rows| - 2])
    ensures Run(Pending(acc, rows[..|rows| - 1]), ['\n'] + line) == Run(St(acc + rows[..|rows| - 1], [], "", false), line)
  {
    var n := |rows|;
    var prev := rows[n - 2];
    var mid := St(acc + rows[..n - 2], prev[..|prev| - 1], prev[|prev| - 1], false);
    assert rows[..n - 1][..n - 2] == rows[..n - 2] && rows[..n - 1][n - 2] == prev;
    assert Pending(acc, rows[..n - 1]) == mid;
    StepNewline(mid, line);
    PushPending(acc, rows, n - 1);
  }

  /** The last row, from an empty row, leaves it pending. */
  lemma RowPending(acc: Table, rows: Table, rest: string)
    requires |rows| > 0 && |rows[|rows| - 1]| > 0 && CellsExportable(rows[|rows| - 1])
    requires |rest| == 0 || rest[0] == '\n'
    ensures Run(St(acc + rows[..|rows| - 1], [], "", false), Join(EncodeCells(rows[|rows| - 1]), ',') + rest)
            == Run(Pending(acc, rows), rest)
  {
    var last := rows[|rows| - 1];
    var front := acc + rows[..|rows| - 1];
    RowFromEmpty(front, last, rest);
    assert Pending(acc, rows) == St(front, last[..|last| - 1], last[|last| - 1], false);
  }

  /** `RunRow` from an empty row. */
  lemma RowFromEmpty(front: Table, cells: seq<string>, rest: string)
    requires |cells| > 0 && CellsExportable(cells)
    requires |rest| == 0 || rest[0] == '\n'
    ensures Run(St(front, [], "", false), Join(EncodeCells(cells), ',') + rest)
            == Run(St(front, cells[..|cells| - 1], cells[|cells| - 1], false), rest)
  {
    var n := |cells|;
    RunRow(front, [], cells, rest);
    assert [] + cells[..n - 1] == cells[..n - 1];
    assert St(front, [] + cells[..n - 1], cells[n - 1], false) == St(front, cells[..n - 1], cells[n - 1], false);
  }

  /** The parser's end on the pending last row of a table gives the table. */
  lemma FinishTable(rows: Table)
    requires |rows| > 0 && SomeNonBlank(rows[|rows| - 1])
    ensures |rows[|rows| - 1]| > 0 && Run(Pending([], rows), "") == rows
  {
    PushPending([], rows, |rows|);
    assert [] + rows[..|rows| - 1] == rows[..|rows| - 1];
    assert rows[..|rows|] == rows;
  }

  /** Parsing an export gives the table back, whenever every row has a cell
      that is not blank and no cell has a carriage return outside quotes. */
  lemma ExportRoundTrip(rows: Table)
    requires RoundTrips(rows)
    ensures ParseCsv(ExportCsv(rows)) == rows
  {
    if |rows| == 0 {
      assert ExportCsv(rows) == "";
      assert !NonBlank([""]) by {
        assert Trim("") == "";
      }
      assert [] + [""] == [""];
      assert Run(Start, "") == PushRow([], [] + [""]);
      assert !SomeNonBlank([""]);
    } else {
      RoundTripsScan(rows);
      RunTable([], rows, "");
      assert ExportCsv(rows) + "" == ExportCsv(rows);
      assert [] + rows[..|rows| - 1] == rows[..|rows| - 1];
      FinishTable(rows);
    }
  }

  /** Blank rows are the ones the parser drops: text of white space and
      commas alone gives no rows. */
  lemma {:induction false} BlankTextNoRows(st: St, t: string)
    requires st.rows == [] && !st.inQ
    requires forall k :: 0 <= k < |t| ==> (IsSpace(t[k]) || t[k] == ',') && t[k] != '"'
    requires forall k :: 0 <= k < |st.row| ==> IsBlank(st.row[k])
    requires forall k :: 0 <= k < |st.cell| ==> IsSpace(st.cell[k])
    ensures Run(st, t) == []
    decreases |t|
  {
    if |t| == 0 {
      BlankPushed(st);
    } else {
      NextStaysBlank(st, t);
      BlankTextNoRows(Next(st, t), t[1..]);
    }
  }

  /** A row of blank cells and a blank current cell are not pushed. */
  lemma BlankPushed(st: St)
    requires forall k :: 0 <= k < |st.row| ==> IsBlank(st.row[k])
    requires forall k :: 0 <= k < |st.cell| ==> IsSpace(st.cell[k])
    ensures PushRow(st.rows, st.row + [st.cell]) == st.rows
  {
    assert forall k :: 0 <= k < |st.row + [st.cell]| ==> IsBlank((st.row + [st.cell])[k]);
    SomeNonBlankSpec(st.row + [st.cell]);
  }

  /** White space or a comma, read outside quotes with no rows, keeps the
      row and the cell blank and the table empty. */
  lemma NextStaysBlank(st: St, t: string)
    requires |t| > 0 && st.rows == [] && !st.inQ
    requires (IsSpace(t[0]) || t[0] == ',') && t[0] != '"'
    requires forall k :: 0 <= k < |st.row| ==> IsBlank(st.row[k])
    requires forall k :: 0 <= k < |st.cell| ==> IsSpace(st.cell[k])
    ensures Width(st, t) == 1
    ensures var nx := Next(st, t);
      && nx.rows == [] && !nx.inQ
      && (forall k :: 0 <= k < |nx.row| ==> IsBlank(nx.row[k]))
      && (forall k :: 0 <= k < |nx.cell| ==> IsSpace(nx.cell[k]))
  {
    if t[0] == '\n' {
      BlankPushed(st);
    } else if t[0] == ',' {
      AllSpaceIsBlank(st.cell);
    }
  }
}
