/**
 * What the tokenizer of src/utils/csv.ts recovers from text written in the
 * usual comma-separated form: cells separated by `,`, lines by `\n` or
 * `\r\n`, and cells either written plainly (no quote, comma or line-break
 * character) or enclosed in quotes with every inner quote doubled, as
 * section 2 of RFC 4180 describes.
 */
module CsvRoundTrip {
  import opened Wrappers
  import opened JsText
  import opened Csv

  /** One cell as a writer puts it into the text. */
  datatype Cell = Plain(text: string) | Quoted(text: string)

  /** A plain cell may hold no quote, comma, carriage return or line feed. */
  predicate PlainSafe(t: string)
  {
    forall k :: 0 <= k < |t| ==> t[k] != '"' && t[k] != ',' && t[k] != '\n' && t[k] != '\r'
  }

  predicate CellOk(c: Cell)
  {
    c.Plain? ==> PlainSafe(c.text)
  }

  predicate GridOk(g: seq<seq<Cell>>)
  {
    forall i, j :: 0 <= i < |g| && 0 <= j < |g[i]| ==> CellOk(g[i][j])
  }

  /** Doubles every quote character. */
  function Escape(t: string): string
  {
    if t == [] then [] else (if t[0] == '"' then "\"\"" else [t[0]]) + Escape(t[1..])
  }

  function EncodeCell(c: Cell): string
  {
    match c
    case Plain(t) => t
    case Quoted(t) => "\"" + Escape(t) + "\""
  }

  function EncodeRow(r: seq<Cell>): string
  {
    if r == [] then ""
    else if |r| == 1 then EncodeCell(r[0])
    else EncodeCell(r[0]) + "," + EncodeRow(r[1..])
  }

  function LineBreak(crlf: bool): string
  {
    if crlf then "\r\n" else "\n"
  }

  /** The lines of a grid joined by line breaks, with no line break after the last one. */
  function EncodeLines(g: seq<seq<Cell>>, crlf: bool): string
  {
    if g == [] then ""
    else if |g| == 1 then EncodeRow(g[0])
    else EncodeRow(g[0]) + LineBreak(crlf) + EncodeLines(g[1..], crlf)
  }

  /** The trimmed texts of a row's cells. */
  function Cells(r: seq<Cell>): (cells: seq<string>)
    ensures |cells| == |r|
  {
    if r == [] then [] else [Trim(r[0].text)] + Cells(r[1..])
  }

  lemma CellsAppend(a: seq<Cell>, b: seq<Cell>)
    ensures Cells(a + b) == Cells(a) + Cells(b)
  {
    if a != [] {
      assert (a + b)[1..] == a[1..] + b;
      CellsAppend(a[1..], b);
    } else {
      assert a + b == b;
    }
  }

  /** The rows the tokenizer is expected to give back: trimmed cells, blank rows dropped. */
  function Decoded(g: seq<seq<Cell>>): seq<seq<string>>
  {
    if g == [] then [] else (if NonBlank(Cells(g[0])) then [Cells(g[0])] else []) + Decoded(g[1..])
  }

  /** The state after every cell of `r` but the last has been closed and the last is pending. */
  function Pending(st: ScanState, r: seq<Cell>): ScanState
  {
    if r == [] then st else st.(row := st.row + Cells(r[..|r| - 1]), field := r[|r| - 1].text)
  }

  /** The state just before the line break after the last line of `g`. */
  function LinesPending(g: seq<seq<Cell>>, rows: seq<seq<string>>): ScanState
  {
    if g == [] then LineStart(rows) else Pending(LineStart(rows + Decoded(g[..|g| - 1])), g[|g| - 1])
  }

  /** A text that starts a new cell, a new line or ends the input. */
  predicate Boundary(rest: string)
  {
    rest == [] || rest[0] == ',' || rest[0] == '\n' || rest[0] == '\r'
  }

  /** A text that starts a new line or ends the input. */
  predicate LineBoundary(rest: string)
  {
    rest == [] || rest[0] == '\n' || rest[0] == '\r'
  }

  /** The end of the text flushes the pending row exactly as a line break would. */
  lemma FinishFlushesLikeLineBreak(st: ScanState)
    ensures Finish(st).rows == EndRow(st).rows
  {
    if st.field == "" && st.row == [] {
      assert EndRow(st).rows == st.rows by {
        assert Trim("") == "";
        assert !NonBlank([Trim(st.field)]);
      }
    }
  }

  /** Outside quotes, plain text is appended to the current field unchanged. */
  lemma {:induction false} PlainScan(t: string, rest: string, st: ScanState)
    requires !st.insideQuotes && PlainSafe(t)
    ensures Scan(t + rest, st) == Scan(rest, st.(field := st.field + t))
    decreases |t|
  {
    if t != [] {
      var s := t + rest;
      assert s[0] == t[0];
      assert s[1..] == t[1..] + rest;
      assert Step(s[0], Lookahead(s), st) == (st.(field := st.field + [t[0]]), 1);
      assert Scan(s, st) == Scan(s[1..], st.(field := st.field + [t[0]]));
      PlainScan(t[1..], rest, st.(field := st.field + [t[0]]));
      assert st.field + [t[0]] + t[1..] == st.field + t;
    } else {
      assert t + rest == rest && st.field + t == st.field;
    }
  }

  /**
   * Inside quotes, an escaped text followed by the closing quote and a
   * delimiter (or the end) adds the text itself to the field: a doubled
   * quote gives one quote, and commas and line breaks stay in the field.
   */
  lemma {:induction false} QuotedScan(t: string, rest: string, st: ScanState)
    requires st.insideQuotes && Boundary(rest)
    ensures Scan(Escape(t) + "\"" + rest, st) == Scan(rest, st.(field := st.field + t, insideQuotes := false))
    decreases |t|
  {
    if t == [] {
      ClosingQuoteScan(rest, st);
    } else if t[0] == '"' {
      var st' := st.(field := st.field + ['"']);
      QuotedScan(t[1..], rest, st');
      EscapedQuoteScan(t, rest, st);
    } else {
      var st' := st.(field := st.field + [t[0]]);
      QuotedScan(t[1..], rest, st');
      QuotedCharScan(t, rest, st);
    }
  }

  /** The closing quote before a delimiter (or the end) leaves quoted mode. */
  lemma ClosingQuoteScan(rest: string, st: ScanState)
    requires st.insideQuotes && Boundary(rest)
    ensures Scan(Escape([]) + "\"" + rest, st) == Scan(rest, st.(field := st.field + [], insideQuotes := false))
  {
    var s := Escape([]) + "\"" + rest;
    assert s == ['"'] + rest;
    assert s[1..] == rest;
    assert Lookahead(s) == if rest == [] then None else Some(rest[0]);
    assert Step(s[0], Lookahead(s), st) == (st.(insideQuotes := false), 1);
    assert st.field + [] == st.field;
  }

  lemma EscapedQuoteText(t: string, rest: string)
    requires t != [] && t[0] == '"'
    ensures var s := Escape(t) + "\"" + rest;
      s[0] == '"' && Lookahead(s) == Some('"') && s[2..] == Escape(t[1..]) + "\"" + rest
  {
    var s := Escape(t) + "\"" + rest;
    assert s == "\"\"" + (Escape(t[1..]) + "\"" + rest);
  }

  /** Inside quotes, a doubled quote adds one quote to the field. */
  lemma EscapedQuoteScan(t: string, rest: string, st: ScanState)
    requires st.insideQuotes && t != [] && t[0] == '"'
    requires Scan(Escape(t[1..]) + "\"" + rest, st.(field := st.field + ['"']))
          == Scan(rest, st.(field := st.field + ['"'] + t[1..], insideQuotes := false))
    ensures Scan(Escape(t) + "\"" + rest, st) == Scan(rest, st.(field := st.field + t, insideQuotes := false))
  {
    var s := Escape(t) + "\"" + rest;
    var st' := st.(field := st.field + ['"']);
    EscapedQuoteText(t, rest);
    assert Step(s[0], Lookahead(s), st) == (st', 2);
    assert Scan(s, st) == Scan(s[2..], st');
    FieldCons(st.field, t);
  }

  lemma QuotedCharText(t: string, rest: string)
    requires t != [] && t[0] != '"'
    ensures var s := Escape(t) + "\"" + rest;
      s[0] == t[0] && s[1..] == Escape(t[1..]) + "\"" + rest
  {
    var s := Escape(t) + "\"" + rest;
    assert s == [t[0]] + (Escape(t[1..]) + "\"" + rest);
  }

  /** Inside quotes, any other character is added to the field. */
  lemma QuotedCharScan(t: string, rest: string, st: ScanState)
    requires st.insideQuotes && t != [] && t[0] != '"'
    requires Scan(Escape(t[1..]) + "\"" + rest, st.(field := st.field + [t[0]]))
          == Scan(rest, st.(field := st.field + [t[0]] + t[1..], insideQuotes := false))
    ensures Scan(Escape(t) + "\"" + rest, st) == Scan(rest, st.(field := st.field + t, insideQuotes := false))
  {
    var s := Escape(t) + "\"" + rest;
    var st' := st.(field := st.field + [t[0]]);
    QuotedCharText(t, rest);
    assert Step(s[0], Lookahead(s), st) == (st', 1);
    assert Scan(s, st) == Scan(s[1..], st');
    FieldCons(st.field, t);
  }

  lemma FieldCons(f: string, t: string)
    requires t != []
    ensures f + [t[0]] + t[1..] == f + t
  {
  }

  /** A written cell followed by a delimiter (or the end) is read back as its text. */
  lemma CellScan(c: Cell, rest: string, st: ScanState)
    requires !st.insideQuotes && CellOk(c) && Boundary(rest)
    ensures Scan(EncodeCell(c) + rest, st) == Scan(rest, st.(field := st.field + c.text))
  {
    match c
    case Plain(t) =>
      PlainScan(t, rest, st);
    case Quoted(t) =>
      var s := EncodeCell(c) + rest;
      assert s == ['"'] + (Escape(t) + "\"" + rest);
      assert s[1..] == Escape(t) + "\"" + rest;
      QuotedScan(t, rest, st.(insideQuotes := true));
  }

  /** Outside quotes, a comma closes the current field. */
  lemma CommaScan(tail: string, st: ScanState)
    requires !st.insideQuotes
    ensures Scan("," + tail, st) == Scan(tail, st.(row := st.row + [Trim(st.field)], field := ""))
  {
    var s := "," + tail;
    assert s[0] == ',' && s[1..] == tail;
    assert Step(s[0], Lookahead(s), st) == (st.(row := st.row + [Trim(st.field)], field := ""), 1);
  }

  /** Outside quotes, a line break closes the current row. */
  lemma LineBreakScan(crlf: bool, tail: string, st: ScanState)
    requires !st.insideQuotes
    ensures Scan(LineBreak(crlf) + tail, st) == Scan(tail, EndRow(st))
  {
    var s := LineBreak(crlf) + tail;
    if crlf {
      assert s[0] == '\r' && Lookahead(s) == Some('\n') && s[2..] == tail;
      assert Step(s[0], Lookahead(s), st) == (EndRow(st), 2);
    } else {
      assert s[0] == '\n' && s[1..] == tail;
      assert Step(s[0], Lookahead(s), st) == (EndRow(st), 1);
    }
  }

  lemma DecodedSingle(r: seq<Cell>)
    ensures Decoded([r]) == if NonBlank(Cells(r)) then [Cells(r)] else []
  {
    assert [r][0] == r;
    assert [r][1..] == [];
  }

  /** A written row followed by a line break (or the end) leaves its cells closed and its last cell pending. */
  lemma {:induction false} RowScan(r: seq<Cell>, rest: string, st: ScanState)
    requires !st.insideQuotes && st.field == "" && LineBoundary(rest)
    requires forall j :: 0 <= j < |r| ==> CellOk(r[j])
    ensures Scan(EncodeRow(r) + rest, st) == Scan(rest, Pending(st, r))
    decreases |r|
  {
    if r == [] {
      assert EncodeRow(r) + rest == rest;
      assert Pending(st, r) == st;
    } else if |r| == 1 {
      LastCellScan(r, rest, st);
    } else {
      var st2 := st.(row := st.row + [Trim(r[0].text)], field := "");
      RowScan(r[1..], rest, st2);
      FirstCellScan(r, rest, st);
    }
  }

  lemma LastCellScan(r: seq<Cell>, rest: string, st: ScanState)
    requires !st.insideQuotes && st.field == "" && LineBoundary(rest)
    requires |r| == 1 && CellOk(r[0])
    ensures Scan(EncodeRow(r) + rest, st) == Scan(rest, Pending(st, r))
  {
    assert EncodeRow(r) == EncodeCell(r[0]);
    CellScan(r[0], rest, st);
    assert st.field + r[0].text == r[0].text;
    assert r[..0] == [] && st.row + Cells(r[..0]) == st.row;
    assert Pending(st, r) == st.(field := st.field + r[0].text);
  }

  lemma EncodeRowCons(r: seq<Cell>, rest: string)
    requires |r| >= 2
    ensures EncodeRow(r) + rest == EncodeCell(r[0]) + ("," + (EncodeRow(r[1..]) + rest))
  {
  }

  lemma FirstCellToComma(r: seq<Cell>, rest: string, st: ScanState)
    requires !st.insideQuotes && st.field == "" && |r| >= 2 && CellOk(r[0])
    ensures Scan(EncodeRow(r) + rest, st) == Scan("," + (EncodeRow(r[1..]) + rest), st.(field := r[0].text))
  {
    EncodeRowCons(r, rest);
    CellScan(r[0], "," + (EncodeRow(r[1..]) + rest), st);
    assert st.field + r[0].text == r[0].text;
  }

  /** The first cell of a row with at least two cells is closed by the comma after it. */
  lemma FirstCellScan(r: seq<Cell>, rest: string, st: ScanState)
    requires !st.insideQuotes && st.field == "" && |r| >= 2 && CellOk(r[0])
    requires Scan(EncodeRow(r[1..]) + rest, st.(row := st.row + [Trim(r[0].text)], field := ""))
          == Scan(rest, Pending(st.(row := st.row + [Trim(r[0].text)], field := ""), r[1..]))
    ensures Scan(EncodeRow(r) + rest, st) == Scan(rest, Pending(st, r))
  {
    var st1 := st.(field := r[0].text);
    var st2 := st.(row := st.row + [Trim(r[0].text)], field := "");
    FirstCellToComma(r, rest, st);
    CommaScan(EncodeRow(r[1..]) + rest, st1);
    PendingCons(r, st, st2);
  }

  lemma PendingCons(r: seq<Cell>, st: ScanState, st2: ScanState)
    requires |r| >= 2 && st2 == st.(row := st.row + [Trim(r[0].text)], field := "")
    ensures Pending(st2, r[1..]) == Pending(st, r)
  {
    var init := r[..|r| - 1];
    assert init[0] == r[0] && init[1..] == r[1..][..|r[1..]| - 1];
    assert Cells(init) == [Trim(r[0].text)] + Cells(r[1..][..|r[1..]| - 1]);
    assert st2.row + Cells(r[1..][..|r[1..]| - 1]) == st.row + Cells(init);
  }

  /** Closing the pending row of `r` emits its trimmed cells unless they are all empty. */
  lemma EndPendingRow(rows: seq<seq<string>>, r: seq<Cell>)
    ensures EndRow(Pending(LineStart(rows), r)) == LineStart(rows + Decoded([r]))
  {
    DecodedSingle(r);
    if r == [] {
      EndEmptyRow(rows);
      assert Pending(LineStart(rows), r) == LineStart(rows);
    } else {
      var p := Pending(LineStart(rows), r);
      assert p.row == Cells(r[..|r| - 1]);
      PendingRowCells(r);
      assert p.row + [Trim(p.field)] == Cells(r);
    }
  }

  /** A one-cell row is blank exactly when its cell is empty. */
  lemma NonBlankSingle(x: string)
    ensures NonBlank([x]) <==> x != ""
  {
    if x != "" {
      assert [x][0] != "";
    }
  }

  /** A line with nothing on it is a blank line: no row. */
  lemma EndEmptyRow(rows: seq<seq<string>>)
    ensures EndRow(LineStart(rows)) == LineStart(rows)
  {
    assert Trim("") == "";
    assert !NonBlank([Trim("")]);
  }

  lemma PendingRowCells(r: seq<Cell>)
    requires r != []
    ensures Cells(r[..|r| - 1]) + [Trim(r[|r| - 1].text)] == Cells(r)
  {
    var init := r[..|r| - 1];
    assert r == init + [r[|r| - 1]];
    CellsAppend(init, [r[|r| - 1]]);
    assert Cells([r[|r| - 1]]) == [Trim(r[|r| - 1].text)];
  }

  lemma DecodedAppend(g: seq<seq<Cell>>, h: seq<seq<Cell>>)
    ensures Decoded(g + h) == Decoded(g) + Decoded(h)
  {
    if g != [] {
      assert (g + h)[1..] == g[1..] + h;
      DecodedAppend(g[1..], h);
    } else {
      assert g + h == h;
    }
  }

  /** A written grid followed by a line break (or the end) leaves every line but the last emitted and the last one pending. */
  lemma {:induction false} LinesScan(g: seq<seq<Cell>>, crlf: bool, rest: string, rows: seq<seq<string>>)
    requires GridOk(g) && LineBoundary(rest)
    ensures Scan(EncodeLines(g, crlf) + rest, LineStart(rows)) == Scan(rest, LinesPending(g, rows))
    decreases |g|
  {
    if g == [] {
      assert EncodeLines(g, crlf) + rest == rest;
    } else if |g| == 1 {
      LastLineScan(g, crlf, rest, rows);
    } else {
      LinesScan(g[1..], crlf, rest, rows + Decoded([g[0]]));
      FirstLineScan(g, crlf, rest, rows);
    }
  }

  lemma LastLineScan(g: seq<seq<Cell>>, crlf: bool, rest: string, rows: seq<seq<string>>)
    requires GridOk(g) && LineBoundary(rest) && |g| == 1
    ensures Scan(EncodeLines(g, crlf) + rest, LineStart(rows)) == Scan(rest, LinesPending(g, rows))
  {
    assert EncodeLines(g, crlf) == EncodeRow(g[0]);
    RowScan(g[0], rest, LineStart(rows));
    assert g[..0] == [];
    assert rows + Decoded(g[..0]) == rows;
  }

  lemma EncodeLinesCons(g: seq<seq<Cell>>, crlf: bool, rest: string)
    requires |g| >= 2
    ensures EncodeLines(g, crlf) + rest == EncodeRow(g[0]) + (LineBreak(crlf) + (EncodeLines(g[1..], crlf) + rest))
  {
  }

  lemma FirstLineToBreak(g: seq<seq<Cell>>, crlf: bool, rest: string, rows: seq<seq<string>>)
    requires GridOk(g) && |g| >= 2
    ensures Scan(EncodeLines(g, crlf) + rest, LineStart(rows))
         == Scan(LineBreak(crlf) + (EncodeLines(g[1..], crlf) + rest), Pending(LineStart(rows), g[0]))
  {
    EncodeLinesCons(g, crlf, rest);
    var lb := LineBreak(crlf);
    assert LineBoundary(lb + (EncodeLines(g[1..], crlf) + rest));
    RowScan(g[0], lb + (EncodeLines(g[1..], crlf) + rest), LineStart(rows));
  }

  /** The first line of a grid with at least two lines is emitted by the line break after it. */
  lemma FirstLineScan(g: seq<seq<Cell>>, crlf: bool, rest: string, rows: seq<seq<string>>)
    requires GridOk(g) && |g| >= 2
    requires Scan(EncodeLines(g[1..], crlf) + rest, LineStart(rows + Decoded([g[0]])))
          == Scan(rest, LinesPending(g[1..], rows + Decoded([g[0]])))
    ensures Scan(EncodeLines(g, crlf) + rest, LineStart(rows)) == Scan(rest, LinesPending(g, rows))
  {
    var p := Pending(LineStart(rows), g[0]);
    FirstLineToBreak(g, crlf, rest, rows);
    LineBreakScan(crlf, EncodeLines(g[1..], crlf) + rest, p);
    EndPendingRow(rows, g[0]);
    LinesPendingCons(g, rows);
  }

  lemma LinesPendingCons(g: seq<seq<Cell>>, rows: seq<seq<string>>)
    requires |g| >= 2
    ensures LinesPending(g[1..], rows + Decoded([g[0]])) == LinesPending(g, rows)
  {
    assert g[..|g| - 1] == [g[0]] + g[1..][..|g[1..]| - 1];
    DecodedAppend([g[0]], g[1..][..|g[1..]| - 1]);
  }

  lemma EndLinesPending(g: seq<seq<Cell>>, rows: seq<seq<string>>)
    ensures EndRow(LinesPending(g, rows)) == LineStart(rows + Decoded(g))
    ensures !LinesPending(g, rows).insideQuotes
  {
    if g == [] {
      EndEmptyRow(rows);
      assert rows + [] == rows;
    } else {
      EndLastLine(g, rows);
    }
  }

  lemma EndLastLine(g: seq<seq<Cell>>, rows: seq<seq<string>>)
    requires g != []
    ensures EndRow(LinesPending(g, rows)) == LineStart(rows + Decoded(g))
  {
    var before := rows + Decoded(g[..|g| - 1]);
    EndPendingRow(before, g[|g| - 1]);
    DecodedSnoc(g);
    assert before + Decoded([g[|g| - 1]]) == rows + Decoded(g);
  }

  lemma DecodedSnoc(g: seq<seq<Cell>>)
    requires g != []
    ensures Decoded(g[..|g| - 1]) + Decoded([g[|g| - 1]]) == Decoded(g)
  {
    var init := g[..|g| - 1];
    assert g == init + [g[|g| - 1]];
    DecodedAppend(init, [g[|g| - 1]]);
  }

  /**
   * Round trip: tokenizing a written grid gives back its cells trimmed, with
   * blank lines dropped and no error, for `\n` and `\r\n` line breaks alike.
   */
  lemma RoundTrip(g: seq<seq<Cell>>, crlf: bool)
    requires GridOk(g)
    ensures Tokenize(EncodeLines(g, crlf)) == ParseResult(Decoded(g), [])
  {
    LinesScan(g, crlf, [], []);
    assert EncodeLines(g, crlf) + [] == EncodeLines(g, crlf);
    var p := LinesPending(g, []);
    FinishFlushesLikeLineBreak(p);
    EndLinesPending(g, []);
  }

  /** A line break after the last line adds no row. */
  lemma TrailingLineBreak(g: seq<seq<Cell>>, crlf: bool)
    requires GridOk(g)
    ensures Tokenize(EncodeLines(g, crlf) + LineBreak(crlf)) == Tokenize(EncodeLines(g, crlf))
  {
    RoundTrip(g, crlf);
    LinesScan(g, crlf, LineBreak(crlf), []);
    var p := LinesPending(g, []);
    EndLinesPending(g, []);
    LineBreakScan(crlf, [], p);
    assert LineBreak(crlf) + [] == LineBreak(crlf);
    EndEmptyRow(Decoded(g));
  }

  /**
   * A quote that is never closed is reported, and everything before it is
   * still returned: the lines written before it, then the rest of the text as
   * one cell (line breaks and commas inside the open quote do not split it).
   */
  lemma UnclosedQuoteKeepsRows(g: seq<seq<Cell>>, crlf: bool, t: string)
    requires GridOk(g)
    requires forall k :: 0 <= k < |t| ==> t[k] != '"'
    ensures Tokenize(EncodeLines(g, crlf) + LineBreak(crlf) + "\"" + t)
         == ParseResult(Decoded(g) + (if Trim(t) == "" then [] else [[Trim(t)]]), [UnclosedQuoteMessage])
  {
    var open := LineStart(Decoded(g));
    LinesThenQuote(g, crlf, t);
    OpenQuoteScan(t, open);
    var last := open.(insideQuotes := true, field := t);
    assert open.field + t == t;
    FinishFlushesLikeLineBreak(last);
    NonBlankSingle(Trim(t));
    assert [] + [Trim(t)] == [Trim(t)];
  }

  lemma LinesThenQuote(g: seq<seq<Cell>>, crlf: bool, t: string)
    requires GridOk(g)
    ensures Scan(EncodeLines(g, crlf) + LineBreak(crlf) + "\"" + t, LineStart([]))
         == Scan("\"" + t, LineStart(Decoded(g)))
  {
    var lb := LineBreak(crlf);
    var q := "\"" + t;
    QuoteAfterBreak(EncodeLines(g, crlf), crlf, t);
    LinesScan(g, crlf, lb + q, []);
    var p := LinesPending(g, []);
    LineBreakScan(crlf, q, p);
    EndLinesPending(g, []);
    assert [] + Decoded(g) == Decoded(g);
  }

  lemma QuoteAfterBreak(e: string, crlf: bool, t: string)
    ensures e + LineBreak(crlf) + "\"" + t == e + (LineBreak(crlf) + ("\"" + t))
    ensures LineBoundary(LineBreak(crlf) + ("\"" + t))
  {
  }

  /** An opening quote followed by text without quotes leaves that text in the field, still inside quotes. */
  lemma OpenQuoteScan(t: string, st: ScanState)
    requires !st.insideQuotes
    requires forall k :: 0 <= k < |t| ==> t[k] != '"'
    ensures Scan("\"" + t, st) == st.(insideQuotes := true, field := st.field + t)
  {
    var s := "\"" + t;
    assert s[0] == '"' && s[1..] == t;
    assert Step(s[0], Lookahead(s), st) == (st.(insideQuotes := true), 1);
    QuotedContent(t, st.(insideQuotes := true));
  }

  /** Inside quotes, text without a quote character is taken into the field verbatim. */
  lemma {:induction false} QuotedContent(t: string, st: ScanState)
    requires st.insideQuotes
    requires forall k :: 0 <= k < |t| ==> t[k] != '"'
    ensures Scan(t, st) == st.(field := st.field + t)
    decreases |t|
  {
    if t != [] {
      QuotedContent(t[1..], st.(field := st.field + [t[0]]));
      assert st.field + [t[0]] + t[1..] == st.field + t;
    }
  }

  /**
   * Text with no quote, comma or line-break character is a single cell: its
   * trimmed self, or no row at all when that is empty.
   */
  lemma SingleCell(text: string)
    requires PlainSafe(text)
    ensures Tokenize(text) == ParseResult(if Trim(text) == "" then [] else [[Trim(text)]], [])
  {
    PlainScan(text, [], LineStart([]));
    assert text + [] == text;
    var st := LineStart([]).(field := text);
    assert LineStart([]).field + text == text;
    FinishFlushesLikeLineBreak(st);
    NonBlankSingle(Trim(text));
    assert [] + [Trim(text)] == [Trim(text)];
  }

  /** Without a quote character the scan never enters quoted mode, so no error is reported. */
  lemma NoQuoteNoError(text: string)
    requires forall k :: 0 <= k < |text| ==> text[k] != '"'
    ensures Tokenize(text).errors == []
  {
    NoQuoteStaysOutside(text, LineStart([]));
  }

  lemma {:induction false} NoQuoteStaysOutside(s: string, st: ScanState)
    requires !st.insideQuotes
    requires forall k :: 0 <= k < |s| ==> s[k] != '"'
    ensures !Scan(s, st).insideQuotes
    decreases |s|
  {
    if s != [] {
      var (st', n) := Step(s[0], Lookahead(s), st);
      NoQuoteStaysOutside(s[n..], st');
    }
  }

  /** `a,"b,c",d` is one row of three cells: the quoted comma does not split. */
  lemma QuotedCommaExample()
    ensures Tokenize("a,\"b,c\",d") == ParseResult([["a", "b,c", "d"]], [])
  {
    var g := [[Plain("a"), Quoted("b,c"), Plain("d")]];
    ThreeCellLine(Plain("a"), Quoted("b,c"), Plain("d"));
    CommaSampleText();
    RoundTrip(g, false);
  }

  lemma CommaSampleText()
    ensures EncodeCell(Plain("a")) + "," + EncodeCell(Quoted("b,c")) + "," + EncodeCell(Plain("d"))
         == "a,\"b,c\",d"
  {
    CommaSample();
    var quoted := "\"" + "b,c" + "\"";
    assert quoted == "\"b,c\"";
    assert "a" + "," + quoted + "," + "d" == "a,\"b,c\",d";
  }

  lemma CommaSample()
    ensures Escape("b,c") == "b,c"
  {
    assert Escape("c") == "c" by { assert "c"[1..] == []; }
    assert Escape(",c") == ",c" by { assert ",c"[1..] == "c"; }
    assert "b,c"[1..] == ",c";
  }

  /** `x,"a""b",y` is one row whose middle cell is `a"b`: a doubled quote inside quotes is one quote. */
  lemma EscapedQuoteExample()
    ensures Tokenize("x,\"a\"\"b\",y") == ParseResult([["x", "a\"b", "y"]], [])
  {
    var g := [[Plain("x"), Quoted("a\"b"), Plain("y")]];
    ThreeCellLine(Plain("x"), Quoted("a\"b"), Plain("y"));
    ExampleText();
    RoundTrip(g, false);
  }

  lemma ExampleText()
    ensures EncodeCell(Plain("x")) + "," + EncodeCell(Quoted("a\"b")) + "," + EncodeCell(Plain("y"))
         == "x,\"a\"\"b\",y"
  {
    EscapedSample();
    var quoted := "\"" + "a\"\"b" + "\"";
    assert quoted == "\"a\"\"b\"";
    assert "x" + "," + quoted + "," + "y" == "x,\"a\"\"b\",y";
  }

  lemma EscapedSample()
    ensures Escape("a\"b") == "a\"\"b"
  {
    assert Escape("b") == "b" by { assert "b"[1..] == []; }
    assert Escape("\"b") == "\"\"b" by { assert "\"b"[1..] == "b"; }
    assert "a\"b"[1..] == "\"b";
  }

  /** A one-line grid of three trimmed cells. */
  lemma ThreeCellLine(a: Cell, b: Cell, c: Cell)
    requires CellOk(a) && CellOk(b) && CellOk(c)
    requires IsTrimmed(a.text) && IsTrimmed(b.text) && IsTrimmed(c.text)
    requires a.text != ""
    ensures GridOk([[a, b, c]])
    ensures EncodeLines([[a, b, c]], false) == EncodeCell(a) + "," + EncodeCell(b) + "," + EncodeCell(c)
    ensures Decoded([[a, b, c]]) == [[a.text, b.text, c.text]]
  {
    ThreeCellEncode(a, b, c);
    ThreeCellCells(a, b, c);
    var r := [a, b, c];
    assert Cells(r)[0] != "";
    DecodedSingle(r);
  }

  lemma ThreeCellEncode(a: Cell, b: Cell, c: Cell)
    ensures EncodeLines([[a, b, c]], false) == EncodeCell(a) + "," + EncodeCell(b) + "," + EncodeCell(c)
  {
    var r := [a, b, c];
    assert r[1..] == [b, c] && [b, c][1..] == [c];
    assert EncodeRow([b, c]) == EncodeCell(b) + "," + EncodeCell(c);
  }

  lemma ThreeCellCells(a: Cell, b: Cell, c: Cell)
    requires IsTrimmed(a.text) && IsTrimmed(b.text) && IsTrimmed(c.text)
    ensures Cells([a, b, c]) == [a.text, b.text, c.text]
  {
    TrimTrimmed(a.text); TrimTrimmed(b.text); TrimTrimmed(c.text);
    TwoCells(b, c);
    assert [a, b, c][1..] == [b, c];
  }

  lemma TwoCells(b: Cell, c: Cell)
    ensures Cells([b, c]) == [Trim(b.text), Trim(c.text)]
  {
    assert [b, c][1..] == [c] && [c][1..] == [];
  }
}
