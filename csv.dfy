/**
 * The comma-separated-values tokenizer and the header helpers of the
 * vocabulary import (src/utils/csv.ts).
 *
 * The tokenizer is a two-state scanner (outside or inside quotes) with one
 * character of lookahead.  `Step` is one move of the scanner, `Scan` runs it
 * over the rest of the text and `Tokenize` flushes the last row and reports an
 * unclosed quote; the imperative `ParseCsv` is proved to compute `Tokenize`.
 */
module Csv {
  import opened Wrappers
  import opened JsText

  const UnclosedQuoteMessage := "Unclosed quote detected in CSV"

  /** What `parseCsv` returns. */
  datatype ParseResult = ParseResult(rows: seq<seq<string>>, errors: seq<string>)

  /**
   * The scanner's variables between two characters: the finished rows, the
   * cells of the current row, the current field and the quote mode.
   */
  datatype ScanState = ScanState(rows: seq<seq<string>>, row: seq<string>, field: string, insideQuotes: bool)

  /** The state at the start of a line outside quotes, with `rows` already emitted. */
  function LineStart(rows: seq<seq<string>>): ScanState
  {
    ScanState(rows, [], "", false)
  }

  /** A row with at least one non-empty cell; the others are blank lines. */
  predicate NonBlank(row: seq<string>)
  {
    exists k :: 0 <= k < |row| && row[k] != ""
  }

  /** Closes the current field and the current row; a blank row is dropped. */
  function EndRow(st: ScanState): ScanState
  {
    var row := st.row + [Trim(st.field)];
    ScanState(if NonBlank(row) then st.rows + [row] else st.rows, [], "", st.insideQuotes)
  }

  /**
   * One move of the scanner on character `c`, with `next` the character after
   * it (`None` at the end of the text).  The second component is the number of
   * characters consumed: 2 for an escaped quote `""` inside quotes and for a
   * `\r\n` line break, 1 otherwise.
   */
  function Step(c: char, next: Option<char>, st: ScanState): (r: (ScanState, nat))
    ensures r.1 == 1 || (r.1 == 2 && next.Some?)
  {
    if c == '"' then
      if st.insideQuotes && next == Some('"') then
        (st.(field := st.field + ['"']), 2)
      else if st.insideQuotes && (next == Some(',') || next == Some('\n') || next == Some('\r') || next == None) then
        (st.(insideQuotes := false), 1)
      else if !st.insideQuotes then
        (st.(insideQuotes := true), 1)
      else
        (st.(field := st.field + [c]), 1)
    else if c == ',' && !st.insideQuotes then
      (st.(row := st.row + [Trim(st.field)], field := ""), 1)
    else if (c == '\n' || (c == '\r' && next == Some('\n'))) && !st.insideQuotes then
      (EndRow(st), if c == '\r' then 2 else 1)
    else
      (st.(field := st.field + [c]), 1)
  }

  /** The character after the first one of `s`, if any. */
  function Lookahead(s: string): Option<char>
  {
    if |s| > 1 then Some(s[1]) else None
  }

  /** Runs the scanner from state `st` over the remaining text `s`. */
  function Scan(s: string, st: ScanState): ScanState
    decreases |s|
  {
    if s == [] then st
    else
      var (st', n) := Step(s[0], Lookahead(s), st);
      Scan(s[n..], st')
  }

  /**
   * The end of the text: a pending field or row is flushed as a line break
   * would flush it, and a scan that ends inside quotes reports one error.
   */
  function Finish(st: ScanState): ParseResult
  {
    var rows := if st.field != "" || st.row != [] then EndRow(st).rows else st.rows;
    ParseResult(rows, if st.insideQuotes then [UnclosedQuoteMessage] else [])
  }

  /** `Scan` at position `i` of `text` makes one move and continues after the characters it consumed. */
  lemma ScanAt(text: string, i: nat, st: ScanState)
    requires i < |text|
    ensures var (st', n) := Step(text[i], Lookahead(text[i..]), st);
      i + n <= |text| && Scan(text[i..], st) == Scan(text[i + n..], st')
  {
    var (st', n) := Step(text[i], Lookahead(text[i..]), st);
    assert text[i..][n..] == text[i + n..];
  }

  /** The specification of `parseCsv`. */
  function Tokenize(text: string): ParseResult
  {
    Finish(Scan(text, LineStart([])))
  }

  /** Every cell is trimmed and every row has a non-empty cell. */
  predicate WellFormed(rows: seq<seq<string>>)
  {
    forall k :: 0 <= k < |rows| ==> NonBlank(rows[k]) && AllTrimmed(rows[k])
  }

  predicate AllTrimmed(row: seq<string>)
  {
    forall k :: 0 <= k < |row| ==> IsTrimmed(row[k])
  }

  predicate StateOk(st: ScanState)
  {
    WellFormed(st.rows) && AllTrimmed(st.row)
  }

  lemma AppendCellKeepsTrimmed(row: seq<string>, cell: string)
    requires AllTrimmed(row) && IsTrimmed(cell)
    ensures AllTrimmed(row + [cell])
  {
    var row' := row + [cell];
    forall k | 0 <= k < |row'| ensures IsTrimmed(row'[k]) {
      if k < |row| { assert row'[k] == row[k]; }
    }
  }

  lemma AppendRowKeepsWellFormed(rows: seq<seq<string>>, row: seq<string>)
    requires WellFormed(rows) && NonBlank(row) && AllTrimmed(row)
    ensures WellFormed(rows + [row])
  {
    var rows' := rows + [row];
    forall k | 0 <= k < |rows'| ensures NonBlank(rows'[k]) && AllTrimmed(rows'[k]) {
      if k < |rows| { assert rows'[k] == rows[k]; }
    }
  }

  /** Closing a row keeps the emitted rows well formed. */
  lemma EndRowKeepsStateOk(st: ScanState)
    requires StateOk(st)
    ensures StateOk(EndRow(st))
  {
    var row := st.row + [Trim(st.field)];
    AppendCellKeepsTrimmed(st.row, Trim(st.field));
    if NonBlank(row) {
      AppendRowKeepsWellFormed(st.rows, row);
    }
  }

  /** One scanner move keeps the emitted rows well formed and every closed cell trimmed. */
  lemma StepKeepsStateOk(c: char, next: Option<char>, st: ScanState)
    requires StateOk(st)
    ensures StateOk(Step(c, next, st).0)
  {
    if c == ',' && !st.insideQuotes {
      AppendCellKeepsTrimmed(st.row, Trim(st.field));
    } else if (c == '\n' || (c == '\r' && next == Some('\n'))) && !st.insideQuotes {
      EndRowKeepsStateOk(st);
    }
  }

  lemma {:induction false} ScanKeepsStateOk(s: string, st: ScanState)
    requires StateOk(st)
    ensures StateOk(Scan(s, st))
    decreases |s|
  {
    if s != [] {
      var (st', n) := Step(s[0], Lookahead(s), st);
      StepKeepsStateOk(s[0], Lookahead(s), st);
      ScanKeepsStateOk(s[n..], st');
    }
  }

  /**
   * Every cell `parseCsv` emits is trimmed and no row it emits is blank:
   * blank lines produce no row.
   */
  lemma TokenizeWellFormed(text: string)
    ensures WellFormed(Tokenize(text).rows)
  {
    ScanKeepsStateOk(text, LineStart([]));
    EndRowKeepsStateOk(Scan(text, LineStart([])));
  }

  /**
   * The error list is empty or the single unclosed-quote message, and it is
   * non-empty exactly when the scan ends inside quotes; the rows gathered up
   * to then are returned either way.
   */
  lemma TokenizeErrors(text: string)
    ensures var st := Scan(text, LineStart([]));
      && (Tokenize(text).errors == [] || Tokenize(text).errors == [UnclosedQuoteMessage])
      && (Tokenize(text).errors != [] <==> st.insideQuotes)
      && Tokenize(text).rows == Finish(st.(insideQuotes := false)).rows
  {
  }

  /** `parseCsv`: an index loop over the text with one character of lookahead. */
  method ParseCsv(csvText: string) returns (result: ParseResult)
    ensures result == Tokenize(csvText)
    ensures result.errors == [] || result.errors == [UnclosedQuoteMessage]
  {
    var rows: seq<seq<string>> := [];
    var errors: seq<string> := [];
    var currentRow: seq<string> := [];
    var currentField := "";
    var insideQuotes := false;

    var i := 0;
    while i < |csvText|
      invariant 0 <= i <= |csvText|
      invariant Scan(csvText[i..], ScanState(rows, currentRow, currentField, insideQuotes)) == Scan(csvText, LineStart([]))
    {
      var nextChar: Option<char> := if i + 1 < |csvText| then Some(csvText[i + 1]) else None;
      ghost var before := ScanState(rows, currentRow, currentField, insideQuotes);
      assert Lookahead(csvText[i..]) == nextChar;
      ScanAt(csvText, i, before);
      var consumed;
      rows, currentRow, currentField, insideQuotes, consumed :=
        ScanChar(csvText[i], nextChar, rows, currentRow, currentField, insideQuotes);
      i := i + consumed;
    }

    if |currentField| > 0 || |currentRow| > 0 {
      currentRow := currentRow + [Trim(currentField)];
      if |currentRow| > 0 && NonBlank(currentRow) {
        rows := rows + [currentRow];
      }
    }

    if insideQuotes {
      errors := errors + [UnclosedQuoteMessage];
    }

    result := ParseResult(rows, errors);
  }

  /**
   * The body of `parseCsv`'s loop for character `c`: it updates the scanner's
   * variables as `Step` does and says how many characters it consumed.
   */
  method ScanChar(c: char, nextChar: Option<char>, rows: seq<seq<string>>, currentRow: seq<string>, currentField: string, insideQuotes: bool)
    returns (rows': seq<seq<string>>, currentRow': seq<string>, currentField': string, insideQuotes': bool, consumed: nat)
    ensures (ScanState(rows', currentRow', currentField', insideQuotes'), consumed)
         == Step(c, nextChar, ScanState(rows, currentRow, currentField, insideQuotes))
  {
    rows', currentRow', currentField', insideQuotes', consumed := rows, currentRow, currentField, insideQuotes, 1;
    if c == '"' {
      if insideQuotes && nextChar == Some('"') {
        // an escaped quote: keep one quote and skip the second
        currentField' := currentField + ['"'];
        consumed := 2;
      } else if insideQuotes && (nextChar == Some(',') || nextChar == Some('\n') || nextChar == Some('\r') || nextChar == None) {
        insideQuotes' := false;
      } else if !insideQuotes {
        insideQuotes' := true;
      } else {
        currentField' := currentField + [c];
      }
    } else if c == ',' && !insideQuotes {
      currentRow' := currentRow + [Trim(currentField)];
      currentField' := "";
    } else if (c == '\n' || (c == '\r' && nextChar == Some('\n'))) && !insideQuotes {
      if c == '\r' {
        consumed := 2;
      }
      currentRow' := currentRow + [Trim(currentField)];
      if |currentRow'| > 0 && NonBlank(currentRow') {
        rows' := rows + [currentRow'];
      }
      currentRow' := [];
      currentField' := "";
    } else {
      currentField' := currentField + [c];
    }
  }

  // ---------------------------------------------------------------------------
  // The header row

  /** The five columns an import file must name, in the order they are checked. */
  const RequiredColumns: seq<string> := ["word", "phonetic", "definition", "example", "translation"]

  const MissingColumnPrefix := "Missing required column: "

  function MissingColumnMessage(column: string): string
  {
    MissingColumnPrefix + column
  }

  /** A header cell is compared trimmed and in lower case. */
  function Normalize(headerRow: seq<string>): (nh: seq<string>)
    ensures |nh| == |headerRow|
    ensures forall k :: 0 <= k < |headerRow| ==> nh[k] == ToLower(Trim(headerRow[k]))
  {
    seq(|headerRow|, k requires 0 <= k < |headerRow| => ToLower(Trim(headerRow[k])))
  }

  /** One message per column of `columns` that the normalized header lacks, in the order of `columns`. */
  function MissingMessages(columns: seq<string>, nh: seq<string>): seq<string>
  {
    if columns == [] then []
    else
      var last := columns[|columns| - 1];
      MissingMessages(columns[..|columns| - 1], nh) + (if last in nh then [] else [MissingColumnMessage(last)])
  }

  /** The errors `validateHeader` reports for `headerRow`. */
  function HeaderErrors(headerRow: seq<string>): seq<string>
  {
    MissingMessages(RequiredColumns, Normalize(headerRow))
  }

  /** `validateHeader`: a loop over the required columns. */
  method ValidateHeader(headerRow: seq<string>) returns (valid: bool, errors: seq<string>)
    ensures errors == HeaderErrors(headerRow)
    ensures valid <==> errors == []
    ensures valid <==> forall c :: c in RequiredColumns ==> c in Normalize(headerRow)
  {
    errors := [];
    var normalizedHeader := Normalize(headerRow);
    for k := 0 to |RequiredColumns|
      invariant errors == MissingMessages(RequiredColumns[..k], normalizedHeader)
    {
      var required := RequiredColumns[k];
      assert RequiredColumns[..k + 1][..k] == RequiredColumns[..k];
      if required !in normalizedHeader {
        errors := errors + [MissingColumnMessage(required)];
      }
    }
    assert RequiredColumns[..|RequiredColumns|] == RequiredColumns;
    valid := |errors| == 0;
    HeaderErrorsMeaning(headerRow);
  }

  lemma MissingColumnMessageInjective(a: string, b: string)
    requires MissingColumnMessage(a) == MissingColumnMessage(b)
    ensures a == b
  {
    var n := |MissingColumnPrefix|;
    assert a == MissingColumnMessage(a)[n..];
    assert b == MissingColumnMessage(b)[n..];
  }

  /** A column's message is reported exactly when the column is listed and absent from the header. */
  lemma {:induction false} MissingMessagesMeaning(columns: seq<string>, nh: seq<string>, c: string)
    ensures MissingColumnMessage(c) in MissingMessages(columns, nh) <==> c in columns && c !in nh
    decreases |columns|
  {
    if columns != [] {
      var init := columns[..|columns| - 1];
      var last := columns[|columns| - 1];
      MissingMessagesMeaning(init, nh, c);
      assert columns == init + [last];
      if MissingColumnMessage(c) == MissingColumnMessage(last) {
        MissingColumnMessageInjective(c, last);
      }
    }
  }

  lemma {:induction false} MissingMessagesEmpty(columns: seq<string>, nh: seq<string>)
    ensures MissingMessages(columns, nh) == [] <==> forall c :: c in columns ==> c in nh
    decreases |columns|
  {
    if columns != [] {
      var init := columns[..|columns| - 1];
      var last := columns[|columns| - 1];
      MissingMessagesEmpty(init, nh);
      assert columns == init + [last];
    }
  }

  /** Every message names one missing column; there is at most one per column, never more than five. */
  lemma {:induction false} MissingMessagesBound(columns: seq<string>, nh: seq<string>)
    ensures |MissingMessages(columns, nh)| <= |columns|
    ensures forall m :: m in MissingMessages(columns, nh) ==> exists c :: c in columns && c !in nh && m == MissingColumnMessage(c)
    decreases |columns|
  {
    if columns != [] {
      var init := columns[..|columns| - 1];
      MissingMessagesBound(init, nh);
      assert columns == init + [columns[|columns| - 1]];
    }
  }

  /**
   * `validateHeader` reports "Missing required column: c" exactly for each
   * required column c that no header cell names once trimmed and lower-cased,
   * at most five errors, and none exactly when every required column is present.
   */
  lemma HeaderErrorsMeaning(headerRow: seq<string>)
    ensures forall c :: MissingColumnMessage(c) in HeaderErrors(headerRow) <==> c in RequiredColumns && c !in Normalize(headerRow)
    ensures |HeaderErrors(headerRow)| <= 5
    ensures HeaderErrors(headerRow) == [] <==> forall c :: c in RequiredColumns ==> c in Normalize(headerRow)
  {
    forall c ensures MissingColumnMessage(c) in HeaderErrors(headerRow) <==> c in RequiredColumns && c !in Normalize(headerRow) {
      MissingMessagesMeaning(RequiredColumns, Normalize(headerRow), c);
    }
    MissingMessagesBound(RequiredColumns, Normalize(headerRow));
    MissingMessagesEmpty(RequiredColumns, Normalize(headerRow));
  }

  /** The message for `column` if the normalized header lacks it. */
  function MissingOne(column: string, nh: seq<string>): seq<string>
  {
    if column in nh then [] else [MissingColumnMessage(column)]
  }

  /** The errors come in the fixed order word, phonetic, definition, example, translation. */
  lemma HeaderErrorsInOrder(headerRow: seq<string>)
    ensures var nh := Normalize(headerRow);
      HeaderErrors(headerRow)
      == MissingOne("word", nh) + MissingOne("phonetic", nh) + MissingOne("definition", nh)
         + MissingOne("example", nh) + MissingOne("translation", nh)
  {
    var nh := Normalize(headerRow);
    var rc := RequiredColumns;
    assert rc[..4][..3] == rc[..3] && rc[..3][..2] == rc[..2] && rc[..2][..1] == rc[..1] && rc[..1][..0] == [];
    assert rc[..5] == rc;
    assert MissingMessages(rc[..0], nh) == [];
    assert MissingMessages(rc[..1], nh) == MissingOne("word", nh);
    assert MissingMessages(rc[..2], nh) == MissingMessages(rc[..1], nh) + MissingOne("phonetic", nh);
    assert MissingMessages(rc[..3], nh) == MissingMessages(rc[..2], nh) + MissingOne("definition", nh);
    assert MissingMessages(rc[..4], nh) == MissingMessages(rc[..3], nh) + MissingOne("example", nh);
    assert MissingMessages(rc[..5], nh) == MissingMessages(rc[..4], nh) + MissingOne("translation", nh);
  }

  /** Header cells are matched after trimming and lower-casing: `" Word "` names the word column. */
  lemma HeaderCaseInsensitive()
    ensures HeaderErrors([" Word ", "PHONETIC", "Definition", "example", "Translation\t"]) == []
  {
    var h := [" Word ", "PHONETIC", "Definition", "example", "Translation\t"];
    MixedCaseNormalized();
    HeaderErrorsMeaning(h);
  }

  lemma MixedCaseNormalized()
    ensures Normalize([" Word ", "PHONETIC", "Definition", "example", "Translation\t"]) == RequiredColumns
  {
    var h := [" Word ", "PHONETIC", "Definition", "example", "Translation\t"];
    NormalizedHeaderCells();
    ListOfFive(Normalize(h));
  }

  lemma ListOfFive<T>(s: seq<T>)
    requires |s| == 5
    ensures s == [s[0], s[1], s[2], s[3], s[4]]
  {
  }

  lemma ListOfThree<T>(s: seq<T>)
    requires |s| == 3
    ensures s == [s[0], s[1], s[2]]
  {
  }

  lemma NormalizedHeaderCells()
    ensures ToLower(Trim(" Word ")) == "word"
    ensures ToLower(Trim("PHONETIC")) == "phonetic"
    ensures ToLower(Trim("Definition")) == "definition"
    ensures ToLower(Trim("example")) == "example"
    ensures ToLower(Trim("Translation\t")) == "translation"
  {
    PaddedWordCell();
    UpperCaseCell();
    CapitalizedCells();
    TrailingTabCell();
  }

  lemma PaddedWordCell()
    ensures ToLower(Trim(" Word ")) == "word"
  {
    assert TrimStart(" Word ") == "Word ";
    assert TrimEnd("Word ") == "Word";
  }

  lemma UpperCaseCell()
    ensures ToLower(Trim("PHONETIC")) == "phonetic"
  {
    TrimTrimmed("PHONETIC");
  }

  lemma CapitalizedCells()
    ensures ToLower(Trim("Definition")) == "definition"
    ensures ToLower(Trim("example")) == "example"
  {
    TrimTrimmed("Definition");
    LowerCaseCell("example");
  }

  lemma TrailingTabCell()
    ensures ToLower(Trim("Translation\t")) == "translation"
  {
    assert TrimStart("Translation\t") == "Translation\t";
    assert TrimEnd("Translation\t") == "Translation";
  }

  /** The positions of the five columns; the optional ones are -1 when absent. */
  datatype ColumnIndices = ColumnIndices(word: int, phonetic: int, definition: int, example: int, translation: int)

  /** `i` is the first position of `x` in `nh`. */
  predicate FirstIndex(nh: seq<string>, x: string, i: int)
  {
    0 <= i < |nh| && nh[i] == x && x !in nh[..i]
  }

  /** `i` is the first position of `x`, or -1 when `x` does not occur. */
  predicate OptionalIndex(nh: seq<string>, x: string, i: int)
  {
    (i == -1 <==> x !in nh) && (i != -1 ==> FirstIndex(nh, x, i))
  }

  /**
   * `getColumnIndices`: no indices when the word, definition or translation
   * column is missing; otherwise the first position of each column, with
   * -1 for a missing phonetic or example column.
   */
  function GetColumnIndices(headerRow: seq<string>): (r: Option<ColumnIndices>)
    ensures var nh := Normalize(headerRow);
      (r.None? <==> ("word" !in nh || "definition" !in nh || "translation" !in nh))
      && (r.Some? ==>
            FirstIndex(nh, "word", r.value.word)
            && OptionalIndex(nh, "phonetic", r.value.phonetic)
            && FirstIndex(nh, "definition", r.value.definition)
            && OptionalIndex(nh, "example", r.value.example)
            && FirstIndex(nh, "translation", r.value.translation))
  {
    var nh := Normalize(headerRow);
    var wordIdx := IndexOf(nh, "word");
    var phoneticIdx := IndexOf(nh, "phonetic");
    var definitionIdx := IndexOf(nh, "definition");
    var exampleIdx := IndexOf(nh, "example");
    var translationIdx := IndexOf(nh, "translation");
    if wordIdx == -1 || definitionIdx == -1 || translationIdx == -1 then None
    else Some(ColumnIndices(
      wordIdx,
      if phoneticIdx >= 0 then phoneticIdx else -1,
      definitionIdx,
      if exampleIdx >= 0 then exampleIdx else -1,
      translationIdx))
  }

  /** A header `validateHeader` accepts always yields indices, all five of them present. */
  lemma ValidHeaderHasIndices(headerRow: seq<string>)
    requires HeaderErrors(headerRow) == []
    ensures GetColumnIndices(headerRow).Some?
    ensures var ix := GetColumnIndices(headerRow).value;
      ix.word >= 0 && ix.phonetic >= 0 && ix.definition >= 0 && ix.example >= 0 && ix.translation >= 0
  {
    HeaderErrorsMeaning(headerRow);
    assert "word" in RequiredColumns && "phonetic" in RequiredColumns && "definition" in RequiredColumns;
    assert "example" in RequiredColumns && "translation" in RequiredColumns;
  }

  /** Indices exist even without the optional columns; the header then fails `validateHeader`. */
  lemma OptionalColumnsMayBeMissing()
    ensures GetColumnIndices(["word", "definition", "translation"]) == Some(ColumnIndices(0, -1, 1, -1, 2))
    ensures HeaderErrors(["word", "definition", "translation"])
         == [MissingColumnMessage("phonetic"), MissingColumnMessage("example")]
  {
    ThreeColumnIndices();
    ThreeColumnErrors();
  }

  lemma ThreeColumnIndices()
    ensures GetColumnIndices(["word", "definition", "translation"]) == Some(ColumnIndices(0, -1, 1, -1, 2))
  {
    var h := ["word", "definition", "translation"];
    ThreeColumnsNormalized();
    assert IndexOf(h, "word") == 0;
    assert IndexOf(h, "definition") == 1 by { assert h[1..] == ["definition", "translation"]; }
    assert IndexOf(h, "translation") == 2 by { assert h[1..][1..] == ["translation"]; }
    assert "phonetic" !in h && "example" !in h;
  }

  lemma ThreeColumnErrors()
    ensures HeaderErrors(["word", "definition", "translation"])
         == [MissingColumnMessage("phonetic"), MissingColumnMessage("example")]
  {
    var h := ["word", "definition", "translation"];
    ThreeColumnsNormalized();
    HeaderErrorsInOrder(h);
    assert "word" in h && "definition" in h && "translation" in h;
    assert "phonetic" !in h && "example" !in h;
  }

  lemma ThreeColumnsNormalized()
    ensures Normalize(["word", "definition", "translation"]) == ["word", "definition", "translation"]
  {
    var h := ["word", "definition", "translation"];
    LowerCaseCells();
    ListOfThree(Normalize(h));
  }

  lemma LowerCaseCells()
    ensures ToLower(Trim("word")) == "word"
    ensures ToLower(Trim("definition")) == "definition"
    ensures ToLower(Trim("translation")) == "translation"
  {
    WordCell();
    DefinitionCell();
    TranslationCell();
  }

  lemma WordCell()
    ensures ToLower(Trim("word")) == "word"
  {
    LowerCaseCell("word");
  }

  lemma DefinitionCell()
    ensures ToLower(Trim("definition")) == "definition"
  {
    LowerCaseCell("definition");
  }

  lemma TranslationCell()
    ensures ToLower(Trim("translation")) == "translation"
  {
    LowerCaseCell("translation");
  }

  /** A trimmed cell without capitals is already normalized. */
  lemma LowerCaseCell(s: string)
    requires IsTrimmed(s)
    requires forall k :: 0 <= k < |s| ==> 'a' <= s[k] <= 'z'
    ensures ToLower(Trim(s)) == s
  {
    TrimTrimmed(s);
    ToLowerKeepsLower(s);
  }
}
