/**
 * The import service of src/services/csvImportService.ts: the file
 * constraints, the extraction of typed rows from the tokenized grid, the
 * classification of each row as valid, invalid or duplicate, the status of
 * the upload session, and the choice of the rows sent to the store.
 *
 * The file text, the words already stored for the user and the answer of the
 * bulk insert are inputs: `file.text()`, the authenticated fetch and the
 * insert itself are outside the model.
 */
module CsvImport {
  import opened Wrappers
  import opened JsText
  import opened Csv
  import opened Flashcards

  // ---------------------------------------------------------------------------
  // validateFile

  /** The size ceiling: 10 MB. */
  const MaxFileSizeBytes: nat := 10 * 1024 * 1024
  const ValidExtensions: seq<string> := [".csv"]

  const EmptyFileMessage := "File is empty"
  /** The ceiling in megabytes, `MaxFileSizeBytes / (1024 * 1024)`, is 10. */
  const FileTooLargeMessage := "File size exceeds maximum of 10MB"
  const ExtensionMessage := "File must have a .csv extension"

  /** What the browser reports about the chosen file. */
  datatype FileInfo = FileInfo(name: string, size: nat, mimeType: string)

  /** Some accepted extension ends the (lower-cased) file name. */
  predicate HasValidExtension(fileName: string)
  {
    exists k :: 0 <= k < |ValidExtensions| && EndsWith(fileName, ValidExtensions[k])
  }

  /** The errors `validateFile` collects, in the order it checks. */
  function FileErrors(file: FileInfo): seq<string>
  {
    (if file.size == 0 then [EmptyFileMessage]
     else if file.size >= MaxFileSizeBytes then [FileTooLargeMessage]
     else [])
    + (if HasValidExtension(ToLower(file.name)) then [] else [ExtensionMessage])
  }

  /** `validateFile`; the MIME type only ever produces a console warning. */
  method ValidateFile(file: FileInfo) returns (valid: bool, errors: seq<string>)
    ensures errors == FileErrors(file)
    ensures valid <==> errors == []
    ensures valid <==> 0 < file.size < MaxFileSizeBytes && EndsWith(ToLower(file.name), ".csv")
  {
    errors := [];
    if file.size == 0 {
      errors := errors + [EmptyFileMessage];
    } else if file.size >= MaxFileSizeBytes {
      errors := errors + [FileTooLargeMessage];
    }
    var fileName := ToLower(file.name);
    var hasValidExtension := HasValidExtension(fileName);
    if !hasValidExtension {
      errors := errors + [ExtensionMessage];
    }
    valid := |errors| == 0;
    FileErrorsMeaning(file);
  }

  /**
   * A file is rejected as empty exactly when its size is 0 and as too large
   * exactly when its size reaches the ceiling, never both; a missing `.csv`
   * ending adds one more error; and a file passes exactly when none applies.
   */
  lemma FileErrorsMeaning(file: FileInfo)
    ensures EmptyFileMessage in FileErrors(file) <==> file.size == 0
    ensures FileTooLargeMessage in FileErrors(file) <==> file.size >= MaxFileSizeBytes
    ensures !(EmptyFileMessage in FileErrors(file) && FileTooLargeMessage in FileErrors(file))
    ensures ExtensionMessage in FileErrors(file) <==> !EndsWith(ToLower(file.name), ".csv")
    ensures |FileErrors(file)| <= 2
    ensures FileErrors(file) == [] <==> 0 < file.size < MaxFileSizeBytes && EndsWith(ToLower(file.name), ".csv")
  {
    assert ValidExtensions[0] == ".csv";
    assert EmptyFileMessage != ExtensionMessage && FileTooLargeMessage != ExtensionMessage;
  }

  /** The declared MIME type never changes the verdict. */
  lemma MimeTypeIgnored(file: FileInfo, mimeType: string)
    ensures FileErrors(file.(mimeType := mimeType)) == FileErrors(file)
  {
  }

  /** The extension test is case-insensitive: `WORDS.CSV` is accepted. */
  lemma UpperCaseExtensionAccepted()
    ensures FileErrors(FileInfo("WORDS.CSV", 100, "")) == []
  {
    var lower := ToLower("WORDS.CSV");
    assert lower[5..] == ".csv";
    FileErrorsMeaning(FileInfo("WORDS.CSV", 100, ""));
  }

  // ---------------------------------------------------------------------------
  // parseCsvFile

  /** One typed data row; `rowNumber` counts data rows from 1, the header not included. */
  datatype CsvRow = CsvRow(rowNumber: int, word: string, phonetic: string, definition: string, example: string, translation: string)

  /** `index >= 0 ? (dataRow[index] || '').trim() : ''`. */
  function CellAt(dataRow: seq<string>, index: int): string
  {
    if index >= 0 then Trim(if index < |dataRow| then dataRow[index] else "") else ""
  }

  /** An extracted cell is trimmed; an absent column or a row too short for it gives "". */
  lemma CellAtMeaning(dataRow: seq<string>, index: int)
    ensures IsTrimmed(CellAt(dataRow, index))
    ensures index < 0 || index >= |dataRow| ==> CellAt(dataRow, index) == ""
    ensures 0 <= index < |dataRow| ==> CellAt(dataRow, index) == Trim(dataRow[index])
  {
    assert Trim("") == "";
  }

  function RowOf(dataRow: seq<string>, rowNumber: int, ix: ColumnIndices): CsvRow
  {
    CsvRow(rowNumber, CellAt(dataRow, ix.word), CellAt(dataRow, ix.phonetic), CellAt(dataRow, ix.definition),
           CellAt(dataRow, ix.example), CellAt(dataRow, ix.translation))
  }

  /** The typed rows of the data rows, numbered from 1. */
  function ExtractedRows(dataRows: seq<seq<string>>, ix: ColumnIndices): (rows: seq<CsvRow>)
    ensures |rows| == |dataRows|
  {
    if dataRows == [] then []
    else ExtractedRows(dataRows[..|dataRows| - 1], ix) + [RowOf(dataRows[|dataRows| - 1], |dataRows|, ix)]
  }

  /** One typed row per data row, row `i` built from data row `i` and numbered `i + 1`. */
  lemma ExtractedRowsAt(dataRows: seq<seq<string>>, ix: ColumnIndices)
    ensures |ExtractedRows(dataRows, ix)| == |dataRows|
    ensures forall i :: 0 <= i < |dataRows| ==> ExtractedRows(dataRows, ix)[i] == RowOf(dataRows[i], i + 1, ix)
  {
    forall i | 0 <= i < |dataRows| ensures ExtractedRows(dataRows, ix)[i] == RowOf(dataRows[i], i + 1, ix) {
      ExtractedRowIndex(dataRows, ix, i);
    }
  }

  lemma {:induction false} ExtractedRowIndex(dataRows: seq<seq<string>>, ix: ColumnIndices, i: nat)
    requires i < |dataRows|
    ensures ExtractedRows(dataRows, ix)[i] == RowOf(dataRows[i], i + 1, ix)
    decreases |dataRows|
  {
    var init := dataRows[..|dataRows| - 1];
    if i < |init| {
      ExtractedRowIndex(init, ix, i);
      assert init[i] == dataRows[i];
    }
  }

  /** What `parseCsvFile` returns. */
  datatype ParsedFile = ParsedFile(rows: seq<CsvRow>, headerValid: bool, errors: seq<string>)

  const NoDataMessage := "CSV file is empty or contains no data rows"
  const NoIndicesMessage := "Failed to extract column indices from header"

  /**
   * The specification of `parseCsvFile` on the file's text: the tokenizer's
   * warnings come first, then the reason the header was refused, if it was.
   */
  function ParseFile(text: string): ParsedFile
  {
    var grid := Tokenize(text);
    if grid.rows == [] then ParsedFile([], false, grid.errors + [NoDataMessage])
    else
      var header := grid.rows[0];
      var headerErrors := HeaderErrors(header);
      if headerErrors != [] then ParsedFile([], false, grid.errors + headerErrors)
      else
        match GetColumnIndices(header)
        case None => ParsedFile([], false, grid.errors + [NoIndicesMessage])
        case Some(ix) => ParsedFile(ExtractedRows(grid.rows[1..], ix), true, grid.errors)
  }

  /** `parseCsvFile` after the text has been read: tokenize, check the header, extract the data rows. */
  method ParseCsvFile(text: string) returns (result: ParsedFile)
    ensures result == ParseFile(text)
  {
    var errors: seq<string> := [];
    var parsed := ParseCsv(text);
    var rawRows := parsed.rows;
    if |parsed.errors| > 0 {
      errors := errors + parsed.errors;
    }
    assert errors == parsed.errors;

    if |rawRows| == 0 {
      errors := errors + [NoDataMessage];
      return ParsedFile([], false, errors);
    }

    var headerRow := rawRows[0];
    var dataRows := rawRows[1..];

    var headerValid, headerErrors := ValidateHeader(headerRow);
    if !headerValid {
      errors := errors + headerErrors;
      return ParsedFile([], false, errors);
    }

    var columnIndices := GetColumnIndices(headerRow);
    if columnIndices.None? {
      errors := errors + [NoIndicesMessage];
      return ParsedFile([], false, errors);
    }
    var ix := columnIndices.value;

    var csvRows := ExtractRows(dataRows, ix);
    result := ParsedFile(csvRows, true, errors);
  }

  /** The data-row loop of `parseCsvFile`. */
  method ExtractRows(dataRows: seq<seq<string>>, ix: ColumnIndices) returns (csvRows: seq<CsvRow>)
    ensures csvRows == ExtractedRows(dataRows, ix)
  {
    csvRows := [];
    for i := 0 to |dataRows|
      invariant csvRows == ExtractedRows(dataRows[..i], ix)
    {
      var dataRow := dataRows[i];
      var rowNumber := i + 1;
      var word := CellAt(dataRow, ix.word);
      var phonetic := CellAt(dataRow, ix.phonetic);
      var definition := CellAt(dataRow, ix.definition);
      var example := CellAt(dataRow, ix.example);
      var translation := CellAt(dataRow, ix.translation);
      assert dataRows[..i + 1][..i] == dataRows[..i];
      csvRows := csvRows + [CsvRow(rowNumber, word, phonetic, definition, example, translation)];
    }
    assert dataRows[..|dataRows|] == dataRows;
  }

  /** A refused header yields no rows and at least one error. */
  lemma RefusedHeaderHasNoRows(text: string)
    ensures !ParseFile(text).headerValid ==> ParseFile(text).rows == [] && ParseFile(text).errors != []
  {
  }

  /**
   * The header is accepted exactly when the text has a row and the first row
   * names all five columns; the step that extracts the indices never fails
   * after that, so its error message is never produced.
   */
  lemma HeaderAcceptedIff(text: string)
    ensures var grid := Tokenize(text);
      ParseFile(text).headerValid <==> grid.rows != [] && HeaderErrors(grid.rows[0]) == []
  {
    var grid := Tokenize(text);
    if grid.rows != [] && HeaderErrors(grid.rows[0]) == [] {
      ValidHeaderHasIndices(grid.rows[0]);
    }
  }

  /**
   * With an accepted header there is one typed row per grid row after the
   * first, row `i` is numbered `i + 1` and takes each field from its column,
   * every field is trimmed, and the tokenizer's warnings are kept.
   */
  lemma AcceptedHeaderRows(text: string)
    requires ParseFile(text).headerValid
    ensures var grid := Tokenize(text);
      var r := ParseFile(text);
      && grid.rows != []
      && GetColumnIndices(grid.rows[0]).Some?
      && |r.rows| == |grid.rows| - 1
      && r.errors == grid.errors
      && forall i :: 0 <= i < |r.rows| ==>
           r.rows[i] == RowOf(grid.rows[i + 1], i + 1, GetColumnIndices(grid.rows[0]).value)
  {
    AcceptedParse(text);
    var grid := Tokenize(text);
    AcceptedRowsAt(grid.rows, GetColumnIndices(grid.rows[0]).value);
  }

  lemma AcceptedParse(text: string)
    requires ParseFile(text).headerValid
    ensures var grid := Tokenize(text);
      && grid.rows != []
      && GetColumnIndices(grid.rows[0]).Some?
      && ParseFile(text) == ParsedFile(ExtractedRows(grid.rows[1..], GetColumnIndices(grid.rows[0]).value), true, grid.errors)
  {
  }

  lemma AcceptedRowsAt(grid: seq<seq<string>>, ix: ColumnIndices)
    requires grid != []
    ensures |ExtractedRows(grid[1..], ix)| == |grid| - 1
    ensures forall i :: 0 <= i < |grid| - 1 ==> ExtractedRows(grid[1..], ix)[i] == RowOf(grid[i + 1], i + 1, ix)
  {
    var data := grid[1..];
    ExtractedRowsAt(data, ix);
    forall i | 0 <= i < |data| ensures data[i] == grid[i + 1] { }
  }

  /** Every field of every extracted row is trimmed. */
  lemma ExtractedRowsTrimmed(dataRows: seq<seq<string>>, ix: ColumnIndices)
    ensures forall i :: 0 <= i < |ExtractedRows(dataRows, ix)| ==>
      var row := ExtractedRows(dataRows, ix)[i];
      row.rowNumber == i + 1
      && IsTrimmed(row.word) && IsTrimmed(row.phonetic) && IsTrimmed(row.definition)
      && IsTrimmed(row.example) && IsTrimmed(row.translation)
  {
    forall i | 0 <= i < |ExtractedRows(dataRows, ix)|
      ensures var row := ExtractedRows(dataRows, ix)[i];
        row.rowNumber == i + 1
        && IsTrimmed(row.word) && IsTrimmed(row.phonetic) && IsTrimmed(row.definition)
        && IsTrimmed(row.example) && IsTrimmed(row.translation)
    {
      ExtractedRowsAt(dataRows, ix);
      var d := dataRows[i];
      CellAtMeaning(d, ix.word);
      CellAtMeaning(d, ix.phonetic);
      CellAtMeaning(d, ix.definition);
      CellAtMeaning(d, ix.example);
      CellAtMeaning(d, ix.translation);
    }
  }

  /**
   * A file holding only an accepted header is not refused by `parseCsvFile`
   * (`headerValid` is true) but has no rows, and reports no error of its own.
   */
  lemma HeaderOnlyFile(text: string)
    requires |Tokenize(text).rows| == 1 && HeaderErrors(Tokenize(text).rows[0]) == []
    ensures ParseFile(text) == ParsedFile([], true, Tokenize(text).errors)
  {
    ValidHeaderHasIndices(Tokenize(text).rows[0]);
  }

  // ---------------------------------------------------------------------------
  // validateAndClassifyRows

  datatype RowStatus = Valid | Invalid | Duplicate

  /** The verdict on one row; `errors` is empty unless the row is invalid. */
  datatype RowResult = RowResult(rowNumber: int, status: RowStatus, errors: seq<string>)

  datatype ImportSummary = ImportSummary(
    totalRowsParsed: nat,
    rowsValidToImport: nat,
    rowsSkippedDuplicates: nat,
    rowsSkippedInvalid: nat,
    rowsImported: nat)

  const MissingWordMessage := "Missing required field: word"
  const MissingDefinitionMessage := "Missing required field: definition"
  const MissingTranslationMessage := "Missing required field: translation"

  /** A required field is missing when it is empty once trimmed. */
  predicate Blank(field: string)
  {
    Trim(field) == ""
  }

  /** The required-field errors of a row, in the order word, definition, translation. */
  function RequiredFieldErrors(row: CsvRow): seq<string>
  {
    (if Blank(row.word) then [MissingWordMessage] else [])
    + (if Blank(row.definition) then [MissingDefinitionMessage] else [])
    + (if Blank(row.translation) then [MissingTranslationMessage] else [])
  }

  /** Words are compared as `word.toLowerCase().trim()`. */
  function NormalizeWord(word: string): string
  {
    Trim(ToLower(word))
  }

  /** The set of normalized words the user already has, built from the stored words. */
  function ExistingWords(stored: seq<string>): set<string>
  {
    set w | w in stored :: NormalizeWord(w)
  }

  predicate IsDuplicate(row: CsvRow, existing: set<string>)
  {
    NormalizeWord(row.word) != "" && NormalizeWord(row.word) in existing
  }

  /** The verdict on one row: a duplicate first, then invalid if a required field is missing, else valid. */
  function Verdict(row: CsvRow, existing: set<string>): RowResult
  {
    if IsDuplicate(row, existing) then RowResult(row.rowNumber, Duplicate, [])
    else
      var errors := RequiredFieldErrors(row);
      if errors != [] then RowResult(row.rowNumber, Invalid, errors)
      else RowResult(row.rowNumber, Valid, [])
  }

  /** The number of results with status `status`. */
  function CountStatus(results: seq<RowResult>, status: RowStatus): nat
  {
    if results == [] then 0
    else CountStatus(results[..|results| - 1], status) + (if results[|results| - 1].status == status then 1 else 0)
  }

  /** The verdicts on all rows, in input order. */
  function Classified(rows: seq<CsvRow>, existing: set<string>): (results: seq<RowResult>)
    ensures |results| == |rows|
  {
    if rows == [] then []
    else Classified(rows[..|rows| - 1], existing) + [Verdict(rows[|rows| - 1], existing)]
  }

  /** One verdict per row: verdict `i` is the verdict on row `i`. */
  lemma ClassifiedAt(rows: seq<CsvRow>, existing: set<string>)
    ensures |Classified(rows, existing)| == |rows|
    ensures forall i :: 0 <= i < |rows| ==> Classified(rows, existing)[i] == Verdict(rows[i], existing)
  {
    forall i | 0 <= i < |rows| ensures Classified(rows, existing)[i] == Verdict(rows[i], existing) {
      ClassifiedIndex(rows, existing, i);
    }
  }

  lemma {:induction false} ClassifiedIndex(rows: seq<CsvRow>, existing: set<string>, i: nat)
    requires i < |rows|
    ensures Classified(rows, existing)[i] == Verdict(rows[i], existing)
    decreases |rows|
  {
    var init := rows[..|rows| - 1];
    if i < |init| {
      ClassifiedIndex(init, existing, i);
      assert init[i] == rows[i];
    }
  }

  /** Verdict `i` carries the number of row `i`. */
  lemma ClassifiedNumbers(rows: seq<CsvRow>, existing: set<string>)
    ensures forall i :: 0 <= i < |rows| ==> Classified(rows, existing)[i].rowNumber == rows[i].rowNumber
  {
    ClassifiedAt(rows, existing);
  }

  /** The summary of a classification, before anything is saved. */
  function SummaryOf(rows: seq<CsvRow>, results: seq<RowResult>): ImportSummary
  {
    ImportSummary(|rows|, CountStatus(results, Valid), CountStatus(results, Duplicate), CountStatus(results, Invalid), 0)
  }

  /** The classification loop of `validateAndClassifyRows`, given the existing words. */
  method ClassifyRows(rows: seq<CsvRow>, existingWords: set<string>) returns (rowResults: seq<RowResult>, summary: ImportSummary)
    ensures rowResults == Classified(rows, existingWords)
    ensures summary == SummaryOf(rows, rowResults)
    ensures summary.rowsValidToImport + summary.rowsSkippedDuplicates + summary.rowsSkippedInvalid == summary.totalRowsParsed
    ensures summary.rowsImported == 0
  {
    rowResults := [];
    var rowsValidToImport := 0;
    var rowsSkippedDuplicates := 0;
    var rowsSkippedInvalid := 0;

    for i := 0 to |rows|
      invariant rowResults == Classified(rows[..i], existingWords)
      invariant rowsValidToImport == CountStatus(rowResults, Valid)
      invariant rowsSkippedDuplicates == CountStatus(rowResults, Duplicate)
      invariant rowsSkippedInvalid == CountStatus(rowResults, Invalid)
    {
      var result := ClassifyRow(rows[i], existingWords);
      match result.status {
        case Duplicate => rowsSkippedDuplicates := rowsSkippedDuplicates + 1;
        case Invalid => rowsSkippedInvalid := rowsSkippedInvalid + 1;
        case Valid => rowsValidToImport := rowsValidToImport + 1;
      }
      ClassifiedSnoc(rows, i, existingWords);
      CountSnoc(rowResults, result, Valid);
      CountSnoc(rowResults, result, Duplicate);
      CountSnoc(rowResults, result, Invalid);
      rowResults := rowResults + [result];
    }
    assert rows[..|rows|] == rows;
    summary := ImportSummary(|rows|, rowsValidToImport, rowsSkippedDuplicates, rowsSkippedInvalid, 0);
    CountsAddUp(rowResults);
  }

  lemma ClassifiedSnoc(rows: seq<CsvRow>, i: nat, existing: set<string>)
    requires i < |rows|
    ensures Classified(rows[..i + 1], existing) == Classified(rows[..i], existing) + [Verdict(rows[i], existing)]
  {
    assert rows[..i + 1][..i] == rows[..i];
  }

  /** The body of the classification loop: the duplicate check, then the required fields. */
  method ClassifyRow(row: CsvRow, existingWords: set<string>) returns (result: RowResult)
    ensures result == Verdict(row, existingWords)
  {
    var errors := CheckRequiredFields(row);
    var normalizedWord := Trim(ToLower(row.word));
    if normalizedWord != "" && normalizedWord in existingWords {
      result := RowResult(row.rowNumber, Duplicate, []);
    } else if |errors| > 0 {
      result := RowResult(row.rowNumber, Invalid, errors);
    } else {
      result := RowResult(row.rowNumber, Valid, []);
    }
  }

  /** The three required-field checks of the classification loop. */
  method CheckRequiredFields(row: CsvRow) returns (errors: seq<string>)
    ensures errors == RequiredFieldErrors(row)
  {
    errors := [];
    if Trim(row.word) == "" {
      errors := errors + [MissingWordMessage];
    }
    if Trim(row.definition) == "" {
      errors := errors + [MissingDefinitionMessage];
    }
    if Trim(row.translation) == "" {
      errors := errors + [MissingTranslationMessage];
    }
  }

  lemma CountSnoc(results: seq<RowResult>, r: RowResult, status: RowStatus)
    ensures CountStatus(results + [r], status) == CountStatus(results, status) + (if r.status == status then 1 else 0)
  {
    assert (results + [r])[..|results|] == results;
  }

  /** Every result has exactly one of the three statuses, so the three counts add up to the number of results. */
  lemma {:induction false} CountsAddUp(results: seq<RowResult>)
    ensures CountStatus(results, Valid) + CountStatus(results, Duplicate) + CountStatus(results, Invalid) == |results|
    decreases |results|
  {
    if results != [] {
      CountsAddUp(results[..|results| - 1]);
    }
  }

  /**
   * One verdict per row, in order and with the row's number: a row whose
   * normalized word is non-empty and already stored is a duplicate with no
   * error, whatever else it lacks; otherwise it is invalid exactly when a
   * required field is missing, with those errors, and valid with none.
   */
  lemma VerdictMeaning(row: CsvRow, existing: set<string>)
    ensures Verdict(row, existing).rowNumber == row.rowNumber
    ensures Verdict(row, existing).status == Duplicate <==> IsDuplicate(row, existing)
    ensures Verdict(row, existing).status == Duplicate ==> Verdict(row, existing).errors == []
    ensures Verdict(row, existing).status == Invalid <==> !IsDuplicate(row, existing) && RequiredFieldErrors(row) != []
    ensures Verdict(row, existing).status == Invalid ==> Verdict(row, existing).errors == RequiredFieldErrors(row)
    ensures Verdict(row, existing).status == Valid <==>
      !IsDuplicate(row, existing) && !Blank(row.word) && !Blank(row.definition) && !Blank(row.translation)
    ensures Verdict(row, existing).status == Valid ==> Verdict(row, existing).errors == []
  {
  }

  /** The position of a required-field message in the order word, definition, translation. */
  function FieldRank(message: string): nat
  {
    if message == MissingWordMessage then 0
    else if message == MissingDefinitionMessage then 1
    else 2
  }

  /**
   * Each missing field has its message, each message appears at most once and
   * the messages keep the order word, definition, translation, and there is no
   * message exactly when all three fields are present.
   */
  lemma RequiredFieldErrorsMeaning(row: CsvRow)
    ensures MissingWordMessage in RequiredFieldErrors(row) <==> Blank(row.word)
    ensures MissingDefinitionMessage in RequiredFieldErrors(row) <==> Blank(row.definition)
    ensures MissingTranslationMessage in RequiredFieldErrors(row) <==> Blank(row.translation)
    ensures Blank(row.word) ==> RequiredFieldErrors(row)[0] == MissingWordMessage
    ensures Blank(row.translation) ==> RequiredFieldErrors(row)[|RequiredFieldErrors(row)| - 1] == MissingTranslationMessage
    ensures RequiredFieldErrors(row) == [] <==> !Blank(row.word) && !Blank(row.definition) && !Blank(row.translation)
    ensures |RequiredFieldErrors(row)| <= 3
    ensures forall e :: e in RequiredFieldErrors(row) ==>
              e == MissingWordMessage || e == MissingDefinitionMessage || e == MissingTranslationMessage
    ensures forall i, j :: 0 <= i < j < |RequiredFieldErrors(row)| ==>
              FieldRank(RequiredFieldErrors(row)[i]) < FieldRank(RequiredFieldErrors(row)[j])
  {
    MessageRanks();
    RequiredFieldErrorsOrdered(row);
  }

  /** The three required-field messages are distinct and ranked 0, 1 and 2. */
  lemma MessageRanks()
    ensures MissingWordMessage != MissingDefinitionMessage && MissingWordMessage != MissingTranslationMessage
    ensures MissingDefinitionMessage != MissingTranslationMessage
    ensures FieldRank(MissingWordMessage) == 0 && FieldRank(MissingDefinitionMessage) == 1
    ensures FieldRank(MissingTranslationMessage) == 2
  {
    assert MissingWordMessage[24] == 'w' && MissingDefinitionMessage[24] == 'd' && MissingTranslationMessage[24] == 't';
  }

  /** The required-field messages, each present at most once, in rank order. */
  lemma RequiredFieldErrorsOrdered(row: CsvRow)
    ensures |RequiredFieldErrors(row)| <= 3
    ensures forall i, j :: 0 <= i < j < |RequiredFieldErrors(row)| ==>
              FieldRank(RequiredFieldErrors(row)[i]) < FieldRank(RequiredFieldErrors(row)[j])
  {
    MessageRanks();
    var w := if Blank(row.word) then [0] else [];
    var d := if Blank(row.definition) then [1] else [];
    var t := if Blank(row.translation) then [2] else [];
    var ranks := w + d + t;
    assert |ranks| == |RequiredFieldErrors(row)|;
    assert forall k :: 0 <= k < |ranks| ==> FieldRank(RequiredFieldErrors(row)[k]) == ranks[k];
    assert forall i, j :: 0 <= i < j < |ranks| ==> ranks[i] < ranks[j];
  }

  /** A stored word blocks a row even when that row also lacks its definition and translation. */
  lemma DuplicateWinsOverInvalid(n: int)
    ensures Verdict(CsvRow(n, "Hello", "", "", "", ""), ExistingWords(["hello"])).status == Duplicate
  {
    HelloNormalized();
    assert "hello" in ExistingWords(["hello"]) by {
      assert "hello" in ["hello"];
    }
  }

  lemma HelloNormalized()
    ensures NormalizeWord("Hello") == "hello"
    ensures NormalizeWord("hello") == "hello"
  {
    assert LowerChar('H') == 'h';
    assert ToLower("Hello") == "hello";
    assert ToLower("hello") == "hello";
    TrimTrimmed("hello");
  }

  // ---------------------------------------------------------------------------
  // validateAndParse

  /** The answer of the fetch of the user's stored words. */
  datatype FetchOutcome = Fetched(words: seq<string>) | NotAuthenticated | FetchFailed(message: string)

  const NotAuthenticatedMessage := "Not authenticated"

  /** `validateAndClassifyRows`: the fetch either yields the stored words or raises its error. */
  function ValidateAndClassify(rows: seq<CsvRow>, fetch: FetchOutcome): Result<(seq<RowResult>, ImportSummary), string>
  {
    match fetch
    case NotAuthenticated => Failure(NotAuthenticatedMessage)
    case FetchFailed(message) => Failure(message)
    case Fetched(words) =>
      var results := Classified(rows, ExistingWords(words));
      Success((results, SummaryOf(rows, results)))
  }

  /**
   * `validateAndClassifyRows` throws exactly when the stored words cannot be
   * fetched, with the store's message; otherwise it gives the row's verdict
   * for every row, in order, and counters that add up to the row count.
   */
  lemma ValidateAndClassifyOutcomes(rows: seq<CsvRow>, fetch: FetchOutcome)
    ensures ValidateAndClassify(rows, fetch).Failure? <==> !fetch.Fetched?
    ensures fetch.NotAuthenticated? ==> ValidateAndClassify(rows, fetch) == Failure(NotAuthenticatedMessage)
    ensures fetch.FetchFailed? ==> ValidateAndClassify(rows, fetch) == Failure(fetch.message)
    ensures fetch.Fetched? ==>
              var (results, summary) := ValidateAndClassify(rows, fetch).value;
              && |results| == |rows|
              && (forall i :: 0 <= i < |rows| ==> results[i] == Verdict(rows[i], ExistingWords(fetch.words)))
              && summary.totalRowsParsed == |rows|
              && summary.rowsValidToImport + summary.rowsSkippedDuplicates + summary.rowsSkippedInvalid == |rows|
              && summary.rowsImported == 0
  {
    if fetch.Fetched? {
      var results := Classified(rows, ExistingWords(fetch.words));
      ClassifiedAt(rows, ExistingWords(fetch.words));
      CountsAddUp(results);
    }
  }

  datatype UploadStatus = Idle | Validating | Ready | Saving | Completed | Failed

  datatype Session = Session(
    fileName: string,
    fileSizeBytes: nat,
    fileType: string,
    status: UploadStatus,
    headerValid: bool,
    rows: seq<CsvRow>,
    rowResults: seq<RowResult>,
    summary: ImportSummary,
    errors: seq<string>)

  /** What `validateAndParse` resolves to; `errors` repeats the session's errors. */
  datatype Validated = Validated(session: Session, errors: seq<string>)

  function ZeroSummary(total: nat): ImportSummary
  {
    ImportSummary(total, 0, 0, 0, 0)
  }

  /**
   * `validateAndParse`: a refused file stops before the text is parsed, a
   * refused header or an empty data section gives a failed session, and
   * otherwise the rows are classified; a failed fetch rejects the whole call.
   */
  function ValidateAndParse(file: FileInfo, text: string, fetch: FetchOutcome): Result<Validated, string>
  {
    var fileErrors := FileErrors(file);
    if fileErrors != [] then
      Success(Validated(
        Session(file.name, file.size, file.mimeType, Failed, false, [], [], ZeroSummary(0), fileErrors),
        fileErrors))
    else
      AfterParse(file, ParseFile(text), fetch)
  }

  /** The part of `validateAndParse` after `parseCsvFile` has answered `parsed`. */
  function AfterParse(file: FileInfo, parsed: ParsedFile, fetch: FetchOutcome): Result<Validated, string>
  {
    if !parsed.headerValid || |parsed.rows| == 0 then
      Success(Validated(
        Session(file.name, file.size, file.mimeType, Failed, parsed.headerValid, parsed.rows, [],
                ZeroSummary(|parsed.rows|), parsed.errors),
        parsed.errors))
    else
      match ValidateAndClassify(parsed.rows, fetch)
      case Failure(e) => Failure(e)
      case Success((rowResults, summary)) =>
        Success(Validated(
          Session(file.name, file.size, file.mimeType, Ready, true, parsed.rows, rowResults, summary, []),
          []))
  }

  /** A refused file gives a failed session carrying the file errors, whatever the text and the store hold. */
  lemma RefusedFileFails(file: FileInfo, text: string, fetch: FetchOutcome, text': string, fetch': FetchOutcome)
    requires FileErrors(file) != []
    ensures ValidateAndParse(file, text, fetch).Success?
    ensures var s := ValidateAndParse(file, text, fetch).value.session;
      s.status == Failed && !s.headerValid && s.rows == [] && s.errors == FileErrors(file)
      && ValidateAndParse(file, text, fetch).value.errors == s.errors
    ensures ValidateAndParse(file, text, fetch) == ValidateAndParse(file, text', fetch')
  {
  }

  /**
   * A readable file whose header is refused, or that has no data rows, gives
   * a failed session with the parse errors, and the store is never asked.
   */
  lemma UnusableTextFails(file: FileInfo, text: string, fetch: FetchOutcome, fetch': FetchOutcome)
    requires FileErrors(file) == []
    requires !ParseFile(text).headerValid || ParseFile(text).rows == []
    ensures ValidateAndParse(file, text, fetch).Success?
    ensures var s := ValidateAndParse(file, text, fetch).value.session;
      s.status == Failed && s.headerValid == ParseFile(text).headerValid && s.rows == []
      && s.errors == ParseFile(text).errors && s.rowResults == [] && s.summary == ZeroSummary(0)
    ensures ValidateAndParse(file, text, fetch) == ValidateAndParse(file, text, fetch')
  {
    RefusedHeaderHasNoRows(text);
  }

  /**
   * A header-only file fails although its header is accepted, and the failed
   * session explains nothing beyond the tokenizer's own warnings.
   */
  lemma HeaderOnlyFails(file: FileInfo, text: string, fetch: FetchOutcome)
    requires FileErrors(file) == []
    requires |Tokenize(text).rows| == 1 && HeaderErrors(Tokenize(text).rows[0]) == []
    ensures ValidateAndParse(file, text, fetch).Success?
    ensures var s := ValidateAndParse(file, text, fetch).value.session;
      s.status == Failed && s.headerValid && s.errors == Tokenize(text).errors
  {
    HeaderOnlyFile(text);
  }

  /**
   * A ready session has an accepted header, at least one row, one verdict per
   * row in order, counters that add up and no error: the tokenizer's
   * warnings are dropped.
   */
  lemma ReadySession(file: FileInfo, text: string, fetch: FetchOutcome)
    requires ValidateAndParse(file, text, fetch).Success?
    requires ValidateAndParse(file, text, fetch).value.session.status == Ready
    ensures var v := ValidateAndParse(file, text, fetch).value;
      var s := v.session;
      && s.headerValid && s.rows != [] && s.errors == [] && v.errors == []
      && s.rows == ParseFile(text).rows
      && |s.rowResults| == |s.rows|
      && (forall i :: 0 <= i < |s.rows| ==> s.rowResults[i].rowNumber == s.rows[i].rowNumber)
      && s.summary.totalRowsParsed == |s.rows|
      && s.summary.rowsValidToImport + s.summary.rowsSkippedDuplicates + s.summary.rowsSkippedInvalid == |s.rows|
      && s.summary.rowsImported == 0
  {
    var parsed := ParseFile(text);
    assert FileErrors(file) == [];
    ReadyAfterParse(file, parsed, fetch);
    var existing := ExistingWords(fetch.words);
    CountsAddUp(Classified(parsed.rows, existing));
    ClassifiedNumbers(parsed.rows, existing);
  }

  /** A ready session holds the parsed rows, their verdicts and the counts of those verdicts. */
  lemma ReadyAfterParse(file: FileInfo, parsed: ParsedFile, fetch: FetchOutcome)
    requires AfterParse(file, parsed, fetch).Success?
    requires AfterParse(file, parsed, fetch).value.session.status == Ready
    ensures var results := Classified(parsed.rows, ExistingWords(fetch.words));
      && fetch.Fetched? && parsed.headerValid && parsed.rows != []
      && AfterParse(file, parsed, fetch).value
         == Validated(Session(file.name, file.size, file.mimeType, Ready, true, parsed.rows, results,
                              SummaryOf(parsed.rows, results), []), [])
  {
  }

  /**
   * The call is rejected only when the file and its header pass, there are
   * data rows, and the stored words could not be fetched; the session is
   * ready exactly when the fetch succeeds too.
   */
  lemma OutcomeCases(file: FileInfo, text: string, fetch: FetchOutcome)
    ensures var usable := FileErrors(file) == [] && ParseFile(text).headerValid && ParseFile(text).rows != [];
      && (ValidateAndParse(file, text, fetch).Failure? <==> usable && !fetch.Fetched?)
      && (ValidateAndParse(file, text, fetch).Success? ==>
            (ValidateAndParse(file, text, fetch).value.session.status == Ready <==> usable))
  {
  }

  // ---------------------------------------------------------------------------
  // saveValidRows

  /** A card as handed to the bulk insert. */
  datatype NewFlashcard = NewFlashcard(
    word: string,
    phonetic: Option<string>,
    definition: string,
    example: Option<string>,
    translation: string,
    status: CardStatus)

  /** The answer of the bulk insert: the number of cards stored, or an error with or without a message. */
  datatype InsertOutcome = Inserted(count: nat) | InsertFailed(message: Option<string>)

  datatype SaveResult = SaveResult(success: bool, rowsImported: nat, errors: seq<string>)

  const SaveFailedPrefix := "Failed to save flashcards: "
  const UnknownErrorMessage := "Unknown error"

  /** The first result carrying `rowNumber`, like `rowResults.find`. */
  function FindResult(results: seq<RowResult>, rowNumber: int): (r: Option<RowResult>)
    ensures r.None? <==> forall k :: 0 <= k < |results| ==> results[k].rowNumber != rowNumber
    ensures r.Some? ==> exists k :: FirstMatch(results, rowNumber, k) && results[k] == r.value
  {
    if results == [] then None
    else if results[0].rowNumber == rowNumber then
      assert FirstMatch(results, rowNumber, 0);
      Some(results[0])
    else
      var r := FindResult(results[1..], rowNumber);
      assert forall k :: 1 <= k < |results| ==> results[k] == results[1..][k - 1];
      if r.Some? then
        ghost var k :| FirstMatch(results[1..], rowNumber, k) && results[1..][k] == r.value;
        assert FirstMatch(results, rowNumber, k + 1);
        r
      else r
  }

  /** Position `k` holds the first result numbered `rowNumber`. */
  predicate FirstMatch(results: seq<RowResult>, rowNumber: int, k: int)
  {
    0 <= k < |results| && results[k].rowNumber == rowNumber
    && forall j :: 0 <= j < k ==> results[j].rowNumber != rowNumber
  }

  /** A row is sent when the first result with its number says valid. */
  predicate SelectedForSave(row: CsvRow, results: seq<RowResult>)
  {
    var r := FindResult(results, row.rowNumber);
    r.Some? && r.value.status == Valid
  }

  /** The rows sent, in their original order. */
  function SelectValidRows(rows: seq<CsvRow>, results: seq<RowResult>): seq<CsvRow>
  {
    if rows == [] then []
    else (if SelectedForSave(rows[0], results) then [rows[0]] else []) + SelectValidRows(rows[1..], results)
  }

  /** `validRows.map(...)`: trimmed required fields, an empty phonetic or example left out, status NEW. */
  function ToNewFlashcard(row: CsvRow): NewFlashcard
  {
    NewFlashcard(Trim(row.word), if row.phonetic == "" then None else Some(row.phonetic), Trim(row.definition),
                 if row.example == "" then None else Some(row.example), Trim(row.translation), New)
  }

  function ToNewFlashcards(rows: seq<CsvRow>): (cards: seq<NewFlashcard>)
    ensures |cards| == |rows|
  {
    seq(|rows|, i requires 0 <= i < |rows| => ToNewFlashcard(rows[i]))
  }

  /** `saveValidRows` with the bulk insert as a parameter; it is not called when nothing is to be sent. */
  function SaveValidRows(rows: seq<CsvRow>, results: seq<RowResult>, insert: seq<NewFlashcard> -> InsertOutcome): SaveResult
  {
    var validRows := SelectValidRows(rows, results);
    if |validRows| == 0 then SaveResult(true, 0, [])
    else
      match insert(ToNewFlashcards(validRows))
      case Inserted(count) => SaveResult(true, count, [])
      case InsertFailed(message) =>
        SaveResult(false, 0, [SaveFailedPrefix + (if message.Some? then message.value else UnknownErrorMessage)])
  }

  /**
   * With nothing to send the save succeeds with 0 cards and no error, and
   * the insert is not consulted; otherwise a failed insert gives one error
   * and 0 cards, and a successful one reports the store's own count, which
   * may be smaller than the number of rows sent.
   */
  lemma SaveOutcomes(rows: seq<CsvRow>, results: seq<RowResult>, insert: seq<NewFlashcard> -> InsertOutcome,
                     insert': seq<NewFlashcard> -> InsertOutcome)
    ensures var sent := SelectValidRows(rows, results);
      var r := SaveValidRows(rows, results, insert);
      && (sent == [] ==> r == SaveResult(true, 0, []) && r == SaveValidRows(rows, results, insert'))
      && (sent != [] && insert(ToNewFlashcards(sent)).InsertFailed? ==>
            !r.success && r.rowsImported == 0 && |r.errors| == 1)
      && (sent != [] && insert(ToNewFlashcards(sent)).Inserted? ==>
            r.success && r.rowsImported == insert(ToNewFlashcards(sent)).count && r.errors == [])
      && (r.success <==> r.errors == [])
  {
  }

  /** The rows sent are exactly the rows whose first result is valid, in their order. */
  lemma {:induction false} SelectValidRowsMeaning(rows: seq<CsvRow>, results: seq<RowResult>)
    ensures |SelectValidRows(rows, results)| <= |rows|
    ensures forall row :: row in SelectValidRows(rows, results) <==> row in rows && SelectedForSave(row, results)
    decreases |rows|
  {
    if rows != [] {
      SelectValidRowsMeaning(rows[1..], results);
      assert rows == [rows[0]] + rows[1..];
    }
  }

  /** Numbered rows, as `parseCsvFile` produces them: row `i` carries number `i + 1`. */
  predicate Numbered(rows: seq<CsvRow>)
  {
    forall i :: 0 <= i < |rows| ==> rows[i].rowNumber == i + 1
  }

  /** Among the verdicts on numbered rows, the first result for row `i` is verdict `i`. */
  lemma FindOwnVerdict(rows: seq<CsvRow>, existing: set<string>, i: int)
    requires Numbered(rows) && 0 <= i < |rows|
    ensures FindResult(Classified(rows, existing), rows[i].rowNumber) == Some(Classified(rows, existing)[i])
  {
    var results := Classified(rows, existing);
    ClassifiedAt(rows, existing);
    forall k | 0 <= k < |results| ensures results[k].rowNumber == k + 1 {
      VerdictMeaning(rows[k], existing);
    }
    var r := FindResult(results, rows[i].rowNumber);
    assert results[i].rowNumber == rows[i].rowNumber;
  }

  /**
   * For the rows `parseCsvFile` extracts and their verdicts, the rows sent
   * are the valid ones, and there are exactly `rowsValidToImport` of them.
   */
  lemma {:induction false} SentRowsAreValidRows(rows: seq<CsvRow>, existing: set<string>, n: nat)
    requires Numbered(rows) && n <= |rows|
    ensures |SelectValidRows(rows[n..], Classified(rows, existing))|
         == CountStatus(Classified(rows, existing), Valid) - CountStatus(Classified(rows, existing)[..n], Valid)
    decreases |rows| - n
  {
    var results := Classified(rows, existing);
    if n == |rows| {
      assert results[..n] == results;
      assert rows[n..] == [];
    } else {
      SentRowsAreValidRows(rows, existing, n + 1);
      FindOwnVerdict(rows, existing, n);
      SelectStep(rows, results, n);
      CountPrefixStep(results, n);
      CountPrefixBound(results, n + 1);
    }
  }

  lemma SelectStep(rows: seq<CsvRow>, results: seq<RowResult>, n: nat)
    requires n < |rows|
    ensures |SelectValidRows(rows[n..], results)|
         == (if SelectedForSave(rows[n], results) then 1 else 0) + |SelectValidRows(rows[n + 1..], results)|
  {
    assert rows[n..][1..] == rows[n + 1..];
    assert rows[n..][0] == rows[n];
  }

  lemma CountPrefixStep(results: seq<RowResult>, n: nat)
    requires n < |results|
    ensures CountStatus(results[..n + 1], Valid)
         == CountStatus(results[..n], Valid) + (if results[n].status == Valid then 1 else 0)
  {
    assert results[..n + 1][..n] == results[..n];
  }

  lemma {:induction false} CountPrefixBound(results: seq<RowResult>, n: nat)
    requires n <= |results|
    ensures CountStatus(results[..n], Valid) <= CountStatus(results, Valid)
    decreases |results| - n
  {
    if n < |results| {
      CountPrefixBound(results, n + 1);
      assert results[..n + 1][..n] == results[..n];
    } else {
      assert results[..n] == results;
    }
  }

  /** The save sends exactly as many cards as the classification counted valid. */
  lemma SentCountIsValidCount(rows: seq<CsvRow>, existing: set<string>)
    requires Numbered(rows)
    ensures |SelectValidRows(rows, Classified(rows, existing))| == SummaryOf(rows, Classified(rows, existing)).rowsValidToImport
  {
    SentRowsAreValidRows(rows, existing, 0);
    assert rows[0..] == rows;
    assert Classified(rows, existing)[..0] == [];
  }

  /** The rows `parseCsvFile` extracts are numbered. */
  lemma ExtractedRowsNumbered(dataRows: seq<seq<string>>, ix: ColumnIndices)
    ensures Numbered(ExtractedRows(dataRows, ix))
  {
  }

  /** Every card sent is NEW and has its word, definition and translation trimmed and non-empty. */
  lemma SentCardsComplete(rows: seq<CsvRow>, existing: set<string>)
    requires Numbered(rows)
    ensures forall c :: c in ToNewFlashcards(SelectValidRows(rows, Classified(rows, existing))) ==>
      c.status == New && c.word != "" && c.definition != "" && c.translation != ""
      && IsTrimmed(c.word) && IsTrimmed(c.definition) && IsTrimmed(c.translation)
  {
    var sent := SelectValidRows(rows, Classified(rows, existing));
    forall c | c in ToNewFlashcards(sent)
      ensures c.status == New && c.word != "" && c.definition != "" && c.translation != ""
        && IsTrimmed(c.word) && IsTrimmed(c.definition) && IsTrimmed(c.translation)
    {
      var k :| 0 <= k < |sent| && ToNewFlashcards(sent)[k] == c;
      SentRowIsValid(rows, existing, sent[k]);
      ValidRowCard(sent[k], existing);
    }
  }

  /** A row that is sent was classified valid. */
  lemma SentRowIsValid(rows: seq<CsvRow>, existing: set<string>, row: CsvRow)
    requires Numbered(rows)
    requires row in SelectValidRows(rows, Classified(rows, existing))
    ensures Verdict(row, existing).status == Valid
  {
    SelectValidRowsMeaning(rows, Classified(rows, existing));
    var i :| 0 <= i < |rows| && rows[i] == row;
    FindOwnVerdict(rows, existing, i);
    ClassifiedAt(rows, existing);
  }

  /** The card made from a valid row is NEW with its required fields trimmed and present. */
  lemma ValidRowCard(row: CsvRow, existing: set<string>)
    requires Verdict(row, existing).status == Valid
    ensures var c := ToNewFlashcard(row);
      c.status == New && c.word != "" && c.definition != "" && c.translation != ""
      && IsTrimmed(c.word) && IsTrimmed(c.definition) && IsTrimmed(c.translation)
  {
    VerdictMeaning(row, existing);
  }
}
