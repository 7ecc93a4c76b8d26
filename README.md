# A verified model of the vocabulary importer of VocabMaster

VocabMaster is a flashcard trainer. Users can import vocabulary from a CSV
file. This project models that import pipeline, plus the two list utilities
the trainer applies to stored cards. Every model is written in Dafny and
carries its proofs.

- **The CSV tokenizer** (`parseCsv`). A two-state scanner, outside or inside
  quotes, with one character of lookahead.
  - Cells are trimmed.
  - Blank lines are dropped.
  - A doubled quote inside quotes stands for one quote.
  - An unclosed quote is reported, and the rows read so far are kept.
  - The imperative loop (`Csv.ParseCsv`) is proved equal to a recursive
    specification, `Tokenize`.
  - `CsvRoundTrip` proves what `Tokenize` reads back from a grid written in
    the usual comma-separated form (section 2 of RFC 4180, with `\n` or
    `\r\n` line breaks): the grid's cells trimmed, with its blank rows
    dropped, and no error.
- **The header checks.**
  - `validateHeader` requires the five columns `word`, `phonetic`,
    `definition`, `example` and `translation`. Header cells are compared
    after trimming and lower-casing.
  - `getColumnIndices` finds each column's first position. Only
    `phonetic` and `example` may be missing.
- **The import service** (`csvImportService.ts`):
  - the file constraints (non-empty, under 10 MB, a `.csv` name);
  - the extraction of typed, numbered rows below the header;
  - the classification of each row as duplicate, invalid or valid, with
    the summary counters;
  - the status of the upload session;
  - the choice and shape of the cards handed to the bulk insert.
- **The table comparator** (`getComparator`). A three-way comparison on one
  field, using JavaScript's `<`. It is negated unless the order is `desc`.
- **The study queue** (`setStudyQueue`). Learning cards first, then new
  cards, then mastered cards, with each group shuffled.

## Behaviour the model exposes

- **JavaScript built-ins.**
  - `trim` removes exactly the ECMAScript WhiteSpace and LineTerminator
    code points.
  - `toLowerCase` is modelled on ASCII letters only.
  - String `<` compares character by character, and a proper prefix is
    smaller.
  - Any comparison with `undefined` is false. So a card without a phonetic
    compares equal to every card when sorting by phonetic
    (`Comparator.UndefinedComparesEqual`).
- **Status sort order.** Sorting by status compares the stored strings
  `"LEARNING"`, `"MASTERED"` and `"NEW"`. The ascending order is therefore
  learning, mastered, new (`Comparator.StatusSortOrder`). It is not the
  order of the study queue.
- **An unreachable error.** Once `validateHeader` accepts a header,
  `getColumnIndices` always succeeds. So the error "Failed to extract column
  indices from header" can never be produced (`Csv.ValidHeaderHasIndices`,
  `CsvImport.HeaderAcceptedIff`).
- **A header-only file** fails with no error beyond the tokenizer's own
  warnings (`CsvImport.HeaderOnlyFails`):
  - `parseCsvFile` accepts its header and returns no rows;
  - `validateAndParse` then marks the session failed;
  - the message "CSV file is empty or contains no data rows" is only
    produced for a text with no row at all.
- **Duplicates beat missing fields.** A row whose word is already stored is
  a duplicate, whatever fields it lacks (`CsvImport.DuplicateWinsOverInvalid`).
- **Blank required fields make a row invalid.** A row that is not a
  duplicate is invalid exactly when its word, definition or translation is
  blank after trimming, and its errors name those fields in that order: a
  missing phonetic or example never matters (`CsvImport.VerdictMeaning`,
  `CsvImport.RequiredFieldErrorsMeaning`).
- **What the import reports.** The save reports the count the store
  returns, not the number of rows sent. The number of rows sent is exactly
  the summary's `rowsValidToImport` (`CsvImport.SentCountIsValidCount`).

## Model

| member | source | states |
|---|---|---|
| JsText.Trim | src/utils/csv.ts:48 | the result neither starts nor ends with a white-space character |
| JsText.TrimCutsSpaceOnly | src/utils/csv.ts:53 | the trimmed text is an infix of the input, and only white space is cut on either side |
| JsText.TrimIdempotent | src/utils/csv.ts:68 | trimming a trimmed text changes nothing |
| JsText.TrimAllSpace | src/utils/csv.ts:68 | a text of white space only trims to the empty string |
| JsText.ToLower | src/utils/csv.ts:89 | same length; no capital letter is left, each capital becomes its small letter, and every other character is kept |
| JsText.ToLowerIdempotent | src/utils/csv.ts:89 | lower-casing a lower-cased text changes nothing |
| JsText.IndexOf | src/utils/csv.ts:114-118 | -1 exactly when the value is absent; otherwise a position holding it with no earlier occurrence |
| Csv.ParseCsv | src/utils/csv.ts:19-80 | the imperative loop returns exactly `Tokenize(csvText)`; the errors are none or the single unclosed-quote message |
| Csv.ScanChar | src/utils/csv.ts:28-63 | one loop iteration updates rows, row, field and quote mode as one scanner step, consuming 2 characters for `""` inside quotes and for `\r\n`, and 1 otherwise |
| Csv.TokenizeWellFormed | src/utils/csv.ts:46-71 | every emitted cell is trimmed, and every emitted row has a non-empty cell (blank lines give no row) |
| Csv.TokenizeErrors | src/utils/csv.ts:74-79 | an error is reported exactly when the text ends inside quotes; the rows are returned either way |
| Csv.ValidateHeader | src/utils/csv.ts:86-101 | the errors are the missing-column messages; valid exactly when there is none, i.e. every required column names a trimmed, lower-cased header cell |
| Csv.MissingMessagesMeaning | src/utils/csv.ts:91-95 | a column's message is listed exactly when the column is required and absent |
| Csv.MissingColumnMessageInjective | src/utils/csv.ts:93 | distinct columns give distinct messages |
| Csv.MissingMessagesBound | src/utils/csv.ts:91-95 | at most one message per required column, each naming a missing one |
| Csv.HeaderErrorsMeaning | src/utils/csv.ts:86-101 | a per-column if-and-only-if for the message, at most five errors, and none exactly when all five columns are present |
| Csv.HeaderErrorsInOrder | src/utils/csv.ts:87-95 | the messages come in the order word, phonetic, definition, example, translation |
| Csv.HeaderCaseInsensitive | src/utils/csv.ts:89 | `" Word "`, `"PHONETIC"`, `"Definition"`, `"example"`, `"Translation\t"` is an accepted header |
| Csv.GetColumnIndices | src/utils/csv.ts:106-131 | no indices exactly when word, definition or translation is missing; otherwise the first position of each column, with -1 for a missing phonetic or example |
| Csv.ValidHeaderHasIndices | src/utils/csv.ts:106-131 | an accepted header always yields indices, all five of them non-negative |
| Csv.OptionalColumnsMayBeMissing | src/utils/csv.ts:120-130 | `word,definition,translation` yields indices (0, -1, 1, -1, 2) but is refused by the header check with the phonetic and example messages |
| Csv.Step | src/utils/csv.ts:28-63 | one scanner step of the specification; `Csv.ScanChar` is proved equal to it, and `Csv.StepKeepsStateOk` shows each step keeps every finished cell trimmed and every finished row non-blank |
| Csv.Scan | src/utils/csv.ts:27-64 | the scanner over the whole text; `Csv.ParseCsv`'s loop invariant is `Scan` of the rest of the text, and `Csv.TokenizeWellFormed` and `Csv.TokenizeErrors` state its properties |
| Csv.Finish | src/utils/csv.ts:66-79 | the flush of the last row and the unclosed-quote check; `Csv.TokenizeErrors` states that the error is reported exactly when the scan ends inside quotes |
| Csv.Tokenize | src/utils/csv.ts:19-80 | the specification of the tokenizer; its contracts are `Csv.ParseCsv`, `Csv.TokenizeWellFormed`, `Csv.TokenizeErrors` and the `CsvRoundTrip` lemmas |
| CsvRoundTrip.RoundTrip | src/utils/csv.ts:19-80 | tokenizing any grid of plain and quoted cells, written with `\n` or `\r\n`, gives back its trimmed cells, blank lines dropped, with no error |
| CsvRoundTrip.TrailingLineBreak | src/utils/csv.ts:50-59 | a line break after the last line adds no row |
| CsvRoundTrip.UnclosedQuoteKeepsRows | src/utils/csv.ts:74-77 | an unclosed quote is reported, the lines before it are kept, and the rest of the text becomes one cell |
| CsvRoundTrip.QuotedContent | src/utils/csv.ts:60-63 | inside quotes, commas and line breaks are kept in the field verbatim |
| CsvRoundTrip.SingleCell | src/utils/csv.ts:66-72 | text without quote, comma or line break is one trimmed cell, or no row when blank |
| CsvRoundTrip.NoQuoteNoError | src/utils/csv.ts:74-77 | text without a quote character never reports an error |
| CsvRoundTrip.QuotedCommaExample | src/utils/csv.ts:36-41 | `a,"b,c",d` is one row of three cells |
| CsvRoundTrip.EscapedQuoteExample | src/utils/csv.ts:32-35 | `x,"a""b",y` is one row whose middle cell is `a"b` |
| Flashcards.StatusTextInjective | src/type-schema/common.ts:1-5 | the three states are stored as three distinct strings |
| CsvImport.ValidateFile | src/services/csvImportService.ts:11-38 | the errors are those of the size and extension checks, in order; valid exactly when 0 < size < 10 MB and the lower-cased name ends with `.csv` |
| CsvImport.FileErrorsMeaning | src/services/csvImportService.ts:14-26 | empty exactly at size 0, too large exactly from the ceiling up, never both, an extension error exactly without `.csv`, at most two errors |
| CsvImport.MimeTypeIgnored | src/services/csvImportService.ts:28-32 | the MIME type never changes the verdict |
| CsvImport.UpperCaseExtensionAccepted | src/services/csvImportService.ts:22-23 | `WORDS.CSV` passes: the extension test is case-insensitive |
| CsvImport.CellAtMeaning | src/services/csvImportService.ts:87-95 | an extracted field is trimmed, and is empty for an absent column or a row too short for it |
| CsvImport.ExtractRows | src/services/csvImportService.ts:82-105 | the loop builds exactly the numbered typed rows of the data rows |
| CsvImport.ExtractedRowsAt | src/services/csvImportService.ts:83-104 | one row per data row; row i is numbered i + 1 and takes each field from its column |
| CsvImport.ParseCsvFile | src/services/csvImportService.ts:43-118 | returns exactly `ParseFile(text)`: tokenizer warnings first, then the reason for refusing the header, or the typed rows |
| CsvImport.RefusedHeaderHasNoRows | src/services/csvImportService.ts:58-79 | a refused header gives no rows and at least one error |
| CsvImport.HeaderAcceptedIff | src/services/csvImportService.ts:58-79 | the header is accepted exactly when the text has a row and that row names all five columns |
| CsvImport.AcceptedHeaderRows | src/services/csvImportService.ts:81-111 | with an accepted header there is one typed row per grid row after the first, built from its cells, and the tokenizer warnings are kept |
| CsvImport.ExtractedRowsTrimmed | src/services/csvImportService.ts:85-95 | every extracted row is numbered by its position, and every field is trimmed |
| CsvImport.HeaderOnlyFile | src/services/csvImportService.ts:58-111 | a file holding only an accepted header has `headerValid` true, no rows and no error of its own |
| CsvImport.ClassifyRows | src/services/csvImportService.ts:147-204 | the loop gives one verdict per row, in order, and counters equal to the number of verdicts of each status; they add up to the row count, and nothing is imported yet |
| CsvImport.ClassifyRow | src/services/csvImportService.ts:153-193 | the loop body returns the row's verdict |
| CsvImport.CheckRequiredFields | src/services/csvImportService.ts:155-164 | the required-field messages of the row, in order |
| CsvImport.ClassifiedAt | src/services/csvImportService.ts:152-194 | verdict i is the verdict on row i |
| CsvImport.ClassifiedNumbers | src/services/csvImportService.ts:169-191 | verdict i carries the number of row i |
| CsvImport.CountsAddUp | src/services/csvImportService.ts:196-202 | the valid, duplicate and invalid counts add up to the number of verdicts |
| CsvImport.VerdictMeaning | src/services/csvImportService.ts:166-193 | duplicate exactly when the normalized word is non-empty and stored, with no error; otherwise invalid exactly when a required field is blank, with those errors; otherwise valid |
| CsvImport.RequiredFieldErrorsMeaning | src/services/csvImportService.ts:155-164 | each blank field has its message and no other message appears; at most three messages, each at most once, in the strict order word, definition, translation; none exactly when all three are present |
| CsvImport.DuplicateWinsOverInvalid | src/services/csvImportService.ts:166-176 | a stored word makes `Hello` with every other field empty a duplicate, not invalid |
| CsvImport.ValidateAndClassify | src/services/csvImportService.ts:123-205 | the fetch of the stored words followed by classification; `CsvImport.ValidateAndClassifyOutcomes` states its outcomes |
| CsvImport.ValidateAndClassifyOutcomes | src/services/csvImportService.ts:123-205 | rejected exactly when the fetch fails, with "Not authenticated" or the store's message; otherwise one verdict per row, in order, and counters that add up to the row count with nothing imported |
| CsvImport.ValidateAndParse | src/services/csvImportService.ts:210-283 | the whole upload check; its contracts are `CsvImport.RefusedFileFails`, `CsvImport.UnusableTextFails`, `CsvImport.HeaderOnlyFails`, `CsvImport.ReadySession` and `CsvImport.OutcomeCases` |
| CsvImport.AfterParse | src/services/csvImportService.ts:241-283 | the part of `validateAndParse` after `parseCsvFile`; `CsvImport.ReadyAfterParse` and `CsvImport.UnusableTextFails` state its outcomes |
| CsvImport.RefusedFileFails | src/services/csvImportService.ts:216-239 | a refused file gives a failed session carrying the file errors, whatever the text and the stored words |
| CsvImport.UnusableTextFails | src/services/csvImportService.ts:241-264 | a refused header or no data rows gives a failed session with the parse errors, and the stored words are never consulted |
| CsvImport.HeaderOnlyFails | src/services/csvImportService.ts:241-264 | a header-only file fails although its header is accepted, with only the tokenizer's warnings as errors |
| CsvImport.ReadyAfterParse | src/services/csvImportService.ts:266-282 | a ready session holds the parsed rows, their verdicts, their summary and no error |
| CsvImport.ReadySession | src/services/csvImportService.ts:210-283 | a ready session has an accepted header, rows, one verdict per row with its number, counters adding up, and no error |
| CsvImport.OutcomeCases | src/services/csvImportService.ts:127-141 | the call is rejected exactly when the file and header pass, there are rows, and the fetch fails; otherwise the session is ready exactly when all three pass |
| CsvImport.FindResult | src/services/csvImportService.ts:296 | none exactly when no verdict has the number; otherwise the first verdict that has it |
| CsvImport.SaveOutcomes | src/services/csvImportService.ts:300-322 | nothing to send: success, 0, no error, insert not consulted; a failed insert: one error and 0; a successful one: the store's count; success exactly when there is no error |
| CsvImport.SaveValidRows | src/services/csvImportService.ts:288-323 | the save; `CsvImport.SaveOutcomes` states its three outcomes, and `CsvImport.SentCountIsValidCount` how many cards it sends |
| CsvImport.SelectValidRows | src/services/csvImportService.ts:294-297 | the `rows.filter` of the save; `CsvImport.SelectValidRowsMeaning` and `CsvImport.SentRowsAreValidRows` state which rows it keeps |
| CsvImport.ToNewFlashcard | src/services/csvImportService.ts:305-315 | the card built from a row; `CsvImport.SentCardsComplete` states its fields |
| CsvImport.SelectValidRowsMeaning | src/services/csvImportService.ts:294-298 | the rows sent are exactly the rows whose first verdict is valid |
| CsvImport.FindOwnVerdict | src/services/csvImportService.ts:296-297 | for numbered rows, the verdict found for row i is verdict i |
| CsvImport.SentRowsAreValidRows | src/services/csvImportService.ts:294-298 | the number of rows sent from position n on is the number of valid verdicts from n on |
| CsvImport.SentCountIsValidCount | src/services/csvImportService.ts:294-302 | the save sends exactly `rowsValidToImport` cards |
| CsvImport.ExtractedRowsNumbered | src/services/csvImportService.ts:85 | the extracted rows are numbered 1, 2, … |
| CsvImport.SentCardsComplete | src/services/csvImportService.ts:306-313 | every card sent is NEW, with its word, definition and translation trimmed and non-empty |
| Comparator.GetComparator | src/utils/getComparator.ts:16-23 | the comparator is antisymmetric, puts each card level with itself, and returns -1, 0 or 1 |
| Comparator.DescendingComparator | src/utils/getComparator.ts:3-14 | the three-way comparison; `Comparator.DescendingComparatorMeaning` states its three results |
| Comparator.DescendingComparatorMeaning | src/utils/getComparator.ts:3-14 | -1 exactly when b's field is smaller, 1 exactly when it is greater, 0 otherwise or with no key |
| Comparator.JsLessStrictOrder | src/utils/getComparator.ts:7-12 | `<` on field values is irreflexive and asymmetric |
| Comparator.NoKeyKeepsOrder | src/utils/getComparator.ts:4-6 | with no key every pair compares equal |
| Comparator.DescIsNegatedAsc | src/utils/getComparator.ts:20-22 | `desc` is the ascending comparator negated, and no order means ascending |
| Comparator.AscendingPutsSmallerFirst | src/utils/getComparator.ts:16-23 | ascending: negative exactly when a's field is smaller, positive exactly when it is greater |
| Comparator.TextLessTotal | src/utils/getComparator.ts:7-10 | distinct strings are ordered one way or the other |
| Comparator.TextLessTransitive | src/utils/getComparator.ts:7-10 | string `<` is transitive |
| Comparator.AscendingConsistent | src/utils/getComparator.ts:7-13 | on a key every card has, 0 exactly for equal fields, and the order is transitive |
| Comparator.UndefinedComparesEqual | src/utils/getComparator.ts:7-13 | sorting by phonetic, a card without one compares equal to every card |
| Comparator.StatusSortOrder | src/utils/getComparator.ts:7-12 | by status, ascending order is learning, mastered, new |
| StudyQueue.Filter | src/utils/setStudyQueue.ts:4-6 | no longer than the input, every card of the status |
| StudyQueue.FilterMultiset | src/utils/setStudyQueue.ts:4-6 | the filter keeps every card of the status as often as it occurs, and nothing else |
| StudyQueue.Partition | src/utils/setStudyQueue.ts:4-6 | the three groups together are the input cards, as a multiset |
| StudyQueue.Shuffle | src/utils/setStudyQueue.ts:9 | the array afterwards is a permutation of the array before |
| StudyQueue.SetStudyQueue | src/utils/setStudyQueue.ts:3-14 | the queue is a permutation of the cards; learning cards, then new, then mastered, each segment exactly the cards of its status |
| StudyQueue.QueueFacts | src/utils/setStudyQueue.ts:11 | three shuffled groups concatenated are a permutation of the cards in rank order |
| StudyQueue.QueueOrder | src/utils/setStudyQueue.ts:11 | groups of learning, new and mastered cards, one after another, are in rank order |

## Left out

- Reading the file (`file.text()`) is not modelled: the text is an input. The `catch` that turns a read failure into "Failed to parse CSV file: …" is left out with it.
- The Supabase calls are not modelled. Authentication and the fetch of the stored words become the `FetchOutcome` input: the words, "Not authenticated", or the store's error. The bulk insert becomes a function parameter answering a count or an error with an optional message.
- The MIME check only writes a console warning, and the MIME list is not part of this model. `CsvImport.MimeTypeIgnored` states that the verdict does not depend on it.
- `MAX_FILE_SIZE_BYTES`, `VALID_EXTENSIONS` and `VALID_MIME_TYPES` are not defined in `src/type-schema/common.ts` as it stands. The model fixes the first two at 10 MB and `[".csv"]`, as the importer's user-facing text states them.
- `JsText.ToLower`: Unicode case mapping is not modelled; only ASCII letters are lower-cased. Strings are sequences of characters, not of UTF-16 code units.
- `Comparator.TextLess`: JavaScript's `<` compares UTF-16 code units; the model compares characters. The two orders differ only for characters outside the Basic Multilingual Plane.
- `Comparator.GetComparator`: the comparator is modelled on the declared field types, where `example` is a string and `phonetic` is a string or `undefined`. At run time a stored card can carry `null` in those fields, and `null` compares as 0 against numeric strings; that case is not modelled.
- Numbers are integers. `createdAt` and `lastReviewedAt` are millisecond counts, and no floating-point value is compared.
- `StudyQueue.Shuffle`: `array.sort` with a random comparator is modelled as some permutation. Its distribution, and the randomness itself, are left out.
- `Csv.ParseCsv`: the tokenizer's `rowNumber` counter is never read, so it is not modelled.
- The import page's state machine outside `validateAndParse` is not modelled: the `saving` and `completed` transitions and the update of `rowsImported` after a save. Nor are rendering and the other UI components.
