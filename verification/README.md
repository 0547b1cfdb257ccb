# NCLEX question parser: a Dafny model

The NCLEX quiz application asks a language model for practice questions. The
model replies with CSV text, and `parse_questions_from_csv` in `app.py` turns
that reply into question records. This project models that parser and proves
what it promises:

- `_clean_raw_text` cuts a markdown code fence around the reply. It then
  removes the byte-order mark and replaces typographic quotes and the
  no-break space with plain ASCII.
- `_read_csv_data` splits the cleaned text into lines and finds the first line
  matching the header pattern (case-insensitive, whitespace allowed around the
  commas). It hands the text from that line on to `csv.DictReader` with
  `skipinitialspace=True`, then lower-cases and trims the field names.
- `_parse_csv_row` reads one row into a question:
  - the question text and the question type;
  - the options A to H, and the correct letters (one answer for a
    multiple-choice question, a `;`/`,`/whitespace-separated list for a
    select-all-that-apply question);
  - the rationales and the search term.

  It rejects a row whose question or options are empty, or whose answer names
  none of the options.
- `parse_questions_from_csv` ties these together. It keeps the accepted rows
  in order, and any exception turns the whole reply into no questions.

The files are:

- `wrappers.dfy`: `Option` and `Result`, and the exceptions the model tells
  apart (`Fault`).
- `py_text.dfy`: the Python string operations the parser uses:
  - `str.isspace`, `strip`, `splitlines` and `"\n".join`;
  - lower- and upper-casing.
- `clean.dfy`: `_clean_raw_text`.
- `csv_reader.dfy`: `csv.reader` as CPython's `_csv.c` state machine. It also
  has a writer for RFC 4180 rows, used to state round trips.
- `csv_data.dfy`: the header scan, `csv.DictReader` and `_read_csv_data`.
- `question_row.dfy`: `SATA_KEYWORDS`, `ALL_LETTERS`, `_parse_csv_row` and
  the well-formedness of accepted questions.
- `pipeline.dfy`: `parse_questions_from_csv`.
- `example_rows.dfy` and `examples.dfy`: `CSV_EXAMPLES` and the two questions
  the parser returns for it.

Source loops become methods, and each method is proved equal to a
specification function:

| method | loop it models | specification function |
|---|---|---|
| `CleanRawText` | the replacement loop | `Cleaned` |
| `FindHeader` | the header scan | `HeaderIndex` |
| `BuildCorrectSet` | the `correct_set` updates | `CorrectSet` |
| `ParseAll` | the row comprehension and filter | `ParseRows` |

The `DictReader` whose `fieldnames` property `_read_csv_data` overwrites is a
class with that field.

## Model

| member | source | states |
|---|---|---|
| QuestionRow.AllLettersIncreasing | app.py:28 | `ALL_LETTERS` lists A to H in strictly increasing order, so sorting option letters keeps alphabet order |
| ExampleRows.CanonicalHeader | app.py:17-22 | `CSV_HEADER` has the 17 column names in order, all distinct |
| PyText.Strip | app.py:84 | `str.strip()` leaves no leading or trailing whitespace and never lengthens the text |
| PyText.StripPadding | app.py:84 | whitespace added on either side of a text is removed again, whatever the text |
| PyText.Splitlines | app.py:62 | no line that `splitlines` yields contains a line boundary |
| PyText.SplitlinesJoinLines | app.py:75 | `splitlines` undoes `"\n".join` on boundary-free lines whose last line is not empty |
| PyText.JoinLinesSplitlines | app.py:62 | `"\n".join` undoes `splitlines` on text whose only boundary is `\n` and that does not end with one |
| Clean.StripFences | app.py:50 | the fence cut never lengthens the text; `FenceRoundTrip`, `EmptyFencedBlock` and `StripFencesUnfenced` state what it cuts |
| Clean.FenceRoundTrip | app.py:50 | a body wrapped as an opening fence, a language tag, whitespace, the body, whitespace and a closing fence comes back exactly |
| Clean.EmptyFencedBlock | app.py:50 | a fenced block with nothing inside cleans to the empty text |
| Clean.StripFencesUnfenced | app.py:50 | text that neither starts nor ends with a fence is left unchanged |
| Clean.TableIsCharwise | app.py:52-57 | running the replacement table entry by entry equals rewriting each character on its own |
| Clean.NormalizeUnchanged | app.py:52-57 | text without a BOM, curly quote or no-break space is left unchanged |
| Clean.NormalizeIdempotent | app.py:52-57 | applying the replacements twice is the same as applying them once |
| Clean.NormalizeKeepsPositions | app.py:52-57 | without a BOM, every position is kept; a special character becomes its ASCII stand-in and every other character stays |
| Clean.Cleaned | app.py:47-58 | the cleaned text has no BOM, curly quote or no-break space, and an empty or all-whitespace reply cleans to the empty text |
| Clean.CleanRawText | app.py:47-58 | the fence cut followed by the replacement loop returns `Cleaned(text)` |
| Clean.MarkShieldsOpeningFence | app.py:47-58 | a BOM before an opening fence keeps that fence, because fences are cut before the BOM is removed; the closing fence is still cut |
| Csv.ReadRecords | app.py:74-77 | every record `csv.reader` yields, or its error; empty text yields no records. `RoundTrip` and `QuotedFieldDecodes` state what it reads |
| Csv.SkipInitialSpace | app.py:77 | spaces at the start of a field are skipped |
| Csv.QuotedFieldDecodes | app.py:77 | a quoted field decodes to its text: a doubled quote is one quote, and commas and line breaks inside quotes do not split it |
| Csv.FeedTable | app.py:77 | reading rendered rows resumes after the last line with every row's fields recorded in order |
| Csv.RoundTrip | app.py:77 | rows written as RFC 4180 text read back as exactly their fields |
| CsvData.HeaderIndex | app.py:63-69 | the header index, when there is one, names a matching line, and no earlier line matches; with none, no line matches |
| CsvData.FindHeader | app.py:63-69 | the scan returns -1 exactly when no line matches, otherwise the first matching line |
| CsvData.FirstMatch | app.py:63-69 | any answer meeting the scan's contract is the header index |
| CsvData.HeaderMatches | app.py:65-67 | `header_pattern.match(line.strip())`; `HeaderMatchesIff` characterises it in both directions |
| CsvData.HeaderMatchesIff | app.py:65-67 | a line matches exactly when its trimmed text is the header names in order, each in some letter case under `re.IGNORECASE` folding, separated by commas with optional whitespace around them, followed by anything |
| CsvData.MatchShape | app.py:65-67 | a matched text splits into the names as written, the whitespace around each comma, and the rest after the last name |
| CsvData.HeaderRecognised | app.py:65-67 | a header line in any letter case, with whitespace around the commas and the line, and anything not ending in whitespace after the last name, matches |
| CsvData.CanonicalHeaderRecognised | app.py:65-67 | `CSV_HEADER` joined by commas matches after any indentation |
| CsvData.PreambleIgnored | app.py:66-69 | lines before the first header line only shift the header index |
| CsvData.RowsFrom | app.py:71-72 | without a header line nothing is read and the result is no rows |
| CsvData.CsvRows | app.py:60-80 | on the cleaned text: no header line gives no rows |
| CsvData.PreambleRowsIgnored | app.py:60-80 | lines before the header line do not change the rows read |
| CsvData.PreambleLinesIgnored | app.py:60-80 | text before the header line, joined by line feeds, does not change the rows read |
| CsvData.NormalizedNames | app.py:79 | one normalised name per field, each trimmed and with no upper-case ASCII letter left |
| CsvData.NormalizedName | app.py:79 | a field name with whitespace on either side becomes the name lower-cased and trimmed, whatever the surrounding whitespace |
| CsvData.ReadFromHeader | app.py:74-79 | the text from the header line on: reader errors propagate, no record at all raises (there are no field names to lower-case), and otherwise there are fewer rows than records |
| CsvData.MakeRow | app.py:77 | one `DictReader` row: `MakeRowKeys` gives its keys as exactly the field names, and `MakeRowAt` gives each column whose name is not repeated later its field, or `None` past a short record's end |
| CsvData.ZipKeys | app.py:77 | a key is in a `DictReader` row exactly when it names a column the record reaches |
| CsvData.MakeRowAt | app.py:77 | a column whose name is not repeated later reads its field, or `None` when the record is too short to reach it |
| CsvData.DictRows | app.py:77-80 | iterating yields at most one row per record, and exactly one per record when none is empty |
| CsvData.DictRowsAt | app.py:77-80 | with no empty record, row i is record i zipped with the field names |
| CsvData.DictReader.SetFieldnames | app.py:79 | overwrites the reader's field names in place and changes nothing else |
| CsvData.ReadCsvData | app.py:60-80 | the scan, the read and the field-name overwrite return `CsvRows(cleaned)` |
| QuestionRow.Cell | app.py:84 | a cell read with `.get(key, "").strip()` is trimmed |
| QuestionRow.GetStripped | app.py:84 | `.strip()` raises exactly when the key is present with `None`; otherwise it gives the trimmed cell |
| QuestionRow.CollectOptions | app.py:89-93 | the options comprehension raises exactly when some option cell is `None`; otherwise it keeps exactly the letters with a non-empty option, mapped to that text |
| QuestionRow.OptionsAll | app.py:89-93 | once the comprehension raises nothing, it is the options map of the row |
| QuestionRow.CollectRationales | app.py:112-115 | the rationales comprehension raises exactly when some rationale cell is `None`; otherwise it has exactly the option letters, each mapped to its trimmed rationale |
| QuestionRow.SplitAnswers | app.py:101 | `re.split(r"[;,\s]+", ...)` yields at least one piece and no piece holds a separator |
| QuestionRow.SplitJoin | app.py:101 | non-empty tokens joined by non-empty separator runs split back into exactly those tokens |
| QuestionRow.SataLettersIff | app.py:102 | a letter is in the SATA correct set exactly when it is an option and some token, upper-cased, is that letter |
| QuestionRow.CorrectSet | app.py:97-106 | the correct set is always a subset of the option letters |
| QuestionRow.BuildCorrectSet | app.py:97-106 | the in-place `update`/`add` returns `CorrectSet` |
| QuestionRow.SortedLetters | app.py:123-124 | `sorted` keeps exactly the given letters, in strictly increasing order |
| QuestionRow.IncreasingUnique | app.py:123-124 | a strictly increasing sequence is fixed by its elements, so `sorted` has one answer |
| QuestionRow.SortedCorrect | app.py:124 | a non-empty correct set sorts to a non-empty sequence of the same letters, and one letter sorts to one |
| QuestionRow.Choices | app.py:123 | one choice per letter, each the letter, ". " and its option text |
| QuestionRow.ChoicesShape | app.py:123 | each choice has the form "L. text", and the choices list the letters in order |
| QuestionRow.RowOutcome | app.py:82-127 | an accepted row's question text is the row's non-empty trimmed question |
| QuestionRow.ParseCsvRow | app.py:82-127 | `_parse_csv_row` with `correct_set` built in place returns `RowOutcome` |
| QuestionRow.ParseAnswer | app.py:97-127 | the answer half of `_parse_csv_row` returns `AnswerOutcome` |
| QuestionRow.AnswerOutcome | app.py:97-127 | once the answer cell reads without raising, the row is rejected exactly when the correct set is empty; an accepted question keeps the question text |
| QuestionRow.AcceptedStages | app.py:94-109 | an accepted row has a question, options and a non-empty correct set, and is assembled from them |
| QuestionRow.AcceptedContents | app.py:82-127 | an accepted question holds exactly its row's fields: type, choices in letter order, the sorted correct set, rationales keyed by the options, and the search term |
| QuestionRow.RejectedIff | app.py:94-109 | a row that raises nothing is rejected exactly when its question is empty, it has no options, or its correct set is empty |
| QuestionRow.AcceptedWellFormed | app.py:82-127 | every accepted question is well formed: trimmed non-empty text, "L. text" choices in increasing letter order, rationales keyed like the choices, a sorted duplicate-free correct set drawn from the options, one letter for MCQ |
| QuestionRow.McqAnswer | app.py:103-106 | an accepted MCQ's answer cell is one character, and its upper case is the only correct letter and an option |
| QuestionRow.SataAnswer | app.py:99-102 | an accepted SATA question's correct letters are exactly the options some answer token names once upper-cased |
| QuestionRow.NoFaultWithoutNone | app.py:82-127 | a row without a `None` cell never raises |
| QuestionRow.EarlyNoneFaults | app.py:84-93 | a `None` in the question, type or any option cell raises |
| Pipeline.Outcomes | app.py:137 | one outcome per row, each that row's `_parse_csv_row` outcome |
| Pipeline.Collect | app.py:137-138 | the filter keeps at most one question per outcome |
| Pipeline.CollectFaultIff | app.py:135-141 | the comprehension raises exactly when some row raises |
| Pipeline.FirstFault | app.py:137 | the first row that raises decides the exception |
| Pipeline.CollectAppend | app.py:137-138 | the questions of earlier rows come before those of later rows |
| Pipeline.CollectAccepted | app.py:138 | every question kept is some row's accepted question |
| Pipeline.CollectAllAccepted | app.py:137-138 | rows that are all accepted come out as their questions, in order |
| Pipeline.ParseRowsWellFormed | app.py:137-138 | every question kept from the rows is well formed |
| Pipeline.BlankGivesNothing | app.py:131-133 | an empty or all-whitespace reply gives no questions |
| Pipeline.NoHeaderGivesNothing | app.py:71-72 | a reply without a header line gives no questions |
| Pipeline.ReaderFaultGivesNothing | app.py:139-141 | an exception from the CSV reader gives no questions |
| Pipeline.RowFaultGivesNothing | app.py:139-141 | a row that raises discards every question, those before it included |
| Pipeline.QuestionsFromRows | app.py:135-138 | when no row raises, the questions are the accepted rows' questions in order |
| Pipeline.QuestionsWellFormed | app.py:129-141 | every question `parse_questions_from_csv` returns is well formed |
| Pipeline.Questions | app.py:129-141 | clean, return `[]` for empty text, read, parse the rows, and return `[]` on any exception; `BlankGivesNothing`, `NoHeaderGivesNothing`, `ReaderFaultGivesNothing`, `RowFaultGivesNothing`, `QuestionsFromRows` and `QuestionsWellFormed` state what it returns |
| Pipeline.ParseAll | app.py:137-138 | the row loop returns `ParseRows` |
| Pipeline.ParseQuestionsFromCsv | app.py:129-141 | clean, read and parse return `Questions(outputText)` |
| ExampleRows.ShortRecordFaults | app.py:89-93 | a record with fewer than eight fields leaves `option_f` as `None`, and the row raises |
| ExampleRows.McqRowParses | app.py:82-127 | a row shaped like the MCQ example parses to its question |
| ExampleRows.SataRowParses | app.py:82-127 | a row shaped like the SATA example, answered `A;C;E;F`, parses to its question |
| Examples.ExamplesClean | app.py:23-27 | `CSV_EXAMPLES` is unchanged by cleaning |
| Examples.ExamplesRows | app.py:23-27 | reading `CSV_EXAMPLES` gives one row per example line under `CSV_HEADER` |
| Examples.ExamplesParse | app.py:23-27 | `parse_questions_from_csv(CSV_EXAMPLES)` returns an MCQ with four choices and answer A, then a SATA question with six choices and answers A, C, E and F |

## Left out

- NUL characters: the reader follows Python 3.11 and later, where
  `csv.reader` reads a NUL as an ordinary character, and so does the model.
  Before Python 3.11 the reader raised `line contains NUL`; that behaviour is
  not modelled. The source already needs Python 3.10 or later for its
  `dict | None` annotation at app.py:82.
- `restkey`: fields past the header go under the key `None`. The parser never
  reads that key, so the model drops them.
- `st.warning` in the exception handler is a UI side effect and is not
  modelled. Which exception was raised is kept only as far as `Fault` tells
  exceptions apart.
- The rest of `app.py` is not part of this model:
  - `configure_api` and the model call;
  - `build_prompt`;
  - the Streamlit page and `MODEL_NAME`.
- PyText.Lower and PyText.Upper: the model maps case in ASCII only.
  - Every key and keyword the parser compares against is ASCII.
  - No non-ASCII character upper-cases to a single letter A to H.
  - The header pattern is not affected: its case-insensitive match is
    `CsvData.FoldsTo`. That predicate reproduces the extra folds of
    `re.IGNORECASE`: U+0130 and U+0131 match `i`, U+017F matches `s`, and
    U+212A matches `k`.
- The header pattern is the line's text compared name by name. The exact
  regular-expression engine is not modelled, nor are the names' regex
  metacharacters, since `CSV_HEADER` has none.
- `io.StringIO` and the reader are modelled as read eagerly: every record is
  read before any row is parsed. The laziness of `csv.reader` is not modelled.
  - In Python, a reader exception after a row that raised is never reached.
  - Both give `[]`, so the result is the same.
- `CSV_EXAMPLES` is built from its cells by the RFC 4180 writer in
  `csv_reader.dfy`, not written as one string literal. Its leading and
  trailing newlines are dropped, as `.strip()` drops them.
- The `rationales` dictionary is built in letter order, and a Python dict
  keeps that insertion order. `Question.rationales` is a map, so that order
  is not modelled. It can be recovered from the keys, which are exactly the
  option letters.
- `csv.field_size_limit()` is modelled at its default of 131072 characters.
  Changing it at run time is not modelled.
