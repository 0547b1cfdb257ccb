/** `CSV_EXAMPLES`, the sample reply the prompt shows the model, and what
    `parse_questions_from_csv` returns for it. */
module Examples {
  import opened Wrappers
  import opened PyText
  import opened Clean
  import Csv
  import opened CsvData
  import opened QuestionRow
  import opened Pipeline
  import opened ExampleRows

  // ---------------------------------------------------------------------
  // Rendered text

  /** Printable ASCII: no line boundary and nothing `_clean_raw_text` replaces. */
  predicate Printable(s: string) {
    forall i :: 0 <= i < |s| ==> ' ' <= s[i] <= '~'
  }

  /** Printable ASCII lines joined by line feeds. */
  predicate PrintableText(s: string) {
    forall i :: 0 <= i < |s| ==> (' ' <= s[i] <= '~') || s[i] == '\n'
  }

  predicate PrintableCells(cells: seq<Csv.Cell>) {
    forall i :: 0 <= i < |cells| ==> Printable(cells[i].text)
  }

  lemma PrintableJoin(a: string, b: string)
    requires Printable(a) && Printable(b)
    ensures Printable(a + b)
  {
  }

  lemma {:induction false} DoubledPrintable(t: string)
    requires Printable(t)
    ensures Printable(Csv.Doubled(t))
    decreases |t|
  {
    if t != [] {
      DoubledPrintable(t[1..]);
    }
  }

  lemma {:induction false} LinePrintable(cells: seq<Csv.Cell>)
    requires |cells| > 0 && PrintableCells(cells)
    ensures Printable(Csv.RenderLine(cells))
    decreases |cells|
  {
    if cells[0].Quoted? {
      DoubledPrintable(cells[0].text);
    }
    if |cells| > 1 {
      LinePrintable(cells[1..]);
    }
  }

  /** A line's first character is its first cell's. */
  lemma LineFirst(cells: seq<Csv.Cell>)
    requires |cells| > 0 && Csv.Encode(cells[0]) != []
    ensures Csv.RenderLine(cells) != [] && Csv.RenderLine(cells)[0] == Csv.Encode(cells[0])[0]
  {
  }

  /** A line ending in a quoted cell ends in a quote. */
  lemma {:induction false} LineLast(cells: seq<Csv.Cell>)
    requires |cells| > 0 && cells[|cells| - 1].Quoted?
    ensures var line := Csv.RenderLine(cells); line != [] && line[|line| - 1] == '"'
    decreases |cells|
  {
    if |cells| > 1 {
      LineLast(cells[1..]);
    }
  }

  /** Cells holding the names themselves, unquoted. */
  function Bares(names: seq<string>): (cells: seq<Csv.Cell>)
    ensures |cells| == |names|
    ensures forall i :: 0 <= i < |names| ==> cells[i] == Csv.Bare(names[i])
  {
    seq(|names|, i requires 0 <= i < |names| => Csv.Bare(names[i]))
  }

  /** A header row of bare names renders as the names joined by commas. */
  lemma {:induction false} BaresLine(names: seq<string>)
    requires |names| > 0
    ensures Csv.RenderLine(Bares(names)) == CommaJoin(names)
    decreases |names|
  {
    if |names| > 1 {
      assert Bares(names)[1..] == Bares(names[1..]);
      BaresLine(names[1..]);
    }
  }

  /** The rendered lines of a table. */
  function Lines(rows: seq<seq<Csv.Cell>>): (lines: seq<string>)
    requires forall i :: 0 <= i < |rows| ==> |rows[i]| > 0
    ensures |lines| == |rows|
    ensures forall i :: 0 <= i < |rows| ==> lines[i] == Csv.RenderLine(rows[i])
  {
    seq(|rows|, i requires 0 <= i < |rows| => Csv.RenderLine(rows[i]))
  }

  /** A rendered table is its lines joined by line feeds. */
  lemma {:induction false} TableLines(rows: seq<seq<Csv.Cell>>)
    requires forall i :: 0 <= i < |rows| ==> Csv.WritableRow(rows[i])
    ensures Csv.RenderTable(rows) == JoinLines(Lines(rows))
    decreases |rows|
  {
    assert forall i :: 0 <= i < |rows| ==> Csv.WritableRow(rows[i]) && |rows[i]| > 0;
    if |rows| > 1 {
      assert Lines(rows)[1..] == Lines(rows[1..]);
      TableLines(rows[1..]);
    }
  }

  lemma {:induction false} JoinPrintable(lines: seq<string>)
    requires forall i :: 0 <= i < |lines| ==> Printable(lines[i])
    ensures PrintableText(JoinLines(lines))
    decreases |lines|
  {
    if |lines| > 1 {
      JoinPrintable(lines[1..]);
    }
  }

  lemma JoinFirst(lines: seq<string>)
    requires |lines| > 0 && lines[0] != []
    ensures JoinLines(lines) != [] && JoinLines(lines)[0] == lines[0][0]
  {
  }

  lemma {:induction false} JoinLast(lines: seq<string>)
    requires |lines| > 0 && lines[|lines| - 1] != []
    ensures var s := JoinLines(lines);
      s != [] && s[|s| - 1] == lines[|lines| - 1][|lines[|lines| - 1]| - 1]
    decreases |lines|
  {
    if |lines| > 1 {
      JoinLast(lines[1..]);
    }
  }

  /** `_clean_raw_text` leaves alone a printable text that starts and ends with
      neither whitespace nor a backtick. */
  lemma CleanedUnchanged(s: string)
    requires PrintableText(s) && s != []
    requires !IsSpace(s[0]) && s[0] != '`'
    requires !IsSpace(s[|s| - 1]) && s[|s| - 1] != '`'
    ensures Cleaned(s) == s
  {
    StripUnpadded(s);
    if |s| >= 3 {
      assert s[..3][0] == s[0];
      assert s[|s| - 3..][2] == s[|s| - 1];
    }
    StripFencesUnfenced(s);
    NormalizeUnchanged(s);
  }

  lemma PrintableLine(s: string)
    requires Printable(s)
    ensures NoLineBreak(s)
  {
  }

  /** Three rows of printable cells that a writer can put on lines. */
  predicate GoodTable(h: seq<Csv.Cell>, m: seq<Csv.Cell>, s: seq<Csv.Cell>) {
    && Csv.WritableRow(h) && Csv.WritableRow(m) && Csv.WritableRow(s)
    && PrintableCells(h) && PrintableCells(m) && PrintableCells(s)
  }

  /** A header line and two records, rendered and read back: the text splits
      into the three lines, the header line is found first, and the two records
      become the rows. */
  lemma ReadTable(h: seq<Csv.Cell>, m: seq<Csv.Cell>, s: seq<Csv.Cell>, header: seq<string>)
    requires GoodTable(h, m, s)
    requires Csv.RenderLine(s) != []
    requires HeaderMatches(Csv.RenderLine(h), header)
    ensures Csv.RenderTable([h, m, s]) == JoinLines(Lines([h, m, s]))
    ensures Splitlines(Csv.RenderTable([h, m, s])) == Lines([h, m, s])
    ensures RowsFrom(Lines([h, m, s]), header)
         == Ok(DictRows(NormalizedNames(Csv.Texts(h)), [Csv.Texts(m), Csv.Texts(s)]))
  {
    SplitTable(h, m, s);
    ReadRendered([h, m, s], header);
    var records := Csv.TableTexts([h, m, s]);
    assert records[1..] == [Csv.Texts(m), Csv.Texts(s)];
  }

  /** The three rendered lines are what splitting the rendered table gives. */
  lemma SplitTable(h: seq<Csv.Cell>, m: seq<Csv.Cell>, s: seq<Csv.Cell>)
    requires GoodTable(h, m, s)
    requires Csv.RenderLine(s) != []
    ensures Csv.RenderTable([h, m, s]) == JoinLines(Lines([h, m, s]))
    ensures Splitlines(Csv.RenderTable([h, m, s])) == Lines([h, m, s])
  {
    var rows := [h, m, s];
    TableLines(rows);
    var lines := Lines(rows);
    LinePrintable(h);
    LinePrintable(m);
    LinePrintable(s);
    PrintableLine(lines[0]);
    PrintableLine(lines[1]);
    PrintableLine(lines[2]);
    SplitlinesJoinLines(lines);
  }

  /** A rendered table whose first line is the header: its first record names
      the columns and the others become rows. */
  lemma ReadRendered(rows: seq<seq<Csv.Cell>>, header: seq<string>)
    requires |rows| > 0 && forall i :: 0 <= i < |rows| ==> Csv.WritableRow(rows[i])
    requires forall i :: 0 <= i < |rows| ==> |rows[i]| > 0
    requires HeaderMatches(Csv.RenderLine(rows[0]), header)
    requires Csv.RenderTable(rows) == JoinLines(Lines(rows))
    ensures RowsFrom(Lines(rows), header)
         == Ok(DictRows(NormalizedNames(Csv.Texts(rows[0])), Csv.TableTexts(rows)[1..]))
  {
    var lines := Lines(rows);
    assert HeaderIndex(lines, header) == Some(0);
    assert lines[0..] == lines;
    assert RowsFrom(lines, header) == ReadFromHeader(Csv.RenderTable(rows));
    Csv.RoundTrip(rows);
    assert Csv.TableTexts(rows)[0] == Csv.Texts(rows[0]);
  }

  // ---------------------------------------------------------------------
  // The sample reply

  const HEADER_CELLS: seq<Csv.Cell> := Bares(CSV_HEADER)

  /** The MCQ question, written in two pieces. */
  const MCQ_QUESTION: string := "Which action takes priority " + "for a client with acute pulmonary edema?"

  /** The MCQ line of `CSV_EXAMPLES`, cell by cell, quoted where it is quoted. */
  const MCQ_CELLS: seq<Csv.Cell> := [
    Csv.Bare("mcq"), Csv.Quoted(MCQ_QUESTION),
    Csv.Quoted("Administer oxygen"), Csv.Quoted("Encourage oral fluids"),
    Csv.Quoted("Obtain daily weight"), Csv.Quoted("Teach low-sodium diet"),
    Csv.Bare(""), Csv.Bare(""), Csv.Bare("A"), Csv.Bare(""),
    Csv.Quoted("Improves oxygenation immediately"), Csv.Quoted("Fluids may worsen overload"),
    Csv.Quoted("Weight is monitoring, not priority"), Csv.Quoted("Teaching is not priority in acute event"),
    Csv.Bare(""), Csv.Bare(""),
    Csv.Quoted("pulmonary edema")
  ]

  lemma McqQuestionText()
    ensures Printable(MCQ_QUESTION) && Filled(MCQ_QUESTION)
  {
    var a, b := "Which action takes priority ", "for a client with acute pulmonary edema?";
    McqQuestionPieces();
    PrintableJoin(a, b);
  }

  lemma McqQuestionPieces()
    ensures Printable("Which action takes priority ")
    ensures Printable("for a client with acute pulmonary edema?")
  {
  }

  lemma McqOptionTexts()
    ensures Printable("Administer oxygen") && Printable("Encourage oral fluids")
  {
  }

  lemma McqOptionTexts2()
    ensures Printable("Obtain daily weight") && Printable("Teach low-sodium diet")
  {
  }

  lemma McqRationaleTexts()
    ensures Printable("Improves oxygenation immediately") && Printable("Fluids may worsen overload")
  {
  }

  lemma McqRationaleTexts2()
    ensures Printable("Weight is monitoring, not priority")
  {
  }

  lemma McqRationaleTexts3()
    ensures Printable("Teaching is not priority in acute event")
  {
  }

  lemma McqPrintable()
    ensures PrintableCells(MCQ_CELLS)
  {
    McqQuestionText();
    McqOptionTexts();
    McqOptionTexts2();
    McqRationaleTexts();
    McqRationaleTexts2();
    McqRationaleTexts3();
  }

  lemma McqWritable()
    ensures Csv.WritableRow(MCQ_CELLS)
  {
  }

  lemma McqTexts()
    ensures McqShape(Csv.Texts(MCQ_CELLS))
  {
    McqTextsFront();
    McqTextsBack();
  }

  lemma McqTextsFront()
    ensures var rec := Csv.Texts(MCQ_CELLS);
      && |rec| == 17 && rec[0] == "mcq"
      && Filled(rec[1]) && Filled(rec[2]) && Filled(rec[3]) && Filled(rec[4]) && Filled(rec[5])
      && rec[6] == "" && rec[7] == "" && rec[8] == "A"
  {
    McqQuestionText();
    McqTextsOptions();
  }

  lemma McqTextsOptions()
    ensures var rec := Csv.Texts(MCQ_CELLS);
      && |rec| == 17
      && Filled(rec[2]) && Filled(rec[3]) && Filled(rec[4]) && Filled(rec[5])
  {
  }

  lemma McqTextsBack()
    ensures var rec := Csv.Texts(MCQ_CELLS);
      && |rec| == 17 && rec[9] == ""
      && Filled(rec[10]) && Filled(rec[11]) && Filled(rec[12]) && Filled(rec[13])
      && rec[14] == "" && rec[15] == ""
      && Filled(rec[16])
  {
    McqTextsRationales();
  }

  lemma McqTextsRationales()
    ensures var rec := Csv.Texts(MCQ_CELLS);
      && |rec| == 17
      && Filled(rec[10]) && Filled(rec[11]) && Filled(rec[12]) && Filled(rec[13])
  {
  }

  /** The SATA question, written in two pieces. */
  const SATA_QUESTION: string := "Select all initial nursing actions " + "for suspected hypoglycemia."

  /** The SATA line of `CSV_EXAMPLES`, cell by cell, quoted where it is quoted. */
  const SATA_CELLS: seq<Csv.Cell> := [
    Csv.Bare("sata"), Csv.Quoted(SATA_QUESTION),
    Csv.Quoted("Check blood glucose"), Csv.Quoted("Give long-acting insulin"),
    Csv.Quoted("Provide 15 g fast carbs"), Csv.Quoted("Reassess in 15 min"),
    Csv.Quoted("Call rapid response if LOC declines"), Csv.Quoted("Start IV access"),
    Csv.Bare(""), Csv.Bare(SATA_ANSWER),
    Csv.Quoted("Confirms diagnosis"), Csv.Quoted("Contraindicated; will worsen"),
    Csv.Quoted("Raises glucose quickly"), Csv.Quoted("Ensures treatment worked"),
    Csv.Quoted("Escalate if worsening"), Csv.Quoted("Allows dextrose/med access"),
    Csv.Quoted("hypoglycemia care")
  ]

  lemma SataQuestionText()
    ensures Printable(SATA_QUESTION) && Filled(SATA_QUESTION)
  {
    var a, b := "Select all initial nursing actions ", "for suspected hypoglycemia.";
    SataQuestionPieces();
    PrintableJoin(a, b);
  }

  lemma SataQuestionPieces()
    ensures Printable("Select all initial nursing actions ")
    ensures Printable("for suspected hypoglycemia.")
  {
  }

  lemma SataOptionTexts()
    ensures Printable("Check blood glucose") && Printable("Give long-acting insulin")
  {
  }

  lemma SataOptionTexts2()
    ensures Printable("Provide 15 g fast carbs") && Printable("Reassess in 15 min")
  {
  }

  lemma SataOptionTexts3()
    ensures Printable("Call rapid response if LOC declines") && Printable("Start IV access")
  {
  }

  lemma SataRationaleTexts()
    ensures Printable("Confirms diagnosis") && Printable("Contraindicated; will worsen")
  {
  }

  lemma SataRationaleTexts2()
    ensures Printable("Raises glucose quickly") && Printable("Ensures treatment worked")
  {
  }

  lemma SataRationaleTexts3()
    ensures Printable("Escalate if worsening") && Printable("Allows dextrose/med access")
    ensures Printable("hypoglycemia care")
  {
  }

  lemma SataPrintable()
    ensures PrintableCells(SATA_CELLS)
  {
    SataQuestionText();
    SataOptionTexts();
    SataOptionTexts2();
    SataOptionTexts3();
    SataRationaleTexts();
    SataRationaleTexts2();
    SataRationaleTexts3();
  }

  lemma SataWritable()
    ensures Csv.WritableRow(SATA_CELLS)
  {
  }

  /** The SATA line's cells other than the answer have the example's shape. */
  lemma SataTexts()
    ensures var rec := Csv.Texts(SATA_CELLS);
      && |rec| == 17 && rec[0] == "sata"
      && Filled(rec[1]) && Filled(rec[2]) && Filled(rec[3]) && Filled(rec[4])
      && Filled(rec[5]) && Filled(rec[6]) && Filled(rec[7])
      && rec[8] == "" && Filled(rec[9])
  {
    SataTextsFront();
    SataTextsMiddle();
  }

  lemma SataTextsFront()
    ensures var rec := Csv.Texts(SATA_CELLS);
      && |rec| == 17 && rec[0] == "sata"
      && Filled(rec[1]) && Filled(rec[2]) && Filled(rec[3]) && Filled(rec[4])
  {
    SataQuestionText();
  }

  lemma SataTextsMiddle()
    ensures var rec := Csv.Texts(SATA_CELLS);
      && |rec| == 17
      && Filled(rec[5]) && Filled(rec[6]) && Filled(rec[7])
      && rec[8] == "" && Filled(rec[9])
  {
  }

  lemma SataRationaleCells()
    ensures var rec := Csv.Texts(SATA_CELLS);
      && |rec| == 17
      && Filled(rec[10]) && Filled(rec[11]) && Filled(rec[12])
      && Filled(rec[13]) && Filled(rec[14]) && Filled(rec[15])
      && Filled(rec[16])
  {
  }

  lemma SataAnswerCell()
    ensures |Csv.Texts(SATA_CELLS)| == 17
    ensures SplitAnswers(Csv.Texts(SATA_CELLS)[9]) == ["A", "C", "E", "F"]
  {
    assert Csv.Texts(SATA_CELLS)[9] == SATA_ANSWER;
    SataAnswerSplits();
  }

  lemma SataShapeOf(rec: seq<string>)
    requires |rec| == 17 && rec[0] == "sata"
    requires Filled(rec[1]) && Filled(rec[2]) && Filled(rec[3]) && Filled(rec[4])
    requires Filled(rec[5]) && Filled(rec[6]) && Filled(rec[7])
    requires rec[8] == "" && Filled(rec[9])
    requires Filled(rec[10]) && Filled(rec[11]) && Filled(rec[12])
    requires Filled(rec[13]) && Filled(rec[14]) && Filled(rec[15])
    requires Filled(rec[16])
    requires SplitAnswers(rec[9]) == ["A", "C", "E", "F"]
    ensures SataShape(rec)
  {
  }

  // ---------------------------------------------------------------------
  // The header line

  /** A row of column names, unquoted, is writable and printable. */
  lemma NamesRow(names: seq<string>)
    requires |names| > 1
    requires forall i :: 0 <= i < |names| ==> names[i] != [] && IsName(names[i]) && |names[i]| <= Csv.FIELD_LIMIT
    ensures Csv.WritableRow(Bares(names)) && PrintableCells(Bares(names))
    ensures Csv.Texts(Bares(names)) == names
  {
    var cells := Bares(names);
    forall i | 0 <= i < |names| ensures Csv.Writable(cells[i]) && Printable(cells[i].text) {
      assert IsNameChar(names[i][0]);
    }
  }

  /** Lower-case names come through `lower().strip()` unchanged. */
  lemma NamesNormalized(names: seq<string>)
    requires forall i :: 0 <= i < |names| ==> IsName(names[i])
    ensures NormalizedNames(names) == names
  {
    forall i | 0 <= i < |names| ensures Strip(Lower(names[i])) == names[i] {
      var n := names[i];
      assert Lower(n) == n;
      if n != [] {
        assert IsNameChar(n[0]) && IsNameChar(n[|n| - 1]);
      }
      StripUnpadded(n);
    }
  }

  lemma HeaderWritable()
    ensures Csv.WritableRow(HEADER_CELLS) && PrintableCells(HEADER_CELLS)
    ensures Csv.Texts(HEADER_CELLS) == CSV_HEADER
  {
    HeaderNamesShape();
    NamesRow(CSV_HEADER);
  }

  lemma HeaderNormalized()
    ensures NormalizedNames(CSV_HEADER) == CSV_HEADER
  {
    HeaderNamesShape();
    NamesNormalized(CSV_HEADER);
  }

  /** A header recognised when joined by commas is recognised as a row of
      bare cells. */
  lemma BaresMatch(names: seq<string>)
    requires |names| > 0
    requires HeaderMatches("" + CommaJoin(names) + "", names)
    ensures HeaderMatches(Csv.RenderLine(Bares(names)), names)
  {
    assert "" + CommaJoin(names) + "" == CommaJoin(names);
    BaresLine(names);
  }

  /** The header line is recognised. */
  lemma HeaderFound()
    ensures HeaderMatches(Csv.RenderLine(HEADER_CELLS), CSV_HEADER)
  {
    CanonicalHeaderRecognised("", "");
    BaresMatch(CSV_HEADER);
  }

  /** The header line starts with `q`. */
  lemma HeaderFirst()
    ensures Csv.RenderLine(HEADER_CELLS) != [] && Csv.RenderLine(HEADER_CELLS)[0] == 'q'
  {
    LineFirst(HEADER_CELLS);
  }

  // ---------------------------------------------------------------------
  // The whole reply

  /** `CSV_EXAMPLES`: the header line and the two example lines joined by line
      feeds, with nothing before or after. */
  function CsvExamples(): string {
    HeaderWritable();
    McqWritable();
    SataWritable();
    Csv.RenderTable([HEADER_CELLS, MCQ_CELLS, SATA_CELLS])
  }

  /** A rendered table whose first line starts with `q` and whose last cell is
      quoted passes through `_clean_raw_text` unchanged. */
  lemma CleanTable(h: seq<Csv.Cell>, m: seq<Csv.Cell>, s: seq<Csv.Cell>)
    requires GoodTable(h, m, s)
    requires Csv.RenderLine(h) != [] && Csv.RenderLine(h)[0] == 'q'
    requires s[|s| - 1].Quoted?
    ensures Csv.RenderTable([h, m, s]) != []
    ensures Cleaned(Csv.RenderTable([h, m, s])) == Csv.RenderTable([h, m, s])
  {
    TableEnds(h, m, s);
    CleanedUnchanged(Csv.RenderTable([h, m, s]));
  }

  /** Such a table is printable text that starts with `q` and ends with a quote. */
  lemma TableEnds(h: seq<Csv.Cell>, m: seq<Csv.Cell>, s: seq<Csv.Cell>)
    requires GoodTable(h, m, s)
    requires Csv.RenderLine(h) != [] && Csv.RenderLine(h)[0] == 'q'
    requires s[|s| - 1].Quoted?
    ensures var t := Csv.RenderTable([h, m, s]);
      PrintableText(t) && t != [] && t[0] == 'q' && t[|t| - 1] == '"'
  {
    TablePrintable(h, m, s);
    TableBounds(h, m, s);
  }

  lemma TablePrintable(h: seq<Csv.Cell>, m: seq<Csv.Cell>, s: seq<Csv.Cell>)
    requires GoodTable(h, m, s)
    ensures PrintableText(Csv.RenderTable([h, m, s]))
  {
    TableLines([h, m, s]);
    LinePrintable(h);
    LinePrintable(m);
    LinePrintable(s);
    JoinPrintable(Lines([h, m, s]));
  }

  lemma TableBounds(h: seq<Csv.Cell>, m: seq<Csv.Cell>, s: seq<Csv.Cell>)
    requires GoodTable(h, m, s)
    requires Csv.RenderLine(h) != [] && Csv.RenderLine(h)[0] == 'q'
    requires s[|s| - 1].Quoted?
    ensures var t := Csv.RenderTable([h, m, s]);
      t != [] && t[0] == 'q' && t[|t| - 1] == '"'
  {
    TableLines([h, m, s]);
    var lines := Lines([h, m, s]);
    LineLast(s);
    JoinFirst(lines);
    JoinLast(lines);
  }

  /** The rows read from such a table under its own header. */
  lemma TableRows(h: seq<Csv.Cell>, m: seq<Csv.Cell>, s: seq<Csv.Cell>, header: seq<string>)
    requires GoodTable(h, m, s)
    requires s[|s| - 1].Quoted?
    requires HeaderMatches(Csv.RenderLine(h), header)
    requires NormalizedNames(Csv.Texts(h)) == header
    ensures RowsFrom(Splitlines(Csv.RenderTable([h, m, s])), header)
         == Ok([MakeRow(header, Csv.Texts(m)), MakeRow(header, Csv.Texts(s))])
  {
    LineLast(s);
    ReadTable(h, m, s, header);
    DictTwo(header, Csv.Texts(m), Csv.Texts(s));
  }

  /** Two non-empty records become two rows. */
  lemma DictTwo(names: seq<string>, a: seq<string>, b: seq<string>)
    requires a != [] && b != []
    ensures DictRows(names, [a, b]) == [MakeRow(names, a), MakeRow(names, b)]
  {
    DictRowsAt(names, [a, b], 0);
    DictRowsAt(names, [a, b], 1);
  }

  /** Cleaning leaves `CSV_EXAMPLES` as it is. */
  lemma ExamplesClean()
    ensures CsvExamples() != [] && Cleaned(CsvExamples()) == CsvExamples()
  {
    ExampleCells();
    HeaderFirst();
    CleanTable(HEADER_CELLS, MCQ_CELLS, SATA_CELLS);
  }

  /** The sample's three rows can be written as they are. */
  lemma ExampleCells()
    ensures GoodTable(HEADER_CELLS, MCQ_CELLS, SATA_CELLS)
  {
    HeaderWritable();
    McqWritable();
    McqPrintable();
    SataWritable();
    SataPrintable();
  }

  /** Reading `CSV_EXAMPLES` yields one row per example line under the
      canonical column names. */
  lemma ExamplesRows()
    ensures CsvRows(CsvExamples())
         == Ok([MakeRow(CSV_HEADER, Csv.Texts(MCQ_CELLS)), MakeRow(CSV_HEADER, Csv.Texts(SATA_CELLS))])
  {
    HeaderWritable();
    HeaderNormalized();
    HeaderFound();
    ExampleCells();
    TableRows(HEADER_CELLS, MCQ_CELLS, SATA_CELLS, CSV_HEADER);
  }

  // ---------------------------------------------------------------------
  // What the parser returns for it

  /** The first question: an MCQ with four choices and answer A. */
  const MCQ_EXPECTED: Question := Question(
    MCQ_QUESTION, Mcq,
    ["A. " + "Administer oxygen", "B. " + "Encourage oral fluids",
     "C. " + "Obtain daily weight", "D. " + "Teach low-sodium diet"],
    "A",
    map['A' := "Improves oxygenation immediately", 'B' := "Fluids may worsen overload",
        'C' := "Weight is monitoring, not priority", 'D' := "Teaching is not priority in acute event"],
    "pulmonary edema")

  /** The second question: a SATA question with six choices and answers A, C, E, F. */
  const SATA_EXPECTED: Question := Question(
    SATA_QUESTION, Sata,
    ["A. " + "Check blood glucose", "B. " + "Give long-acting insulin",
     "C. " + "Provide 15 g fast carbs", "D. " + "Reassess in 15 min",
     "E. " + "Call rapid response if LOC declines", "F. " + "Start IV access"],
    "ACEF",
    map['A' := "Confirms diagnosis", 'B' := "Contraindicated; will worsen", 'C' := "Raises glucose quickly",
        'D' := "Ensures treatment worked", 'E' := "Escalate if worsening", 'F' := "Allows dextrose/med access"],
    "hypoglycemia care")

  lemma McqExpected()
    ensures McqQuestion(Csv.Texts(MCQ_CELLS)) == MCQ_EXPECTED
  {
  }

  lemma SataExpected()
    ensures SataQuestion(Csv.Texts(SATA_CELLS)) == SATA_EXPECTED
  {
  }

  /** The MCQ line's row is accepted as the first question. */
  lemma McqLineParses()
    ensures RowOutcome(MakeRow(CSV_HEADER, Csv.Texts(MCQ_CELLS)), ALL_LETTERS) == Ok(Some(MCQ_EXPECTED))
  {
    CanonicalHeader();
    AllLettersRange();
    McqTexts();
    McqRowParses(CSV_HEADER, Csv.Texts(MCQ_CELLS), ALL_LETTERS);
    McqExpected();
  }

  /** The SATA line's row is accepted as the second question. */
  lemma SataLineParses()
    ensures RowOutcome(MakeRow(CSV_HEADER, Csv.Texts(SATA_CELLS)), ALL_LETTERS) == Ok(Some(SATA_EXPECTED))
  {
    CanonicalHeader();
    AllLettersRange();
    SataTexts();
    SataRationaleCells();
    SataAnswerCell();
    SataShapeOf(Csv.Texts(SATA_CELLS));
    SataRowParses(CSV_HEADER, Csv.Texts(SATA_CELLS), ALL_LETTERS);
    SataExpected();
  }

  /** `parse_questions_from_csv(CSV_EXAMPLES)` returns the MCQ with four
      choices and answer A, then the SATA question with six choices and answers
      A, C, E and F. */
  lemma ExamplesParse()
    ensures Questions(CsvExamples()) == [MCQ_EXPECTED, SATA_EXPECTED]
    ensures MCQ_EXPECTED.kind == Mcq && |MCQ_EXPECTED.choices| == 4 && MCQ_EXPECTED.correctSet == "A"
    ensures SATA_EXPECTED.kind == Sata && |SATA_EXPECTED.choices| == 6 && SATA_EXPECTED.correctSet == "ACEF"
  {
    ExamplesClean();
    ExamplesRows();
    McqLineParses();
    SataLineParses();
    TwoAccepted(CsvExamples(), MakeRow(CSV_HEADER, Csv.Texts(MCQ_CELLS)), MakeRow(CSV_HEADER, Csv.Texts(SATA_CELLS)),
                MCQ_EXPECTED, SATA_EXPECTED);
  }

  /** A reply that reads as two rows, both accepted, gives their two questions. */
  lemma TwoAccepted(doc: string, r1: Row, r2: Row, q1: Question, q2: Question)
    requires doc != [] && Cleaned(doc) == doc
    requires CsvRows(doc) == Ok([r1, r2])
    requires RowOutcome(r1, ALL_LETTERS) == Ok(Some(q1))
    requires RowOutcome(r2, ALL_LETTERS) == Ok(Some(q2))
    ensures Questions(doc) == [q1, q2]
  {
    ParseTwo(r1, r2, ALL_LETTERS, q1, q2);
  }

  lemma ParseTwo(r1: Row, r2: Row, alphabet: string, q1: Question, q2: Question)
    requires RowOutcome(r1, alphabet) == Ok(Some(q1))
    requires RowOutcome(r2, alphabet) == Ok(Some(q2))
    ensures ParseRows([r1, r2], alphabet) == Ok([q1, q2])
  {
    CollectAllAccepted(Outcomes([r1, r2], alphabet), [q1, q2]);
  }
}
