/** `parse_questions_from_csv`: clean the reply, read its rows, parse every
    row in order and keep the questions; any exception on the way yields no
    questions at all. */
module Pipeline {
  import opened Wrappers
  import opened PyText
  import opened Clean
  import opened CsvData
  import opened QuestionRow

  /** The question a row outcome contributes, if any. */
  function Kept(outcome: Option<Question>): seq<Question> {
    if outcome.Some? then [outcome.value] else []
  }

  /** `[_parse_csv_row(row) for row in rows]`: the outcome of every row. */
  function Outcomes(rows: seq<Row>, alphabet: string): (outcomes: seq<Result<Option<Question>>>)
    decreases |rows|
    ensures |outcomes| == |rows|
    ensures forall i :: 0 <= i < |rows| ==> outcomes[i] == RowOutcome(rows[i], alphabet)
  {
    if rows == [] then [] else Outcomes(rows[..|rows| - 1], alphabet) + [RowOutcome(rows[|rows| - 1], alphabet)]
  }

  /** The comprehension evaluated left to right, then the filter that drops
      rejected rows: the first exception ends it. */
  function Collect(outcomes: seq<Result<Option<Question>>>): (r: Result<seq<Question>>)
    ensures r.Ok? ==> |r.value| <= |outcomes|
    decreases |outcomes|
  {
    if outcomes == [] then Ok([])
    else
      var init :- Collect(outcomes[..|outcomes| - 1]);
      var last :- outcomes[|outcomes| - 1];
      Ok(init + Kept(last))
  }

  /** One more outcome that raises nothing adds its question, if any, at the end. */
  lemma CollectStep(outcomes: seq<Result<Option<Question>>>, i: nat)
    requires i < |outcomes| && Collect(outcomes[..i]).Ok? && outcomes[i].Ok?
    ensures Collect(outcomes[..i + 1]) == Ok(Collect(outcomes[..i]).value + Kept(outcomes[i].value))
  {
    assert outcomes[..i + 1][..i] == outcomes[..i];
  }

  /** Once a prefix raises, the whole raises with the same exception. */
  lemma {:induction false} CollectPrefixFault(outcomes: seq<Result<Option<Question>>>, n: nat)
    requires n <= |outcomes| && Collect(outcomes[..n]).Err?
    ensures Collect(outcomes) == Collect(outcomes[..n])
    decreases |outcomes| - n
  {
    if n == |outcomes| {
      assert outcomes[..n] == outcomes;
    } else {
      var init := outcomes[..|outcomes| - 1];
      assert init[..n] == outcomes[..n];
      CollectPrefixFault(init, n);
    }
  }

  /** The first exception is the one the whole raises. */
  lemma FirstFault(outcomes: seq<Result<Option<Question>>>, i: nat)
    requires i < |outcomes| && Collect(outcomes[..i]).Ok? && outcomes[i].Err?
    ensures Collect(outcomes) == Err(outcomes[i].fault)
  {
    assert outcomes[..i + 1][..i] == outcomes[..i];
    CollectPrefixFault(outcomes, i + 1);
  }

  /** Collecting two runs of outcomes that raise nothing, one after the other:
      the questions of the first come first. */
  lemma {:induction false} CollectAppend(a: seq<Result<Option<Question>>>, b: seq<Result<Option<Question>>>)
    requires Collect(a).Ok? && Collect(b).Ok?
    ensures Collect(a + b) == Ok(Collect(a).value + Collect(b).value)
    decreases |b|
  {
    if b == [] {
      assert a + b == a;
      assert Collect(a).value + [] == Collect(a).value;
    } else {
      var ab := a + b;
      var b' := b[..|b| - 1];
      assert ab[..|ab| - 1] == a + b';
      assert ab[|ab| - 1] == b[|b| - 1];
      CollectAppend(a, b');
      var x := Collect(a).value;
      var y := Collect(b').value;
      var last := b[|b| - 1].value;
      assert x + y + Kept(last) == x + (y + Kept(last));
    }
  }

  /** Collecting raises exactly when some outcome is an exception. */
  lemma {:induction false} CollectFaultIff(outcomes: seq<Result<Option<Question>>>)
    ensures Collect(outcomes).Err? <==> exists i :: 0 <= i < |outcomes| && outcomes[i].Err?
    decreases |outcomes|
  {
    if outcomes != [] {
      var init := outcomes[..|outcomes| - 1];
      CollectFaultIff(init);
      if exists i :: 0 <= i < |init| && init[i].Err? {
        var i :| 0 <= i < |init| && init[i].Err?;
        assert outcomes[i] == init[i];
      }
      if exists i :: 0 <= i < |outcomes| && outcomes[i].Err? {
        var i :| 0 <= i < |outcomes| && outcomes[i].Err?;
        if i < |init| {
          assert init[i] == outcomes[i];
        }
      }
    }
  }

  /** Every question kept is some outcome's accepted question. */
  lemma {:induction false} CollectAccepted(outcomes: seq<Result<Option<Question>>>, q: Question)
    requires Collect(outcomes).Ok? && q in Collect(outcomes).value
    ensures exists i :: 0 <= i < |outcomes| && outcomes[i] == Ok(Some(q))
    decreases |outcomes|
  {
    var init := outcomes[..|outcomes| - 1];
    var last := outcomes[|outcomes| - 1].value;
    if q in Collect(init).value {
      CollectAccepted(init, q);
      var i :| 0 <= i < |init| && init[i] == Ok(Some(q));
      assert outcomes[i] == init[i];
    } else {
      assert q in Kept(last);
    }
  }

  /** Outcomes that are all acceptances come out as their questions, in order. */
  lemma {:induction false} CollectAllAccepted(outcomes: seq<Result<Option<Question>>>, qs: seq<Question>)
    requires |qs| == |outcomes|
    requires forall i :: 0 <= i < |outcomes| ==> outcomes[i] == Ok(Some(qs[i]))
    ensures Collect(outcomes) == Ok(qs)
    decreases |outcomes|
  {
    if outcomes != [] {
      var n := |outcomes| - 1;
      CollectAllAccepted(outcomes[..n], qs[..n]);
      assert qs[..n] + [qs[n]] == qs;
    }
  }

  /** The rows of a reply, parsed. */
  function ParseRows(rows: seq<Row>, alphabet: string): Result<seq<Question>> {
    Collect(Outcomes(rows, alphabet))
  }

  /** What `parse_questions_from_csv` returns for the model's reply. */
  function Questions(outputText: string): seq<Question> {
    var cleaned := Cleaned(outputText);
    if cleaned == [] then []
    else
      match CsvRows(cleaned)
      case Err(_) => []
      case Ok(rows) =>
        match ParseRows(rows, ALL_LETTERS)
        case Err(_) => []
        case Ok(questions) => questions
  }

  /** Every question the parse keeps is well formed. */
  lemma ParseRowsWellFormed(rows: seq<Row>, alphabet: string)
    requires Increasing(alphabet)
    requires ParseRows(rows, alphabet).Ok?
    ensures forall q :: q in ParseRows(rows, alphabet).value ==> WellFormed(q, alphabet)
  {
    var outcomes := Outcomes(rows, alphabet);
    forall q | q in Collect(outcomes).value ensures WellFormed(q, alphabet) {
      CollectAccepted(outcomes, q);
      var i :| 0 <= i < |outcomes| && outcomes[i] == Ok(Some(q));
      AcceptedWellFormed(rows[i], alphabet, q);
    }
  }

  /** An empty or all-whitespace reply yields no questions. */
  lemma BlankGivesNothing(outputText: string)
    requires AllSpace(outputText)
    ensures Questions(outputText) == []
  {
  }

  /** A reply without a header line yields no questions. */
  lemma NoHeaderGivesNothing(outputText: string)
    requires HeaderIndex(Splitlines(Cleaned(outputText)), CSV_HEADER).None?
    ensures Questions(outputText) == []
  {
  }

  /** A reader fault yields no questions. */
  lemma ReaderFaultGivesNothing(outputText: string)
    requires CsvRows(Cleaned(outputText)).Err?
    ensures Questions(outputText) == []
  {
  }

  /** A row that raises throws away every question, those of the rows before
      it included. */
  lemma RowFaultGivesNothing(outputText: string, rows: seq<Row>, i: nat)
    requires CsvRows(Cleaned(outputText)) == Ok(rows)
    requires i < |rows| && RowOutcome(rows[i], ALL_LETTERS).Err?
    ensures Questions(outputText) == []
  {
    CollectFaultIff(Outcomes(rows, ALL_LETTERS));
  }

  /** The questions come from the rows the reader yields, in order. */
  lemma QuestionsFromRows(outputText: string, rows: seq<Row>)
    requires Cleaned(outputText) != []
    requires CsvRows(Cleaned(outputText)) == Ok(rows)
    requires forall i :: 0 <= i < |rows| ==> RowOutcome(rows[i], ALL_LETTERS).Ok?
    ensures ParseRows(rows, ALL_LETTERS).Ok?
    ensures Questions(outputText) == ParseRows(rows, ALL_LETTERS).value
  {
    CollectFaultIff(Outcomes(rows, ALL_LETTERS));
  }

  /** Every question `parse_questions_from_csv` returns is well formed. */
  lemma QuestionsWellFormed(outputText: string)
    ensures forall q :: q in Questions(outputText) ==> WellFormed(q, ALL_LETTERS)
  {
    var cleaned := Cleaned(outputText);
    if cleaned != [] && CsvRows(cleaned).Ok? && ParseRows(CsvRows(cleaned).value, ALL_LETTERS).Ok? {
      AllLettersIncreasing();
      ParseRowsWellFormed(CsvRows(cleaned).value, ALL_LETTERS);
    }
  }

  /** `parse_questions_from_csv`: clean, read, then parse the rows. */
  method ParseQuestionsFromCsv(outputText: string) returns (questions: seq<Question>)
    ensures questions == Questions(outputText)
  {
    var cleaned := CleanRawText(outputText);
    if cleaned == [] {
      return [];
    }
    var read := ReadCsvData(cleaned);
    if read.Err? {
      return [];
    }
    var parsed := ParseAll(read.value);
    questions := if parsed.Ok? then parsed.value else [];
  }

  /** The row comprehension and its filter, one row at a time. */
  method ParseAll(rows: seq<Row>) returns (parsed: Result<seq<Question>>)
    ensures parsed == ParseRows(rows, ALL_LETTERS)
  {
    ghost var outcomes := Outcomes(rows, ALL_LETTERS);
    var kept: seq<Question> := [];
    var i := 0;
    assert outcomes[..0] == [];
    while i < |rows|
      invariant 0 <= i <= |rows|
      invariant Collect(outcomes[..i]) == Ok(kept)
    {
      var outcome := ParseCsvRow(rows[i]);
      assert outcome == outcomes[i];
      if outcome.Err? {
        FirstFault(outcomes, i);
        return Err(outcome.fault);
      }
      CollectStep(outcomes, i);
      ghost var before := kept;
      if outcome.value.Some? {
        kept := kept + [outcome.value.value];
      } else {
        assert kept == before + [];
      }
      assert kept == before + Kept(outcome.value);
      i := i + 1;
    }
    assert outcomes[..|rows|] == outcomes;
    parsed := Ok(kept);
  }
}
