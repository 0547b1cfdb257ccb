/** The two rows of `CSV_EXAMPLES` under the canonical header, and what
    `_parse_csv_row` makes of rows of their shape: an MCQ with four choices and
    answer A, and a SATA question with six choices and answers A, C, E and F. */
module ExampleRows {
  import opened Wrappers
  import opened PyText
  import opened CsvData
  import opened QuestionRow

  // ---------------------------------------------------------------------
  // Rows under the canonical header

  predicate Distinct(names: seq<string>) {
    forall i, j :: 0 <= i < j < |names| ==> names[i] != names[j]
  }

  /** The seventeen column names in their canonical order, all different. */
  predicate CanonicalNames(names: seq<string>) {
    && |names| == 17
    && names[0] == "question_type" && names[1] == "question"
    && names[2] == "option_a" && names[3] == "option_b" && names[4] == "option_c"
    && names[5] == "option_d" && names[6] == "option_e" && names[7] == "option_f"
    && names[8] == "correct_answer" && names[9] == "correct_answers"
    && names[10] == "rationale_a" && names[11] == "rationale_b" && names[12] == "rationale_c"
    && names[13] == "rationale_d" && names[14] == "rationale_e" && names[15] == "rationale_f"
    && names[16] == "youtube_search_term"
    && Distinct(names)
  }

  lemma CanonicalHeader()
    ensures CanonicalNames(CSV_HEADER)
  {
  }

  /** The keys the parser builds name the canonical columns. */
  lemma OptionKeysNameColumns(names: seq<string>)
    requires CanonicalNames(names)
    ensures OptionKey('A') == names[2] && OptionKey('B') == names[3] && OptionKey('C') == names[4]
    ensures OptionKey('D') == names[5] && OptionKey('E') == names[6] && OptionKey('F') == names[7]
    ensures OptionKey('G') !in names && OptionKey('H') !in names
  {
  }

  lemma RationaleKeysNameColumns(names: seq<string>)
    requires CanonicalNames(names)
    ensures RationaleKey('A') == names[10] && RationaleKey('B') == names[11] && RationaleKey('C') == names[12]
    ensures RationaleKey('D') == names[13] && RationaleKey('E') == names[14] && RationaleKey('F') == names[15]
  {
  }

  /** A full record under distinct names: every column holds its own text. */
  lemma FullRow(names: seq<string>, rec: seq<string>)
    requires Distinct(names) && |rec| == |names|
    ensures forall j :: 0 <= j < |names| ==> names[j] in MakeRow(names, rec) && MakeRow(names, rec)[names[j]] == Some(rec[j])
    ensures forall k :: k in MakeRow(names, rec) <==> k in names
    ensures forall k :: k in MakeRow(names, rec) ==> MakeRow(names, rec)[k].Some?
  {
    forall j | 0 <= j < |names|
      ensures names[j] in MakeRow(names, rec) && MakeRow(names, rec)[names[j]] == Some(rec[j])
    {
      MakeRowAt(names, rec, j);
    }
    forall k ensures k in MakeRow(names, rec) <==> k in names {
      MakeRowKeys(names, rec, k);
    }
  }

  /** The option letters A to H in order: what `ALL_LETTERS` is, stated by its
      members so that proofs about it need not unfold the literal. */
  predicate LetterRange(alphabet: string) {
    && Increasing(alphabet)
    && forall c :: c in alphabet <==> 'A' <= c <= 'H'
  }

  lemma AllLettersRange()
    ensures LetterRange(ALL_LETTERS)
  {
    AllLettersIncreasing();
  }

  /** A text that is neither empty nor padded. */
  predicate Filled(s: string) {
    s != [] && Unpadded(s)
  }

  /** Every cell of a full record reads back as its trimmed text. */
  lemma CellsOf(names: seq<string>, rec: seq<string>, j: nat)
    requires Distinct(names) && |rec| == |names| && j < |names|
    ensures Cell(MakeRow(names, rec), names[j]) == Strip(rec[j])
  {
    FullRow(names, rec);
  }

  /** A column the header lacks reads as "". */
  lemma AbsentCell(names: seq<string>, rec: seq<string>, key: string)
    requires Distinct(names) && |rec| == |names| && key !in names
    ensures Cell(MakeRow(names, rec), key) == ""
  {
    FullRow(names, rec);
  }

  /** The option text a full record holds for letter `l`: columns 2 to 7 hold
      options A to F, and the header has no column for G or H. */
  function OptionText(rec: seq<string>, l: char): string
    requires |rec| == 17
  {
    if 'A' <= l <= 'F' then rec[l as int - 'A' as int + 2] else ""
  }

  lemma OptionCells(names: seq<string>, rec: seq<string>)
    requires CanonicalNames(names) && |rec| == 17
    requires forall j :: 2 <= j < 8 ==> rec[j] == "" || Filled(rec[j])
    ensures forall l :: 'A' <= l <= 'H' ==> Cell(MakeRow(names, rec), OptionKey(l)) == OptionText(rec, l)
  {
    var row := MakeRow(names, rec);
    OptionKeysNameColumns(names);
    forall j | 2 <= j < 8 ensures Cell(row, names[j]) == rec[j] {
      CellsOf(names, rec, j);
      if rec[j] != "" {
        StripUnpadded(rec[j]);
      }
    }
    AbsentCell(names, rec, OptionKey('G'));
    AbsentCell(names, rec, OptionKey('H'));
    forall l | 'A' <= l <= 'H' ensures Cell(row, OptionKey(l)) == OptionText(rec, l) {
      if l == 'A' {
      } else if l == 'B' {
      } else if l == 'C' {
      } else if l == 'D' {
      } else if l == 'E' {
      } else if l == 'F' {
      } else if l == 'G' {
      } else {
        assert l == 'H';
      }
    }
  }

  /** The rationale text a full record holds for letter `l`: columns 10 to 15
      hold rationales A to F. */
  function RationaleText(rec: seq<string>, l: char): string
    requires |rec| == 17
  {
    if 'A' <= l <= 'F' then rec[l as int - 'A' as int + 10] else ""
  }

  lemma RationaleCells(names: seq<string>, rec: seq<string>)
    requires CanonicalNames(names) && |rec| == 17
    requires forall j :: 10 <= j < 16 ==> rec[j] == "" || Filled(rec[j])
    ensures forall l :: 'A' <= l <= 'F' ==> Cell(MakeRow(names, rec), RationaleKey(l)) == RationaleText(rec, l)
  {
    var row := MakeRow(names, rec);
    RationaleKeysNameColumns(names);
    forall j | 10 <= j < 16 ensures Cell(row, names[j]) == rec[j] {
      CellsOf(names, rec, j);
      if rec[j] != "" {
        StripUnpadded(rec[j]);
      }
    }
    forall l | 'A' <= l <= 'F' ensures Cell(row, RationaleKey(l)) == RationaleText(rec, l) {
      if l == 'A' {
      } else if l == 'B' {
      } else if l == 'C' {
      } else if l == 'D' {
      } else if l == 'E' {
      } else {
        assert l == 'F';
      }
    }
  }

  /** The options map of a row whose option cells are given letter by letter. */
  lemma OptionsOfCells(row: Row, rec: seq<string>, alphabet: string, options: map<char, string>)
    requires |rec| == 17 && LetterRange(alphabet)
    requires forall l :: 'A' <= l <= 'H' ==> Cell(row, OptionKey(l)) == OptionText(rec, l)
    requires forall l :: l in options <==> 'A' <= l <= 'F' && rec[l as int - 'A' as int + 2] != ""
    requires forall l :: l in options ==> options[l] == rec[l as int - 'A' as int + 2]
    ensures OptionsOf(row, alphabet) == options
  {
  }

  /** A record with fewer than eight fields leaves `option_f` unset:
      `DictReader` fills it with `None`, `.strip()` on it raises, and the row
      raises whatever else it holds. */
  lemma ShortRecordFaults(names: seq<string>, rec: seq<string>, alphabet: string)
    requires CanonicalNames(names) && LetterRange(alphabet) && |rec| < 8
    ensures RowOutcome(MakeRow(names, rec), alphabet).Err?
  {
    MakeRowAt(names, rec, 7);
    OptionKeysNameColumns(names);
    assert 'F' in alphabet;
    EarlyNoneFaults(MakeRow(names, rec), alphabet, OptionKey('F'));
  }

  // ---------------------------------------------------------------------
  // The example MCQ row

  /** A record shaped like the MCQ example: type `mcq`, options A to D, answer
      `A`, rationales A to D and a search term. */
  predicate McqShape(rec: seq<string>) {
    && |rec| == 17
    && rec[0] == "mcq"
    && Filled(rec[1]) && Filled(rec[2]) && Filled(rec[3]) && Filled(rec[4]) && Filled(rec[5])
    && rec[6] == "" && rec[7] == "" && rec[8] == "A" && rec[9] == ""
    && Filled(rec[10]) && Filled(rec[11]) && Filled(rec[12]) && Filled(rec[13])
    && rec[14] == "" && rec[15] == ""
    && Filled(rec[16])
  }

  function McqOptions(rec: seq<string>): map<char, string>
    requires |rec| == 17
  {
    map['A' := rec[2], 'B' := rec[3], 'C' := rec[4], 'D' := rec[5]]
  }

  function McqQuestion(rec: seq<string>): Question
    requires |rec| == 17
  {
    Question(rec[1], Mcq,
             ["A. " + rec[2], "B. " + rec[3], "C. " + rec[4], "D. " + rec[5]],
             "A",
             map['A' := rec[10], 'B' := rec[11], 'C' := rec[12], 'D' := rec[13]],
             rec[16])
  }

  lemma McqOptionsShape(rec: seq<string>)
    requires McqShape(rec)
    ensures forall l :: l in McqOptions(rec) <==> 'A' <= l <= 'F' && rec[l as int - 'A' as int + 2] != ""
    ensures forall l :: l in McqOptions(rec) ==> McqOptions(rec)[l] == rec[l as int - 'A' as int + 2]
  {
    forall l ensures l in McqOptions(rec) <==> 'A' <= l <= 'F' && rec[l as int - 'A' as int + 2] != "" {
      if 'A' <= l <= 'F' {
        assert l == 'A' || l == 'B' || l == 'C' || l == 'D' || l == 'E' || l == 'F';
      }
    }
  }

  lemma McqCells(names: seq<string>, rec: seq<string>, alphabet: string)
    requires CanonicalNames(names) && McqShape(rec) && LetterRange(alphabet)
    ensures Cell(MakeRow(names, rec), "question") == rec[1]
    ensures Cell(MakeRow(names, rec), "question_type") == "mcq"
    ensures Cell(MakeRow(names, rec), "correct_answer") == "A"
    ensures Cell(MakeRow(names, rec), "youtube_search_term") == rec[16]
    ensures forall l :: 'A' <= l <= 'F' ==> Cell(MakeRow(names, rec), RationaleKey(l)) == RationaleText(rec, l)
    ensures OptionsOf(MakeRow(names, rec), alphabet) == McqOptions(rec)
  {
    TextCells(names, rec);
    CellsOf(names, rec, 8);
    McqTableCells(names, rec, alphabet);
  }

  /** The question and search-term cells of a full record read back as written
      when those texts are already trimmed; the type cell reads back trimmed. */
  lemma TextCells(names: seq<string>, rec: seq<string>)
    requires CanonicalNames(names) && |rec| == 17 && Filled(rec[1]) && Filled(rec[16])
    ensures Cell(MakeRow(names, rec), "question_type") == Strip(rec[0])
    ensures Cell(MakeRow(names, rec), "question") == rec[1]
    ensures Cell(MakeRow(names, rec), "youtube_search_term") == rec[16]
  {
    CellsOf(names, rec, 0);
    CellsOf(names, rec, 1);
    CellsOf(names, rec, 16);
    StripUnpadded(rec[1]);
    StripUnpadded(rec[16]);
  }

  lemma McqTableCells(names: seq<string>, rec: seq<string>, alphabet: string)
    requires CanonicalNames(names) && McqShape(rec) && LetterRange(alphabet)
    ensures forall l :: 'A' <= l <= 'F' ==> Cell(MakeRow(names, rec), RationaleKey(l)) == RationaleText(rec, l)
    ensures OptionsOf(MakeRow(names, rec), alphabet) == McqOptions(rec)
  {
    McqColumns(rec);
    RationaleCells(names, rec);
    OptionCells(names, rec);
    McqOptionsShape(rec);
    OptionsOfCells(MakeRow(names, rec), rec, alphabet, McqOptions(rec));
  }

  /** The option and rationale columns of the MCQ example are empty or trimmed text. */
  lemma McqColumns(rec: seq<string>)
    requires McqShape(rec)
    ensures forall j :: 2 <= j < 8 ==> rec[j] == "" || Filled(rec[j])
    ensures forall j :: 10 <= j < 16 ==> rec[j] == "" || Filled(rec[j])
  {
    forall j | 2 <= j < 8 || 10 <= j < 16 ensures rec[j] == "" || Filled(rec[j]) {
      assert j in {2, 3, 4, 5, 6, 7, 10, 11, 12, 13, 14, 15};
    }
  }

  /** The MCQ example's type and answer cells name the single letter A. */
  lemma McqCorrect(row: Row, rec: seq<string>, alphabet: string)
    requires |rec| == 17
    requires Cell(row, "question_type") == "mcq" && Cell(row, "correct_answer") == "A"
    requires OptionsOf(row, alphabet) == McqOptions(rec)
    ensures !RowIsSata(row) && CorrectOf(row, alphabet) == {'A'}
  {
    assert Lower("mcq") == "mcq";
    assert Upper("A") == "A";
  }

  /** The example MCQ row parses to its question. */
  lemma McqRowParses(names: seq<string>, rec: seq<string>, alphabet: string)
    requires CanonicalNames(names) && McqShape(rec) && LetterRange(alphabet)
    ensures RowOutcome(MakeRow(names, rec), alphabet) == Ok(Some(McqQuestion(rec)))
  {
    var row := MakeRow(names, rec);
    FullRow(names, rec);
    McqCells(names, rec, alphabet);
    McqCorrect(row, rec, alphabet);
    NoFaultWithoutNone(row, alphabet);
    RejectedIff(row, alphabet);
    var q := RowOutcome(row, alphabet).value.value;
    AcceptedContents(row, alphabet, q);
    McqAssembled(row, rec, alphabet, q);
  }

  /** Sorting a set of letters gives the one increasing sequence holding them. */
  lemma SortedAs(alphabet: string, keys: set<char>, sorted: string)
    requires LetterRange(alphabet) && Increasing(sorted)
    requires forall c :: c in keys ==> 'A' <= c <= 'H'
    requires forall c :: c in sorted <==> c in keys
    ensures SortedLetters(alphabet, keys) == sorted
  {
    IncreasingUnique(SortedLetters(alphabet, keys), sorted);
  }

  /** The letters of the MCQ example, sorted. */
  lemma McqSorted(rec: seq<string>, alphabet: string)
    requires |rec| == 17 && LetterRange(alphabet)
    ensures SortedLetters(alphabet, McqOptions(rec).Keys) == "ABCD"
    ensures SortedLetters(alphabet, {'A'}) == "A"
  {
    IncreasingUnique(SortedLetters(alphabet, McqOptions(rec).Keys), "ABCD");
    SortedSingle(alphabet, 'A');
  }

  /** The MCQ example's choices, in letter order. */
  lemma McqChoices(rec: seq<string>)
    requires |rec| == 17
    ensures Choices("ABCD", McqOptions(rec)) == McqQuestion(rec).choices
  {
    var c := Choices("ABCD", McqOptions(rec));
    assert c[0] == "A. " + rec[2] && c[1] == "B. " + rec[3];
    assert c[2] == "C. " + rec[4] && c[3] == "D. " + rec[5];
  }

  /** The MCQ example's rationales, one per option. */
  lemma McqRationales(row: Row, rec: seq<string>, r: map<char, string>)
    requires |rec| == 17
    requires forall l :: 'A' <= l <= 'F' ==> Cell(row, RationaleKey(l)) == RationaleText(rec, l)
    requires forall l :: l in r <==> l in McqOptions(rec)
    requires forall l :: l in r ==> r[l] == Cell(row, RationaleKey(l))
    ensures r == McqQuestion(rec).rationales
  {
    var m := McqQuestion(rec).rationales;
    McqRationaleKeys(rec, r);
    McqRationaleValues(row, rec, r);
    assert forall l :: l in r ==> r[l] == m[l];
  }

  lemma McqRationaleKeys(rec: seq<string>, r: map<char, string>)
    requires |rec| == 17
    requires forall l :: l in r <==> l in McqOptions(rec)
    ensures r.Keys == McqQuestion(rec).rationales.Keys
  {
  }

  lemma McqRationaleValues(row: Row, rec: seq<string>, r: map<char, string>)
    requires |rec| == 17
    requires forall l :: 'A' <= l <= 'F' ==> Cell(row, RationaleKey(l)) == RationaleText(rec, l)
    requires forall l :: l in r ==> r[l] == Cell(row, RationaleKey(l))
    requires r.Keys == McqQuestion(rec).rationales.Keys
    ensures forall l :: l in r ==> r[l] == McqQuestion(rec).rationales[l]
  {
    var m := McqQuestion(rec).rationales;
    forall l | l in r ensures r[l] == m[l] {
      if l == 'A' {
      } else if l == 'B' {
      } else if l == 'C' {

      } else {
        assert l == 'D';
      }
    }
  }

  /** The question assembled from the MCQ example's row is the expected one. */
  lemma McqAssembled(row: Row, rec: seq<string>, alphabet: string, q: Question)
    requires |rec| == 17 && LetterRange(alphabet)
    requires Assembled(row, alphabet, q)
    requires Cell(row, "question") == rec[1] && Cell(row, "youtube_search_term") == rec[16]
    requires forall l :: 'A' <= l <= 'F' ==> Cell(row, RationaleKey(l)) == RationaleText(rec, l)
    requires OptionsOf(row, alphabet) == McqOptions(rec)
    requires !RowIsSata(row) && CorrectOf(row, alphabet) == {'A'}
    ensures q == McqQuestion(rec)
  {
    McqSorted(rec, alphabet);
    McqChoices(rec);
    McqRationales(row, rec, q.rationales);
  }

  // ---------------------------------------------------------------------
  // The example SATA row

  /** A record shaped like the SATA example: type `sata`, options A to F,
      answers that split into A, C, E and F, rationales A to F and a search term. */
  predicate SataShape(rec: seq<string>) {
    && |rec| == 17
    && rec[0] == "sata"
    && Filled(rec[1]) && Filled(rec[2]) && Filled(rec[3]) && Filled(rec[4])
    && Filled(rec[5]) && Filled(rec[6]) && Filled(rec[7])
    && rec[8] == "" && Filled(rec[9]) && SplitAnswers(rec[9]) == ["A", "C", "E", "F"]
    && Filled(rec[10]) && Filled(rec[11]) && Filled(rec[12])
    && Filled(rec[13]) && Filled(rec[14]) && Filled(rec[15])
    && Filled(rec[16])
  }

  const SATA_ANSWER: string := "A;C;E;F"

  function SataOptions(rec: seq<string>): map<char, string>
    requires |rec| == 17
  {
    map['A' := rec[2], 'B' := rec[3], 'C' := rec[4], 'D' := rec[5], 'E' := rec[6], 'F' := rec[7]]
  }

  function SataQuestion(rec: seq<string>): Question
    requires |rec| == 17
  {
    Question(rec[1], Sata,
             ["A. " + rec[2], "B. " + rec[3], "C. " + rec[4], "D. " + rec[5], "E. " + rec[6], "F. " + rec[7]],
             "ACEF",
             map['A' := rec[10], 'B' := rec[11], 'C' := rec[12], 'D' := rec[13], 'E' := rec[14], 'F' := rec[15]],
             rec[16])
  }

  /** `A;C;E;F` splits into its four letters. */
  lemma SataAnswerSplits()
    ensures SplitAnswers(SATA_ANSWER) == ["A", "C", "E", "F"]
  {
    var tokens := ["A", "C", "E", "F"];
    var seps := [";", ";", ";"];
    assert JoinAnswers(tokens[3..], seps[3..]) == "F";
    assert JoinAnswers(tokens[2..], seps[2..]) == "E;F";
    assert JoinAnswers(tokens[1..], seps[1..]) == "C;E;F";
    assert JoinAnswers(tokens, seps) == SATA_ANSWER;
    SplitJoin(tokens, seps);
  }

  /** The SATA example's answers name A, C, E and F. */
  lemma SataCorrectLetters(answer: string, keys: set<char>)
    requires SplitAnswers(answer) == ["A", "C", "E", "F"]
    requires keys == {'A', 'B', 'C', 'D', 'E', 'F'}
    ensures CorrectSet(true, answer, keys) == {'A', 'C', 'E', 'F'}
  {
    var parts := SplitAnswers(answer);
    assert Upper("A") == "A" && Upper("C") == "C" && Upper("E") == "E" && Upper("F") == "F";
    forall c ensures c in SataLetters(parts, keys) <==> c in {'A', 'C', 'E', 'F'} {
      SataLettersIff(parts, keys, c);
      if c in {'A', 'C', 'E', 'F'} {
        var i := if c == 'A' then 0 else if c == 'C' then 1 else if c == 'E' then 2 else 3;
        assert Upper(parts[i]) == [c];
      }
      if NamesLetter(parts, c) {
        var i :| 0 <= i < |parts| && Upper(parts[i]) == [c];
        assert i == 0 || i == 1 || i == 2 || i == 3;
      }
    }
  }

  lemma SataOptionsShape(rec: seq<string>)
    requires SataShape(rec)
    ensures forall l :: l in SataOptions(rec) <==> 'A' <= l <= 'F' && rec[l as int - 'A' as int + 2] != ""
    ensures forall l :: l in SataOptions(rec) ==> SataOptions(rec)[l] == rec[l as int - 'A' as int + 2]
  {
    forall l ensures l in SataOptions(rec) <==> 'A' <= l <= 'F' && rec[l as int - 'A' as int + 2] != "" {
      if 'A' <= l <= 'F' {
        assert l == 'A' || l == 'B' || l == 'C' || l == 'D' || l == 'E' || l == 'F';
      }
    }
  }

  lemma SataCells(names: seq<string>, rec: seq<string>, alphabet: string)
    requires CanonicalNames(names) && SataShape(rec) && LetterRange(alphabet)
    ensures Cell(MakeRow(names, rec), "question") == rec[1]
    ensures Cell(MakeRow(names, rec), "question_type") == "sata"
    ensures Cell(MakeRow(names, rec), "correct_answers") == rec[9]
    ensures Cell(MakeRow(names, rec), "youtube_search_term") == rec[16]
  {
    TextCells(names, rec);
    CellsOf(names, rec, 9);
    StripUnpadded(rec[9]);
  }

  /** The option and rationale columns of the SATA example are empty or trimmed text. */
  lemma SataColumns(rec: seq<string>)
    requires SataShape(rec)
    ensures forall j :: 2 <= j < 8 ==> rec[j] == "" || Filled(rec[j])
    ensures forall j :: 10 <= j < 16 ==> rec[j] == "" || Filled(rec[j])
  {
    forall j | 2 <= j < 8 || 10 <= j < 16 ensures rec[j] == "" || Filled(rec[j]) {
      assert j in {2, 3, 4, 5, 6, 7, 10, 11, 12, 13, 14, 15};
    }
  }

  lemma SataTableCells(names: seq<string>, rec: seq<string>, alphabet: string)
    requires CanonicalNames(names) && SataShape(rec) && LetterRange(alphabet)
    ensures forall l :: 'A' <= l <= 'F' ==> Cell(MakeRow(names, rec), RationaleKey(l)) == RationaleText(rec, l)
    ensures OptionsOf(MakeRow(names, rec), alphabet) == SataOptions(rec)
  {
    SataColumns(rec);
    RationaleCells(names, rec);
    OptionCells(names, rec);
    SataOptionsShape(rec);
    OptionsOfCells(MakeRow(names, rec), rec, alphabet, SataOptions(rec));
  }

  /** The SATA example's type and answer cells name A, C, E and F. */
  lemma SataCorrect(row: Row, rec: seq<string>, alphabet: string)
    requires |rec| == 17 && SplitAnswers(rec[9]) == ["A", "C", "E", "F"]
    requires Cell(row, "question_type") == "sata" && Cell(row, "correct_answers") == rec[9]
    requires OptionsOf(row, alphabet) == SataOptions(rec)
    ensures RowIsSata(row) && CorrectOf(row, alphabet) == {'A', 'C', 'E', 'F'}
  {
    assert Lower("sata") == "sata";
    SataCorrectLetters(rec[9], SataOptions(rec).Keys);
  }

  /** The example SATA row parses to its question. */
  lemma SataRowParses(names: seq<string>, rec: seq<string>, alphabet: string)
    requires CanonicalNames(names) && SataShape(rec) && LetterRange(alphabet)
    ensures RowOutcome(MakeRow(names, rec), alphabet) == Ok(Some(SataQuestion(rec)))
  {
    var row := MakeRow(names, rec);
    FullRow(names, rec);
    SataCells(names, rec, alphabet);
    SataTableCells(names, rec, alphabet);
    SataCorrect(row, rec, alphabet);
    NoFaultWithoutNone(row, alphabet);
    RejectedIff(row, alphabet);
    var q := RowOutcome(row, alphabet).value.value;
    AcceptedContents(row, alphabet, q);
    SataAssembled(row, rec, alphabet, q);
  }

  /** The letters of the SATA example, sorted. */
  lemma SataSorted(rec: seq<string>, alphabet: string)
    requires |rec| == 17 && LetterRange(alphabet)
    ensures SortedLetters(alphabet, SataOptions(rec).Keys) == "ABCDEF"
    ensures SortedLetters(alphabet, {'A', 'C', 'E', 'F'}) == "ACEF"
  {
    SortedAs(alphabet, SataOptions(rec).Keys, "ABCDEF");
    SortedAs(alphabet, {'A', 'C', 'E', 'F'}, "ACEF");
  }

  /** The SATA example's choices, in letter order. */
  lemma SataChoices(rec: seq<string>)
    requires |rec| == 17
    ensures Choices("ABCDEF", SataOptions(rec)) == SataQuestion(rec).choices
  {
    var c := Choices("ABCDEF", SataOptions(rec));
    assert c[0] == "A. " + rec[2] && c[1] == "B. " + rec[3] && c[2] == "C. " + rec[4];
    assert c[3] == "D. " + rec[5] && c[4] == "E. " + rec[6] && c[5] == "F. " + rec[7];
  }

  /** The SATA example's rationales, one per option. */
  lemma SataRationales(row: Row, rec: seq<string>, r: map<char, string>)
    requires |rec| == 17
    requires forall l :: 'A' <= l <= 'F' ==> Cell(row, RationaleKey(l)) == RationaleText(rec, l)
    requires forall l :: l in r <==> l in SataOptions(rec)
    requires forall l :: l in r ==> r[l] == Cell(row, RationaleKey(l))
    ensures r == SataQuestion(rec).rationales
  {
    var m := SataQuestion(rec).rationales;
    SataRationaleKeys(rec, r);
    SataRationaleValues(row, rec, r);
    assert forall l :: l in r ==> r[l] == m[l];
  }

  lemma SataRationaleKeys(rec: seq<string>, r: map<char, string>)
    requires |rec| == 17
    requires forall l :: l in r <==> l in SataOptions(rec)
    ensures r.Keys == SataQuestion(rec).rationales.Keys
  {
  }

  lemma SataRationaleValues(row: Row, rec: seq<string>, r: map<char, string>)
    requires |rec| == 17
    requires forall l :: 'A' <= l <= 'F' ==> Cell(row, RationaleKey(l)) == RationaleText(rec, l)
    requires forall l :: l in r ==> r[l] == Cell(row, RationaleKey(l))
    requires r.Keys == SataQuestion(rec).rationales.Keys
    ensures forall l :: l in r ==> r[l] == SataQuestion(rec).rationales[l]
  {
    var m := SataQuestion(rec).rationales;
    forall l | l in r ensures r[l] == m[l] {
      if l == 'A' {
      } else if l == 'B' {
      } else if l == 'C' {
      } else if l == 'D' {
      } else if l == 'E' {
      } else {
        assert l == 'F';
      }
    }
  }

  /** The question assembled from the SATA example's row is the expected one. */
  lemma SataAssembled(row: Row, rec: seq<string>, alphabet: string, q: Question)
    requires |rec| == 17 && LetterRange(alphabet)
    requires Assembled(row, alphabet, q)
    requires Cell(row, "question") == rec[1] && Cell(row, "youtube_search_term") == rec[16]
    requires forall l :: 'A' <= l <= 'F' ==> Cell(row, RationaleKey(l)) == RationaleText(rec, l)
    requires OptionsOf(row, alphabet) == SataOptions(rec)
    requires RowIsSata(row) && CorrectOf(row, alphabet) == {'A', 'C', 'E', 'F'}
    ensures q == SataQuestion(rec)
  {
    SataSorted(rec, alphabet);
    SataChoices(rec);
    SataRationales(row, rec, q.rationales);
  }
}
