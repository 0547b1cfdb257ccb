/** `_parse_csv_row`: one `DictReader` row becomes a question, is rejected
    (`None`), or raises because a cell it reads is the `None` of a short row. */
module QuestionRow {
  import opened Wrappers
  import opened PyText
  import opened CsvData

  /** Question types, after trimming and lower-casing, that mean "select all
      that apply". */
  const SATA_KEYWORDS: set<string> := {
    "sata", "select_all_that_apply", "select all that apply",
    "select_all", "select all that apply (sata)"
  }

  /** The option letters A to H, in order. */
  const ALL_LETTERS: string := "ABCDEFGH"

  lemma AllLettersIncreasing()
    ensures Increasing(ALL_LETTERS)
  {
  }

  datatype Kind = Mcq | Sata

  /** The dictionary `_parse_csv_row` returns.  `correctSet` holds the correct
      letters in sorted order and `rationales` is keyed by option letter. */
  datatype Question = Question(
    q: string,
    kind: Kind,
    choices: seq<string>,
    correctSet: seq<char>,
    rationales: map<char, string>,
    searchTerm: string)

  // ---------------------------------------------------------------------
  // Reading cells

  /** The trimmed text under `key`, with a missing key read as "". */
  function Cell(row: Row, key: string): (t: string)
    ensures Unpadded(t)
  {
    if key in row && row[key].Some? then Strip(row[key].value) else ""
  }

  /** `row.get(key, "").strip()`: raises when the cell is `None`. */
  function GetStripped(row: Row, key: string): (r: Result<string>)
    ensures r.Err? <==> key in row && row[key].None?
    ensures r.Ok? ==> r.value == Cell(row, key)
  {
    if key in row && row[key].None? then Err(StripOfNone(key)) else Ok(Cell(row, key))
  }

  function OptionKey(letter: char): string {
    "option_" + [LowerChar(letter)]
  }

  function RationaleKey(letter: char): string {
    "rationale_" + [LowerChar(letter)]
  }

  // ---------------------------------------------------------------------
  // Options

  /** The options comprehension: for each letter in order, read its option
      cell (which may raise) and keep the letter when the text is not empty. */
  function CollectOptions(row: Row, letters: string): (r: Result<map<char, string>>)
    ensures r.Ok? <==> forall i :: 0 <= i < |letters| ==> GetStripped(row, OptionKey(letters[i])).Ok?
    ensures r.Ok? ==> forall l :: l in r.value ==> l in letters
    ensures r.Ok? ==> forall i :: 0 <= i < |letters| ==>
      (letters[i] in r.value <==> Cell(row, OptionKey(letters[i])) != [])
    ensures r.Ok? ==> forall l :: l in r.value ==> r.value[l] == Cell(row, OptionKey(l)) && r.value[l] != []
    decreases |letters|
  {
    if letters == [] then Ok(map[])
    else
      var text :- GetStripped(row, OptionKey(letters[0]));
      var rest :- CollectOptions(row, letters[1..]);
      Ok(if text == [] then rest else rest[letters[0] := text])
  }

  /** The rationales comprehension over the option letters. */
  function CollectRationales(row: Row, letters: string): (r: Result<map<char, string>>)
    ensures r.Ok? <==> forall i :: 0 <= i < |letters| ==> GetStripped(row, RationaleKey(letters[i])).Ok?
    ensures r.Ok? ==> forall l :: l in r.value <==> l in letters
    ensures r.Ok? ==> forall l :: l in r.value ==> r.value[l] == Cell(row, RationaleKey(l))
    decreases |letters|
  {
    if letters == [] then Ok(map[])
    else
      var text :- GetStripped(row, RationaleKey(letters[0]));
      var rest :- CollectRationales(row, letters[1..]);
      Ok(rest[letters[0] := text])
  }

  // ---------------------------------------------------------------------
  // Sorting letters

  predicate Increasing(s: seq<char>) {
    forall i, j :: 0 <= i < j < |s| ==> s[i] < s[j]
  }

  /** The letters of `letters` that are in `keys`, in their order. */
  function Filter(letters: string, keys: set<char>): (r: string)
    ensures forall c :: c in r <==> c in letters && c in keys
    ensures Increasing(letters) ==> Increasing(r)
    decreases |letters|
  {
    if letters == [] then []
    else
      var rest := Filter(letters[1..], keys);
      var r := (if letters[0] in keys then [letters[0]] else []) + rest;
      assert Increasing(letters) ==> Increasing(r) by {
        if Increasing(letters) {
          assert forall i :: 0 <= i < |rest| ==> rest[i] in letters[1..];
          assert forall c :: c in letters[1..] ==> letters[0] < c;
        }
      }
      r
  }

  /** `sorted(keys)` for a set of option letters drawn from `alphabet`, the
      letters in their order. */
  function SortedLetters(alphabet: string, keys: set<char>): (r: string)
    ensures Increasing(alphabet) ==> Increasing(r)
    ensures forall c :: c in r <==> c in alphabet && c in keys
  {
    Filter(alphabet, keys)
  }

  /** An increasing sequence is fixed by its members: `sorted` has one answer. */
  lemma {:induction false} IncreasingUnique(a: seq<char>, b: seq<char>)
    requires Increasing(a) && Increasing(b)
    requires forall c :: c in a <==> c in b
    ensures a == b
    decreases |a|
  {
    assert a != [] ==> a[0] in b;
    assert b != [] ==> b[0] in a;
    if a != [] && b != [] {
      SameFirst(a, b);
      forall c ensures c in a[1..] <==> c in b[1..] {
        if c in a[1..] { InTail(a, b, c); }
        if c in b[1..] { InTail(b, a, c); }
      }
      IncreasingUnique(a[1..], b[1..]);
      assert a == [a[0]] + a[1..] && b == [b[0]] + b[1..];
    }
  }

  /** Two increasing sequences with the same elements start alike. */
  lemma SameFirst(a: seq<char>, b: seq<char>)
    requires Increasing(a) && Increasing(b) && a != [] && b != []
    requires forall c :: c in a <==> c in b
    ensures a[0] == b[0]
  {
    assert a[0] in b && b[0] in a;
    var i :| 0 <= i < |b| && b[i] == a[0];
    var j :| 0 <= j < |a| && a[j] == b[0];
    assert a[0] <= a[j] && b[0] <= b[i];
  }

  /** Past an equal first element, what follows in one follows in the other. */
  lemma InTail(a: seq<char>, b: seq<char>, c: char)
    requires Increasing(a) && Increasing(b) && a != [] && b != [] && a[0] == b[0]
    requires forall x :: x in a <==> x in b
    requires c in a[1..]
    ensures c in b[1..]
  {
    var k :| 0 <= k < |a[1..]| && a[1..][k] == c;
    assert a[k + 1] == c && a[0] < c;
    assert c in a;
    var m :| 0 <= m < |b| && b[m] == c;
    assert m != 0;
    assert b[1..][m - 1] == c;
  }

  /** `[f"{L}. {options[L]}" for L in sorted(options.keys())]`. */
  function Choices(letters: string, options: map<char, string>): (c: seq<string>)
    requires forall l :: l in letters ==> l in options
    ensures |c| == |letters|
    ensures forall i :: 0 <= i < |c| ==> c[i] == [letters[i]] + ". " + options[letters[i]]
  {
    seq(|letters|, i requires 0 <= i < |letters| => [letters[i]] + ". " + options[letters[i]])
  }

  // ---------------------------------------------------------------------
  // The correct set

  /** What `re.split` splits the answers on: `[;,\s]`. */
  predicate IsAnswerSep(c: char) {
    c == ';' || c == ',' || IsSpace(c)
  }

  predicate NoSep(s: string) {
    forall i :: 0 <= i < |s| ==> !IsAnswerSep(s[i])
  }

  predicate AllSep(s: string) {
    forall i :: 0 <= i < |s| ==> IsAnswerSep(s[i])
  }

  /** The length of the token `s` starts with. */
  function TokenLength(s: string): (k: nat)
    ensures k <= |s|
    ensures NoSep(s[..k])
    ensures k < |s| ==> IsAnswerSep(s[k])
  {
    if s == [] || IsAnswerSep(s[0]) then 0
    else
      var k := 1 + TokenLength(s[1..]);
      assert s[..k] == [s[0]] + s[1..][..k - 1];
      k
  }

  /** The length of the run of separators `s` starts with. */
  function SepLength(s: string): (k: nat)
    ensures k <= |s|
    ensures AllSep(s[..k])
    ensures k < |s| ==> !IsAnswerSep(s[k])
    ensures s != [] && IsAnswerSep(s[0]) ==> k > 0
  {
    if s == [] || !IsAnswerSep(s[0]) then 0
    else
      var k := 1 + SepLength(s[1..]);
      assert s[..k] == [s[0]] + s[1..][..k - 1];
      k
  }

  /** `re.split(r"[;,\s]+", s)`: the pieces between maximal runs of separators;
      a run at either end leaves an empty piece there. */
  function SplitAnswers(s: string): (parts: seq<string>)
    ensures |parts| > 0
    ensures forall i :: 0 <= i < |parts| ==> NoSep(parts[i])
    decreases |s|
  {
    var k := TokenLength(s);
    if k == |s| then [s]
    else
      var m := k + SepLength(s[k..]);
      [s[..k]] + SplitAnswers(s[m..])
  }

  /** Tokens joined by separator runs. */
  function JoinAnswers(tokens: seq<string>, seps: seq<string>): string
    requires |tokens| > 0 && |seps| == |tokens| - 1
  {
    if |tokens| == 1 then tokens[0]
    else tokens[0] + seps[0] + JoinAnswers(tokens[1..], seps[1..])
  }

  lemma {:induction false} TokenLengthOf(t: string, rest: string)
    requires NoSep(t)
    requires rest == [] || IsAnswerSep(rest[0])
    ensures TokenLength(t + rest) == |t|
    decreases |t|
  {
    var s := t + rest;
    if t == [] {
      assert s == rest;
    } else {
      assert s[0] == t[0] && !IsAnswerSep(s[0]);
      assert s[1..] == t[1..] + rest;
      TokenLengthOf(t[1..], rest);
      assert TokenLength(s) == 1 + TokenLength(s[1..]);
    }
  }

  lemma {:induction false} SepLengthOf(w: string, rest: string)
    requires AllSep(w)
    requires rest != [] && !IsAnswerSep(rest[0])
    ensures SepLength(w + rest) == |w|
    decreases |w|
  {
    var s := w + rest;
    if w == [] {
      assert s == rest;
    } else {
      assert s[0] == w[0] && IsAnswerSep(s[0]);
      assert s[1..] == w[1..] + rest;
      SepLengthOf(w[1..], rest);
      assert SepLength(s) == 1 + SepLength(s[1..]);
    }
  }

  /** Splitting undoes joining: non-empty tokens joined by non-empty runs of
      separators come back one by one. */
  lemma {:induction false} SplitJoin(tokens: seq<string>, seps: seq<string>)
    requires |tokens| > 0 && |seps| == |tokens| - 1
    requires forall i :: 0 <= i < |tokens| ==> tokens[i] != [] && NoSep(tokens[i])
    requires forall i :: 0 <= i < |seps| ==> seps[i] != [] && AllSep(seps[i])
    ensures SplitAnswers(JoinAnswers(tokens, seps)) == tokens
    decreases |tokens|
  {
    var t := tokens[0];
    if |tokens| == 1 {
      TokenLengthOf(t, []);
      assert t + [] == t;
    } else {
      var tail := JoinAnswers(tokens[1..], seps[1..]);
      assert forall i :: 0 <= i < |tokens[1..]| ==> tokens[1..][i] != [] && NoSep(tokens[1..][i]) by {
        forall i | 0 <= i < |tokens[1..]| ensures tokens[1..][i] != [] && NoSep(tokens[1..][i]) {
          assert tokens[1..][i] == tokens[i + 1];
        }
      }
      assert forall i :: 0 <= i < |seps[1..]| ==> seps[1..][i] != [] && AllSep(seps[1..][i]) by {
        forall i | 0 <= i < |seps[1..]| ensures seps[1..][i] != [] && AllSep(seps[1..][i]) {
          assert seps[1..][i] == seps[i + 1];
        }
      }
      JoinAnswersFirst(tokens[1..], seps[1..]);
      SplitStep(t, seps[0], tail);
      SplitJoin(tokens[1..], seps[1..]);
    }
  }

  /** A token, a separator run and the rest: the token is split off and
      splitting goes on after the run. */
  lemma SplitStep(t: string, w: string, tail: string)
    requires t != [] && NoSep(t)
    requires w != [] && AllSep(w)
    requires tail != [] && !IsAnswerSep(tail[0])
    ensures SplitAnswers(t + w + tail) == [t] + SplitAnswers(tail)
  {
    var s := t + w + tail;
    assert (w + tail)[0] == w[0];
    TokenLengthOf(t, w + tail);
    assert s == t + (w + tail);
    assert s[..|t|] == t;
    assert s[|t|..] == w + tail;
    SepLengthOf(w, tail);
    assert s[|t| + |w|..] == tail;
  }

  lemma JoinAnswersFirst(tokens: seq<string>, seps: seq<string>)
    requires |tokens| > 0 && |seps| == |tokens| - 1 && tokens[0] != []
    ensures JoinAnswers(tokens, seps) != [] && JoinAnswers(tokens, seps)[0] == tokens[0][0]
  {
  }

  /** The option letter a token names: `token.upper()` equal to a one-letter key. */
  function Named(token: string, keys: set<char>): set<char> {
    var u := Upper(token);
    if |u| == 1 && u[0] in keys then {u[0]} else {}
  }

  /** The letters the SATA answer tokens name, collected left to right. */
  function SataLetters(parts: seq<string>, keys: set<char>): (c: set<char>)
    ensures c <= keys
    decreases |parts|
  {
    if parts == [] then {}
    else SataLetters(parts[..|parts| - 1], keys) + Named(parts[|parts| - 1], keys)
  }

  /** Some token, upper-cased, is the letter `c`. */
  predicate NamesLetter(parts: seq<string>, c: char) {
    exists i :: 0 <= i < |parts| && Upper(parts[i]) == [c]
  }

  /** A letter is in the SATA set exactly when some token names it. */
  lemma {:induction false} SataLettersIff(parts: seq<string>, keys: set<char>, c: char)
    ensures c in SataLetters(parts, keys) <==> c in keys && NamesLetter(parts, c)
    decreases |parts|
  {
    if parts != [] {
      var init := parts[..|parts| - 1];
      SataLettersIff(init, keys, c);
      if NamesLetter(init, c) {
        var i :| 0 <= i < |init| && Upper(init[i]) == [c];
        assert parts[i] == init[i];
      }
      if NamesLetter(parts, c) {
        var i :| 0 <= i < |parts| && Upper(parts[i]) == [c];
        if i < |init| {
          assert init[i] == parts[i];
        }
      }
    }
  }

  /** The correct set `_parse_csv_row` builds, before sorting. */
  function CorrectSet(isSata: bool, answer: string, keys: set<char>): (c: set<char>)
    ensures c <= keys
  {
    if isSata then SataLetters(SplitAnswers(answer), keys) else Named(answer, keys)
  }

  /** Builds `correct_set` in place: `update` over the answer tokens for SATA,
      one `add` for MCQ. */
  method BuildCorrectSet(isSata: bool, answer: string, keys: set<char>) returns (correct: set<char>)
    ensures correct == CorrectSet(isSata, answer, keys)
  {
    correct := {};
    if isSata {
      var parts := SplitAnswers(answer);
      var i := 0;
      while i < |parts|
        invariant 0 <= i <= |parts|
        invariant correct == SataLetters(parts[..i], keys)
      {
        var u := Upper(parts[i]);
        assert parts[..i + 1][..i] == parts[..i];
        if |u| == 1 && u[0] in keys {
          correct := correct + {u[0]};
        }
        i := i + 1;
      }
      assert parts[..|parts|] == parts;
    } else {
      var u := Upper(answer);
      if |u| == 1 && u[0] in keys {
        correct := correct + {u[0]};
      }
    }
  }

  // ---------------------------------------------------------------------
  // The whole row

  /** The letters of the choices, in the order the choices are listed. */
  function ChoiceLetters(choices: seq<string>): seq<char> {
    seq(|choices|, i requires 0 <= i < |choices| => if choices[i] == [] then ' ' else choices[i][0])
  }

  /** What every accepted question satisfies: a non-empty trimmed text; one
      "L. text" choice per option, in letter order; rationales keyed exactly like
      the choices; a sorted, duplicate-free correct set drawn from the options,
      with exactly one letter for MCQ. */
  predicate WellFormed(q: Question, alphabet: string) {
    && q.q != [] && Unpadded(q.q)
    && (forall i :: 0 <= i < |q.choices| ==> |q.choices[i]| >= 3 && q.choices[i][1..3] == ". ")
    && Increasing(ChoiceLetters(q.choices))
    && (forall c :: c in ChoiceLetters(q.choices) <==> c in q.rationales)
    && (forall c :: c in q.rationales ==> c in alphabet)
    && q.correctSet != [] && Increasing(q.correctSet)
    && (forall c :: c in q.correctSet ==> c in q.rationales)
    && (q.kind == Mcq ==> |q.correctSet| == 1)
  }

  /** What `_parse_csv_row` returns for `row`, or the exception it raises:
      the question, its type and the options are read first. */
  function RowOutcome(row: Row, alphabet: string): (res: Result<Option<Question>>)
    ensures res.Ok? && res.value.Some? ==> res.value.value.q == Cell(row, "question") != []
  {
    var question :- GetStripped(row, "question");
    var typeRaw :- GetStripped(row, "question_type");
    var options :- CollectOptions(row, alphabet);
    if question == [] || options == map[] then Ok(None)
    else AnswerOutcome(row, alphabet, question, IsSataType(typeRaw), options)
  }

  /** Whether a trimmed question type names a SATA question. */
  predicate IsSataType(typeRaw: string) {
    Lower(typeRaw) in SATA_KEYWORDS
  }

  /** The rest of the row once a question with options is in hand: the answer
      is read and turned into the correct set. */
  function AnswerOutcome(row: Row, alphabet: string, question: string, isSata: bool, options: map<char, string>)
    : (res: Result<Option<Question>>)
    ensures res.Ok? && res.value.Some? ==> res.value.value.q == question
    ensures res.Ok? ==> (res.value.None? <==> CorrectSet(isSata, Cell(row, AnswerKey(isSata)), options.Keys) == {})
  {
    var answer :- GetStripped(row, if isSata then "correct_answers" else "correct_answer");
    var correct := CorrectSet(isSata, answer, options.Keys);
    if correct == {} then Ok(None)
    else Assemble(row, alphabet, question, isSata, options, correct)
  }

  /** The accepted question: rationales and the search term are read last. */
  function Assemble(row: Row, alphabet: string, question: string, isSata: bool, options: map<char, string>, correct: set<char>)
    : (res: Result<Option<Question>>)
    ensures res.Ok? ==> res.value.Some? && res.value.value.q == question
  {
    var letters := SortedLetters(alphabet, options.Keys);
    var rationales :- CollectRationales(row, letters);
    var term :- GetStripped(row, "youtube_search_term");
    Ok(Some(Question(question, if isSata then Sata else Mcq, Choices(letters, options),
                     SortedLetters(alphabet, correct), rationales, term)))
  }

  /** `_parse_csv_row` with `correct_set` built in place. */
  method ParseCsvRow(row: Row) returns (res: Result<Option<Question>>)
    ensures res == RowOutcome(row, ALL_LETTERS)
  {
    var question := GetStripped(row, "question");
    if question.Err? { return Err(question.fault); }
    var typeRaw := GetStripped(row, "question_type");
    if typeRaw.Err? { return Err(typeRaw.fault); }
    var isSata := Lower(typeRaw.value) in SATA_KEYWORDS;
    var options := CollectOptions(row, ALL_LETTERS);
    if options.Err? { return Err(options.fault); }
    if question.value == [] || options.value == map[] { return Ok(None); }
    res := ParseAnswer(row, question.value, isSata, options.value);
  }

  /** The answer half of `_parse_csv_row`. */
  method ParseAnswer(row: Row, question: string, isSata: bool, options: map<char, string>)
    returns (res: Result<Option<Question>>)
    ensures res == AnswerOutcome(row, ALL_LETTERS, question, isSata, options)
  {
    var answer := GetStripped(row, if isSata then "correct_answers" else "correct_answer");
    if answer.Err? { return Err(answer.fault); }
    var correct := BuildCorrectSet(isSata, answer.value, options.Keys);
    if correct == {} { return Ok(None); }
    var letters := SortedLetters(ALL_LETTERS, options.Keys);
    var rationales := CollectRationales(row, letters);
    if rationales.Err? { return Err(rationales.fault); }
    var term := GetStripped(row, "youtube_search_term");
    if term.Err? { return Err(term.fault); }
    res := Ok(Some(Question(question, if isSata then Sata else Mcq,
                            Choices(letters, options), SortedLetters(ALL_LETTERS, correct),
                            rationales.value, term.value)));
  }

  // ---------------------------------------------------------------------
  // What an outcome means, stated on the row's cells

  /** The options a row carries: each letter whose option cell is not empty. */
  function OptionsOf(row: Row, alphabet: string): map<char, string> {
    map l | l in alphabet && Cell(row, OptionKey(l)) != [] :: Cell(row, OptionKey(l))
  }

  /** Whether the row's type cell names a SATA question. */
  predicate RowIsSata(row: Row) {
    IsSataType(Cell(row, "question_type"))
  }

  /** The column the answer is read from. */
  function AnswerKey(isSata: bool): string {
    if isSata then "correct_answers" else "correct_answer"
  }

  /** The correct letters a row names among its options. */
  function CorrectOf(row: Row, alphabet: string): set<char> {
    CorrectSet(RowIsSata(row), Cell(row, AnswerKey(RowIsSata(row))), OptionsOf(row, alphabet).Keys)
  }

  /** The options comprehension, once it does not raise, is the options map. */
  lemma OptionsAll(row: Row, alphabet: string)
    requires CollectOptions(row, alphabet).Ok?
    ensures CollectOptions(row, alphabet).value == OptionsOf(row, alphabet)
  {
    var m := CollectOptions(row, alphabet).value;
    forall l | l in m ensures l in OptionsOf(row, alphabet) {
      var i :| 0 <= i < |alphabet| && alphabet[i] == l;
    }
    forall l | l in OptionsOf(row, alphabet) ensures l in m {
      var i :| 0 <= i < |alphabet| && alphabet[i] == l;
    }
  }

  /** An increasing sequence whose every element is `u` has at most one element. */
  lemma IncreasingConstant(s: seq<char>, u: char)
    requires Increasing(s)
    requires forall c :: c in s ==> c == u
    ensures |s| <= 1
  {
    FirstTwo(s);
  }

  lemma FirstTwo(s: seq<char>)
    requires Increasing(s)
    ensures |s| > 1 ==> s[0] in s && s[1] in s && s[0] < s[1]
  {
  }

  /** The stages an accepted row passes: a question with options, an answer
      naming some of them, then the assembled question. */
  lemma AcceptedStages(row: Row, alphabet: string, q: Question)
    requires RowOutcome(row, alphabet) == Ok(Some(q))
    ensures Cell(row, "question") != [] && OptionsOf(row, alphabet) != map[]
    ensures CorrectOf(row, alphabet) != {}
    ensures Assemble(row, alphabet, Cell(row, "question"), RowIsSata(row), OptionsOf(row, alphabet),
                     CorrectOf(row, alphabet)) == Ok(Some(q))
  {
    var question := Cell(row, "question");
    var isSata := RowIsSata(row);
    assert GetStripped(row, "question") == Ok(question);
    assert GetStripped(row, "question_type") == Ok(Cell(row, "question_type"));
    OptionsAll(row, alphabet);
    var options := OptionsOf(row, alphabet);
    assert CollectOptions(row, alphabet) == Ok(options);
    assert RowOutcome(row, alphabet) == AnswerOutcome(row, alphabet, question, isSata, options);
    var answer := Cell(row, AnswerKey(isSata));
    assert GetStripped(row, AnswerKey(isSata)) == Ok(answer);
  }

  /** The fields of `q` as a row determines them: the trimmed question, the
      kind the type cell names, one choice per option in letter order, the
      correct letters the answer names among the options, sorted, a rationale
      per option and the trimmed search term. */
  predicate Assembled(row: Row, alphabet: string, q: Question) {
    && q.q == Cell(row, "question") != []
    && q.kind == (if RowIsSata(row) then Sata else Mcq)
    && OptionsOf(row, alphabet) != map[]
    && q.choices == Choices(SortedLetters(alphabet, OptionsOf(row, alphabet).Keys), OptionsOf(row, alphabet))
    && CorrectOf(row, alphabet) != {}
    && q.correctSet == SortedLetters(alphabet, CorrectOf(row, alphabet))
    && (forall l :: l in q.rationales <==> l in OptionsOf(row, alphabet))
    && (forall l :: l in q.rationales ==> q.rationales[l] == Cell(row, RationaleKey(l)))
    && q.searchTerm == Cell(row, "youtube_search_term")
  }

  /** An accepted question carries exactly the fields its row determines. */
  lemma AcceptedContents(row: Row, alphabet: string, q: Question)
    requires RowOutcome(row, alphabet) == Ok(Some(q))
    ensures Assembled(row, alphabet, q)
  {
    AcceptedStages(row, alphabet, q);
    var options := OptionsOf(row, alphabet);
    var letters := SortedLetters(alphabet, options.Keys);
    assert CollectRationales(row, letters).Ok?;
    assert GetStripped(row, "youtube_search_term").Ok?;
    forall l ensures l in q.rationales <==> l in options {
      assert l in options ==> l in alphabet;
    }
  }

  /** Each choice is "L. text", and the choices list the letters in order. */
  lemma ChoicesShape(letters: string, options: map<char, string>)
    requires forall l :: l in letters ==> l in options
    ensures ChoiceLetters(Choices(letters, options)) == letters
    ensures forall i :: 0 <= i < |letters| ==>
      |Choices(letters, options)[i]| >= 3 && Choices(letters, options)[i][1..3] == ". "
  {
    var c := Choices(letters, options);
    forall i | 0 <= i < |letters| ensures ChoiceLetters(c)[i] == letters[i] {
      assert c[i] == [letters[i]] + ". " + options[letters[i]];
    }
    forall i | 0 <= i < |letters| ensures |c[i]| >= 3 && c[i][1..3] == ". " {
      assert c[i] == [letters[i]] + ". " + options[letters[i]];
    }
  }

  /** Sorting a non-empty set of letters drawn from an increasing alphabet gives
      a non-empty increasing sequence of exactly those letters; one letter sorts
      to a sequence of one. */
  lemma SortedCorrect(alphabet: string, correct: set<char>)
    requires Increasing(alphabet)
    requires correct != {} && forall c :: c in correct ==> c in alphabet
    ensures SortedLetters(alphabet, correct) != []
    ensures forall c :: c in SortedLetters(alphabet, correct) <==> c in correct
    ensures |correct| == 1 ==> |SortedLetters(alphabet, correct)| == 1
  {
    var c :| c in correct;
    assert c in SortedLetters(alphabet, correct);
    if |correct| == 1 {
      assert correct == {c} by {
        forall d | d in correct ensures d == c {
          assert correct - {c} == {} by {
            assert |correct - {c}| == 0;
          }
          assert d !in correct - {c};
        }
      }
      IncreasingConstant(SortedLetters(alphabet, correct), c);
    }
  }

  /** An answer names a letter only when it is that one letter, upper-cased. */
  lemma NamedSingleton(a: string, keys: set<char>)
    requires Named(a, keys) != {}
    ensures |a| == 1 && UpperChar(a[0]) in keys
    ensures Named(a, keys) == {UpperChar(a[0])}
  {
    assert |Upper(a)| == |a|;
    assert |a| == 1 ==> Upper(a)[0] == UpperChar(a[0]);
  }

  /** The fields an accepted row yields form a well-formed question. */
  lemma FieldsWellFormed(alphabet: string, options: map<char, string>, correct: set<char>, q: Question)
    requires Increasing(alphabet)
    requires q.q != [] && Unpadded(q.q)
    requires forall l :: l in options ==> l in alphabet
    requires q.choices == Choices(SortedLetters(alphabet, options.Keys), options)
    requires correct != {} && correct <= options.Keys
    requires q.correctSet == SortedLetters(alphabet, correct)
    requires forall l :: l in q.rationales <==> l in options
    requires q.kind == Mcq ==> |correct| == 1
    ensures WellFormed(q, alphabet)
  {
    var letters := SortedLetters(alphabet, options.Keys);
    ChoicesShape(letters, options);
    SortedCorrect(alphabet, correct);
  }

  /** A question assembled from a row is well formed. */
  lemma AssembledWellFormed(row: Row, alphabet: string, q: Question)
    requires Increasing(alphabet)
    requires Assembled(row, alphabet, q)
    ensures WellFormed(q, alphabet)
  {
    var options := OptionsOf(row, alphabet);
    var correct := CorrectOf(row, alphabet);
    if q.kind == Mcq {
      NamedSingleton(Cell(row, AnswerKey(false)), options.Keys);
    }
    FieldsWellFormed(alphabet, options, correct, q);
  }

  /** Every accepted question is well formed. */
  lemma AcceptedWellFormed(row: Row, alphabet: string, q: Question)
    requires Increasing(alphabet)
    requires RowOutcome(row, alphabet) == Ok(Some(q))
    ensures WellFormed(q, alphabet)
  {
    AcceptedContents(row, alphabet, q);
    AssembledWellFormed(row, alphabet, q);
  }

  /** A row is rejected, once it raises nothing, exactly when its question is
      empty, it has no options, or its answer names none of them. */
  lemma RejectedIff(row: Row, alphabet: string)
    requires RowOutcome(row, alphabet).Ok?
    ensures RowOutcome(row, alphabet).value.None? <==>
      Cell(row, "question") == [] || OptionsOf(row, alphabet) == map[] || CorrectOf(row, alphabet) == {}
  {
    var question := Cell(row, "question");
    var isSata := RowIsSata(row);
    assert GetStripped(row, "question") == Ok(question);
    assert GetStripped(row, "question_type") == Ok(Cell(row, "question_type"));
    OptionsAll(row, alphabet);
    var options := OptionsOf(row, alphabet);
    assert CollectOptions(row, alphabet) == Ok(options);
    if question != [] && options != map[] {
      assert RowOutcome(row, alphabet) == AnswerOutcome(row, alphabet, question, isSata, options);
    }
  }

  /** A row without a `None` cell never raises. */
  lemma NoFaultWithoutNone(row: Row, alphabet: string)
    requires forall k :: k in row ==> row[k].Some?
    ensures RowOutcome(row, alphabet).Ok?
  {
    var question := Cell(row, "question");
    var isSata := RowIsSata(row);
    assert GetStripped(row, "question") == Ok(question);
    assert GetStripped(row, "question_type") == Ok(Cell(row, "question_type"));
    assert CollectOptions(row, alphabet).Ok?;
    OptionsAll(row, alphabet);
    var options := OptionsOf(row, alphabet);
    if question != [] && options != map[] {
      assert RowOutcome(row, alphabet) == AnswerOutcome(row, alphabet, question, isSata, options);
      AnswerNoFault(row, alphabet, question, isSata, options);
    }
  }

  lemma AnswerNoFault(row: Row, alphabet: string, question: string, isSata: bool, options: map<char, string>)
    requires forall k :: k in row ==> row[k].Some?
    ensures AnswerOutcome(row, alphabet, question, isSata, options).Ok?
  {
    var answer := Cell(row, AnswerKey(isSata));
    assert GetStripped(row, AnswerKey(isSata)) == Ok(answer);
    var correct := CorrectSet(isSata, answer, options.Keys);
    if correct != {} {
      assert AnswerOutcome(row, alphabet, question, isSata, options)
          == Assemble(row, alphabet, question, isSata, options, correct);
      AssembleNoFault(row, alphabet, question, isSata, options, correct);
    }
  }

  lemma AssembleNoFault(row: Row, alphabet: string, question: string, isSata: bool,
                        options: map<char, string>, correct: set<char>)
    requires forall k :: k in row ==> row[k].Some?
    ensures Assemble(row, alphabet, question, isSata, options, correct).Ok?
  {
    var letters := SortedLetters(alphabet, options.Keys);
    assert CollectRationales(row, letters).Ok?;
    assert GetStripped(row, "youtube_search_term").Ok?;
  }

  /** A `None` in the question, its type or an option cell, all of which are
      read for every row, raises. */
  lemma EarlyNoneFaults(row: Row, alphabet: string, key: string)
    requires key in row && row[key].None?
    requires key == "question" || key == "question_type" || exists l :: l in alphabet && key == OptionKey(l)
    ensures RowOutcome(row, alphabet).Err?
  {
    if key != "question" && key != "question_type" {
      var l :| l in alphabet && key == OptionKey(l);
      var i :| 0 <= i < |alphabet| && alphabet[i] == l;
      assert !GetStripped(row, OptionKey(alphabet[i])).Ok?;
    }
  }

  /** An assembled MCQ names one option letter, its one-character answer
      upper-cased. */
  lemma AssembledMcq(row: Row, alphabet: string, q: Question)
    requires Increasing(alphabet)
    requires Assembled(row, alphabet, q)
    requires q.kind == Mcq
    ensures |Cell(row, "correct_answer")| == 1
    ensures q.correctSet == [UpperChar(Cell(row, "correct_answer")[0])]
    ensures q.correctSet[0] in OptionsOf(row, alphabet)
  {
    var a := Cell(row, "correct_answer");
    var keys := OptionsOf(row, alphabet).Keys;
    NamedSingleton(a, keys);
    SortedSingle(alphabet, UpperChar(a[0]));
  }

  /** One letter of the alphabet sorts to itself alone. */
  lemma SortedSingle(alphabet: string, u: char)
    requires Increasing(alphabet) && u in alphabet
    ensures SortedLetters(alphabet, {u}) == [u]
  {
    var s := SortedLetters(alphabet, {u});
    SortedCorrect(alphabet, {u});
    assert s[0] in s;
  }

  /** An accepted MCQ names one option letter, its one-character answer
      upper-cased. */
  lemma McqAnswer(row: Row, alphabet: string, q: Question)
    requires Increasing(alphabet)
    requires RowOutcome(row, alphabet) == Ok(Some(q))
    requires q.kind == Mcq
    ensures |Cell(row, "correct_answer")| == 1
    ensures q.correctSet == [UpperChar(Cell(row, "correct_answer")[0])]
    ensures q.correctSet[0] in OptionsOf(row, alphabet)
  {
    AcceptedContents(row, alphabet, q);
    AssembledMcq(row, alphabet, q);
  }

  /** An assembled SATA question's correct letters are exactly the options some
      answer token names once upper-cased. */
  lemma AssembledSata(row: Row, alphabet: string, q: Question, c: char)
    requires Assembled(row, alphabet, q)
    requires q.kind == Sata
    ensures c in q.correctSet <==>
      c in OptionsOf(row, alphabet) && NamesLetter(SplitAnswers(Cell(row, "correct_answers")), c)
  {
    var parts := SplitAnswers(Cell(row, "correct_answers"));
    var options := OptionsOf(row, alphabet);
    var correct := CorrectOf(row, alphabet);
    assert correct == SataLetters(parts, options.Keys);
    SataLettersIff(parts, options.Keys, c);
    assert c in q.correctSet <==> c in alphabet && c in correct;
    assert c in options ==> c in alphabet;
  }

  /** An accepted SATA question's correct letters are exactly the options some
      answer token names once upper-cased. */
  lemma SataAnswer(row: Row, alphabet: string, q: Question, c: char)
    requires RowOutcome(row, alphabet) == Ok(Some(q))
    requires q.kind == Sata
    ensures c in q.correctSet <==>
      c in OptionsOf(row, alphabet) && NamesLetter(SplitAnswers(Cell(row, "correct_answers")), c)
  {
    AcceptedContents(row, alphabet, q);
    AssembledSata(row, alphabet, q, c);
  }
}
