/** The part of Python's `csv` module the parser uses: `csv.reader` with the
    default "excel" dialect (delimiter `,`, quote `"`, doubled quotes, no escape
    character, not strict) plus `skipinitialspace=True`, reading text that
    `io.StringIO` hands over line by line, each line ending at `\n`.

    The reader is the character-level state machine of CPython's `_csv.c`:
    every character of a line goes through `ProcessChar`, and the end of every
    line through `ProcessEol`; a record is complete when the machine is back in
    `StartRecord` after a line end. */
module Csv {
  import opened Wrappers

  /** The default `csv.field_size_limit()`. */
  const FIELD_LIMIT: nat := 131072

  datatype ParserState =
    | StartRecord
    | StartField
    | InField
    | InQuotedField
    | QuoteInQuotedField
    | EatCrnl

  /** The machine: its state, the fields of the record being read, the field
      being read, and the records completed so far. */
  datatype Reader = Reader(state: ParserState, fields: seq<string>, field: string, records: seq<seq<string>>)

  const FRESH: Reader := Reader(StartRecord, [], "", [])

  predicate IsCrOrLf(c: char) {
    c == '\n' || c == '\r'
  }

  function SaveField(r: Reader, next: ParserState): Reader {
    r.(fields := r.fields + [r.field], field := "", state := next)
  }

  /** Appending to a field that already holds `FIELD_LIMIT` characters raises. */
  function AddChar(r: Reader, c: char, next: ParserState): Result<Reader> {
    if |r.field| >= FIELD_LIMIT then Err(FieldLimitExceeded)
    else Ok(r.(field := r.field + [c], state := next))
  }

  /** `START_FIELD` on a character (also reached from `START_RECORD`). */
  function StartFieldChar(r: Reader, c: char): Result<Reader> {
    if IsCrOrLf(c) then Ok(SaveField(r, EatCrnl))
    else if c == '"' then Ok(r.(state := InQuotedField))
    else if c == ' ' then Ok(r.(state := StartField))
    else if c == ',' then Ok(SaveField(r, StartField))
    else AddChar(r, c, InField)
  }

  function ProcessChar(r: Reader, c: char): Result<Reader> {
    match r.state
    case StartRecord =>
      if IsCrOrLf(c) then Ok(r.(state := EatCrnl)) else StartFieldChar(r, c)
    case StartField =>
      StartFieldChar(r, c)
    case InField =>
      if IsCrOrLf(c) then Ok(SaveField(r, EatCrnl))
      else if c == ',' then Ok(SaveField(r, StartField))
      else AddChar(r, c, InField)
    case InQuotedField =>
      if c == '"' then Ok(r.(state := QuoteInQuotedField))
      else AddChar(r, c, InQuotedField)
    case QuoteInQuotedField =>
      if c == '"' then AddChar(r, c, InQuotedField)
      else if c == ',' then Ok(SaveField(r, StartField))
      else if IsCrOrLf(c) then Ok(SaveField(r, EatCrnl))
      else AddChar(r, c, InField)
    case EatCrnl =>
      if IsCrOrLf(c) then Ok(r) else Err(NewlineInUnquotedField)
  }

  /** The end-of-line event the reader processes after the characters of a line. */
  function ProcessEol(r: Reader): Reader {
    match r.state
    case StartRecord => r
    case StartField => SaveField(r, StartRecord)
    case InField => SaveField(r, StartRecord)
    case InQuotedField => r
    case QuoteInQuotedField => SaveField(r, StartRecord)
    case EatCrnl => r.(state := StartRecord)
  }

  /** A line ends: process the event, and hand out the record if it is complete. */
  function EndLine(r: Reader): Reader {
    var r1 := ProcessEol(r);
    if r1.state == StartRecord then Reader(StartRecord, [], "", r1.records + [r1.fields]) else r1
  }

  /** Feed characters; every `\n` closes a line. */
  function Feed(r: Reader, s: string): Result<Reader>
    decreases |s|
  {
    if s == [] then Ok(r)
    else
      match ProcessChar(r, s[0])
      case Err(f) => Err(f)
      case Ok(r1) => Feed(if s[0] == '\n' then EndLine(r1) else r1, s[1..])
  }

  /** End of input: an unterminated last line still gets its line end, and a
      record cut off inside quotes is handed out as it stands. */
  function Finish(r: Reader, lineOpen: bool): seq<seq<string>> {
    var r1 := if lineOpen then EndLine(r) else r;
    if |r1.field| != 0 || r1.state == InQuotedField then r1.records + [r1.fields + [r1.field]]
    else r1.records
  }

  /** Every record `csv.reader` yields for `content`, or the error it raises. */
  function ReadRecords(content: string): (res: Result<seq<seq<string>>>)
    ensures content == [] ==> res == Ok([])
  {
    match Feed(FRESH, content)
    case Err(f) => Err(f)
    case Ok(r) => Ok(Finish(r, content != [] && content[|content| - 1] != '\n'))
  }

  lemma {:induction false} FeedAppend(r: Reader, a: string, b: string)
    ensures Feed(r, a + b) == match Feed(r, a) { case Err(f) => Err(f) case Ok(r1) => Feed(r1, b) }
    decreases |a|
  {
    if a == [] {
      assert a + b == b;
    } else {
      assert (a + b)[0] == a[0];
      assert (a + b)[1..] == a[1..] + b;
      match ProcessChar(r, a[0]) {
        case Err(f) =>
        case Ok(r1) =>
          FeedAppend(if a[0] == '\n' then EndLine(r1) else r1, a[1..], b);
      }
    }
  }

  /** `skipinitialspace`: spaces at the start of a field are skipped. */
  lemma {:induction false} SkipInitialSpace(r: Reader, w: string, s: string)
    requires r.state == StartField
    requires forall i :: 0 <= i < |w| ==> w[i] == ' '
    ensures Feed(r, w + s) == Feed(r, s)
    decreases |w|
  {
    if w == [] {
      assert w + s == s;
    } else {
      assert (w + s)[0] == ' ';
      assert (w + s)[1..] == w[1..] + s;
      SkipInitialSpace(r, w[1..], s);
    }
  }

  // ---------------------------------------------------------------------
  // Writing records as RFC 4180 text and reading them back

  /** A field as a writer puts it on the line: bare, or between quotes with
      every quote inside doubled (section 2 of RFC 4180). */
  datatype Cell = Bare(text: string) | Quoted(text: string)

  function Doubled(t: string): string {
    if t == [] then []
    else (if t[0] == '"' then "\"\"" else [t[0]]) + Doubled(t[1..])
  }

  function Encode(c: Cell): string {
    match c
    case Bare(t) => t
    case Quoted(t) => "\"" + Doubled(t) + "\""
  }

  /** A bare field must not contain the delimiter or a line break and must not
      begin with a space (it would be skipped) or a quote (it would open a quoted
      field); a quoted field may hold anything.  Either fits the field limit. */
  predicate Writable(c: Cell) {
    && |c.text| <= FIELD_LIMIT
    && (c.Bare? ==>
         && (forall i :: 0 <= i < |c.text| ==> c.text[i] != ',' && !IsCrOrLf(c.text[i]))
         && (c.text == [] || (c.text[0] != ' ' && c.text[0] != '"')))
  }

  function RenderLine(cells: seq<Cell>): string
    requires |cells| > 0
  {
    if |cells| == 1 then Encode(cells[0])
    else Encode(cells[0]) + "," + RenderLine(cells[1..])
  }

  /** A row that renders to a non-empty line of writable cells (an empty line
      is read back as the empty record, not as one empty field). */
  predicate WritableRow(cells: seq<Cell>) {
    && |cells| > 0
    && (forall i :: 0 <= i < |cells| ==> Writable(cells[i]))
    && !(|cells| == 1 && cells[0] == Bare(""))
  }

  function Texts(cells: seq<Cell>): (t: seq<string>)
    ensures |t| == |cells|
  {
    seq(|cells|, i requires 0 <= i < |cells| => cells[i].text)
  }

  /** The rows rendered one per line, joined by `\n`, without a final `\n`. */
  function RenderTable(rows: seq<seq<Cell>>): string
    requires forall i :: 0 <= i < |rows| ==> WritableRow(rows[i])
  {
    if rows == [] then ""
    else
      assert WritableRow(rows[0]);
      if |rows| == 1 then RenderLine(rows[0])
      else RenderLine(rows[0]) + "\n" + RenderTable(rows[1..])
  }

  function TableTexts(rows: seq<seq<Cell>>): (t: seq<seq<string>>)
    ensures |t| == |rows|
  {
    seq(|rows|, i requires 0 <= i < |rows| => Texts(rows[i]))
  }

  /** Where a cell leaves the machine: a bare empty cell leaves it where it was. */
  function AfterCell(st: ParserState, c: Cell): ParserState {
    match c
    case Bare(t) => if t == [] then st else InField
    case Quoted(_) => QuoteInQuotedField
  }

  /** Bare text inside an unquoted field is appended as it is. */
  lemma {:induction false} FeedBare(r: Reader, t: string)
    requires r.state == InField
    requires forall i :: 0 <= i < |t| ==> t[i] != ',' && !IsCrOrLf(t[i])
    requires |r.field| + |t| <= FIELD_LIMIT
    ensures Feed(r, t) == Ok(r.(field := r.field + t))
    decreases |t|
  {
    if t == [] {
      assert r.field + t == r.field;
    } else {
      var r1 := r.(field := r.field + [t[0]]);
      assert ProcessChar(r, t[0]) == Ok(r1);
      FeedBare(r1, t[1..]);
      assert r1.field + t[1..] == r.field + t;
    }
  }

  /** Inside quotes every doubled quote gives one quote and every other
      character, line breaks and delimiters included, is taken as it is. */
  lemma {:induction false} FeedQuoted(r: Reader, t: string)
    requires r.state == InQuotedField
    requires |r.field| + |t| <= FIELD_LIMIT
    ensures Feed(r, Doubled(t)) == Ok(r.(field := r.field + t))
    decreases |t|
  {
    if t == [] {
      assert r.field + t == r.field;
    } else {
      var r1 := r.(field := r.field + [t[0]]);
      var d := Doubled(t);
      if t[0] == '"' {
        assert d == "\"" + ("\"" + Doubled(t[1..]));
        var q := r.(state := QuoteInQuotedField);
        assert ProcessChar(r, '"') == Ok(q);
        assert ProcessChar(q, '"') == Ok(r1);
        assert Feed(r, d) == Feed(q, "\"" + Doubled(t[1..]));
        assert Feed(q, "\"" + Doubled(t[1..])) == Feed(r1, Doubled(t[1..]));
      } else {
        assert d == [t[0]] + Doubled(t[1..]);
        assert ProcessChar(r, t[0]) == Ok(r1);
        assert EndLine(r1) == r1;
        assert Feed(r, d) == Feed(r1, Doubled(t[1..]));
      }
      FeedQuoted(r1, t[1..]);
      assert r1.field + t[1..] == r.field + t;
    }
  }

  /** One cell, read from the start of a field. */
  lemma FeedCell(r: Reader, c: Cell)
    requires r.state == StartRecord || r.state == StartField
    requires r.field == []
    requires Writable(c)
    ensures Feed(r, Encode(c)) == Ok(r.(state := AfterCell(r.state, c), field := c.text))
  {
    match c
    case Bare(t) =>
      if t != [] {
        var r1 := r.(state := InField, field := [t[0]]);
        assert t == c.text;
        assert t[0] != ',' && !IsCrOrLf(t[0]) && t[0] != ' ' && t[0] != '"';
        assert r.field + [t[0]] == [t[0]];
        assert StartFieldChar(r, t[0]) == Ok(r1);
        assert ProcessChar(r, t[0]) == Ok(r1);
        assert Feed(r, t) == Feed(r1, t[1..]);
        FeedBare(r1, t[1..]);
        assert [t[0]] + t[1..] == t;
      }
    case Quoted(t) =>
      var q := r.(state := InQuotedField);
      var r1 := r.(state := InQuotedField, field := t);
      assert ProcessChar(r, '"') == Ok(q);
      assert Encode(c) == "\"" + (Doubled(t) + "\"");
      assert Feed(r, Encode(c)) == Feed(q, Doubled(t) + "\"");
      FeedAppend(q, Doubled(t), "\"");
      FeedQuoted(q, t);
      assert [] + t == t;
      assert ProcessChar(r1, '"') == Ok(r1.(state := QuoteInQuotedField));
  }

  /** The states a line can be in after a field has been read but not ended. */
  predicate Pending(st: ParserState) {
    st == StartField || st == InField || st == QuoteInQuotedField
  }

  /** A cell followed by the delimiter: its text is saved as a field. */
  lemma FeedCellComma(r: Reader, c: Cell, rest: string)
    requires r.state == StartRecord || r.state == StartField
    requires r.field == []
    requires Writable(c)
    ensures Feed(r, Encode(c) + "," + rest)
         == Feed(r.(state := StartField, fields := r.fields + [c.text], field := []), rest)
  {
    FeedCell(r, c);
    var r1 := r.(state := AfterCell(r.state, c), field := c.text);
    FeedComma(r1, rest);
    FeedAppend(r, Encode(c), "," + rest);
    Assoc(Encode(c), ",", rest);
  }

  /** The delimiter after a field saves it. */
  lemma FeedComma(r: Reader, rest: string)
    requires r.state != InQuotedField && r.state != EatCrnl
    ensures Feed(r, "," + rest) == Feed(SaveField(r, StartField), rest)
  {
    assert ProcessChar(r, ',') == Ok(SaveField(r, StartField));
    assert ("," + rest)[0] == ',' && ("," + rest)[1..] == rest;
  }

  lemma Assoc<T>(a: seq<T>, b: seq<T>, c: seq<T>)
    ensures a + b + c == a + (b + c)
  {
  }

  lemma TextsInit(cells: seq<Cell>)
    requires |cells| > 1
    ensures Texts(cells)[..|cells| - 1] == [cells[0].text] + Texts(cells[1..])[..|cells| - 2]
  {
  }

  /** A whole line without its line end: every field but the last is saved, the
      last is pending. */
  lemma {:induction false} FeedLine(r: Reader, cells: seq<Cell>)
    requires r.state == StartRecord || r.state == StartField
    requires r.field == []
    requires |cells| > 0 && forall i :: 0 <= i < |cells| ==> Writable(cells[i])
    requires r.state == StartRecord ==> !(|cells| == 1 && cells[0] == Bare(""))
    ensures Feed(r, RenderLine(cells)).Ok?
    ensures var r' := Feed(r, RenderLine(cells)).value;
      && Pending(r'.state)
      && r'.fields == r.fields + Texts(cells)[..|cells| - 1]
      && r'.field == cells[|cells| - 1].text
      && r'.records == r.records
    decreases |cells|
  {
    if |cells| == 1 {
      FeedCell(r, cells[0]);
      assert r.fields + Texts(cells)[..0] == r.fields;
    } else {
      var tail := cells[1..];
      var r2 := r.(state := StartField, fields := r.fields + [cells[0].text], field := []);
      assert forall i :: 0 <= i < |tail| ==> Writable(tail[i]) by {
        forall i | 0 <= i < |tail| ensures Writable(tail[i]) {
          assert tail[i] == cells[i + 1];
        }
      }
      FeedLine(r2, tail);
      FeedLineStep(r, cells);
    }
  }

  /** A line of several cells: the first is saved and the rest is read as a line. */
  lemma FeedLineStep(r: Reader, cells: seq<Cell>)
    requires r.state == StartRecord || r.state == StartField
    requires r.field == []
    requires |cells| > 1 && Writable(cells[0])
    requires var r2 := r.(state := StartField, fields := r.fields + [cells[0].text], field := []);
      var tail := cells[1..];
      && Feed(r2, RenderLine(tail)).Ok?
      && var r' := Feed(r2, RenderLine(tail)).value;
      && Pending(r'.state)
      && r'.fields == r2.fields + Texts(tail)[..|tail| - 1]
      && r'.field == tail[|tail| - 1].text
      && r'.records == r2.records
    ensures Feed(r, RenderLine(cells)).Ok?
    ensures var r' := Feed(r, RenderLine(cells)).value;
      && Pending(r'.state)
      && r'.fields == r.fields + Texts(cells)[..|cells| - 1]
      && r'.field == cells[|cells| - 1].text
      && r'.records == r.records
  {
    var tail := cells[1..];
    var r2 := r.(state := StartField, fields := r.fields + [cells[0].text], field := []);
    assert RenderLine(cells) == Encode(cells[0]) + "," + RenderLine(tail);
    FeedCellComma(r, cells[0], RenderLine(tail));
    assert tail[|tail| - 1] == cells[|cells| - 1];
    TextsInit(cells);
    Assoc(r.fields, [cells[0].text], Texts(tail)[..|cells| - 2]);
  }

  /** Ending a pending line hands out the line's fields as one record. */
  lemma EndPendingLine(r: Reader, recs: seq<seq<string>>, cells: seq<Cell>)
    requires Pending(r.state) && |cells| > 0
    requires r.fields == [] + Texts(cells)[..|cells| - 1] && r.field == cells[|cells| - 1].text
    requires r.records == recs
    ensures EndLine(ProcessChar(r, '\n').value) == Reader(StartRecord, [], "", recs + [Texts(cells)])
    ensures EndLine(r) == Reader(StartRecord, [], "", recs + [Texts(cells)])
  {
    assert r.fields + [r.field] == Texts(cells);
  }

  /** A line ended by `\n` hands out exactly its fields as one record. */
  lemma FeedLineNewline(recs: seq<seq<string>>, cells: seq<Cell>, rest: string)
    requires WritableRow(cells)
    ensures Feed(Reader(StartRecord, [], "", recs), RenderLine(cells) + "\n" + rest)
         == Feed(Reader(StartRecord, [], "", recs + [Texts(cells)]), rest)
  {
    var r := Reader(StartRecord, [], "", recs);
    FeedLine(r, cells);
    var r1 := Feed(r, RenderLine(cells)).value;
    EndPendingLine(r1, recs, cells);
    assert ("\n" + rest)[0] == '\n' && ("\n" + rest)[1..] == rest;
    FeedAppend(r, RenderLine(cells), "\n" + rest);
    assert RenderLine(cells) + "\n" + rest == RenderLine(cells) + ("\n" + rest);
  }

  /** The last character of a rendered line is never a line end. */
  lemma {:induction false} LastOfLine(cells: seq<Cell>)
    requires WritableRow(cells)
    ensures RenderLine(cells) != [] && RenderLine(cells)[|RenderLine(cells)| - 1] != '\n'
    decreases |cells|
  {
    if |cells| > 1 {
      var tail := RenderLine(cells[1..]);
      if !(|cells| == 2 && cells[1] == Bare("")) {
        LastOfLine(cells[1..]);
        assert RenderLine(cells)[|RenderLine(cells)| - 1] == tail[|tail| - 1];
      } else {
        assert RenderLine(cells) == Encode(cells[0]) + ",";
      }
    } else {
      var t := cells[0].text;
      if cells[0].Bare? {
        assert t[|t| - 1] != '\n';
      }
    }
  }

  /** Reading a rendered table resumes after its last line. */
  lemma {:induction false} FeedTable(recs: seq<seq<string>>, rows: seq<seq<Cell>>)
    requires |rows| > 0 && forall i :: 0 <= i < |rows| ==> WritableRow(rows[i])
    ensures Feed(Reader(StartRecord, [], "", recs), RenderTable(rows)).Ok?
    ensures Finish(Feed(Reader(StartRecord, [], "", recs), RenderTable(rows)).value, true)
         == recs + TableTexts(rows)
    decreases |rows|
  {
    if |rows| == 1 {
      FeedLastLine(recs, rows);
    } else {
      var tail := rows[1..];
      assert forall i :: 0 <= i < |tail| ==> WritableRow(tail[i]) by {
        forall i | 0 <= i < |tail| ensures WritableRow(tail[i]) {
          assert tail[i] == rows[i + 1];
        }
      }
      FeedTable(recs + [Texts(rows[0])], tail);
      FeedTableStep(recs, rows);
    }
  }

  /** The last line, without a line end, is handed out when the input ends. */
  lemma FeedLastLine(recs: seq<seq<string>>, rows: seq<seq<Cell>>)
    requires |rows| == 1 && WritableRow(rows[0])
    ensures Feed(Reader(StartRecord, [], "", recs), RenderTable(rows)).Ok?
    ensures Finish(Feed(Reader(StartRecord, [], "", recs), RenderTable(rows)).value, true)
         == recs + TableTexts(rows)
  {
    var r := Reader(StartRecord, [], "", recs);
    var cells := rows[0];
    assert RenderTable(rows) == RenderLine(cells);
    FeedLine(r, cells);
    var r1 := Feed(r, RenderLine(cells)).value;
    EndPendingLine(r1, recs, cells);
    assert TableTexts(rows) == [Texts(cells)];
  }

  /** A line ended by `\n` is handed out, and reading goes on with the next line. */
  lemma FeedTableStep(recs: seq<seq<string>>, rows: seq<seq<Cell>>)
    requires |rows| > 1 && forall i :: 0 <= i < |rows| ==> WritableRow(rows[i])
    requires var r2 := Reader(StartRecord, [], "", recs + [Texts(rows[0])]);
      && Feed(r2, RenderTable(rows[1..])).Ok?
      && Finish(Feed(r2, RenderTable(rows[1..])).value, true) == recs + [Texts(rows[0])] + TableTexts(rows[1..])
    ensures Feed(Reader(StartRecord, [], "", recs), RenderTable(rows)).Ok?
    ensures Finish(Feed(Reader(StartRecord, [], "", recs), RenderTable(rows)).value, true)
         == recs + TableTexts(rows)
  {
    RenderTableCons(rows);
    FeedLineNewline(recs, rows[0], RenderTable(rows[1..]));
    TableTextsCons(rows);
    Assoc(recs, [Texts(rows[0])], TableTexts(rows[1..]));
  }

  lemma RenderTableCons(rows: seq<seq<Cell>>)
    requires |rows| > 1 && forall i :: 0 <= i < |rows| ==> WritableRow(rows[i])
    ensures RenderTable(rows) == RenderLine(rows[0]) + "\n" + RenderTable(rows[1..])
  {
  }

  lemma TableTextsCons(rows: seq<seq<Cell>>)
    requires |rows| > 0
    ensures TableTexts(rows) == [Texts(rows[0])] + TableTexts(rows[1..])
  {
  }

  /** Round trip: rows written as RFC 4180 text are read back field for field. */
  lemma RoundTrip(rows: seq<seq<Cell>>)
    requires |rows| > 0 && forall i :: 0 <= i < |rows| ==> WritableRow(rows[i])
    ensures ReadRecords(RenderTable(rows)) == Ok(TableTexts(rows))
  {
    FeedTable([], rows);
    LastOfTable(rows);
    assert [] + TableTexts(rows) == TableTexts(rows);
  }

  lemma {:induction false} LastOfTable(rows: seq<seq<Cell>>)
    requires |rows| > 0 && forall i :: 0 <= i < |rows| ==> WritableRow(rows[i])
    ensures RenderTable(rows) != [] && RenderTable(rows)[|RenderTable(rows)| - 1] != '\n'
    decreases |rows|
  {
    if |rows| == 1 {
      LastOfLine(rows[0]);
    } else {
      LastOfTable(rows[1..]);
      var t := RenderTable(rows[1..]);
      assert RenderTable(rows)[|RenderTable(rows)| - 1] == t[|t| - 1];
    }
  }

  /** A quoted field decodes to its text: a doubled quote is one literal quote,
      and delimiters and line breaks inside the quotes do not split it. */
  lemma QuotedFieldDecodes(t: string)
    requires |t| <= FIELD_LIMIT
    ensures ReadRecords("\"" + Doubled(t) + "\"") == Ok([[t]])
  {
    var c := Quoted(t);
    var cells := [c];
    var rows := [cells];
    assert Writable(c);
    assert WritableRow(cells);
    assert forall i :: 0 <= i < |rows| ==> WritableRow(rows[i]);
    assert RenderLine(cells) == Encode(c);
    assert RenderTable(rows) == RenderLine(cells);
    RoundTrip(rows);
    assert Texts(cells) == [t];
    assert TableTexts(rows) == [[t]];
  }
}
