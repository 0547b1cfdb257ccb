/** `_read_csv_data`: find the header line, hand the text from there on to
    `csv.DictReader`, and lower-case and trim the header names. */
module CsvData {
  import opened Wrappers
  import opened PyText
  import opened Csv

  /** The 17 column names the header line must start with. */
  const CSV_HEADER: seq<string> := [
    "question_type", "question", "option_a", "option_b", "option_c",
    "option_d", "option_e", "option_f", "correct_answer", "correct_answers",
    "rationale_a", "rationale_b", "rationale_c", "rationale_d", "rationale_e",
    "rationale_f", "youtube_search_term"
  ]

  // ---------------------------------------------------------------------
  // The header pattern `\s*,\s*`.join(CSV_HEADER), matched with re.IGNORECASE

  /** A character a column name is written with: lower-case ASCII or `_`. */
  predicate IsNameChar(c: char) {
    ('a' <= c <= 'z') || c == '_'
  }

  predicate IsName(n: string) {
    forall i :: 0 <= i < |n| ==> IsNameChar(n[i])
  }

  /** Whether `c` matches the pattern character `p` under `re.IGNORECASE`:
      its simple lower-case form is `p`; besides the ASCII capitals, the dotted
      and dotless capital I and the long s fold onto `i` and `s`, and the Kelvin
      sign onto `k`. */
  predicate FoldsTo(c: char, p: char) {
    || LowerChar(c) == p
    || (p == 'i' && (c == '\U{130}' || c == '\U{131}'))
    || (p == 's' && c == '\U{17F}')
    || (p == 'k' && c == '\U{212A}')
  }

  predicate FoldEqual(s: string, name: string) {
    |s| == |name| && forall i :: 0 <= i < |s| ==> FoldsTo(s[i], name[i])
  }

  /** What is left after `\s*,\s*` at the front of `s`, or `None` when `s`
      does not start with a comma between optional whitespace. */
  function AfterSeparator(s: string): (r: Option<string>)
    ensures r.Some? ==> |r.value| < |s|
  {
    var k := LeadingSpace(s);
    if k < |s| && s[k] == ',' then
      var t := s[k + 1..];
      Some(t[LeadingSpace(t)..])
    else None
  }

  /** Whether `s` starts with the names in order, each matched case-insensitively
      and each pair separated by a comma with optional whitespace on both sides.
      `\s*` is taken greedily: what follows it (a comma, or the first character of
      a name) is never whitespace, so the regex cannot match any other way. */
  predicate MatchFrom(s: string, names: seq<string>)
    decreases |names|
  {
    if names == [] then true
    else
      var n := names[0];
      && |n| <= |s|
      && FoldEqual(s[..|n|], n)
      && (|names| == 1 ||
          var r := AfterSeparator(s[|n|..]);
          r.Some? && MatchFrom(r.value, names[1..]))
  }

  /** `header_pattern.match(line.strip())`, for the pattern built from `header`
      (`_read_csv_data` builds it from `CSV_HEADER`). */
  predicate HeaderMatches(line: string, header: seq<string>) {
    MatchFrom(Strip(line), header)
  }

  /** The index of the first header line, if there is one. */
  function HeaderIndex(lines: seq<string>, header: seq<string>): (k: Option<nat>)
    ensures k.Some? ==> k.value < |lines| && HeaderMatches(lines[k.value], header)
    ensures forall j :: 0 <= j < |lines| && (k.None? || j < k.value) ==> !HeaderMatches(lines[j], header)
    decreases |lines|
  {
    if lines == [] then None
    else if HeaderMatches(lines[0], header) then Some(0)
    else
      match HeaderIndex(lines[1..], header)
      case None => None
      case Some(j) => Some(j + 1)
  }

  /** The scan of `_read_csv_data`: the first line whose trimmed text matches the
      header pattern, or -1. */
  method FindHeader(lines: seq<string>, header: seq<string>) returns (startIdx: int)
    ensures -1 <= startIdx < |lines|
    ensures startIdx == -1 <==> forall j :: 0 <= j < |lines| ==> !HeaderMatches(lines[j], header)
    ensures startIdx >= 0 ==> HeaderMatches(lines[startIdx], header) && forall j :: 0 <= j < startIdx ==> !HeaderMatches(lines[j], header)
  {
    startIdx := -1;
    var i := 0;
    while i < |lines|
      invariant 0 <= i <= |lines|
      invariant forall j :: 0 <= j < i ==> !HeaderMatches(lines[j], header)
    {
      if HeaderMatches(lines[i], header) {
        startIdx := i;
        break;
      }
      i := i + 1;
    }
  }

  /** The scan's answer is the header index. */
  lemma FirstMatch(lines: seq<string>, header: seq<string>, k: int)
    requires -1 <= k < |lines|
    requires k == -1 <==> forall j :: 0 <= j < |lines| ==> !HeaderMatches(lines[j], header)
    requires k >= 0 ==> HeaderMatches(lines[k], header) && forall j :: 0 <= j < k ==> !HeaderMatches(lines[j], header)
    ensures HeaderIndex(lines, header) == if k == -1 then None else Some(k as nat)
  {
  }

  /** `"\s*,\s*"`-free rendering of a header: the names joined by bare commas. */
  function CommaJoin(names: seq<string>): string {
    if names == [] then ""
    else if |names| == 1 then names[0]
    else names[0] + "," + CommaJoin(names[1..])
  }

  /** A header line as a writer may lay it out: each name in any case, and any
      whitespace before and after each comma. */
  function HeaderLayout(variants: seq<string>, before: seq<string>, after: seq<string>): string
    requires |before| == |after| == (if variants == [] then 0 else |variants| - 1)
  {
    if |variants| <= 1 then CommaJoin(variants)
    else variants[0] + before[0] + "," + after[0] + HeaderLayout(variants[1..], before[1..], after[1..])
  }

  lemma LeadingSpaceNone(s: string)
    requires s != [] && !IsSpace(s[0])
    ensures LeadingSpace(s) == 0
  {
  }

  lemma {:induction false} LeadingSpaceRun(w: string, t: string)
    requires AllSpace(w)
    requires t != [] && !IsSpace(t[0])
    ensures LeadingSpace(w + t) == |w|
    decreases |w|
  {
    var s := w + t;
    if w == [] {
      assert s == t;
    } else {
      assert s[0] == w[0] && IsSpace(s[0]);
      assert s[1..] == w[1..] + t;
      LeadingSpaceRun(w[1..], t);
      assert LeadingSpace(s) == 1 + LeadingSpace(s[1..]);
    }
  }

  /** A character that folds onto a name character is neither whitespace nor a
      comma. */
  lemma FoldedIsPlain(c: char, p: char)
    requires IsNameChar(p) && FoldsTo(c, p)
    ensures !IsSpace(c) && c != ','
  {
  }

  /** One step of the pattern: a name, whitespace, a comma and whitespace are
      consumed, and matching goes on with the next name. */
  lemma SeparatorOf(b: string, a: string, t: string)
    requires AllSpace(b) && AllSpace(a)
    requires t != [] && !IsSpace(t[0])
    ensures AfterSeparator(b + ("," + (a + t))) == Some(t)
  {
    var s := b + ("," + (a + t));
    LeadingSpaceRun(b, "," + (a + t));
    assert s[|b|] == ',';
    assert s[|b| + 1..] == a + t;
    LeadingSpaceRun(a, t);
    assert (a + t)[|a|..] == t;
  }

  lemma MatchStep(names: seq<string>, v: string, b: string, a: string, t: string)
    requires |names| > 1
    requires FoldEqual(v, names[0])
    requires AllSpace(b) && AllSpace(a)
    requires t != [] && !IsSpace(t[0])
    ensures MatchFrom(t, names[1..]) ==> MatchFrom(v + (b + ("," + (a + t))), names)
  {
    var s := v + (b + ("," + (a + t)));
    assert s[..|v|] == v;
    assert s[|v|..] == b + ("," + (a + t));
    SeparatorOf(b, a, t);
  }

  /** Every layout of the names, followed by anything, matches: the pattern is
      case-insensitive and allows whitespace around each comma. */
  lemma {:induction false} LayoutMatches(names: seq<string>, variants: seq<string>,
                                         before: seq<string>, after: seq<string>, rest: string)
    requires |names| == |variants| > 0
    requires forall i :: 0 <= i < |names| ==> names[i] != [] && IsName(names[i]) && FoldEqual(variants[i], names[i])
    requires |before| == |after| == |variants| - 1
    requires forall i :: 0 <= i < |before| ==> AllSpace(before[i]) && AllSpace(after[i])
    ensures MatchFrom(HeaderLayout(variants, before, after) + rest, names)
    decreases |names|
  {
    var v := variants[0];
    if |names| == 1 {
      var s := HeaderLayout(variants, before, after) + rest;
      assert s == v + rest;
      assert s[..|v|] == v;
    } else {
      var tail := HeaderLayout(variants[1..], before[1..], after[1..]) + rest;
      assert HeaderLayout(variants, before, after) + rest == v + (before[0] + ("," + (after[0] + tail)));
      var v1 := variants[1];
      assert FoldEqual(v1, names[1]) && |v1| > 0;
      FoldedIsPlain(v1[0], names[1][0]);
      LayoutMatchesTail(variants, before, after, rest);
      MatchStep(names, v, before[0], after[0], tail);
      LayoutMatches(names[1..], variants[1..], before[1..], after[1..], rest);
    }
  }

  lemma LayoutMatchesTail(variants: seq<string>, before: seq<string>, after: seq<string>, rest: string)
    requires |variants| > 1 && |variants[1]| > 0
    requires |before| == |after| == |variants| - 1
    ensures var tail := HeaderLayout(variants[1..], before[1..], after[1..]) + rest;
      tail != [] && tail[0] == variants[1][0]
  {
    var tail := HeaderLayout(variants[1..], before[1..], after[1..]);
    if |variants| == 2 {
      assert tail == variants[1];
    } else {
      assert tail == variants[1] + (before[1] + "," + after[1] + HeaderLayout(variants[2..], before[2..], after[2..]));
    }
  }

  lemma HeaderNamesShape()
    ensures |CSV_HEADER| == 17
    ensures forall i :: 0 <= i < |CSV_HEADER| ==> CSV_HEADER[i] != [] && IsName(CSV_HEADER[i])
  {
  }

  /** A laid-out header neither starts nor ends with whitespace. */
  lemma LayoutUnpadded(header: seq<string>, variants: seq<string>, before: seq<string>,
                       after: seq<string>, rest: string)
    requires |header| == |variants| > 0
    requires forall i :: 0 <= i < |header| ==> header[i] != [] && IsName(header[i]) && FoldEqual(variants[i], header[i])
    requires |before| == |after| == |variants| - 1
    requires rest == [] || !IsSpace(rest[|rest| - 1])
    ensures Unpadded(HeaderLayout(variants, before, after) + rest)
  {
    var body := HeaderLayout(variants, before, after) + rest;
    LayoutMatchesFirst(variants, before, after);
    var v := variants[0];
    assert FoldEqual(v, header[0]) && |v| > 0;
    FoldedIsPlain(v[0], header[0][0]);
    assert body[0] == v[0];
    if rest == [] {
      var n := |variants| - 1;
      LayoutMatchesLast(variants, before, after);
      var vn := variants[n];
      assert FoldEqual(vn, header[n]) && |vn| > 0;
      FoldedIsPlain(vn[|vn| - 1], header[n][|vn| - 1]);
      assert body == HeaderLayout(variants, before, after);
    } else {
      assert body[|body| - 1] == rest[|rest| - 1];
    }
  }

  /** A header line written in any case, with whitespace around its commas and
      around the whole line, and anything after the last name, is recognised. */
  lemma HeaderRecognised(header: seq<string>, variants: seq<string>, before: seq<string>,
                         after: seq<string>, w: string, rest: string)
    requires |header| == |variants| > 0
    requires forall i :: 0 <= i < |header| ==> header[i] != [] && IsName(header[i]) && FoldEqual(variants[i], header[i])
    requires |before| == |after| == |variants| - 1
    requires forall i :: 0 <= i < |before| ==> AllSpace(before[i]) && AllSpace(after[i])
    requires AllSpace(w)
    requires rest == [] || !IsSpace(rest[|rest| - 1])
    ensures HeaderMatches(w + HeaderLayout(variants, before, after) + rest, header)
  {
    var layout := HeaderLayout(variants, before, after);
    LayoutMatches(header, variants, before, after, rest);
    LayoutUnpadded(header, variants, before, after, rest);
    Indented(w, layout, rest);
  }

  /** Stripping indentation in front of text that is not padded gives the text. */
  lemma Indented(w: string, layout: string, rest: string)
    requires AllSpace(w) && Unpadded(layout + rest)
    ensures Strip(w + layout + rest) == layout + rest
  {
    var body := layout + rest;
    StripPadding(w, body, []);
    assert w + layout + rest == w + body + [];
    StripUnpadded(body);
  }

  /** The header written as in `CSV_HEADER`, joined by bare commas, is recognised
      after any indentation and before anything that does not end in whitespace. */
  lemma CanonicalHeaderRecognised(w: string, rest: string)
    requires AllSpace(w)
    requires rest == [] || !IsSpace(rest[|rest| - 1])
    ensures HeaderMatches(w + CommaJoin(CSV_HEADER) + rest, CSV_HEADER)
  {
    HeaderNamesShape();
    var gaps := seq(16, i => "");
    forall i | 0 <= i < 17 ensures FoldEqual(CSV_HEADER[i], CSV_HEADER[i]) {
      var n := CSV_HEADER[i];
      forall j | 0 <= j < |n| ensures FoldsTo(n[j], n[j]) {
        assert IsNameChar(n[j]);
      }
    }
    PlainLayout(CSV_HEADER, gaps);
    HeaderRecognised(CSV_HEADER, CSV_HEADER, gaps, gaps, w, rest);
  }

  /** `s` is a header layout of `names` followed by `rest`. */
  predicate LaidOut(s: string, names: seq<string>, variants: seq<string>,
                    before: seq<string>, after: seq<string>, rest: string) {
    && |names| == |variants| > 0
    && (forall i :: 0 <= i < |names| ==> FoldEqual(variants[i], names[i]))
    && |before| == |after| == |variants| - 1
    && (forall i :: 0 <= i < |before| ==> AllSpace(before[i]) && AllSpace(after[i]))
    && s == HeaderLayout(variants, before, after) + rest
  }

  /** A trimmed line matches the header pattern exactly when it is the names,
      each in some letter case, separated by commas with whitespace around
      them, followed by anything. */
  lemma HeaderMatchesIff(line: string, header: seq<string>)
    requires |header| > 0
    requires forall i :: 0 <= i < |header| ==> header[i] != [] && IsName(header[i])
    ensures HeaderMatches(line, header) ==>
      exists variants, before, after, rest :: LaidOut(Strip(line), header, variants, before, after, rest)
    ensures (exists variants, before, after, rest :: LaidOut(Strip(line), header, variants, before, after, rest)) ==>
      HeaderMatches(line, header)
  {
    if HeaderMatches(line, header) {
      var variants, before, after, rest := MatchShape(Strip(line), header);
      assert LaidOut(Strip(line), header, variants, before, after, rest);
    }
    if exists variants, before, after, rest :: LaidOut(Strip(line), header, variants, before, after, rest) {
      var variants, before, after, rest :| LaidOut(Strip(line), header, variants, before, after, rest);
      LayoutMatches(header, variants, before, after, rest);
      assert MatchFrom(Strip(line), header);
    }
  }

  /** A text the pattern matches, cut into the pieces the pattern consumed. */
  lemma {:induction false} MatchShape(s: string, names: seq<string>)
    returns (variants: seq<string>, before: seq<string>, after: seq<string>, rest: string)
    requires |names| > 0 && MatchFrom(s, names)
    ensures LaidOut(s, names, variants, before, after, rest)
    decreases |names|
  {
    var n := names[0];
    var v := s[..|n|];
    var t := s[|n|..];
    assert s == v + t;
    if |names| == 1 {
      variants, before, after, rest := [v], [], [], t;
      assert HeaderLayout(variants, before, after) == v;
    } else {
      var u := AfterSeparator(t).value;
      var b, a := SeparatorShape(t);
      var vs, bs, as', r := MatchShape(u, names[1..]);
      variants, before, after, rest := [v] + vs, [b] + bs, [a] + as', r;
      LaidOutCons(s, names, v, b, a, u, vs, bs, as', r);
    }
  }

  /** One more name, and the separator after it, in front of a laid-out text. */
  lemma LaidOutCons(s: string, names: seq<string>, v: string, b: string, a: string, u: string,
                    vs: seq<string>, bs: seq<string>, as': seq<string>, r: string)
    requires |names| > 1 && FoldEqual(v, names[0])
    requires AllSpace(b) && AllSpace(a)
    requires s == v + (b + ("," + (a + u)))
    requires LaidOut(u, names[1..], vs, bs, as', r)
    ensures LaidOut(s, names, [v] + vs, [b] + bs, [a] + as', r)
  {
    var variants, before, after := [v] + vs, [b] + bs, [a] + as';
    assert variants[1..] == vs && before[1..] == bs && after[1..] == as';
    LayoutCons(variants, before, after, r);
    Regroup5(v, b, a, HeaderLayout(vs, bs, as'), r);
    forall i | 0 <= i < |names| ensures FoldEqual(variants[i], names[i]) {
      if i > 0 { assert variants[i] == vs[i - 1] && names[i] == names[1..][i - 1]; }
    }
    forall i | 0 <= i < |before| ensures AllSpace(before[i]) && AllSpace(after[i]) {
      if i > 0 { assert before[i] == bs[i - 1] && after[i] == as'[i - 1]; }
    }
  }

  /** What `\s*,\s*` consumed at the front of `t`. */
  lemma SeparatorShape(t: string) returns (b: string, a: string)
    requires AfterSeparator(t).Some?
    ensures AllSpace(b) && AllSpace(a)
    ensures t == b + ("," + (a + AfterSeparator(t).value))
  {
    var k := LeadingSpace(t);
    var t1 := t[k + 1..];
    var j := LeadingSpace(t1);
    b, a := t[..k], t1[..j];
    assert t1 == a + t1[j..];
    assert t == b + ("," + t1);
  }

  lemma LayoutCons(variants: seq<string>, before: seq<string>, after: seq<string>, rest: string)
    requires |variants| > 1 && |before| == |after| == |variants| - 1
    ensures HeaderLayout(variants, before, after) + rest
         == variants[0] + before[0] + "," + after[0] + (HeaderLayout(variants[1..], before[1..], after[1..]) + rest)
  {
  }

  lemma Regroup5(v: string, b: string, a: string, h: string, r: string)
    ensures v + (b + ("," + (a + (h + r)))) == v + b + "," + a + (h + r)
  {
  }

  /** With empty gaps the layout is the bare comma join. */
  lemma {:induction false} PlainLayout(variants: seq<string>, gaps: seq<string>)
    requires |gaps| == (if variants == [] then 0 else |variants| - 1)
    requires forall i :: 0 <= i < |gaps| ==> gaps[i] == ""
    ensures HeaderLayout(variants, gaps, gaps) == CommaJoin(variants)
    decreases |variants|
  {
    if |variants| > 1 {
      PlainLayout(variants[1..], gaps[1..]);
    }
  }

  lemma LayoutMatchesFirst(variants: seq<string>, before: seq<string>, after: seq<string>)
    requires |variants| > 0 && |variants[0]| > 0
    requires |before| == |after| == |variants| - 1
    ensures HeaderLayout(variants, before, after) != []
    ensures HeaderLayout(variants, before, after)[0] == variants[0][0]
  {
  }

  lemma {:induction false} LayoutMatchesLast(variants: seq<string>, before: seq<string>, after: seq<string>)
    requires |variants| > 0 && |variants[|variants| - 1]| > 0
    requires |before| == |after| == |variants| - 1
    ensures var h := HeaderLayout(variants, before, after);
      var v := variants[|variants| - 1];
      h != [] && h[|h| - 1] == v[|v| - 1]
    decreases |variants|
  {
    if |variants| > 1 {
      LayoutMatchesLast(variants[1..], before[1..], after[1..]);
    }
  }

  /** Lines before the first header line play no part. */
  lemma {:induction false} PreambleIgnored(pre: seq<string>, lines: seq<string>, header: seq<string>)
    requires forall j :: 0 <= j < |pre| ==> !HeaderMatches(pre[j], header)
    ensures HeaderIndex(pre + lines, header) == match HeaderIndex(lines, header) {
      case None => None
      case Some(k) => Some(k + |pre|)
    }
    decreases |pre|
  {
    if pre != [] {
      assert (pre + lines)[0] == pre[0];
      assert (pre + lines)[1..] == pre[1..] + lines;
      PreambleIgnored(pre[1..], lines, header);
    } else {
      assert pre + lines == lines;
    }
  }

  // ---------------------------------------------------------------------
  // csv.DictReader

  /** A row as `DictReader` yields it; `None` is the `restval` a short row gets
      for each missing column. */
  type Row = map<string, Option<string>>

  /** `dict(zip(names, rec))`: pairs up to the shorter of the two, and a later
      name overwrites an earlier equal one. */
  function Zip(names: seq<string>, rec: seq<string>): (row: Row)
    ensures forall k :: k in row ==> row[k].Some?
    decreases |names|
  {
    if names == [] || rec == [] then map[]
    else map[names[0] := Some(rec[0])] + Zip(names[1..], rec[1..])
  }

  /** `DictReader.__next__` on one non-empty record. */
  function MakeRow(names: seq<string>, rec: seq<string>): Row {
    if |names| > |rec| then Zip(names, rec) + map k | k in names[|rec|..] :: None
    else Zip(names, rec)
  }

  lemma {:induction false} ZipAt(names: seq<string>, rec: seq<string>, j: nat)
    requires j < |names| && j < |rec|
    requires forall i :: j < i < |names| && i < |rec| ==> names[i] != names[j]
    ensures names[j] in Zip(names, rec) && Zip(names, rec)[names[j]] == Some(rec[j])
    decreases |names|
  {
    if j > 0 {
      ZipAt(names[1..], rec[1..], j - 1);
    } else if |names| > 1 && |rec| > 1 {
      ZipAbsent(names[1..], rec[1..], names[0]);
    }
  }

  lemma {:induction false} ZipAbsent(names: seq<string>, rec: seq<string>, k: string)
    requires forall i :: 0 <= i < |names| && i < |rec| ==> names[i] != k
    ensures k !in Zip(names, rec)
    decreases |names|
  {
    if names != [] && rec != [] {
      ZipAbsent(names[1..], rec[1..], k);
    }
  }

  lemma {:induction false} ZipKeys(names: seq<string>, rec: seq<string>, k: string)
    ensures k in Zip(names, rec) <==> exists i :: 0 <= i < |names| && i < |rec| && names[i] == k
    decreases |names|
  {
    if names != [] && rec != [] {
      ZipKeys(names[1..], rec[1..], k);
      if k in Zip(names[1..], rec[1..]) {
        var i :| 0 <= i < |names[1..]| && i < |rec[1..]| && names[1..][i] == k;
        assert names[i + 1] == k;
      }
      if exists i :: 0 <= i < |names| && i < |rec| && names[i] == k {
        var i :| 0 <= i < |names| && i < |rec| && names[i] == k;
        if i > 0 {
          assert names[1..][i - 1] == k;
        }
      }
    }
  }

  /** The row has exactly the header names as keys, and the value of a name is
      the cell under its LAST occurrence in the header, or `None` when that
      column is missing from the record. */
  lemma MakeRowAt(names: seq<string>, rec: seq<string>, j: nat)
    requires j < |names|
    requires forall i :: j < i < |names| ==> names[i] != names[j]
    ensures names[j] in MakeRow(names, rec)
    ensures MakeRow(names, rec)[names[j]] == if j < |rec| then Some(rec[j]) else None
  {
    var k := names[j];
    if j < |rec| {
      ZipAt(names, rec, j);
      if |names| > |rec| {
        forall i | |rec| <= i < |names| ensures names[i] != k {
        }
        assert k !in names[|rec|..];
      }
    } else {
      assert names[|rec|..][j - |rec|] == k;
    }
  }

  lemma MakeRowKeys(names: seq<string>, rec: seq<string>, k: string)
    ensures k in MakeRow(names, rec) <==> k in names
  {
    ZipKeys(names, rec, k);
    if k in names && |names| <= |rec| {
      var i :| 0 <= i < |names| && names[i] == k;
    }
    if k in names && |names| > |rec| {
      var i :| 0 <= i < |names| && names[i] == k;
      if i >= |rec| {
        assert names[|rec|..][i - |rec|] == k;
      }
    }
  }

  /** The rows `DictReader` yields for the records after the header: empty
      records are skipped. */
  function DictRows(names: seq<string>, records: seq<seq<string>>): (rows: seq<Row>)
    ensures |rows| <= |records|
    ensures (forall i :: 0 <= i < |records| ==> records[i] != []) ==> |rows| == |records|
    decreases |records|
  {
    if records == [] then []
    else (if records[0] == [] then [] else [MakeRow(names, records[0])]) + DictRows(names, records[1..])
  }

  lemma {:induction false} DictRowsAt(names: seq<string>, records: seq<seq<string>>, i: nat)
    requires forall j :: 0 <= j < |records| ==> records[j] != []
    requires i < |records|
    ensures |DictRows(names, records)| == |records|
    ensures DictRows(names, records)[i] == MakeRow(names, records[i])
    decreases |records|
  {
    if i > 0 {
      DictRowsAt(names, records[1..], i - 1);
    }
  }

  /** `[field.lower().strip() for field in reader.fieldnames]`. */
  function NormalizedNames(fields: seq<string>): (names: seq<string>)
    ensures |names| == |fields|
    ensures forall i :: 0 <= i < |names| ==> Unpadded(names[i])
    ensures forall i, c :: 0 <= i < |names| && c in names[i] ==> !('A' <= c <= 'Z')
  {
    seq(|fields|, i requires 0 <= i < |fields| => Strip(Lower(fields[i])))
  }

  /** A field name with whitespace around it normalises to the lower-cased
      name: the whitespace is trimmed and only the letters change case. */
  lemma NormalizedName(fields: seq<string>, i: nat, w1: string, v: string, w2: string)
    requires i < |fields| && fields[i] == w1 + v + w2
    requires AllSpace(w1) && AllSpace(w2) && Unpadded(v)
    ensures NormalizedNames(fields)[i] == Lower(v)
  {
    LowerAppend(w1, v, w2);
    StripPadding(Lower(w1), Lower(v), Lower(w2));
    StripUnpadded(Lower(v));
  }

  lemma LowerAppend(w1: string, v: string, w2: string)
    ensures Lower(w1 + v + w2) == Lower(w1) + Lower(v) + Lower(w2)
  {
  }

  /** The reader object after construction: its field names and the records that
      follow the header.  `_read_csv_data` overwrites the field names in place. */
  class DictReader {
    var fieldnames: seq<string>
    var records: seq<seq<string>>

    constructor (header: seq<string>, rest: seq<seq<string>>)
      ensures fieldnames == header && records == rest
    {
      fieldnames := header;
      records := rest;
    }

    /** Assignment to the `fieldnames` property. */
    method SetFieldnames(names: seq<string>)
      modifies this`fieldnames
      ensures fieldnames == names
    {
      fieldnames := names;
    }

    /** What iterating over the reader yields. */
    function Rows(): seq<Row>
      reads this
    {
      DictRows(fieldnames, records)
    }
  }

  /** What `_read_csv_data` hands back, with iterating over it: no header gives
      no rows; otherwise the text from the header line on is read as CSV, its
      first record names the columns, and the others become rows. */
  function CsvRows(cleaned: string): (res: Result<seq<Row>>)
    ensures HeaderIndex(Splitlines(cleaned), CSV_HEADER).None? ==> res == Ok([])
  {
    RowsFrom(Splitlines(cleaned), CSV_HEADER)
  }

  /** `_read_csv_data` once the text is split into lines. */
  function RowsFrom(lines: seq<string>, header: seq<string>): (res: Result<seq<Row>>)
    ensures HeaderIndex(lines, header).None? ==> res == Ok([])
  {
    ReadAt(lines, HeaderIndex(lines, header))
  }

  /** What is read when the header stands at `start`, or nothing when there is
      no header. */
  function ReadAt(lines: seq<string>, start: Option<nat>): (res: Result<seq<Row>>)
    requires start.Some? ==> start.value < |lines|
  {
    match start
    case None => Ok([])
    case Some(k) => ReadFromHeader(JoinLines(lines[k..]))
  }

  /** Reading the text from the header line on: its first record names the
      columns, with the names normalised, and the others become rows. */
  function ReadFromHeader(content: string): (res: Result<seq<Row>>)
    ensures ReadRecords(content) == Ok([]) ==> res == Err(NoFieldnames)
    ensures ReadRecords(content).Err? ==> res == Err(ReadRecords(content).fault)
    ensures res.Ok? ==> ReadRecords(content).Ok? && |res.value| < |ReadRecords(content).value|
  {
    var records :- ReadRecords(content);
    if records == [] then Err(NoFieldnames)
    else Ok(DictRows(NormalizedNames(records[0]), records[1..]))
  }

  /** Lines before the header do not change what is read. */
  lemma {:induction false} PreambleRowsIgnored(pre: seq<string>, lines: seq<string>, header: seq<string>)
    requires forall j :: 0 <= j < |pre| ==> !HeaderMatches(pre[j], header)
    ensures RowsFrom(pre + lines, header) == RowsFrom(lines, header)
    decreases |pre|
  {
    if pre != [] {
      PreambleRowsIgnored(pre[1..], lines, header);
      ConsSplit(pre, lines);
      LineIgnored(pre[0], pre[1..] + lines, header);
    } else {
      assert pre + lines == lines;
    }
  }

  /** A line that is not the header does not change what is read. */
  lemma LineIgnored(p: string, lines: seq<string>, header: seq<string>)
    requires !HeaderMatches(p, header)
    ensures RowsFrom([p] + lines, header) == RowsFrom(lines, header)
  {
    var xs := [p] + lines;
    assert xs[0] == p && xs[1..] == lines;
    var h := HeaderIndex(lines, header);
    assert HeaderIndex(xs, header) == if h.None? then None else Some(h.value + 1);
    if h.Some? {
      NextLine(p, lines, h.value);
      SameRead(xs, h.value + 1, lines, h.value);
    }
  }

  /** Reading depends only on the lines from the header on. */
  lemma SameRead(xs: seq<string>, j: nat, ys: seq<string>, k: nat)
    requires j < |xs| && k < |ys| && xs[j..] == ys[k..]
    ensures ReadAt(xs, Some(j)) == ReadAt(ys, Some(k))
  {
  }

  lemma NextLine(p: string, lines: seq<string>, k: nat)
    requires k <= |lines|
    ensures ([p] + lines)[k + 1..] == lines[k..]
  {
  }

  /** Text before the header line does not change what is read. */
  lemma PreambleLinesIgnored(pre: seq<string>, body: string)
    requires forall j :: 0 <= j < |pre| ==> !HeaderMatches(pre[j], CSV_HEADER)
    requires forall j :: 0 <= j < |pre| ==> NoLineBreak(pre[j])
    ensures CsvRows(JoinLines(pre + [body])) == CsvRows(body)
  {
    PreambleSplit(pre, body);
    PreambleRowsIgnored(pre, Splitlines(body), CSV_HEADER);
  }

  lemma {:induction false} PreambleSplit(pre: seq<string>, body: string)
    requires forall j :: 0 <= j < |pre| ==> NoLineBreak(pre[j])
    ensures Splitlines(JoinLines(pre + [body])) == pre + Splitlines(body)
    decreases |pre|
  {
    if pre == [] {
      assert pre + [body] == [body];
    } else {
      var xs := pre + [body];
      var tail := pre[1..] + [body];
      ConsSplit(pre, [body]);
      assert xs[1..] == tail && xs[0] == pre[0] && |xs| > 1;
      assert JoinLines(xs) == pre[0] + "\n" + JoinLines(tail);
      SplitlinesFirst(pre[0], JoinLines(tail));
      PreambleSplit(pre[1..], body);
      ConsSplit(pre, Splitlines(body));
    }
  }

  /** A non-empty front part splits off its first element. */
  lemma ConsSplit<T>(a: seq<T>, b: seq<T>)
    requires a != []
    ensures (a + b)[0] == a[0] && (a + b)[1..] == a[1..] + b
    ensures a + b == [a[0]] + (a[1..] + b)
  {
  }

  /** `_read_csv_data`, with the rows it yields: scan for the header, read the
      records, and overwrite the reader's field names with their normalised form. */
  method ReadCsvData(cleaned: string) returns (rows: Result<seq<Row>>)
    ensures rows == CsvRows(cleaned)
  {
    var lines := Splitlines(cleaned);
    var startIdx := FindHeader(lines, CSV_HEADER);
    FirstMatch(lines, CSV_HEADER, startIdx);
    if startIdx == -1 {
      return Ok([]);
    }
    var content := JoinLines(lines[startIdx..]);
    var records := ReadRecords(content);
    if records.Err? {
      return Err(records.fault);
    }
    if records.value == [] {
      return Err(NoFieldnames);
    }
    var reader := new DictReader(records.value[0], records.value[1..]);
    reader.SetFieldnames(NormalizedNames(reader.fieldnames));
    rows := Ok(reader.Rows());
  }
}
