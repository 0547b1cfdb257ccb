/** `_clean_raw_text`: trim the model's reply, cut one Markdown code fence off
    each end, then delete the byte-order mark and straighten typographic quotes
    and the no-break space. */
module Clean {
  import opened PyText

  const FENCE: string := "```"

  /** The class `[a-zA-Z0-9]` the opening fence's language tag is made of. */
  predicate IsTagChar(c: char) {
    ('a' <= c <= 'z') || ('A' <= c <= 'Z') || ('0' <= c <= '9')
  }

  predicate AllTag(s: string) {
    forall i :: 0 <= i < |s| ==> IsTagChar(s[i])
  }

  /** The length of the run of tag characters `s` starts with. */
  function TagLength(s: string): (k: nat)
    ensures k <= |s|
    ensures AllTag(s[..k])
    ensures k < |s| ==> !IsTagChar(s[k])
  {
    if s == [] || !IsTagChar(s[0]) then 0
    else
      var k := 1 + TagLength(s[1..]);
      assert s[..k] == [s[0]] + s[1..][..k - 1];
      k
  }

  /** The length of the match of `^```[a-zA-Z0-9]*\s*` at the front of `s`, or 0
      when `s` does not open with a fence.  Both runs are greedy and are followed
      by something neither of them can match, so the match never backtracks. */
  function OpeningFence(s: string): (e: nat)
    ensures e <= |s|
    ensures e > 0 <==> |s| >= 3 && s[..3] == FENCE
  {
    if |s| >= 3 && s[..3] == FENCE then
      var t := 3 + TagLength(s[3..]);
      t + LeadingSpace(s[t..])
    else 0
  }

  /** Where `\s*```$` first matches at or after `from` (the scan of `re.sub`
      resumes where the opening match ended), or `|s|` when it does not match.
      The fence has to be the last three characters, and the leftmost match
      takes in the whole run of whitespace before it that lies after `from`. */
  function ClosingFence(s: string, from: nat): (q: nat)
    requires from <= |s|
    ensures from <= q <= |s|
    ensures q < |s| <==> |s| >= from + 3 && s[|s| - 3..] == FENCE
  {
    if |s| >= from + 3 && s[|s| - 3..] == FENCE then
      var run := TrailingCut(s[..|s| - 3]);
      if run < from then from else run
    else |s|
  }

  /** `re.sub(r"^```[a-zA-Z0-9]*\s*|\s*```$", "", s)` on already stripped text. */
  function StripFences(s: string): (r: string)
    ensures |r| <= |s|
  {
    var e := OpeningFence(s);
    s[e..ClosingFence(s, e)]
  }

  /** Text that neither opens nor closes with a fence is left alone. */
  lemma StripFencesUnfenced(s: string)
    requires !(|s| >= 3 && s[..3] == FENCE)
    requires !(|s| >= 3 && s[|s| - 3..] == FENCE)
    ensures StripFences(s) == s
  {
  }

  /** A fenced block gives back exactly its body: one opening fence with its tag
      and the whitespace after it, and one closing fence with the whitespace
      before it, are removed, and nothing else is. */
  lemma FenceRoundTrip(tag: string, w1: string, body: string, w2: string)
    requires AllTag(tag) && AllSpace(w1) && AllSpace(w2)
    requires Unpadded(body)
    requires w1 != [] || body == [] || !IsTagChar(body[0])
    ensures StripFences(FENCE + tag + w1 + body + w2 + FENCE) == body
  {
    if body == [] {
      assert FENCE + tag + w1 + body == FENCE + tag + w1;
      EmptyFencedBlock(tag, w1, w2);
    } else {
      FencedOpening(tag, w1, body, w2);
      FencedClosing(tag, w1, body, w2);
      MiddleSlice(FENCE + tag + w1, body, w2, FENCE);
    }
  }

  /** The second of four concatenated parts. */
  lemma MiddleSlice(a: string, b: string, c: string, d: string)
    ensures (a + b + c + d)[|a|..|a| + |b|] == b
  {
  }

  /** Moving the brackets of a concatenation to the right. */
  lemma Regroup3(p: string, a: string, b: string, c: string)
    ensures p + a + b + c == p + (a + b + c)
  {
  }

  lemma Regroup4(p: string, a: string, b: string, c: string, d: string)
    ensures p + a + b + c + d == p + (a + b + c + d)
  {
  }

  /** The first character of a concatenation. */
  lemma FirstOfJoin(a: string, b: string)
    requires a + b != []
    ensures (a + b)[0] == if a != [] then a[0] else b[0]
  {
  }

  /** With a non-empty body, the opening match stops right before it. */
  lemma FencedOpening(tag: string, w1: string, body: string, w2: string)
    requires AllTag(tag) && AllSpace(w1)
    requires body != [] && !IsSpace(body[0])
    requires w1 != [] || !IsTagChar(body[0])
    ensures OpeningFence(FENCE + tag + w1 + body + w2 + FENCE) == 3 + |tag| + |w1|
  {
    var u := body + w2 + FENCE;
    FirstOfJoin(body + w2, FENCE);
    FirstOfJoin(body, w2);
    FirstOfJoin(w1, u);
    Regroup3(w1, body, w2, FENCE);
    Regroup4(FENCE + tag, w1, body, w2, FENCE);
    OpeningOf(tag, w1 + u);
    LeadingSpaceOfPadded(w1, u);
  }

  /** With a non-empty body, the closing match starts right after it. */
  lemma FencedClosing(tag: string, w1: string, body: string, w2: string)
    requires AllSpace(w2)
    requires body != [] && !IsSpace(body[|body| - 1])
    ensures var s := FENCE + tag + w1 + body + w2 + FENCE;
      ClosingFence(s, 3 + |tag| + |w1|) == |s| - |w2| - 3
  {
    var p := FENCE + tag + w1 + body;
    assert p[|p| - 1] == body[|body| - 1];
    ClosingOf(p, w2);
  }

  lemma EmptyFencedBlock(tag: string, w1: string, w2: string)
    requires AllTag(tag) && AllSpace(w1) && AllSpace(w2)
    ensures StripFences(FENCE + tag + w1 + w2 + FENCE) == []
  {
    var s := FENCE + tag + w1 + w2 + FENCE;
    var w := w1 + w2;
    assert AllSpace(w) by {
      forall i | 0 <= i < |w| ensures IsSpace(w[i]) {
        if i >= |w1| { assert w[i] == w2[i - |w1|]; }
      }
    }
    var rest := w + FENCE;
    FirstOfJoin(w, FENCE);
    Regroup3(FENCE + tag, w1, w2, FENCE);
    OpeningOf(tag, rest);
    LeadingSpaceOfPadded(w, FENCE);
    assert OpeningFence(s) == |s| - 3;
    assert s[|s| - 3..] == FENCE;
  }

  /** The opening match covers the fence, its whole tag and the whitespace after it. */
  lemma OpeningOf(tag: string, rest: string)
    requires AllTag(tag)
    requires rest == [] || !IsTagChar(rest[0])
    ensures OpeningFence(FENCE + tag + rest) == 3 + |tag| + LeadingSpace(rest)
  {
    var s := FENCE + tag + rest;
    assert s[..3] == FENCE;
    assert s[3..] == tag + rest;
    TagLengthOf(tag, rest);
    assert s[3 + |tag|..] == rest;
  }

  /** The closing match starts where the text before the fence stops being blank. */
  lemma ClosingOf(p: string, w: string)
    requires AllSpace(w)
    requires p != [] && !IsSpace(p[|p| - 1])
    ensures forall from :: 0 <= from <= |p| ==> ClosingFence(p + w + FENCE, from) == |p|
  {
    var s := p + w + FENCE;
    assert s[..|s| - 3] == p + w;
    assert s[|s| - 3..] == FENCE;
    TrailingCutOfPadded(p, w);
  }

  /** A tag followed by a character outside the tag class is read whole. */
  lemma {:induction false} TagLengthOf(tag: string, t: string)
    requires AllTag(tag)
    requires t == [] || !IsTagChar(t[0])
    ensures TagLength(tag + t) == |tag|
  {
    if tag != [] {
      assert (tag + t)[0] == tag[0];
      assert (tag + t)[1..] == tag[1..] + t;
      TagLengthOf(tag[1..], t);
    } else {
      assert tag + t == t;
    }
  }

  /** Leading whitespace followed by a non-space character is exactly that run. */
  lemma {:induction false} LeadingSpaceOfPadded(w: string, t: string)
    requires AllSpace(w)
    requires t == [] || !IsSpace(t[0])
    ensures LeadingSpace(w + t) == |w|
  {
    if w != [] {
      assert (w + t)[0] == w[0];
      assert (w + t)[1..] == w[1..] + t;
      LeadingSpaceOfPadded(w[1..], t);
    } else {
      assert w + t == t;
    }
  }

  /** Trailing whitespace after a non-space character is exactly what is cut. */
  lemma {:induction false} TrailingCutOfPadded(t: string, w: string)
    requires AllSpace(w)
    requires t == [] || !IsSpace(t[|t| - 1])
    ensures TrailingCut(t + w) == |t|
  {
    if w != [] {
      var s := t + w;
      assert s[|s| - 1] == w[|w| - 1];
      assert s[..|s| - 1] == t + w[..|w| - 1];
      TrailingCutOfPadded(t, w[..|w| - 1]);
    } else {
      assert t + w == t;
    }
  }

  // ---------------------------------------------------------------------
  // Character normalisation

  const BOM: char := '\U{FEFF}'

  /** The replacement table of `_clean_raw_text`, in the order the loop visits it. */
  const REPLACEMENTS: seq<(char, string)> := [
    (BOM, ""),
    ('\U{201C}', "\""), ('\U{201D}', "\""),
    ('\U{2018}', "'"), ('\U{2019}', "'"),
    ('\U{A0}', " ")
  ]

  /** The characters the table rewrites. */
  predicate IsSpecial(c: char) {
    c == BOM || c == '\U{201C}' || c == '\U{201D}' || c == '\U{2018}' || c == '\U{2019}' || c == '\U{A0}'
  }

  predicate NoSpecial(s: string) {
    forall i :: 0 <= i < |s| ==> !IsSpecial(s[i])
  }

  /** What the whole table does to one character. */
  function NormalizeChar(c: char): (r: string)
    ensures NoSpecial(r)
  {
    if c == BOM then ""
    else if c == '\U{201C}' || c == '\U{201D}' then "\""
    else if c == '\U{2018}' || c == '\U{2019}' then "'"
    else if c == '\U{A0}' then " "
    else [c]
  }

  /** The reference definition: every character rewritten on its own, in order. */
  function NormalizeText(s: string): (r: string)
    ensures NoSpecial(r)
  {
    if s == [] then []
    else
      var r := NormalizeChar(s[0]) + NormalizeText(s[1..]);
      assert forall i :: 0 <= i < |r| ==> r[i] in NormalizeChar(s[0]) || r[i] in NormalizeText(s[1..]);
      r
  }

  /** `str.replace(old, new)` for a one-character `old`. */
  function Replace(s: string, target: char, repl: string): string {
    if s == [] then []
    else (if s[0] == target then repl else [s[0]]) + Replace(s[1..], target, repl)
  }

  /** The first `n` entries of a table applied one after the other, as the loop
      does after `n` rounds. */
  function ApplyTable(s: string, table: seq<(char, string)>): string {
    if table == [] then s
    else
      var last := table[|table| - 1];
      Replace(ApplyTable(s, table[..|table| - 1]), last.0, last.1)
  }

  lemma {:induction false} ReplaceAppend(a: string, b: string, target: char, repl: string)
    ensures Replace(a + b, target, repl) == Replace(a, target, repl) + Replace(b, target, repl)
  {
    if a != [] {
      assert (a + b)[1..] == a[1..] + b;
      ReplaceAppend(a[1..], b, target, repl);
    } else {
      assert a + b == b;
    }
  }

  lemma {:induction false} ApplyTableAppend(a: string, b: string, table: seq<(char, string)>)
    ensures ApplyTable(a + b, table) == ApplyTable(a, table) + ApplyTable(b, table)
  {
    if table != [] {
      var last := table[|table| - 1];
      ApplyTableAppend(a, b, table[..|table| - 1]);
      ReplaceAppend(ApplyTable(a, table[..|table| - 1]), ApplyTable(b, table[..|table| - 1]), last.0, last.1);
    }
  }

  /** On one character the table does what `NormalizeChar` says: no entry's
      replacement is rewritten again by a later entry. */
  lemma TableOnChar(c: char)
    ensures ApplyTable([c], REPLACEMENTS) == NormalizeChar(c)
  {
    var t := REPLACEMENTS;
    var s0 := [c];
    var s1 := Replace(s0, BOM, "");
    var s2 := Replace(s1, '\U{201C}', "\"");
    var s3 := Replace(s2, '\U{201D}', "\"");
    var s4 := Replace(s3, '\U{2018}', "'");
    var s5 := Replace(s4, '\U{2019}', "'");
    var s6 := Replace(s5, '\U{A0}', " ");
    assert t[..1][..0] == [];
    assert ApplyTable(s0, t[..1]) == s1;
    assert t[..2][..1] == t[..1];
    assert ApplyTable(s0, t[..2]) == s2;
    assert t[..3][..2] == t[..2];
    assert ApplyTable(s0, t[..3]) == s3;
    assert t[..4][..3] == t[..3];
    assert ApplyTable(s0, t[..4]) == s4;
    assert t[..5][..4] == t[..4];
    assert ApplyTable(s0, t[..5]) == s5;
    assert t[..6][..5] == t[..5];
    assert t == t[..6];
    assert ApplyTable(s0, t) == s6;
    ReplaceSingle(c, BOM, "");
    if c == BOM {
      assert s1 == [];
    } else {
      assert s1 == [c];
      ReplaceSingle(c, '\U{201C}', "\"");
      if c == '\U{201C}' {
        assert s2 == "\"";
      } else {
        assert s2 == [c];
        ReplaceSingle(c, '\U{201D}', "\"");
        if c == '\U{201D}' {
          assert s3 == "\"";
        } else {
          assert s3 == [c];
          ReplaceSingle(c, '\U{2018}', "'");
          if c == '\U{2018}' {
            assert s4 == "'";
          } else {
            assert s4 == [c];
            ReplaceSingle(c, '\U{2019}', "'");
            if c == '\U{2019}' {
              assert s5 == "'";
            } else {
              assert s5 == [c];
              ReplaceSingle(c, '\U{A0}', " ");
            }
          }
        }
      }
    }
  }

  lemma ReplaceSingle(c: char, target: char, repl: string)
    ensures Replace([c], target, repl) == if c == target then repl else [c]
  {
    assert [c][1..] == [];
  }

  /** Running the table entry by entry is the character-wise rewriting. */
  lemma {:induction false} TableIsCharwise(s: string)
    ensures ApplyTable(s, REPLACEMENTS) == NormalizeText(s)
  {
    if s == [] {
      EmptyUnderTable(REPLACEMENTS);
    } else {
      assert s == [s[0]] + s[1..];
      ApplyTableAppend([s[0]], s[1..], REPLACEMENTS);
      TableOnChar(s[0]);
      TableIsCharwise(s[1..]);
    }
  }

  lemma {:induction false} EmptyUnderTable(table: seq<(char, string)>)
    ensures ApplyTable([], table) == []
  {
    if table != [] {
      EmptyUnderTable(table[..|table| - 1]);
    }
  }

  /** Text without special characters is left unchanged. */
  lemma {:induction false} NormalizeUnchanged(s: string)
    requires NoSpecial(s)
    ensures NormalizeText(s) == s
  {
    if s != [] {
      assert !IsSpecial(s[0]);
      NormalizeUnchanged(s[1..]);
    }
  }

  /** Normalising twice is normalising once. */
  lemma NormalizeIdempotent(s: string)
    ensures NormalizeText(NormalizeText(s)) == NormalizeText(s)
  {
    NormalizeUnchanged(NormalizeText(s));
  }

  /** Without a byte-order mark, normalising keeps every position: each special
      character becomes its ASCII stand-in and every other character stays. */
  lemma {:induction false} NormalizeKeepsPositions(s: string)
    requires BOM !in s
    ensures |NormalizeText(s)| == |s|
    ensures forall i :: 0 <= i < |s| ==> NormalizeText(s)[i] == (if IsSpecial(s[i]) then NormalizeChar(s[i])[0] else s[i])
  {
    if s != [] {
      assert BOM !in s[1..];
      NormalizeKeepsPositions(s[1..]);
      var r := NormalizeText(s);
      assert r == NormalizeChar(s[0]) + NormalizeText(s[1..]);
      assert |NormalizeChar(s[0])| == 1;
      forall i | 0 <= i < |s|
        ensures r[i] == (if IsSpecial(s[i]) then NormalizeChar(s[i])[0] else s[i])
      {
        if i > 0 {
          assert r[i] == NormalizeText(s[1..])[i - 1];
          assert s[i] == s[1..][i - 1];
        }
      }
    }
  }

  // ---------------------------------------------------------------------
  // The whole cleaning step

  /** What `_clean_raw_text` returns for `text`. */
  function Cleaned(text: string): (r: string)
    ensures NoSpecial(r)
    ensures AllSpace(text) ==> r == []
  {
    StripEmpty(text);
    NormalizeText(StripFences(Strip(text)))
  }

  /** `_clean_raw_text`: the fences are cut first, then the loop applies the
      replacement table entry by entry. */
  method CleanRawText(text: string) returns (cleaned: string)
    ensures cleaned == Cleaned(text)
  {
    cleaned := StripFences(Strip(text));
    ghost var fenced := cleaned;
    var i := 0;
    while i < |REPLACEMENTS|
      invariant 0 <= i <= |REPLACEMENTS|
      invariant cleaned == ApplyTable(fenced, REPLACEMENTS[..i])
    {
      var (target, repl) := REPLACEMENTS[i];
      assert REPLACEMENTS[..i + 1][..i] == REPLACEMENTS[..i];
      cleaned := Replace(cleaned, target, repl);
      i := i + 1;
    }
    assert REPLACEMENTS[..|REPLACEMENTS|] == REPLACEMENTS;
    TableIsCharwise(fenced);
  }

  /** Fences are cut before the byte-order mark is deleted, so a mark in front
      of an opening fence keeps that fence in the cleaned text, while the
      closing fence is still cut. */
  lemma MarkShieldsOpeningFence(t: string, w: string)
    requires NoSpecial(t) && AllSpace(w)
    requires t != [] && !IsSpace(t[|t| - 1])
    ensures Cleaned([BOM] + FENCE + t + w + FENCE) == FENCE + t
  {
    var s := [BOM] + FENCE + t + w + FENCE;
    MarkedFences(t, w);
    assert Cleaned(s) == NormalizeText([BOM] + FENCE + t);
    MarkRemoved(t);
    FenceNoSpecial(t);
    NormalizeUnchanged(FENCE + t);
  }

  lemma FenceNoSpecial(t: string)
    requires NoSpecial(t)
    ensures NoSpecial(FENCE + t)
  {
    forall i | 0 <= i < |FENCE + t| ensures !IsSpecial((FENCE + t)[i]) {
      if i >= 3 { assert (FENCE + t)[i] == t[i - 3]; }
    }
  }

  /** Behind a byte-order mark no opening fence is seen. */
  lemma MarkedFences(t: string, w: string)
    requires AllSpace(w)
    requires t != [] && !IsSpace(t[|t| - 1])
    ensures StripFences(Strip([BOM] + FENCE + t + w + FENCE)) == [BOM] + FENCE + t
  {
    var p := [BOM] + FENCE + t;
    var s := p + w + FENCE;
    assert s[0] == BOM && s[|s| - 1] == '`';
    StripUnpadded(s);
    assert OpeningFence(s) == 0 by { assert s[..3][0] == BOM; }
    assert p[|p| - 1] == t[|t| - 1];
    ClosingOf(p, w);
  }

  /** A byte-order mark in front of a fence is deleted by the rewriting. */
  lemma MarkRemoved(s: string)
    ensures NormalizeText([BOM] + FENCE + s) == NormalizeText(FENCE + s)
  {
    assert [BOM] + FENCE + s == [BOM] + (FENCE + s);
    assert ([BOM] + (FENCE + s))[1..] == FENCE + s;
  }
}
