/** The pieces of Python's `str` behaviour the parser leans on: what counts as
    whitespace, `strip()`, ASCII case mapping, `splitlines()` and `"\n".join`. */
module PyText {

  /** `str.isspace()`.  `str.strip()` with no argument and the `\s` class of a
      `re` pattern over `str` use this same set. */
  predicate IsSpace(c: char) {
    || c == ' '
    || ('\t' <= c <= '\r')
    || ('\U{1C}' <= c <= '\U{1F}')
    || c == '\U{85}' || c == '\U{A0}' || c == '\U{1680}'
    || ('\U{2000}' <= c <= '\U{200A}')
    || c == '\U{2028}' || c == '\U{2029}' || c == '\U{202F}' || c == '\U{205F}' || c == '\U{3000}'
  }

  predicate AllSpace(s: string) {
    forall i :: 0 <= i < |s| ==> IsSpace(s[i])
  }

  /** True when `s` neither starts nor ends with whitespace. */
  predicate Unpadded(s: string) {
    s == [] || (!IsSpace(s[0]) && !IsSpace(s[|s| - 1]))
  }

  /** The number of whitespace characters `s` starts with. */
  function LeadingSpace(s: string): (k: nat)
    ensures k <= |s|
    ensures AllSpace(s[..k])
    ensures k < |s| ==> !IsSpace(s[k])
  {
    if s == [] || !IsSpace(s[0]) then 0
    else
      var k := 1 + LeadingSpace(s[1..]);
      assert s[..k] == [s[0]] + s[1..][..k - 1];
      k
  }

  /** The length of `s` once its trailing whitespace is cut off. */
  function TrailingCut(s: string): (k: nat)
    ensures k <= |s|
    ensures AllSpace(s[k..])
    ensures k > 0 ==> !IsSpace(s[k - 1])
  {
    if s == [] || !IsSpace(s[|s| - 1]) then |s|
    else
      var k := TrailingCut(s[..|s| - 1]);
      assert s[k..] == s[..|s| - 1][k..] + [s[|s| - 1]];
      k
  }

  /** `str.strip()`: `s` without its leading and trailing whitespace. */
  function Strip(s: string): (r: string)
    ensures Unpadded(r)
    ensures |r| <= |s|
    ensures forall c :: c in r ==> c in s
    decreases |s|
  {
    if s == [] then []
    else if IsSpace(s[0]) then Strip(s[1..])
    else if IsSpace(s[|s| - 1]) then Strip(s[..|s| - 1])
    else s
  }

  /** Stripping leaves nothing exactly when the text is all whitespace. */
  lemma {:induction false} StripEmpty(s: string)
    ensures Strip(s) == [] <==> AllSpace(s)
    decreases |s|
  {
    if s != [] {
      if IsSpace(s[0]) {
        StripEmpty(s[1..]);
        assert AllSpace(s) <==> AllSpace(s[1..]) by {
          if AllSpace(s[1..]) {
            forall i | 0 <= i < |s| ensures IsSpace(s[i]) {
              if i > 0 { assert s[i] == s[1..][i - 1]; }
            }
          }
        }
      } else if IsSpace(s[|s| - 1]) {
        StripEmpty(s[..|s| - 1]);
      }
    }
  }

  /** Stripping text that carries no outer whitespace changes nothing. */
  lemma StripUnpadded(s: string)
    requires Unpadded(s)
    ensures Strip(s) == s
  {
  }

  /** Whitespace added around a text is removed again, whatever the text. */
  lemma {:induction false} StripPadding(a: string, s: string, b: string)
    requires AllSpace(a) && AllSpace(b)
    ensures Strip(a + s + b) == Strip(s)
    decreases |a| + |s| + |b|
  {
    var t := a + s + b;
    if a != [] {
      assert t[0] == a[0];
      assert t[1..] == a[1..] + s + b;
      StripPadding(a[1..], s, b);
    } else if s == [] {
      assert t == b;
      StripEmpty(b);
    } else if IsSpace(s[0]) {
      assert t[0] == s[0];
      assert t[1..] == [] + s[1..] + b;
      StripPadding([], s[1..], b);
    } else if b != [] {
      assert t[0] == s[0];
      assert t[|t| - 1] == b[|b| - 1];
      assert t[..|t| - 1] == [] + s + b[..|b| - 1];
      StripPadding([], s, b[..|b| - 1]);
    } else {
      assert t == s;
    }
  }

  /** ASCII case mapping.  Every key, keyword and option letter the parser
      compares against is ASCII, and no other character lower-cases or
      upper-cases onto one of them, so ASCII mapping decides every comparison
      the way Python's Unicode mapping does. */
  function LowerChar(c: char): char {
    if 'A' <= c <= 'Z' then (c as int + 32) as char else c
  }

  function UpperChar(c: char): char {
    if 'a' <= c <= 'z' then (c as int - 32) as char else c
  }

  function Lower(s: string): (r: string)
    ensures |r| == |s|
    ensures forall i :: 0 <= i < |r| ==> !('A' <= r[i] <= 'Z')
    ensures forall i :: 0 <= i < |r| ==> (IsSpace(r[i]) <==> IsSpace(s[i]))
  {
    seq(|s|, i requires 0 <= i < |s| => LowerChar(s[i]))
  }

  function Upper(s: string): (r: string)
    ensures |r| == |s|
  {
    seq(|s|, i requires 0 <= i < |s| => UpperChar(s[i]))
  }

  /** The line boundaries `str.splitlines()` recognises (`\r\n` counts as one). */
  predicate IsLineBreak(c: char) {
    || c == '\n' || c == '\r' || c == '\U{0B}' || c == '\U{0C}'
    || ('\U{1C}' <= c <= '\U{1E}')
    || c == '\U{85}' || c == '\U{2028}' || c == '\U{2029}'
  }

  predicate NoLineBreak(s: string) {
    forall i :: 0 <= i < |s| ==> !IsLineBreak(s[i])
  }

  /** True when `\n` is the only line boundary in `s`. */
  predicate OnlyNewlines(s: string) {
    forall i :: 0 <= i < |s| ==> s[i] == '\n' || !IsLineBreak(s[i])
  }

  /** The length of the first line of `s`. */
  function LineLength(s: string): (k: nat)
    ensures k <= |s|
    ensures NoLineBreak(s[..k])
    ensures k < |s| ==> IsLineBreak(s[k])
  {
    if s == [] || IsLineBreak(s[0]) then 0
    else
      var k := 1 + LineLength(s[1..]);
      assert s[..k] == [s[0]] + s[1..][..k - 1];
      k
  }

  /** `str.splitlines()`: the lines of `s` without their boundaries; a final
      boundary does not open an extra empty line. */
  function Splitlines(s: string): (lines: seq<string>)
    ensures forall i :: 0 <= i < |lines| ==> NoLineBreak(lines[i])
    decreases |s|
  {
    if s == [] then []
    else
      var k := LineLength(s);
      if k == |s| then [s]
      else
        var next := if s[k] == '\r' && k + 1 < |s| && s[k + 1] == '\n' then k + 2 else k + 1;
        [s[..k]] + Splitlines(s[next..])
  }

  /** `"\n".join(lines)`. */
  function JoinLines(lines: seq<string>): string {
    if lines == [] then ""
    else if |lines| == 1 then lines[0]
    else lines[0] + "\n" + JoinLines(lines[1..])
  }

  /** A first line without boundaries ends where its boundary stands. */
  lemma {:induction false} LineLengthAt(a: string, b: string)
    requires NoLineBreak(a)
    requires b == [] || IsLineBreak(b[0])
    ensures LineLength(a + b) == |a|
  {
    if a != [] {
      assert (a + b)[0] == a[0];
      assert (a + b)[1..] == a[1..] + b;
      LineLengthAt(a[1..], b);
    } else {
      assert a + b == b;
    }
  }

  /** A line without boundaries followed by `\n` is split off as one line. */
  lemma SplitlinesFirst(a: string, b: string)
    requires NoLineBreak(a)
    ensures Splitlines(a + "\n" + b) == [a] + Splitlines(b)
  {
    var s := a + "\n" + b;
    assert s == a + ("\n" + b);
    LineLengthAt(a, "\n" + b);
    assert s[..|a|] == a;
    assert s[|a|] == '\n';
    assert s[|a| + 1..] == b;
  }

  /** `splitlines` undoes `"\n".join` on lines without boundaries, as long as the
      last line is not empty. */
  lemma {:induction false} SplitlinesJoinLines(lines: seq<string>)
    requires forall i :: 0 <= i < |lines| ==> NoLineBreak(lines[i])
    requires lines == [] || lines[|lines| - 1] != []
    ensures Splitlines(JoinLines(lines)) == lines
  {
    if |lines| == 1 {
      var s := lines[0];
      LineLengthAt(s, []);
      assert s + [] == s;
    } else if |lines| > 1 {
      SplitlinesFirst(lines[0], JoinLines(lines[1..]));
      SplitlinesJoinLines(lines[1..]);
    }
  }

  /** `"\n".join` undoes `splitlines` on text whose only boundary is `\n` and
      which does not end with one. */
  lemma {:induction false} JoinLinesSplitlines(s: string)
    requires OnlyNewlines(s)
    requires s == [] || s[|s| - 1] != '\n'
    ensures JoinLines(Splitlines(s)) == s
    decreases |s|
  {
    if s != [] {
      var k := LineLength(s);
      if k < |s| {
        assert s[k] == '\n';
        assert k != |s| - 1;
        var rest := s[k + 1..];
        assert OnlyNewlines(rest) by {
          forall i | 0 <= i < |rest| ensures rest[i] == '\n' || !IsLineBreak(rest[i]) {
            assert rest[i] == s[k + 1 + i];
          }
        }
        assert rest[|rest| - 1] == s[|s| - 1];
        JoinLinesSplitlines(rest);
        assert Splitlines(rest) != [];
        assert s == s[..k] + "\n" + rest;
      }
    }
  }
}
