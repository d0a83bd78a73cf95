/** The handful of Python `str` operations the site generator relies on,
    written out over `seq<char>`: whitespace classes, strip, ASCII lower,
    join, replace, splitlines and decimal rendering of a counter. */
module Text {

  /** `str.isspace()` and the `\s` class of `re` on `str` patterns. */
  predicate IsSpace(c: char) {
    c == ' ' || ('\t' <= c <= '\r') || ('\U{1C}' <= c <= '\U{1F}')
    || c == '\U{85}' || c == '\U{A0}' || c == '\U{1680}'
    || ('\U{2000}' <= c <= '\U{200A}') || c == '\U{2028}' || c == '\U{2029}'
    || c == '\U{202F}' || c == '\U{205F}' || c == '\U{3000}'
  }

  /** The line boundaries `str.splitlines()` splits on (`\r\n` counts once). */
  predicate IsLineBreak(c: char) {
    ('\n' <= c <= '\r') || ('\U{1C}' <= c <= '\U{1E}')
    || c == '\U{85}' || c == '\U{2028}' || c == '\U{2029}'
  }

  predicate IsDigit(c: char) { '0' <= c <= '9' }

  predicate IsLowerAlpha(c: char) { 'a' <= c <= 'z' }

  predicate AllSpace(s: string) { forall i :: 0 <= i < |s| ==> IsSpace(s[i]) }

  predicate NoLineBreak(s: string) { forall i :: 0 <= i < |s| ==> !IsLineBreak(s[i]) }

  /** Length of the longest prefix of `s` made of whitespace. */
  function SpaceRun(s: string): (n: nat)
    ensures n <= |s| && AllSpace(s[..n])
    ensures n < |s| ==> !IsSpace(s[n])
  {
    if s == [] || !IsSpace(s[0]) then 0
    else
      var k := SpaceRun(s[1..]);
      assert s[..k + 1] == [s[0]] + s[1..][..k];
      k + 1
  }

  /** `s.lstrip()` */
  function LStrip(s: string): (r: string)
    ensures |r| <= |s| && r == s[|s| - |r|..]
    ensures r != [] ==> !IsSpace(r[0])
    ensures AllSpace(s[..|s| - |r|])
  {
    s[SpaceRun(s)..]
  }

  /** `s.rstrip()` */
  function RStrip(s: string): (r: string)
    ensures |r| <= |s| && r == s[..|r|]
    ensures r != [] ==> !IsSpace(r[|r| - 1])
    ensures AllSpace(s[|r|..])
  {
    if s == [] || !IsSpace(s[|s| - 1]) then s
    else
      var r := RStrip(s[..|s| - 1]);
      InitParts(s, |r|);
      AllSpaceSnoc(s[..|s| - 1][|r|..], s[|s| - 1]);
      r
  }

  /** Cutting `s` before its last character, and at `k` before that. */
  lemma InitParts(s: string, k: nat)
    requires k < |s|
    ensures s[..|s| - 1][..k] == s[..k] && s[k..] == s[..|s| - 1][k..] + [s[|s| - 1]]
  {
  }

  lemma AllSpaceSnoc(x: string, c: char)
    requires AllSpace(x) && IsSpace(c)
    ensures AllSpace(x + [c])
  {
    assert forall i :: 0 <= i < |x| ==> (x + [c])[i] == x[i];
  }

  /** `s.strip()` */
  function Strip(s: string): (r: string)
    ensures r != [] ==> !IsSpace(r[0]) && !IsSpace(r[|r| - 1])
    ensures |r| <= |s|
    ensures (s == [] || (!IsSpace(s[0]) && !IsSpace(s[|s| - 1]))) ==> r == s
  {
    var l := LStrip(s);
    var r := RStrip(l);
    r
  }

  /** `s.rstrip(c)` for a single character. */
  function RStripChar(s: string, c: char): (r: string)
    ensures |r| <= |s| && r == s[..|r|] && (r != [] ==> r[|r| - 1] != c)
    ensures forall i :: |r| <= i < |s| ==> s[i] == c
  {
    if s == [] || s[|s| - 1] != c then s
    else
      var r := RStripChar(s[..|s| - 1], c);
      assert s[..|s| - 1][..|r|] == s[..|r|];
      r
  }

  /** `s.lstrip(c)` for a single character. */
  function LStripChar(s: string, c: char): (r: string)
    ensures |r| <= |s| && r == s[|s| - |r|..] && (r != [] ==> r[0] != c)
    ensures forall i :: 0 <= i < |s| - |r| ==> s[i] == c
  {
    if s == [] || s[0] != c then s else LStripChar(s[1..], c)
  }

  /** `s.strip(c)` for a single character. */
  function StripChar(s: string, c: char): (r: string)
    ensures r != [] ==> r[0] != c && r[|r| - 1] != c
  {
    RStripChar(LStripChar(s, c), c)
  }

  /** `str.lower()` restricted to ASCII letters. */
  function LowerChar(c: char): (d: char)
    ensures !('A' <= c <= 'Z') ==> d == c
  {
    if 'A' <= c <= 'Z' then (c as int + 32) as char else c
  }

  function Lower(s: string): (r: string)
    ensures |r| == |s| && forall i :: 0 <= i < |s| ==> r[i] == LowerChar(s[i])
  {
    if s == [] then [] else [LowerChar(s[0])] + Lower(s[1..])
  }

  function StartsWith(s: string, p: string): bool {
    |p| <= |s| && s[..|p|] == p
  }

  /** `sep.join(parts)` */
  function Join(parts: seq<string>, sep: string): string {
    if parts == [] then []
    else if |parts| == 1 then parts[0]
    else parts[0] + sep + Join(parts[1..], sep)
  }

  /** `s.replace(pat, rep)`: every leftmost, non-overlapping occurrence. */
  function Replace(s: string, pat: string, rep: string): string
    requires pat != []
    decreases |s|
  {
    if |s| < |pat| then s
    else if s[..|pat|] == pat then rep + Replace(s[|pat|..], pat, rep)
    else [s[0]] + Replace(s[1..], pat, rep)
  }

  /** `pat` occurs in `s` at index `i`. */
  predicate OccursAt(s: string, pat: string, i: int) {
    0 <= i && i + |pat| <= |s| && s[i..i + |pat|] == pat
  }

  ghost predicate Occurs(s: string, pat: string) {
    exists i :: OccursAt(s, pat, i)
  }

  /** The `n`-fold repetition of `s`. */
  function Repeat(s: string, n: nat): string {
    if n == 0 then [] else s + Repeat(s, n - 1)
  }

  function DigitChar(d: nat): (c: char)
    requires d < 10
    ensures IsDigit(c)
  {
    ('0' as int + d) as char
  }

  /** `str(n)` for a natural number. */
  function NatToString(n: nat): (r: string)
    ensures r != [] && forall i :: 0 <= i < |r| ==> IsDigit(r[i])
  {
    if n < 10 then [DigitChar(n)] else NatToString(n / 10) + [DigitChar(n % 10)]
  }

  /** Index of the first line boundary in `s`, or `|s|`. */
  function LineEnd(s: string): (i: nat)
    ensures i <= |s| && NoLineBreak(s[..i])
    ensures i < |s| ==> IsLineBreak(s[i])
  {
    if s == [] || IsLineBreak(s[0]) then 0
    else
      var k := LineEnd(s[1..]);
      assert s[..k + 1] == [s[0]] + s[1..][..k];
      k + 1
  }

  /** `s.splitlines()`: a final line boundary does not start an empty line. */
  function SplitLines(s: string): (lines: seq<string>)
    ensures forall k :: 0 <= k < |lines| ==> NoLineBreak(lines[k])
    decreases |s|
  {
    if s == [] then []
    else
      var i := LineEnd(s);
      if i == |s| then [s]
      else
        var next := if s[i] == '\r' && i + 1 < |s| && s[i + 1] == '\n' then i + 2 else i + 1;
        if next == |s| then [s[..i]] else [s[..i]] + SplitLines(s[next..])
  }

  /** Joining lines with `\n` and splitting them again gives the lines back,
      provided no line holds a line boundary and the last one is not empty. */
  lemma {:induction false} SplitJoinLines(lines: seq<string>)
    requires forall k :: 0 <= k < |lines| ==> NoLineBreak(lines[k])
    requires lines != [] ==> lines[|lines| - 1] != []
    ensures SplitLines(Join(lines, "\n")) == lines
  {
    if lines == [] {
    } else if |lines| == 1 {
      LineEndOfPlain(lines[0], []);
    } else {
      var tail := lines[1..];
      var rest := Join(tail, "\n");
      assert Join(lines, "\n") == lines[0] + ("\n" + rest);
      assert forall k :: 0 <= k < |tail| ==> tail[k] == lines[k + 1];
      JoinLastNonEmpty(tail);
      SplitLinesStep(lines[0], rest);
      SplitJoinLines(tail);
      assert [lines[0]] + tail == lines;
    }
  }

  /** The text of a file of `lines`: joined by `\n`, with one more `\n`
      at the end when `eol` holds, as most files are written. */
  function FileText(lines: seq<string>, eol: bool): string {
    Join(lines, "\n") + (if eol then "\n" else "")
  }

  /** Lines a file text can be split back into: no line holds a line
      boundary, and without a final `\n` the last line is not empty,
      while with one the last line may be empty (a trailing blank line). */
  predicate FileLines(lines: seq<string>, eol: bool) {
    (forall k :: 0 <= k < |lines| ==> NoLineBreak(lines[k])) &&
    (if eol then lines != [] else lines != [] ==> lines[|lines| - 1] != [])
  }

  /** `splitlines` gives back the lines of a file text, with or without a
      final line break. */
  lemma SplitFileText(lines: seq<string>, eol: bool)
    requires FileLines(lines, eol)
    ensures SplitLines(FileText(lines, eol)) == lines
  {
    assert !eol ==> FileText(lines, eol) == Join(lines, "\n");
    if eol {
      SplitJoinLinesEol(lines);
    } else {
      SplitJoinLines(lines);
    }
  }

  /** With a final `\n` after every line, the last line may be empty. */
  lemma {:induction false} SplitJoinLinesEol(lines: seq<string>)
    requires lines != [] && forall k :: 0 <= k < |lines| ==> NoLineBreak(lines[k])
    ensures SplitLines(Join(lines, "\n") + "\n") == lines
  {
    if |lines| == 1 {
      var s := lines[0] + "\n";
      assert Join(lines, "\n") + "\n" == s;
      LineEndOfPlain(lines[0], "\n");
      assert s[|lines[0]|] == '\n' && s[..|lines[0]|] == lines[0];
    } else {
      var tail := lines[1..];
      var rest := Join(tail, "\n") + "\n";
      assert Join(lines, "\n") + "\n" == lines[0] + ("\n" + rest);
      assert forall k :: 0 <= k < |tail| ==> tail[k] == lines[k + 1];
      SplitLinesStep(lines[0], rest);
      SplitJoinLinesEol(tail);
      assert [lines[0]] + tail == lines;
    }
  }

  /** A line followed by `\n` and more text splits off as the first line. */
  lemma SplitLinesStep(a: string, rest: string)
    requires NoLineBreak(a) && rest != []
    ensures SplitLines(a + ("\n" + rest)) == [a] + SplitLines(rest)
  {
    var s := a + ("\n" + rest);
    LineEndOfPlain(a, "\n" + rest);
    assert s[..|a|] == a && s[|a|] == '\n';
    assert s[|a| + 1..] == rest;
  }

  lemma {:induction false} JoinLastNonEmpty(lines: seq<string>)
    requires lines != [] && lines[|lines| - 1] != []
    ensures Join(lines, "\n") != []
  {
    if |lines| > 1 {
      JoinLastNonEmpty(lines[1..]);
    }
  }

  lemma {:induction false} LineEndOfPlain(a: string, b: string)
    requires NoLineBreak(a)
    requires b != [] ==> IsLineBreak(b[0])
    ensures LineEnd(a + b) == |a|
  {
    if a != [] {
      assert (a + b)[1..] == a[1..] + b;
      LineEndOfPlain(a[1..], b);
    } else if b != [] {
      assert (a + b)[0] == b[0];
    }
  }

  /** Replacing a pattern that does not occur changes nothing. */
  lemma {:induction false} ReplaceAbsent(s: string, pat: string, rep: string)
    requires pat != [] && !Occurs(s, pat)
    ensures Replace(s, pat, rep) == s
    decreases |s|
  {
    if |s| >= |pat| {
      assert !OccursAt(s, pat, 0);
      forall i | OccursAt(s[1..], pat, i) ensures false {
        assert s[1..][i..i + |pat|] == s[i + 1..i + 1 + |pat|];
        assert OccursAt(s, pat, i + 1);
      }
      ReplaceAbsent(s[1..], pat, rep);
    }
  }

  /** A pattern with a character the text lacks does not occur in it. */
  lemma AbsentByChar(s: string, pat: string, c: char)
    requires c in pat && c !in s
    ensures !Occurs(s, pat)
  {
    forall i | 0 <= i && i + |pat| <= |s| ensures !OccursAt(s, pat, i) {
      var j :| 0 <= j < |pat| && pat[j] == c;
      assert s[i..i + |pat|][j] == s[i + j];
    }
  }

  /** The whole text being the pattern: it is replaced once. */
  lemma ReplaceWhole(pat: string, rep: string)
    requires pat != []
    ensures Replace(pat, pat, rep) == rep
  {
    assert pat[..|pat|] == pat;
    assert pat[|pat|..] == [];
  }

  /** A pattern absent from a text is absent from its tail. */
  lemma OccursTail(s: string, pat: string)
    requires s != [] && !Occurs(s, pat)
    ensures !Occurs(s[1..], pat)
  {
    forall i | OccursAt(s[1..], pat, i) ensures false {
      assert s[1..][i..i + |pat|] == s[i + 1..i + 1 + |pat|];
      assert OccursAt(s, pat, i + 1);
    }
  }

  /** Splitting off the first character of the left operand of `+`. */
  lemma HeadTail(a: string, t: string)
    requires a != []
    ensures [a[0]] + (a[1..] + t) == a + t
  {
    assert [a[0]] + a[1..] == a;
  }

  lemma Halves(s: string, n: nat)
    requires n <= |s|
    ensures s[..n] + s[n..] == s
  {
  }

  lemma TakeOneMore(s: string, i: nat)
    requires i < |s|
    ensures s[..i + 1] == s[..i] + [s[i]]
  {
  }

  lemma Parts(a: string, b: string)
    ensures (a + b)[..|a|] == a && (a + b)[|a|..] == b
  {
  }

  lemma Assoc(a: string, b: string, c: string)
    ensures (a + b) + c == a + (b + c)
  {
  }

  /** Whitespace followed by a non-space character: the run is exactly the
      whitespace. */
  lemma {:induction false} SpaceRunOf(ws: string, caption: string)
    requires AllSpace(ws) && (caption != [] ==> !IsSpace(caption[0]))
    ensures SpaceRun(ws + caption) == |ws|
  {
    if ws != [] {
      assert (ws + caption)[1..] == ws[1..] + caption;
      SpaceRunOf(ws[1..], caption);
    } else {
      assert ws + caption == caption;
    }
  }

  /** Index of the first `c` in `s`, or `|s|`. */
  function CharIndex(s: string, c: char): (i: nat)
    ensures i <= |s| && c !in s[..i]
    ensures i < |s| ==> s[i] == c
  {
    if s == [] || s[0] == c then 0
    else
      var k := CharIndex(s[1..], c);
      assert s[..k + 1] == [s[0]] + s[1..][..k];
      k + 1
  }

  /** `s.split(c)` for a one-character separator. */
  function Split(s: string, c: char): (parts: seq<string>)
    ensures parts != [] && forall k :: 0 <= k < |parts| ==> c !in parts[k]
    decreases |s|
  {
    var i := CharIndex(s, c);
    if i == |s| then [s] else [s[..i]] + Split(s[i + 1..], c)
  }

  /** Joining parts that lack the separator and splitting again gives the
      parts back. */
  lemma {:induction false} SplitJoin(parts: seq<string>, c: char)
    requires parts != [] && forall k :: 0 <= k < |parts| ==> c !in parts[k]
    ensures Split(Join(parts, [c]), c) == parts
  {
    if |parts| == 1 {
      assert parts[0][..|parts[0]|] == parts[0];
    } else {
      var s := Join(parts, [c]);
      var rest := Join(parts[1..], [c]);
      var n := |parts[0]|;
      assert s == parts[0] + ([c] + rest);
      CharIndexOf(parts[0], c, [c] + rest);
      assert s[..n] == parts[0] && s[n + 1..] == rest;
      assert Split(s, c) == [parts[0]] + Split(rest, c);
      SplitJoin(parts[1..], c);
      Cons(parts);
    }
  }

  lemma {:induction false} CharIndexOf(a: string, c: char, b: string)
    requires c !in a && b != [] && b[0] == c
    ensures CharIndex(a + b, c) == |a|
  {
    if a != [] {
      assert (a + b)[1..] == a[1..] + b;
      CharIndexOf(a[1..], c, b);
    } else {
      assert a + b == b;
    }
  }

  /** Joining two non-empty lists puts one separator between them. */
  lemma {:induction false} JoinAppend(a: seq<string>, b: seq<string>, sep: string)
    requires a != [] && b != []
    ensures Join(a + b, sep) == Join(a, sep) + sep + Join(b, sep)
  {
    if |a| == 1 {
      assert (a + b)[1..] == b;
    } else {
      assert (a + b)[1..] == a[1..] + b;
      JoinAppend(a[1..], b, sep);
    }
  }

  lemma Cons(parts: seq<string>)
    requires parts != []
    ensures [parts[0]] + parts[1..] == parts
  {
  }
}
