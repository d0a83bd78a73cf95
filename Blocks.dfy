/** The block renderer `md_to_html` (build.py:59-96): a line-by-line state
    machine over the output lines, the pending paragraph and the stack of
    open lists.  `Doc`, `Step` and `Run` give the machine as functions;
    the class `Renderer` is the closure state of the source with its
    methods `FlushPara`, `SetListDepth` and `Feed`, proved against them. */
module Blocks {
  import opened Text
  import InlineFormat

  type Ctx = InlineFormat.Ctx

  // ---------------------------------------------------------------------
  // Line classes (build.py:76-94), checked in this order

  datatype LineKind =
    | Raw                              // `line.lstrip().startswith('<')`
    | Blank                            // `not line.strip()`
    | Heading(level: nat, text: string)  // `^(#{1,6})\s+(.*)$`
    | Rule                             // `^-{3,}\s*$`
    | Bullet(indent: string, text: string)  // `^([ \t]*)([-\*])\s+(.*)$`
    | Para

  /** Length of the run of `c` at the head of `s`. */
  function CharRun(s: string, c: char): (n: nat)
    ensures n <= |s|
  {
    if s == [] || s[0] != c then 0 else 1 + CharRun(s[1..], c)
  }

  predicate IsBlankChar(c: char) { c == ' ' || c == '\t' }

  /** Length of the run of spaces and tabs at the head of `s`. */
  function IndentRun(s: string): (n: nat)
    ensures n <= |s|
  {
    if s == [] || !IsBlankChar(s[0]) then 0 else 1 + IndentRun(s[1..])
  }

  /** The text after the `\s+` that starts at `i`. */
  function AfterSpaces(s: string, i: nat): string
    requires i <= |s|
  {
    s[i + SpaceRun(s[i..])..]
  }

  /** The first matching test of the loop body. The raw and blank tests
      look at the first character after the leading whitespace, which is
      what `line.lstrip()` starts with (see `RawAndBlankTests`). */
  function Classify(line: string): LineKind {
    var j := SpaceRun(line);
    if j < |line| && line[j] == '<' then Raw
    else if j == |line| then Blank
    else
      var h := CharRun(line, '#');
      if 1 <= h <= 6 && h < |line| && IsSpace(line[h]) then Heading(h, AfterSpaces(line, h + 1))
      else
        var d := CharRun(line, '-');
        if d >= 3 && AllSpace(line[d..]) then Rule
        else
          var i := IndentRun(line);
          if i + 1 < |line| && (line[i] == '-' || line[i] == '*') && IsSpace(line[i + 1])
          then Bullet(line[..i], AfterSpaces(line, i + 2))
          else Para
  }

  /** The raw test is `line.lstrip().startswith('<')` and the blank test
      is `not line.strip()`. */
  lemma RawAndBlankTests(line: string)
    ensures (SpaceRun(line) < |line| && line[SpaceRun(line)] == '<')
        <==> (LStrip(line) != [] && LStrip(line)[0] == '<')
    ensures SpaceRun(line) == |line| <==> Strip(line) == []
  {
    var l := LStrip(line);
    assert l == line[SpaceRun(line)..];
    if l != [] {
      var r := RStrip(l);
      assert |r| == |l| || l[|r|..][0] == l[|r|];
    }
  }

  /** `min(6, len(indent.replace('\t', '    ')) // 2) + 1` */
  function BulletDepth(indent: string): nat {
    var w := |Replace(indent, "\t", "    ")|;
    (if w / 2 < 6 then w / 2 else 6) + 1
  }

  /** Width of an indent with every tab counted as four spaces. */
  function IndentWidth(indent: string): nat {
    if indent == [] then 0 else (if indent[0] == '\t' then 4 else 1) + IndentWidth(indent[1..])
  }

  // ---------------------------------------------------------------------
  // The machine

  /** `out`, `para` and `len(list_stack)`. */
  datatype Doc = Doc(out: seq<string>, para: seq<string>, depth: nat)

  const Start := Doc([], [], 0)

  /** The paragraph element for the pending lines. */
  function Paragraph(para: seq<string>, ctx: Ctx): string {
    "<p>" + InlineFormat.RenderInline(Strip(Join(para, " ")), ctx) + "</p>"
  }

  function HeadingHtml(level: nat, text: string, ctx: Ctx): string {
    "<h" + NatToString(level) + ">" + InlineFormat.RenderInline(text, ctx) + "</h" + NatToString(level) + ">"
  }

  function ItemHtml(text: string, ctx: Ctx): string {
    "<li>" + InlineFormat.RenderInline(text, ctx) + "</li>"
  }

  /** `flush_para()` */
  function Flush(d: Doc, ctx: Ctx): (r: Doc)
    ensures r.para == [] && r.depth == d.depth
    ensures d.para == [] ==> r == d
    ensures d.para != [] ==> r.out == d.out + [Paragraph(d.para, ctx)]
  {
    if d.para == [] then d else Doc(d.out + [Paragraph(d.para, ctx)], [], d.depth)
  }

  /** The lines `set_list_depth` emits to go from `cur` open lists to `d`. */
  function ListMarks(cur: nat, d: nat): seq<string>
    decreases if cur < d then d - cur else cur - d
  {
    if cur < d then ListMarks(cur, d - 1) + ["<ul>"]
    else if cur > d then ListMarks(cur, d + 1) + ["</ul>"]
    else []
  }

  /** `set_list_depth(d)`: afterwards exactly `d` lists are open. */
  function SetDepth(doc: Doc, d: nat): (r: Doc)
    ensures r.depth == d && r.para == doc.para
  {
    Doc(doc.out + ListMarks(doc.depth, d), doc.para, d)
  }

  function Emit(doc: Doc, line: string): Doc {
    doc.(out := doc.out + [line])
  }

  /** `raw.rstrip('\n')` */
  function LineOf(raw: string): string {
    RStripChar(raw, '\n')
  }

  /** One pass of the loop body of `md_to_html` on `raw`. */
  function Step(doc: Doc, raw: string, ctx: Ctx): Doc {
    var line := LineOf(raw);
    Apply(doc, line, Classify(line), ctx)
  }

  /** What a line of class `k` does to the state. */
  function Apply(doc: Doc, line: string, k: LineKind, ctx: Ctx): Doc {
    match k
    case Raw => Emit(SetDepth(Flush(doc, ctx), 0), line)
    case Blank => SetDepth(Flush(doc, ctx), 0)
    case Heading(level, text) => Emit(SetDepth(Flush(doc, ctx), 0), HeadingHtml(level, text, ctx))
    case Rule => Emit(SetDepth(Flush(doc, ctx), 0), "<hr>")
    case Bullet(indent, text) => Emit(SetDepth(Flush(doc, ctx), BulletDepth(indent)), ItemHtml(text, ctx))
    case Para => doc.(para := doc.para + [line])
  }

  /** The loop over `lines`. */
  function Run(doc: Doc, lines: seq<string>, ctx: Ctx): Doc {
    if lines == [] then doc
    else Step(Run(doc, lines[..|lines| - 1], ctx), lines[|lines| - 1], ctx)
  }

  /** The final `flush_para(); set_list_depth(0)`. */
  function Finish(doc: Doc, ctx: Ctx): Doc {
    SetDepth(Flush(doc, ctx), 0)
  }

  /** The lines of `out` once `md` has been consumed. */
  function BlockLines(md: string, ctx: Ctx): seq<string> {
    Finish(Run(Start, SplitLines(md), ctx), ctx).out
  }

  /** `md_to_html(md, …)` */
  function RenderBlocks(md: string, ctx: Ctx): string {
    Join(BlockLines(md, ctx), "\n")
  }

  // ---------------------------------------------------------------------
  // The closure state of `md_to_html` as an object

  class Renderer {
    var out: seq<string>
    var para: seq<string>
    var listStack: seq<string>
    const ctx: Ctx

    function State(): Doc
      reads this
    {
      Doc(out, para, |listStack|)
    }

    /** Every open list on the stack is a `ul`. */
    predicate Valid()
      reads this
    {
      forall i :: 0 <= i < |listStack| ==> listStack[i] == "ul"
    }

    constructor(ctx: Ctx)
      ensures State() == Start && this.ctx == ctx && Valid()
    {
      out, para, listStack := [], [], [];
      this.ctx := ctx;
    }

    /** `flush_para()`: the pending lines, if any, become one paragraph. */
    method FlushPara()
      modifies this
      ensures State() == Flush(old(State()), ctx) && listStack == old(listStack)
    {
      if para != [] {
        var body := InlineFormat.InlineHtml(Strip(Join(para, " ")), ctx);
        out := out + ["<p>" + body + "</p>"];
        para := [];
      }
    }

    /** `set_list_depth(depth)`: push or pop lists until `depth` are open. */
    method SetListDepth(depth: nat)
      requires Valid()
      modifies this
      ensures State() == SetDepth(old(State()), depth)
      ensures |listStack| == depth && Valid()
    {
      var start := |listStack|;
      while |listStack| < depth
        invariant start <= depth ==> start <= |listStack| <= depth
        invariant start <= depth ==> out == old(out) + ListMarks(start, |listStack|)
        invariant start > depth ==> out == old(out) && |listStack| == start
        invariant para == old(para) && Valid()
        decreases depth - |listStack|
      {
        out := out + ["<ul>"];
        listStack := listStack + ["ul"];
      }
      ghost var mid := out;
      ghost var top := |listStack|;
      while |listStack| > depth
        invariant depth <= |listStack| <= top
        invariant out == mid + ListMarks(top, |listStack|)
        invariant para == old(para) && Valid()
        decreases |listStack|
      {
        out := out + ["</ul>"];
        listStack := listStack[..|listStack| - 1];
      }
      assert start <= depth ==> top == depth && out == mid;
      assert start <= depth ==> out == old(out) + ListMarks(start, depth);
      assert start > depth ==> mid == old(out) && top == start;
    }

    /** One pass of the loop body on `raw`. */
    method Feed(raw: string)
      requires Valid()
      modifies this
      ensures State() == Step(old(State()), raw, ctx) && Valid()
    {
      var line := LineOf(raw);
      match Classify(line)
      case Raw =>
        FlushPara(); SetListDepth(0); out := out + [line];
      case Blank =>
        FlushPara(); SetListDepth(0);
      case Heading(level, text) =>
        FlushPara(); SetListDepth(0);
        var body := InlineFormat.InlineHtml(text, ctx);
        out := out + ["<h" + NatToString(level) + ">" + body + "</h" + NatToString(level) + ">"];
      case Rule =>
        FlushPara(); SetListDepth(0); out := out + ["<hr>"];
      case Bullet(indent, text) =>
        FlushPara();
        SetListDepth(BulletDepth(indent));
        var body := InlineFormat.InlineHtml(text, ctx);
        out := out + ["<li>" + body + "</li>"];
      case Para =>
        para := para + [line];
    }
  }

  /** `md_to_html(md, …)` as the source runs it. */
  method MdToHtml(md: string, ctx: Ctx) returns (html: string)
    ensures html == RenderBlocks(md, ctx)
  {
    var lines := SplitLines(md);
    var r := new Renderer(ctx);
    for i := 0 to |lines|
      invariant r.State() == Run(Start, lines[..i], ctx) && r.ctx == ctx && r.Valid()
    {
      assert lines[..i + 1][..i] == lines[..i];
      r.Feed(lines[i]);
    }
    assert lines[..|lines|] == lines;
    r.FlushPara();
    r.SetListDepth(0);
    html := Join(r.out, "\n");
  }

  // ---------------------------------------------------------------------
  // Depth and flushing

  /** Tabs count as four columns in a bullet's indent. */
  lemma {:induction false} ReplaceTabsWidth(indent: string)
    requires forall i :: 0 <= i < |indent| ==> IsBlankChar(indent[i])
    ensures |Replace(indent, "\t", "    ")| == IndentWidth(indent)
  {
    if indent != [] {
      assert indent[..1] == [indent[0]];
      ReplaceTabsWidth(indent[1..]);
    }
  }

  /** The depth a bullet line sets, from its indent. */
  lemma BulletDepthWidth(indent: string)
    requires forall i :: 0 <= i < |indent| ==> IsBlankChar(indent[i])
    ensures BulletDepth(indent) == (if IndentWidth(indent) / 2 < 6 then IndentWidth(indent) / 2 else 6) + 1
  {
    ReplaceTabsWidth(indent);
  }

  /** `b` begins with `a`. */
  predicate Extends(a: seq<string>, b: seq<string>) {
    |a| <= |b| && b[..|a|] == a
  }

  /** Every line but paragraph text first emits the pending paragraph, if
      there is one, and leaves the buffer empty; paragraph text only joins
      the pending lines and changes nothing else. */
  lemma ApplyFlushes(doc: Doc, line: string, k: LineKind, ctx: Ctx)
    ensures var r := Apply(doc, line, k, ctx);
      if k.Para? then r == doc.(para := doc.para + [line])
      else r.para == [] && Extends(doc.out + (if doc.para == [] then [] else [Paragraph(doc.para, ctx)]), r.out)
  {
    var f := Flush(doc, ctx);
    assert f.out == doc.out + (if doc.para == [] then [] else [Paragraph(doc.para, ctx)]);
    match k
    case Raw => FlushedThenEmit(f, 0, line);
    case Blank => SetDepthExtends(f, 0);
    case Heading(level, text) => FlushedThenEmit(f, 0, HeadingHtml(level, text, ctx));
    case Rule => FlushedThenEmit(f, 0, "<hr>");
    case Bullet(indent, text) => FlushedThenEmit(f, BulletDepth(indent), ItemHtml(text, ctx));
    case Para =>
  }

  lemma SetDepthExtends(f: Doc, d: nat)
    ensures Extends(f.out, SetDepth(f, d).out)
  {
    assert SetDepth(f, d).out[..|f.out|] == f.out;
  }

  lemma FlushedThenEmit(f: Doc, d: nat, x: string)
    ensures Extends(f.out, Emit(SetDepth(f, d), x).out)
  {
    var s := SetDepth(f, d).out;
    assert s[..|f.out|] == f.out;
    assert (s + [x])[..|f.out|] == s[..|f.out|];
  }

  /** A line without a line boundary is taken as it is. */
  lemma LineOfPlainLine(raw: string)
    requires NoLineBreak(raw)
    ensures LineOf(raw) == raw
  {
    if raw != [] {
      assert !IsLineBreak(raw[|raw| - 1]);
    }
  }


  /** Lines of paragraph text only gather in the buffer. */
  lemma {:induction false} RunParagraph(doc: Doc, lines: seq<string>, ctx: Ctx)
    requires forall i :: 0 <= i < |lines| ==> LineOf(lines[i]) == lines[i] && Classify(lines[i]).Para?
    ensures Run(doc, lines, ctx) == doc.(para := doc.para + lines)
  {
    if lines != [] {
      var init := lines[..|lines| - 1];
      var last := lines[|lines| - 1];
      RunParagraph(doc, init, ctx);
      Snoc(doc.para, lines);
    }
  }

  lemma Snoc(p: seq<string>, lines: seq<string>)
    requires lines != []
    ensures p + lines == (p + lines[..|lines| - 1]) + [lines[|lines| - 1]]
  {
    assert lines == lines[..|lines| - 1] + [lines[|lines| - 1]];
  }

  /** A document of consecutive paragraph lines, with or without a final
      line break, renders as one `<p>` of the lines joined by spaces and
      trimmed. */
  lemma OneParagraph(lines: seq<string>, eol: bool, ctx: Ctx)
    requires lines != []
    requires forall i :: 0 <= i < |lines| ==> NoLineBreak(lines[i]) && Classify(lines[i]).Para?
    ensures RenderBlocks(FileText(lines, eol), ctx) == Paragraph(lines, ctx)
  {
    ParaNotEmpty(lines[|lines| - 1]);
    SplitFileText(lines, eol);
    forall i | 0 <= i < |lines| ensures LineOf(lines[i]) == lines[i] {
      LineOfPlainLine(lines[i]);
    }
    RunParagraph(Start, lines, ctx);
    FinishFromStart(lines, ctx);
  }

  lemma FinishFromStart(lines: seq<string>, ctx: Ctx)
    requires lines != []
    ensures Finish(Start.(para := Start.para + lines), ctx).out == [Paragraph(lines, ctx)]
  {
    assert Start.para + lines == lines;
    FinishParagraph(Doc([], lines, 0), ctx);
    assert ListMarks(0, 0) == [];
  }

  lemma ParaNotEmpty(line: string)
    requires Classify(line).Para?
    ensures line != []
  {
  }

  /** At the end of the input, pending lines become exactly one paragraph,
      after which every open list is closed. */
  lemma FinishParagraph(d: Doc, ctx: Ctx)
    requires d.para != []
    ensures var r := Finish(d, ctx);
      r.out == d.out + [Paragraph(d.para, ctx)] + ListMarks(d.depth, 0) && r.para == [] && r.depth == 0
  {
  }

  // ---------------------------------------------------------------------
  // Opening and closing lists

  /** What a line contributes to the list nesting of `out`. */
  function Delta(line: string): int {
    if line == "<ul>" then 1 else if line == "</ul>" then -1 else 0
  }

  /** Open lists after the lines of `out`. */
  function Level(out: seq<string>): int {
    if out == [] then 0 else Level(out[..|out| - 1]) + Delta(out[|out| - 1])
  }

  /** No prefix of `out` closes more lists than it opened. */
  predicate Nested(out: seq<string>) {
    forall k :: 0 <= k <= |out| ==> Level(out[..k]) >= 0
  }

  /** The lists open in `out` are the ones the state counts. */
  predicate Balanced(doc: Doc) {
    Nested(doc.out) && Level(doc.out) == doc.depth
  }

  lemma AppendLine(out: seq<string>, x: string)
    ensures Level(out + [x]) == Level(out) + Delta(x)
    ensures Nested(out) && Level(out) + Delta(x) >= 0 ==> Nested(out + [x])
  {
    assert (out + [x])[..|out|] == out;
    if Nested(out) && Level(out) + Delta(x) >= 0 {
      forall k | 0 <= k <= |out| + 1 ensures Level((out + [x])[..k]) >= 0 {
        if k <= |out| {
          assert (out + [x])[..k] == out[..k];
        } else {
          assert (out + [x])[..k] == out + [x];
        }
      }
    }
  }

  /** The marks `set_list_depth` emits take the nesting from `cur` to `d`. */
  lemma {:induction false} AppendMarks(out: seq<string>, cur: nat, d: nat)
    requires Nested(out) && Level(out) == cur
    ensures Nested(out + ListMarks(cur, d)) && Level(out + ListMarks(cur, d)) == d
    decreases if cur < d then d - cur else cur - d
  {
    if cur < d {
      AppendMarks(out, cur, d - 1);
      OpenOne(out, cur, d);
    } else if cur > d {
      AppendMarks(out, cur, d + 1);
      CloseOne(out, cur, d);
    } else {
      assert out + ListMarks(cur, d) == out;
    }
  }

  lemma OpenOne(out: seq<string>, cur: nat, d: nat)
    requires cur < d
    requires Nested(out + ListMarks(cur, d - 1)) && Level(out + ListMarks(cur, d - 1)) == d - 1
    ensures Nested(out + ListMarks(cur, d)) && Level(out + ListMarks(cur, d)) == d
  {
    var o := out + ListMarks(cur, d - 1);
    assert out + ListMarks(cur, d) == o + ["<ul>"];
    assert Delta("<ul>") == 1;
    AppendLine(o, "<ul>");
  }

  lemma CloseOne(out: seq<string>, cur: nat, d: nat)
    requires cur > d
    requires Nested(out + ListMarks(cur, d + 1)) && Level(out + ListMarks(cur, d + 1)) == d + 1
    ensures Nested(out + ListMarks(cur, d)) && Level(out + ListMarks(cur, d)) == d
  {
    var o := out + ListMarks(cur, d + 1);
    assert out + ListMarks(cur, d) == o + ["</ul>"];
    assert Delta("</ul>") == -1;
    AppendLine(o, "</ul>");
  }

  lemma SetDepthBalanced(doc: Doc, d: nat)
    requires Balanced(doc)
    ensures Balanced(SetDepth(doc, d))
  {
    AppendMarks(doc.out, doc.depth, d);
  }

  /** Lines longer than a list mark are no list mark. */
  lemma LongLine(x: string)
    requires |x| > 5
    ensures Delta(x) == 0
  {
  }

  lemma FlushBalanced(doc: Doc, ctx: Ctx)
    requires Balanced(doc)
    ensures Balanced(Flush(doc, ctx))
  {
    if doc.para != [] {
      LongLine(Paragraph(doc.para, ctx));
      AppendLine(doc.out, Paragraph(doc.para, ctx));
    }
  }

  lemma EmitBalanced(doc: Doc, x: string)
    requires Balanced(doc) && Delta(x) == 0
    ensures Balanced(Emit(doc, x))
  {
    AppendLine(doc.out, x);
  }

  /** A line keeps the lists of the output matched to the state, unless it
      is raw markup that is itself a list mark. */
  lemma ApplyBalanced(doc: Doc, line: string, k: LineKind, ctx: Ctx)
    requires Balanced(doc) && Delta(line) == 0
    ensures Balanced(Apply(doc, line, k, ctx))
  {
    if !k.Para? {
      var f := Flush(doc, ctx);
      FlushBalanced(doc, ctx);
      var d := if k.Bullet? then BulletDepth(k.indent) else 0;
      SetDepthBalanced(f, d);
      match k
      case Heading(level, text) => LongLine(HeadingHtml(level, text, ctx)); EmitBalanced(SetDepth(f, d), HeadingHtml(level, text, ctx));
      case Bullet(indent, text) => LongLine(ItemHtml(text, ctx)); EmitBalanced(SetDepth(f, d), ItemHtml(text, ctx));
      case Rule =>
        assert "<hr>"[1] != "<ul>"[1];
        EmitBalanced(SetDepth(f, d), "<hr>");
      case Raw => EmitBalanced(SetDepth(f, d), line);
      case Blank =>
    }
  }

  lemma {:induction false} RunBalanced(doc: Doc, lines: seq<string>, ctx: Ctx)
    requires Balanced(doc)
    requires forall i :: 0 <= i < |lines| ==> Delta(LineOf(lines[i])) == 0
    ensures Balanced(Run(doc, lines, ctx))
  {
    if lines != [] {
      var init := lines[..|lines| - 1];
      RunBalanced(doc, init, ctx);
      var raw := lines[|lines| - 1];
      ApplyBalanced(Run(doc, init, ctx), LineOf(raw), Classify(LineOf(raw)), ctx);
    }
  }

  /** Every `<ul>` the renderer emits is closed by a later `</ul>`, and no
      `</ul>` closes a list that was not opened, as long as the markdown
      has no raw line that is itself `<ul>` or `</ul>`. */
  lemma ListsBalanced(md: string, ctx: Ctx)
    requires forall i :: 0 <= i < |SplitLines(md)| ==> Delta(SplitLines(md)[i]) == 0
    ensures Nested(BlockLines(md, ctx)) && Level(BlockLines(md, ctx)) == 0
  {
    var lines := SplitLines(md);
    forall i | 0 <= i < |lines| ensures Delta(LineOf(lines[i])) == 0 {
      LineOfPlainLine(lines[i]);
    }
    assert Balanced(Start);
    RunBalanced(Start, lines, ctx);
    var r := Run(Start, lines, ctx);
    FlushBalanced(r, ctx);
    SetDepthBalanced(Flush(r, ctx), 0);
  }

  // ---------------------------------------------------------------------
  // Which class a line falls in

  lemma {:induction false} CharRunOf(a: string, b: string, c: char)
    requires forall i :: 0 <= i < |a| ==> a[i] == c
    requires b == [] || b[0] != c
    ensures CharRun(a + b, c) == |a|
  {
    if a != [] {
      assert (a + b)[1..] == a[1..] + b;
      CharRunOf(a[1..], b, c);
    } else {
      assert a + b == b;
    }
  }

  lemma {:induction false} RepeatChar(c: char, n: nat)
    ensures |Repeat([c], n)| == n && forall i :: 0 <= i < n ==> Repeat([c], n)[i] == c
  {
    if n > 0 {
      RepeatChar(c, n - 1);
      assert Repeat([c], n) == [c] + Repeat([c], n - 1);
    }
  }

  lemma {:induction false} IndentRunOf(a: string, b: string)
    requires forall i :: 0 <= i < |a| ==> IsBlankChar(a[i])
    requires b == [] || !IsBlankChar(b[0])
    ensures IndentRun(a + b) == |a|
  {
    if a != [] {
      assert (a + b)[1..] == a[1..] + b;
      IndentRunOf(a[1..], b);
    } else {
      assert a + b == b;
    }
  }

  /** A line that starts with a non-space character is not blank. */
  lemma NotBlank(s: string)
    requires s != [] && !IsSpace(s[0])
    ensures SpaceRun(s) == 0
  {
  }

  /** The text after the whitespace that follows `prefix`. */
  lemma AfterSpacesOf(prefix: string, ws: string, text: string)
    requires ws != [] && AllSpace(ws)
    requires text == [] || !IsSpace(text[0])
    ensures AfterSpaces(prefix + ws + text, |prefix| + 1) == text
  {
    var line := prefix + ws + text;
    assert line[|prefix| + 1..] == ws[1..] + text;
    SpaceRunOf(ws[1..], text);
    assert line[|prefix| + |ws|..] == text;
  }

  lemma HeadingFacts(hashes: string, ws: string, text: string)
    requires 1 <= |hashes| <= 6 && forall i :: 0 <= i < |hashes| ==> hashes[i] == '#'
    requires ws != [] && AllSpace(ws)
    requires text == [] || !IsSpace(text[0])
    ensures var line := hashes + ws + text;
      SpaceRun(line) == 0 && line[0] == '#' &&
      CharRun(line, '#') == |hashes| && |hashes| < |line| && IsSpace(line[|hashes|]) &&
      AfterSpaces(line, |hashes| + 1) == text
  {
    var line := hashes + ws + text;
    assert line == hashes + (ws + text);
    assert (ws + text)[0] == ws[0];
    CharRunOf(hashes, ws + text, '#');
    assert line[0] == '#';
    NotBlank(line);
    assert line[|hashes|] == ws[0];
    AfterSpacesOf(hashes, ws, text);
  }

  /** `#` repeated one to six times, whitespace and the text make a
      heading of that level whose text is what follows the whitespace. */
  lemma ClassifyHeading(level: nat, ws: string, text: string)
    requires 1 <= level <= 6 && ws != [] && AllSpace(ws)
    requires text == [] || !IsSpace(text[0])
    ensures Classify(Repeat("#", level) + ws + text) == Heading(level, text)
  {
    RepeatChar('#', level);
    HeadingFacts(Repeat("#", level), ws, text);
  }

  /** Conversely, a line taken as a heading is its level's `#`s, a
      whitespace run and the text, which does not start with whitespace:
      exactly the lines `^(#{1,6})\s+(.*)$` matches. */
  lemma HeadingShape(line: string)
    requires Classify(line).Heading?
    ensures var k := Classify(line);
      var ws := line[k.level..|line| - |k.text|];
      1 <= k.level <= |line| - |k.text| && k.level <= 6 &&
      line == Repeat("#", k.level) + ws + k.text &&
      ws != [] && AllSpace(ws) && (k.text == [] || !IsSpace(k.text[0]))
  {
    var h := CharRun(line, '#');
    var n := SpaceRun(line[h + 1..]);
    var w := h + 1 + n;
    assert Classify(line) == Heading(h, line[w..]);
    CharRunPrefix(line, '#');
    SpanAfter(line, h, w);
  }

  /** The whitespace run after position `h` of a line, and what follows. */
  lemma SpanAfter(line: string, h: nat, w: nat)
    requires h < |line| && IsSpace(line[h]) && w == h + 1 + SpaceRun(line[h + 1..])
    ensures w <= |line| && line == line[..h] + line[h..w] + line[w..]
    ensures line[h..w] != [] && AllSpace(line[h..w]) && (w < |line| ==> !IsSpace(line[w]))
  {
    var n := SpaceRun(line[h + 1..]);
    assert line[h + 1..][..n] == line[h + 1..w];
    assert forall i :: h + 1 <= i < w ==> line[i] == line[h + 1..w][i - h - 1];
    if w < |line| {
      assert line[h + 1..][n] == line[w];
    }
  }

  /** The run of `c` at the head of `s` is `c` repeated. */
  lemma {:induction false} CharRunPrefix(s: string, c: char)
    ensures s[..CharRun(s, c)] == Repeat([c], CharRun(s, c))
  {
    if s != [] && s[0] == c {
      var k := CharRun(s[1..], c);
      CharRunPrefix(s[1..], c);
      assert s[..k + 1] == [c] + s[1..][..k];
    }
  }

  /** Three or more `-` and then only whitespace make a rule. */
  lemma ClassifyRule(n: nat, ws: string)
    requires n >= 3 && AllSpace(ws)
    ensures Classify(Repeat("-", n) + ws) == Rule
  {
    var line := Repeat("-", n) + ws;
    RepeatChar('-', n);
    assert ws != [] ==> IsSpace(ws[0]);
    CharRunOf(Repeat("-", n), ws, '-');
    assert line[0] == '-';
    NotBlank(line);
    assert line[n..] == ws;
  }

  /** Conversely, a line taken as a rule is three or more `-` and then only
      whitespace, as `^-{3,}\s*$` demands. */
  lemma RuleShape(line: string)
    requires Classify(line) == Rule
    ensures var d := CharRun(line, '-');
      d >= 3 && line == Repeat("-", d) + line[d..] && AllSpace(line[d..])
  {
    var d := CharRun(line, '-');
    CharRunPrefix(line, '-');
    assert line == line[..d] + line[d..];
  }

  /** Conversely, a line taken as a bullet is its indent of spaces and tabs,
      a `-` or `*`, a whitespace run and the text, which does not start
      with whitespace: exactly the lines `bullet_re` matches. */
  lemma BulletShape(line: string)
    requires Classify(line).Bullet?
    ensures var k := Classify(line);
      var i := |k.indent|;
      var ws := line[i + 1..|line| - |k.text|];
      i + 1 <= |line| - |k.text| && (forall j :: 0 <= j < i ==> IsBlankChar(k.indent[j])) &&
      (line[i] == '-' || line[i] == '*') &&
      line == k.indent + [line[i]] + ws + k.text &&
      ws != [] && AllSpace(ws) && (k.text == [] || !IsSpace(k.text[0]))
  {
    var i := IndentRun(line);
    var w := i + 2 + SpaceRun(line[i + 2..]);
    assert Classify(line) == Bullet(line[..i], line[w..]);
    BulletCut(line, i, w);
    assert |line[..i]| == i && |line| - |line[w..]| == w;
  }

  /** A line cut at the end `i` of its indent and the end `w` of the
      whitespace after the marker. */
  lemma BulletCut(line: string, i: nat, w: nat)
    requires i == IndentRun(line) && i + 1 < |line| && IsSpace(line[i + 1])
    requires w == i + 2 + SpaceRun(line[i + 2..])
    ensures i + 1 < w <= |line| && (forall j :: 0 <= j < i ==> IsBlankChar(line[..i][j]))
    ensures line == line[..i] + [line[i]] + line[i + 1..w] + line[w..]
    ensures AllSpace(line[i + 1..w]) && (w < |line| ==> !IsSpace(line[w]))
  {
    IndentRunBlank(line);
    SpanAfter(line, i + 1, w);
    TakeOneMore(line, i);
  }

  /** The indent run at the head of `s` is spaces and tabs. */
  lemma {:induction false} IndentRunBlank(s: string)
    ensures forall j :: 0 <= j < IndentRun(s) ==> IsBlankChar(s[j])
  {
    if s != [] && IsBlankChar(s[0]) {
      IndentRunBlank(s[1..]);
      assert forall j :: 1 <= j < IndentRun(s) ==> s[j] == s[1..][j - 1];
    }
  }

  /** Leading whitespace before a non-space character. */
  lemma IndentedText(indent: string, rest: string)
    requires AllSpace(indent) && rest != [] && !IsSpace(rest[0])
    ensures SpaceRun(indent + rest) == |indent| && (indent + rest)[|indent|] == rest[0]
  {
    SpaceRunOf(indent, rest);
  }

  /** The raw, blank, heading and rule tests all fail on a bullet line. */
  lemma BulletNotEarlier(indent: string, marker: char, ws: string, text: string)
    requires forall i :: 0 <= i < |indent| ==> IsBlankChar(indent[i])
    requires marker == '-' || marker == '*'
    requires ws != [] && AllSpace(ws)
    ensures var line := indent + [marker] + ws + text;
      SpaceRun(line) == |indent| && |indent| < |line| && line[|indent|] == marker &&
      CharRun(line, '#') == 0 && CharRun(line, '-') < 3
  {
    var rest := [marker] + (ws + text);
    BulletSplit(indent, marker, ws, text);
    assert rest[0] == marker && !IsSpace(marker);
    assert AllSpace(indent);
    IndentedText(indent, rest);
    Assoc(indent + [marker], ws, text);
    MarkerRuns(indent, marker, ws + text);
  }

  lemma MarkerRuns(indent: string, marker: char, t: string)
    requires forall i :: 0 <= i < |indent| ==> IsBlankChar(indent[i])
    requires marker == '-' || marker == '*'
    requires t != [] && IsSpace(t[0])
    ensures CharRun(indent + [marker] + t, '#') == 0 && CharRun(indent + [marker] + t, '-') < 3
  {
    var line := indent + [marker] + t;
    assert line[0] != '#';
    if indent == [] && marker == '-' {
      assert line[1..] == t;
    } else {
      assert line[0] != '-';
    }
  }

  lemma BulletParts(indent: string, marker: char, ws: string, text: string)
    requires forall i :: 0 <= i < |indent| ==> IsBlankChar(indent[i])
    requires marker == '-' || marker == '*'
    requires ws != [] && AllSpace(ws)
    requires text == [] || !IsSpace(text[0])
    ensures var line := indent + [marker] + ws + text;
      IndentRun(line) == |indent| && line[|indent|] == marker &&
      |indent| + 1 < |line| && IsSpace(line[|indent| + 1]) &&
      line[..|indent|] == indent && AfterSpaces(line, |indent| + 2) == text
  {
    var rest := [marker] + (ws + text);
    BulletSplit(indent, marker, ws, text);
    BulletIndent(indent, rest);
    MarkerAt(indent, marker, ws + text);
    AfterSpacesOf(indent + [marker], ws, text);
  }

  lemma MarkerAt(indent: string, marker: char, t: string)
    requires t != []
    ensures var line := indent + ([marker] + t);
      |indent| + 1 < |line| && line[|indent|] == marker && line[|indent| + 1] == t[0]
  {
  }

  /** The line regrouped as indent and rest. */
  lemma BulletSplit(indent: string, marker: char, ws: string, text: string)
    ensures indent + [marker] + ws + text == indent + ([marker] + (ws + text))
  {
    Assoc(indent + [marker], ws, text);
    Assoc(indent, [marker], ws + text);
  }

  lemma BulletIndent(indent: string, rest: string)
    requires forall i :: 0 <= i < |indent| ==> IsBlankChar(indent[i])
    requires rest != [] && !IsBlankChar(rest[0])
    ensures IndentRun(indent + rest) == |indent| && (indent + rest)[..|indent|] == indent
  {
    IndentRunOf(indent, rest);
    assert (indent + rest)[..|indent|] == indent;
  }

  /** An indent of spaces and tabs, a `-` or `*` marker, whitespace and the
      text make a bullet, whatever the text: none of the earlier tests
      matches such a line. */
  lemma ClassifyBullet(indent: string, marker: char, ws: string, text: string)
    requires forall i :: 0 <= i < |indent| ==> IsBlankChar(indent[i])
    requires marker == '-' || marker == '*'
    requires ws != [] && AllSpace(ws)
    requires text == [] || !IsSpace(text[0])
    ensures Classify(indent + [marker] + ws + text) == Bullet(indent, text)
  {
    BulletNotEarlier(indent, marker, ws, text);
    BulletParts(indent, marker, ws, text);
    ClassifyAsBullet(indent + [marker] + ws + text, |indent|, text);
  }

  /** The classification of a line that passes only the bullet test. */
  lemma ClassifyAsBullet(line: string, i: nat, text: string)
    requires SpaceRun(line) < |line| && line[SpaceRun(line)] != '<'
    requires CharRun(line, '#') == 0 && CharRun(line, '-') < 3
    requires IndentRun(line) == i && i + 1 < |line| && (line[i] == '-' || line[i] == '*')
    requires IsSpace(line[i + 1]) && AfterSpaces(line, i + 2) == text
    ensures Classify(line) == Bullet(line[..i], text)
  {
  }

  /** A line whose last character is not a line feed is taken whole. */
  lemma LineOfWhole(pre: string, ws: string, text: string)
    requires ws != [] && NoLineBreak(ws) && NoLineBreak(text)
    ensures LineOf(pre + ws + text) == pre + ws + text
  {
    var line := pre + ws + text;
    if text != [] {
      assert line[|line| - 1] == text[|text| - 1];
    } else {
      assert line[|line| - 1] == ws[|ws| - 1];
    }
  }

  /** A heading line flushes the paragraph, closes every open list and
      emits the heading of its level. */
  lemma HeadingLine(doc: Doc, level: nat, ws: string, text: string, ctx: Ctx)
    requires 1 <= level <= 6 && ws != [] && AllSpace(ws)
    requires text == [] || !IsSpace(text[0])
    requires NoLineBreak(ws) && NoLineBreak(text)
    ensures Step(doc, Repeat("#", level) + ws + text, ctx)
         == Doc(Flush(doc, ctx).out + ListMarks(doc.depth, 0) + [HeadingHtml(level, text, ctx)], [], 0)
  {
    LineOfWhole(Repeat("#", level), ws, text);
    ClassifyHeading(level, ws, text);
  }

  /** A bullet line flushes the paragraph, opens or closes lists until
      `min(6, width / 2) + 1` are open, a tab in the indent counting four
      columns, and emits the item. */
  lemma BulletLine(doc: Doc, indent: string, marker: char, ws: string, text: string, ctx: Ctx)
    requires forall i :: 0 <= i < |indent| ==> IsBlankChar(indent[i])
    requires marker == '-' || marker == '*'
    requires ws != [] && AllSpace(ws)
    requires text == [] || !IsSpace(text[0])
    requires NoLineBreak(ws) && NoLineBreak(text)
    ensures var w := IndentWidth(indent);
      var d := (if w / 2 < 6 then w / 2 else 6) + 1;
      Step(doc, indent + [marker] + ws + text, ctx)
        == Doc(Flush(doc, ctx).out + ListMarks(doc.depth, d) + [ItemHtml(text, ctx)], [], d)
  {
    var line := indent + [marker] + ws + text;
    BulletStep(doc, indent, marker, ws, text, ctx);
    ApplyBullet(doc, line, indent, text, ctx);
    BulletDepthWidth(indent);
  }

  lemma BulletStep(doc: Doc, indent: string, marker: char, ws: string, text: string, ctx: Ctx)
    requires forall i :: 0 <= i < |indent| ==> IsBlankChar(indent[i])
    requires marker == '-' || marker == '*'
    requires ws != [] && AllSpace(ws)
    requires text == [] || !IsSpace(text[0])
    requires NoLineBreak(ws) && NoLineBreak(text)
    ensures var line := indent + [marker] + ws + text;
      Step(doc, line, ctx) == Apply(doc, line, Bullet(indent, text), ctx)
  {
    LineOfWhole(indent + [marker], ws, text);
    ClassifyBullet(indent, marker, ws, text);
  }

  lemma ApplyBullet(doc: Doc, line: string, indent: string, text: string, ctx: Ctx)
    ensures var d := BulletDepth(indent);
      Apply(doc, line, Bullet(indent, text), ctx)
        == Doc(Flush(doc, ctx).out + ListMarks(doc.depth, d) + [ItemHtml(text, ctx)], [], d)
  {
  }
}
