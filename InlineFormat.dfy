/** The inline formatter `inline_html` (build.py:20-57): HTML-escape, hide
    math spans behind numbered placeholders, rewrite images, links, code,
    bold and italic, then put the math back.  Each regular expression of the
    source is a hand-written scanner here; `re.sub` is a left-to-right scan
    that, where a match starts, emits its replacement and resumes after it,
    and otherwise copies one character. */
module InlineFormat {
  import opened Text
  import Slug

  /** What `inline_html` needs from its caller besides the text: the
      document's directory relative to the book root, as `as_posix()` gives
      it (`.` for the root), and the asset base URL. */
  datatype Ctx = Ctx(relDir: string, assetBase: string)

  // ---------------------------------------------------------------------
  // html.escape

  function EscapeChar(c: char): string {
    if c == '&' then "&amp;"
    else if c == '<' then "&lt;"
    else if c == '>' then "&gt;"
    else if c == '"' then "&quot;"
    else if c == '\'' then "&#x27;"
    else [c]
  }

  predicate HtmlSpecial(c: char) { c == '&' || c == '<' || c == '>' || c == '"' || c == '\'' }

  predicate Markup(c: char) { c == '<' || c == '>' || c == '"' || c == '\'' }

  /** `html.escape(s)` (quote=True).  No markup character survives it. */
  function Escape(s: string): (r: string)
    ensures |r| >= |s|
    ensures forall i :: 0 <= i < |r| ==> !Markup(r[i])
  {
    if s == [] then [] else EscapeChar(s[0]) + Escape(s[1..])
  }

  /** The characters of the entities `Escape` writes. */
  predicate EntityChar(c: char) { c == '&' || c == ';' || c == '#' || IsLowerAlpha(c) || IsDigit(c) }

  /** Every character of `Escape(s)` is from `s` or from an entity. */
  lemma {:induction false} EscapeChars(s: string)
    ensures forall c :: c in Escape(s) ==> c in s || EntityChar(c)
  {
    if s != [] {
      EscapeChars(s[1..]);
      assert forall c :: c in s[1..] ==> c in s;
    }
  }

  /** Text without the five special characters is its own escape. */
  lemma {:induction false} EscapePlain(s: string)
    requires forall c :: c in s ==> !HtmlSpecial(c)
    ensures Escape(s) == s
  {
    if s != [] {
      assert s[0] in s;
      assert forall c :: c in s[1..] ==> c in s;
      EscapePlain(s[1..]);
      assert [s[0]] + s[1..] == s;
    }
  }

  lemma {:induction false} EscapeAppend(a: string, b: string)
    ensures Escape(a + b) == Escape(a) + Escape(b)
  {
    if a == [] {
      assert a + b == b;
    } else {
      assert (a + b)[1..] == a[1..] + b;
      EscapeAppend(a[1..], b);
    }
  }

  // ---------------------------------------------------------------------
  // Math protection

  /** The placeholder `@@MATH{i}@@`. */
  function Token(i: nat): string {
    "@@MATH" + NatToString(i) + "@@"
  }

  /** First index `j >= i` at which `pat` occurs in `s`. */
  function FindFrom(s: string, pat: string, i: nat): (r: Option<nat>)
    ensures r.Some? ==> i <= r.value && OccursAt(s, pat, r.value)
    ensures r.Some? ==> forall j :: i <= j < r.value ==> !OccursAt(s, pat, j)
    ensures r.None? ==> forall j :: i <= j ==> !OccursAt(s, pat, j)
    decreases |s| - i
  {
    if i + |pat| > |s| then None
    else if OccursAt(s, pat, i) then Some(i)
    else FindFrom(s, pat, i + 1)
  }

  datatype Option<T> = None | Some(value: T)

  /** Length of the match of `open(.+?)close` (dot matching newlines) at the
      head of `s`: the shortest span with at least one character inside. */
  function SpanAt(s: string, open: string, close: string): (r: Option<nat>)
    ensures r.Some? ==> StartsWith(s, open) && |open| + 1 + |close| <= r.value <= |s|
    ensures r.Some? ==> OccursAt(s, close, r.value - |close|)
    ensures r.Some? ==> forall j :: |open| + 1 <= j < r.value - |close| ==> !OccursAt(s, close, j)
    ensures r.None? ==> !StartsWith(s, open) || forall j :: |open| + 1 <= j ==> !OccursAt(s, close, j)
  {
    if !StartsWith(s, open) then None
    else match FindFrom(s, close, |open| + 1)
      case None => None
      case Some(j) => Some(j + |close|)
  }

  /** A whole `open…close` text with at least one character inside. */
  predicate IsSpan(t: string, open: string, close: string) {
    StartsWith(t, open) && |t| >= |open| + 1 + |close| && t[|t| - |close|..] == close
  }

  /** A span found at the head is a whole `open…close` text. */
  lemma SpanShape(s: string, open: string, close: string, n: nat)
    requires SpanAt(s, open, close) == Some(n)
    ensures IsSpan(s[..n], open, close)
  {
    assert s[..n][..|open|] == s[..|open|];
    assert s[..n][n - |close|..] == s[n - |close|..n];
  }

  datatype Protected = Protected(text: string, tokens: seq<string>)

  /** `protect(pattern, text)`: each match is appended to the token list and
      replaced by the placeholder carrying its index.  Earlier tokens are
      kept, and every new one is a whole `open…close` span. */
  function Protect(s: string, open: string, close: string, toks: seq<string>): (r: Protected)
    requires open != [] && close != []
    ensures |toks| <= |r.tokens| && r.tokens[..|toks|] == toks
    ensures forall k :: |toks| <= k < |r.tokens| ==> IsSpan(r.tokens[k], open, close)
    decreases |s|
  {
    if s == [] then Protected([], toks)
    else match SpanAt(s, open, close)
      case Some(n) =>
        var rest := Protect(s[n..], open, close, toks + [s[..n]]);
        PrefixSnoc(rest.tokens, toks, s[..n]);
        SpanShape(s, open, close, n);
        Protected(Token(|toks|) + rest.text, rest.tokens)
      case None =>
        var rest := Protect(s[1..], open, close, toks);
        Protected([s[0]] + rest.text, rest.tokens)
  }

  lemma PrefixSnoc(r: seq<string>, toks: seq<string>, t: string)
    requires |toks| + 1 <= |r| && r[..|toks| + 1] == toks + [t]
    ensures r[..|toks|] == toks && r[|toks|] == t
  {
    assert r[..|toks|] == r[..|toks| + 1][..|toks|];
    assert r[|toks|] == r[..|toks| + 1][|toks|];
  }

  /** Puts the captured texts back from index `i` on, in index order: where
      the placeholder of the next index starts, its text. */
  function Fill(t: string, toks: seq<string>, i: nat): string
    decreases |t|
  {
    if t == [] then []
    else if i < |toks| && StartsWith(t, Token(i)) then toks[i] + Fill(t[|Token(i)|..], toks, i + 1)
    else [t[0]] + Fill(t[1..], toks, i)
  }

  /** Hiding the spans of text without `@` loses nothing: putting each
      captured span back at its placeholder, in index order, gives the
      text again. */
  lemma {:induction false} ProtectRoundTrip(s: string, open: string, close: string, toks: seq<string>)
    requires open != [] && close != [] && '@' !in s
    ensures var r := Protect(s, open, close, toks);
      Fill(r.text, r.tokens, |toks|) == s
    decreases |s|, 1
  {
    if s != [] {
      match SpanAt(s, open, close)
      case Some(n) => RoundTripSpan(s, open, close, toks, n);
      case None => RoundTripChar(s, open, close, toks);
    }
  }

  lemma {:induction false} RoundTripSpan(s: string, open: string, close: string, toks: seq<string>, n: nat)
    requires open != [] && close != [] && '@' !in s && SpanAt(s, open, close) == Some(n)
    ensures var r := Protect(s, open, close, toks);
      Fill(r.text, r.tokens, |toks|) == s
    decreases |s|, 0
  {
    var tok := Token(|toks|);
    var toks' := toks + [s[..n]];
    var rest := Protect(s[n..], open, close, toks');
    assert forall c :: c in s[n..] ==> c in s;
    ProtectRoundTrip(s[n..], open, close, toks');
    assert rest.tokens[|toks|] == s[..n] by {
      assert rest.tokens[..|toks'|][|toks|] == s[..n];
    }
    ProtectSpan(s, n, open, close, toks);
    FillToken(rest.text, rest.tokens, |toks|);
    Halves(s, n);
  }

  /** The placeholder of the next index is filled with its text. */
  lemma FillToken(t: string, toks: seq<string>, i: nat)
    requires i < |toks|
    ensures Fill(Token(i) + t, toks, i) == toks[i] + Fill(t, toks, i + 1)
  {
    Parts(Token(i), t);
    assert Token(i) + t != [];
  }

  lemma {:induction false} RoundTripChar(s: string, open: string, close: string, toks: seq<string>)
    requires open != [] && close != [] && '@' !in s && s != [] && SpanAt(s, open, close).None?
    ensures var r := Protect(s, open, close, toks);
      Fill(r.text, r.tokens, |toks|) == s
    decreases |s|, 0
  {
    var rest := Protect(s[1..], open, close, toks);
    assert forall c :: c in s[1..] ==> c in s;
    ProtectRoundTrip(s[1..], open, close, toks);
    assert Protect(s, open, close, toks).text == [s[0]] + rest.text;
    assert s[0] != Token(|toks|)[0];
    HeadTail(s, []);
    assert s + [] == s && s[1..] + [] == s[1..];
  }

  // ---------------------------------------------------------------------
  // The rewrite passes

  datatype Rule = Image | Link | Code | Bold | Italic

  /** First index `j >= i` with `s[j] == c`. */
  function FindChar(s: string, c: char, i: nat): (r: Option<nat>)
    ensures r.Some? ==> i <= r.value < |s| && s[r.value] == c
    ensures r.Some? ==> forall j :: i <= j < r.value ==> s[j] != c
    ensures r.None? ==> forall j :: i <= j < |s| ==> s[j] != c
    decreases |s| - i
  {
    if i >= |s| then None
    else if s[i] == c then Some(i)
    else FindChar(s, c, i + 1)
  }

  /** The image source after rewriting (build.py:36-48): an absolute source
      is kept, any other one is placed under the media tree of the asset
      base, below the document's directory. */
  function ImageSrc(src: string, ctx: Ctx): string {
    if Slug.IsAbsUrl(src) then src
    else ctx.assetBase + "/assets/media/" + ctx.relDir + "/" + src
  }

  function ImgTag(src: string, alt: string): string {
    "<img src=\"" + src + "\" alt=\"" + alt + "\">"
  }

  /** A match at the head of a text: its length and its replacement. */
  type Match = Option<(nat, string)>

  predicate Fits(m: Match, s: string) {
    m.Some? ==> 0 < m.value.0 <= |s|
  }

  /** `!\[([^\]]*)\]\(([^\)]+)\)`, replaced by `_img_sub`. */
  function MatchImage(s: string, ctx: Ctx): (r: Match)
    ensures Fits(r, s)
  {
    if !StartsWith(s, "![") then None
    else match FindChar(s, ']', 2)
      case None => None
      case Some(a) =>
        if a + 1 >= |s| || s[a + 1] != '(' then None
        else match FindChar(s, ')', a + 2)
          case None => None
          case Some(b) =>
            if b == a + 2 then None
            else Some((b + 1, ImgTag(ImageSrc(s[a + 2..b], ctx), s[2..a])))
  }

  /** `\[([^\]]+)\]\(([^\)]+)\)`, replaced by `<a href="\2">\1</a>`. */
  function MatchLink(s: string): (r: Match)
    ensures Fits(r, s)
  {
    if !StartsWith(s, "[") then None
    else match FindChar(s, ']', 1)
      case None => None
      case Some(a) =>
        if a == 1 || a + 1 >= |s| || s[a + 1] != '(' then None
        else match FindChar(s, ')', a + 2)
          case None => None
          case Some(b) =>
            if b == a + 2 then None
            else Some((b + 1, "<a href=\"" + s[a + 2..b] + "\">" + s[1..a] + "</a>"))
  }

  /** `` `([^`]+)` ``, replaced by `<code>\1</code>`. */
  function MatchCode(s: string): (r: Match)
    ensures Fits(r, s)
  {
    if !StartsWith(s, "`") then None
    else match FindChar(s, '`', 1)
      case None => None
      case Some(a) => if a == 1 then None else Some((a + 1, "<code>" + s[1..a] + "</code>"))
  }

  /** `\*\*([^*]+)\*\*`, replaced by `<strong>\1</strong>`. */
  function MatchBold(s: string): (r: Match)
    ensures Fits(r, s)
  {
    if !StartsWith(s, "**") then None
    else match FindChar(s, '*', 2)
      case None => None
      case Some(a) =>
        if a == 2 || a + 1 >= |s| || s[a + 1] != '*' then None
        else Some((a + 2, "<strong>" + s[2..a] + "</strong>"))
  }

  /** `(?<!\*)\*([^*]+)\*(?!\*)`, replaced by `<em>\1</em>`.  `prevStar`
      tells whether the character before `s` is `*`: the look-behind sees
      the text being scanned. */
  function MatchItalic(s: string, prevStar: bool): (r: Match)
    ensures Fits(r, s)
  {
    if prevStar || !StartsWith(s, "*") then None
    else match FindChar(s, '*', 1)
      case None => None
      case Some(a) =>
        if a == 1 || (a + 1 < |s| && s[a + 1] == '*') then None
        else Some((a + 1, "<em>" + s[1..a] + "</em>"))
  }

  /** The match of `rule` at the head of `s`.  Every match starts with the
      rule's trigger character. */
  function MatchAt(rule: Rule, s: string, prevStar: bool, ctx: Ctx): (r: Match)
    ensures Fits(r, s)
    ensures r.Some? ==> s[0] == Trigger(rule)
  {
    if s == [] || s[0] != Trigger(rule) then None
    else match rule
      case Image => MatchImage(s, ctx)
      case Link => MatchLink(s)
      case Code => MatchCode(s)
      case Bold => MatchBold(s)
      case Italic => MatchItalic(s, prevStar)
  }

  /** `re.sub(pattern_of(rule), replacement, s)`. */
  function Sub(rule: Rule, s: string, prevStar: bool, ctx: Ctx): string
    decreases |s|
  {
    if s == [] then []
    else if s[0] != Trigger(rule) then [s[0]] + Sub(rule, s[1..], s[0] == '*', ctx)
    else match MatchAt(rule, s, prevStar, ctx)
      case Some(m) => m.1 + Sub(rule, s[m.0..], s[m.0 - 1] == '*', ctx)
      case None => [s[0]] + Sub(rule, s[1..], s[0] == '*', ctx)
  }

  /** The character every match of `rule` starts with. */
  function Trigger(rule: Rule): char {
    match rule
    case Image => '!'
    case Link => '['
    case Code => '`'
    case Bold => '*'
    case Italic => '*'
  }

  /** The five rewrites in source order: images, links, code, bold, italic. */
  function Rewrite(s: string, ctx: Ctx): string {
    var s1 := Sub(Image, s, false, ctx);
    var s2 := Sub(Link, s1, false, ctx);
    var s3 := Sub(Code, s2, false, ctx);
    var s4 := Sub(Bold, s3, false, ctx);
    Sub(Italic, s4, false, ctx)
  }

  // ---------------------------------------------------------------------
  // Restoration and the whole formatter

  /** The restore loop from index `i` on: each placeholder, in index order,
      is replaced by its captured text in the current string. */
  function Restored(s: string, toks: seq<string>, i: nat): string
    decreases |toks| - i
  {
    if i >= |toks| then s else Restored(Replace(s, Token(i), toks[i]), toks, i + 1)
  }

  /** The four math passes in source order: `$$…$$`, `$…$`, `\[…\]`, `\(…\)`. */
  function ProtectMath(e: string): Protected {
    var p1 := Protect(e, "$$", "$$", []);
    var p2 := Protect(p1.text, "$", "$", p1.tokens);
    var p3 := Protect(p2.text, "\\[", "\\]", p2.tokens);
    Protect(p3.text, "\\(", "\\)", p3.tokens)
  }

  /** `inline_html(s, …)` without the image copy. */
  function RenderInline(s: string, ctx: Ctx): string {
    var p := ProtectMath(Escape(s));
    Restored(Rewrite(p.text, ctx), p.tokens, 0)
  }

  /** `inline_html` as the source runs it: a chain of passes and the restore
      loop over the collected tokens. */
  method InlineHtml(s: string, ctx: Ctx) returns (r: string)
    ensures r == RenderInline(s, ctx)
  {
    var p := ProtectMath(Escape(s));
    var mathTokens := p.tokens;
    r := Rewrite(p.text, ctx);
    for i := 0 to |mathTokens|
      invariant Restored(r, mathTokens, i) == RenderInline(s, ctx)
    {
      r := Replace(r, Token(i), mathTokens[i]);
    }
  }

  // ---------------------------------------------------------------------
  // Properties of the passes

  /** `c` is one of the characters the formatter treats specially. */
  predicate Special(c: char) {
    HtmlSpecial(c) || c == '$' || c == '\\' || c == '!' || c == '[' || c == ']'
    || c == '(' || c == ')' || c == '`' || c == '*'
  }

  /** Text free of every character the formatter treats specially. */
  predicate Plain(s: string) { forall c :: c in s ==> !Special(c) }

  /** A text in which `open` never occurs is left as it is, and no token is
      added. */
  lemma {:induction false} ProtectNoOpen(s: string, open: string, close: string, toks: seq<string>)
    requires open != [] && close != [] && !Occurs(s, open)
    ensures Protect(s, open, close, toks) == Protected(s, toks)
    decreases |s|
  {
    if s != [] {
      assert !OccursAt(s, open, 0);
      assert SpanAt(s, open, close).None?;
      OccursTail(s, open);
      ProtectNoOpen(s[1..], open, close, toks);
      assert [s[0]] + s[1..] == s;
    }
  }

  /** A text that is a single span from end to end becomes one placeholder. */
  lemma ProtectWhole(s: string, open: string, close: string, toks: seq<string>)
    requires open != [] && close != [] && SpanAt(s, open, close) == Some(|s|)
    ensures Protect(s, open, close, toks) == Protected(Token(|toks|), toks + [s])
  {
    assert s[..|s|] == s;
    assert s[|s|..] == [];
  }

  /** A placeholder is made of `@`, capital letters and digits only. */
  lemma TokenChars(i: nat)
    ensures forall c :: c in Token(i) ==> c == '@' || ('A' <= c <= 'Z') || IsDigit(c)
  {
    var d := NatToString(i);
    forall c | c in Token(i) ensures c == '@' || ('A' <= c <= 'Z') || IsDigit(c) {
      assert c in "@@MATH" || c in d || c in "@@";
    }
  }

  /** No match starts at a character other than the rule's trigger. */
  lemma NoTriggerNoMatch(rule: Rule, s: string, prevStar: bool, ctx: Ctx)
    requires s != [] && s[0] != Trigger(rule)
    ensures MatchAt(rule, s, prevStar, ctx).None?
  {
  }

  /** Where no match starts, a pass copies one character. */
  lemma SubCopy(rule: Rule, s: string, prevStar: bool, ctx: Ctx)
    requires s != [] && MatchAt(rule, s, prevStar, ctx).None?
    ensures Sub(rule, s, prevStar, ctx) == [s[0]] + Sub(rule, s[1..], s[0] == '*', ctx)
  {
  }

  /** A pass copies text that lacks its trigger character. */
  lemma {:induction false} SubNoTrigger(rule: Rule, s: string, prevStar: bool, ctx: Ctx)
    requires Trigger(rule) !in s
    ensures Sub(rule, s, prevStar, ctx) == s
    decreases |s|
  {
    if s != [] {
      NoTriggerNoMatch(rule, s, prevStar, ctx);
      SubCopy(rule, s, prevStar, ctx);
      assert Trigger(rule) !in s[1..];
      SubNoTrigger(rule, s[1..], s[0] == '*', ctx);
      assert [s[0]] + s[1..] == s;
    }
  }

  /** Whether the last character of `a` is `*`, or `prevStar` when `a` is
      empty: the look-behind state after scanning `a`. */
  function LastStar(a: string, prevStar: bool): bool {
    if a == [] then prevStar else a[|a| - 1] == '*'
  }

  /** A pass copies a prefix that lacks its trigger character and goes on
      after it. */
  lemma {:induction false} SubSkip(rule: Rule, a: string, b: string, prevStar: bool, ctx: Ctx)
    requires Trigger(rule) !in a
    ensures Sub(rule, a + b, prevStar, ctx) == a + Sub(rule, b, LastStar(a, prevStar), ctx)
    decreases |a|
  {
    if a == [] {
      assert a + b == b;
    } else {
      SubCopyHead(rule, a, b, prevStar, ctx);
      SkipStep(Trigger(rule), a, prevStar);
      SubSkip(rule, a[1..], b, a[0] == '*', ctx);
      HeadTail(a, Sub(rule, b, LastStar(a, prevStar), ctx));
    }
  }

  /** The first character of `a + b`, not the trigger, is copied. */
  lemma SubCopyHead(rule: Rule, a: string, b: string, prevStar: bool, ctx: Ctx)
    requires a != [] && a[0] != Trigger(rule)
    ensures Sub(rule, a + b, prevStar, ctx) == [a[0]] + Sub(rule, a[1..] + b, a[0] == '*', ctx)
  {
    var s := a + b;
    assert s[0] == a[0];
    assert s[1..] == a[1..] + b;
  }

  /** Dropping the head of a trigger-free prefix. */
  lemma SkipStep(c: char, a: string, prevStar: bool)
    requires a != [] && c !in a
    ensures a[0] != c && c !in a[1..]
    ensures LastStar(a[1..], a[0] == '*') == LastStar(a, prevStar)
  {
    assert a[0] in a;
    if |a| > 1 {
      assert a[1..][|a[1..]| - 1] == a[|a| - 1];
    }
  }

  /** `**x**` at the head of the text becomes `<strong>x</strong>`. */
  lemma BoldSpan(x: string, rest: string, prevStar: bool, ctx: Ctx)
    requires x != [] && '*' !in x
    ensures Sub(Bold, "**" + x + "**" + rest, prevStar, ctx)
         == "<strong>" + x + "</strong>" + Sub(Bold, rest, true, ctx)
  {
    var s := "**" + x + "**" + rest;
    BoldMatch(x, rest);
    SubAtMatch(Bold, s, prevStar, ctx);
    var n := |x| + 4;
    assert s[n - 1] == '*';
    assert s[n..] == rest;
  }

  lemma BoldMatch(x: string, rest: string)
    requires x != [] && '*' !in x
    ensures MatchBold("**" + x + "**" + rest) == Some((|x| + 4, "<strong>" + x + "</strong>"))
  {
    var s := "**" + x + "**" + rest;
    var a := |x| + 2;
    assert s[2..a] == x;
    FindCharAt(s, '*', 2, a);
    assert s[a + 1] == '*';
  }


  /** `*x*` after a character other than `*`, and not followed by `*`,
      becomes `<em>x</em>`. */
  lemma ItalicSpan(x: string, rest: string, ctx: Ctx)
    requires x != [] && '*' !in x && (rest == [] || rest[0] != '*')
    ensures Sub(Italic, "*" + x + "*" + rest, false, ctx)
         == "<em>" + x + "</em>" + Sub(Italic, rest, true, ctx)
  {
    var s := "*" + x + "*" + rest;
    ItalicMatch(x, rest);
    SubAtMatch(Italic, s, false, ctx);
    var n := |x| + 2;
    assert s[n - 1] == '*';
    assert s[n..] == rest;
  }

  lemma ItalicMatch(x: string, rest: string)
    requires x != [] && '*' !in x && (rest == [] || rest[0] != '*')
    ensures MatchItalic("*" + x + "*" + rest, false) == Some((|x| + 2, "<em>" + x + "</em>"))
  {
    var s := "*" + x + "*" + rest;
    var a := |x| + 1;
    assert s[1..a] == x;
    FindCharAt(s, '*', 1, a);
    assert a + 1 < |s| ==> s[a + 1] == rest[0];
  }


  /** The italic pattern alone leaves `**x**` untouched: it refuses an
      asterisk next to another one. */
  lemma ItalicRefusesDoubleStar(x: string, ctx: Ctx)
    requires x != [] && '*' !in x
    ensures Sub(Italic, "**" + x + "**", false, ctx) == "**" + x + "**"
  {
    var s := "**" + x + "**";
    assert FindChar(s, '*', 1) == Some(1);
    SubCopy(Italic, s, false, ctx);
    assert s[1..] == "*" + (x + "**");
    SubCopy(Italic, s[1..], true, ctx);
    assert s[1..][1..] == x + "**";
    SubSkip(Italic, x, "**", true, ctx);
    var t: string := "**";
    assert FindChar(t, '*', 1) == Some(1);
    SubCopy(Italic, t, false, ctx);
    SubCopy(Italic, t[1..], true, ctx);
    assert t[1..][1..] == [];
  }

  /** `FindChar` stops at the first `c`. */
  lemma FindCharAt(s: string, c: char, i: nat, k: nat)
    requires i <= k < |s| && s[k] == c && c !in s[i..k]
    ensures FindChar(s, c, i) == Some(k)
  {
    assert forall j :: i <= j < k ==> s[j] == s[i..k][j - i];
  }

  lemma ImageMatch(alt: string, src: string, rest: string, ctx: Ctx)
    requires ']' !in alt && ')' !in src && src != []
    ensures MatchImage("![" + alt + "](" + src + ")" + rest, ctx)
         == Some((|alt| + |src| + 5, ImgTag(ImageSrc(src, ctx), alt)))
  {
    var s := "![" + alt + "](" + src + ")" + rest;
    var a := |alt| + 2;
    var b := a + 2 + |src|;
    assert s[2..a] == alt;
    FindCharAt(s, ']', 2, a);
    assert s[a + 2..b] == src;
    FindCharAt(s, ')', a + 2, b);
  }

  /** `![alt](src)` at the head of the text becomes an `<img>` tag whose
      source is rewritten by `ImageSrc`. */
  lemma ImageSpan(alt: string, src: string, rest: string, prevStar: bool, ctx: Ctx)
    requires ']' !in alt && ')' !in src && src != []
    ensures Sub(Image, "![" + alt + "](" + src + ")" + rest, prevStar, ctx)
         == ImgTag(ImageSrc(src, ctx), alt) + Sub(Image, rest, false, ctx)
  {
    var s := "![" + alt + "](" + src + ")" + rest;
    ImageMatch(alt, src, rest, ctx);
    var n := |alt| + |src| + 5;
    assert s[n - 1] == ')';
    assert s[n..] == rest;
  }

  lemma LinkMatch(t: string, u: string, rest: string)
    requires t != [] && ']' !in t && u != [] && ')' !in u
    ensures MatchLink("[" + t + "](" + u + ")" + rest)
         == Some((|t| + |u| + 4, "<a href=\"" + u + "\">" + t + "</a>"))
  {
    var s := "[" + t + "](" + u + ")" + rest;
    var a := |t| + 1;
    var b := a + 2 + |u|;
    assert s[1..a] == t;
    FindCharAt(s, ']', 1, a);
    assert s[a + 1] == '(';
    assert s[a + 2..b] == u;
    FindCharAt(s, ')', a + 2, b);
  }

  /** `[t](u)` at the head of the text becomes a link to `u` reading `t`. */
  lemma LinkSpan(t: string, u: string, rest: string, prevStar: bool, ctx: Ctx)
    requires t != [] && ']' !in t && u != [] && ')' !in u
    ensures Sub(Link, "[" + t + "](" + u + ")" + rest, prevStar, ctx)
         == "<a href=\"" + u + "\">" + t + "</a>" + Sub(Link, rest, false, ctx)
  {
    var s := "[" + t + "](" + u + ")" + rest;
    LinkMatch(t, u, rest);
    var n := |t| + |u| + 4;
    assert s[n - 1] == ')';
    assert s[n..] == rest;
  }

  /** `` `x` `` at the head of the text becomes `<code>x</code>`. */
  lemma CodeSpan(x: string, rest: string, prevStar: bool, ctx: Ctx)
    requires x != [] && '`' !in x
    ensures Sub(Code, "`" + x + "`" + rest, prevStar, ctx)
         == "<code>" + x + "</code>" + Sub(Code, rest, false, ctx)
  {
    var s := "`" + x + "`" + rest;
    var a := |x| + 1;
    assert s[1..a] == x;
    FindCharAt(s, '`', 1, a);
    assert s[a + 1..] == rest;
  }

  // ---------------------------------------------------------------------
  // The whole formatter on typical inputs

  /** Text without `$` or `\` holds no math span. */
  lemma ProtectMathNone(e: string)
    requires '$' !in e && '\\' !in e
    ensures ProtectMath(e) == Protected(e, [])
  {
    AbsentByChar(e, "$$", '$');
    ProtectNoOpen(e, "$$", "$$", []);
    AbsentByChar(e, "$", '$');
    ProtectNoOpen(e, "$", "$", []);
    AbsentByChar(e, "\\[", '\\');
    ProtectNoOpen(e, "\\[", "\\]", []);
    AbsentByChar(e, "\\(", '\\');
    ProtectNoOpen(e, "\\(", "\\)", []);
  }

  /** Text without `!`, `[`, `` ` `` or `*` is left alone by the rewrites. */
  lemma RewriteInert(t: string, ctx: Ctx)
    requires '!' !in t && '[' !in t && '`' !in t && '*' !in t
    ensures Rewrite(t, ctx) == t
  {
    SubNoTrigger(Image, t, false, ctx);
    SubNoTrigger(Link, t, false, ctx);
    SubNoTrigger(Code, t, false, ctx);
    SubNoTrigger(Bold, t, false, ctx);
    SubNoTrigger(Italic, t, false, ctx);
  }

  /** Text with no special character comes out unchanged. */
  lemma PlainUnchanged(s: string, ctx: Ctx)
    requires Plain(s)
    ensures RenderInline(s, ctx) == s
  {
    EscapePlain(s);
    ProtectMathNone(s);
    RewriteInert(s, ctx);
  }

  /** In `$x$` followed by text without `$`, `$$` occurs nowhere. */
  lemma NoDoubleDollar(x: string, rest: string)
    requires x != [] && '$' !in x && '$' !in rest
    ensures !Occurs("$" + x + "$" + rest, "$$")
  {
    var e := "$" + x + "$" + rest;
    var k := |x| + 1;
    forall i | 0 <= i && i + 2 <= |e| ensures !OccursAt(e, "$$", i) {
      assert e[i..i + 2][0] == e[i] && e[i..i + 2][1] == e[i + 1];
      if i == 0 {
        assert e[1] == x[0];
      } else if i < k {
        assert e[i] == x[i - 1];
      } else {
        assert e[i + 1] == rest[i - k];
      }
    }
  }

  /** `$x$` at the head of a text is one `$…$` span. */
  lemma DollarSpan(x: string, rest: string)
    requires x != [] && '$' !in x
    ensures SpanAt("$" + x + "$" + rest, "$", "$") == Some(|x| + 2)
  {
    var e := "$" + x + "$" + rest;
    var k := |x| + 1;
    assert OccursAt(e, "$", k);
    forall j | 2 <= j < k ensures !OccursAt(e, "$", j) {
      assert e[j] == x[j - 1];
      assert e[j..j + 1][0] == e[j];
    }
    assert FindFrom(e, "$", 2) == Some(k);
  }

  lemma EscapeDollars(x: string)
    ensures Escape("$" + x + "$") == "$" + Escape(x) + "$"
  {
    EscapeAppend("$", x);
    EscapeAppend("$" + x, "$");
    assert Escape("$") == "$";
  }

  /** A placeholder holds no bracket or parenthesis math. */
  lemma ProtectToken(i: nat, toks: seq<string>)
    ensures Protect(Token(i), "\\[", "\\]", toks) == Protected(Token(i), toks)
    ensures Protect(Token(i), "\\(", "\\)", toks) == Protected(Token(i), toks)
  {
    TokenChars(i);
    AbsentByChar(Token(i), "\\[", '\\');
    ProtectNoOpen(Token(i), "\\[", "\\]", toks);
    AbsentByChar(Token(i), "\\(", '\\');
    ProtectNoOpen(Token(i), "\\(", "\\)", toks);
  }

  /** Escaped text `$x$` becomes placeholder 0 holding all of it. */
  lemma ProtectMathDollar(x: string)
    requires x != [] && '$' !in x
    ensures ProtectMath("$" + x + "$") == Protected(Token(0), ["$" + x + "$"])
  {
    var e := "$" + x + "$";
    NoDoubleDollar(x, []);
    assert e + [] == e;
    ProtectNoOpen(e, "$$", "$$", []);
    DollarSpan(x, []);
    assert e + [] == e;
    ProtectWhole(e, "$", "$", []);
    ProtectToken(0, [e]);
  }

  /** A lone placeholder passes the rewrites and is then restored. */
  lemma RestoreLoneToken(e: string, ctx: Ctx)
    ensures Restored(Rewrite(Token(0), ctx), [e], 0) == e
  {
    TokenChars(0);
    RewriteInert(Token(0), ctx);
    ReplaceWhole(Token(0), e);
  }

  /** A `$…$` math span comes out as its escaped text, untouched by the
      image, link, code, bold and italic rewrites: no tag appears inside it. */
  lemma MathSpanVerbatim(x: string, ctx: Ctx)
    requires x != [] && '$' !in x
    ensures RenderInline("$" + x + "$", ctx) == "$" + Escape(x) + "$"
    ensures '<' !in RenderInline("$" + x + "$", ctx)
  {
    var ex := Escape(x);
    EscapeDollars(x);
    EscapeChars(x);
    assert '$' !in ex;
    ProtectMathDollar(ex);
    RestoreLoneToken("$" + ex + "$", ctx);
    DollarsNoTag(x);
  }

  lemma DollarsNoTag(x: string)
    ensures '<' !in "$" + Escape(x) + "$"
  {
    var ex := Escape(x);
    assert forall i :: 0 <= i < |ex| ==> ("$" + ex + "$")[i + 1] == ex[i];
  }

  // ---------------------------------------------------------------------
  // A math span inside other text

  /** A character some rewrite pattern matches literally. */
  predicate Delim(c: char) {
    c == '!' || c == '[' || c == ']' || c == '(' || c == ')' || c == '`' || c == '*'
  }

  /** Text without such characters: a rewrite can only copy it whole. */
  predicate Inert(w: string) { forall i :: 0 <= i < |w| ==> !Delim(w[i]) }

  lemma OccursLeft(x: string, y: string, w: string, q: int)
    requires OccursAt(x, w, q)
    ensures OccursAt(x + y, w, q)
  {
    assert (x + y)[q..q + |w|] == x[q..q + |w|];
  }

  lemma OccursRight(x: string, y: string, w: string, q: int)
    requires OccursAt(y, w, q)
    ensures OccursAt(x + y, w, |x| + q)
  {
    assert (x + y)[|x| + q..|x| + q + |w|] == y[q..q + |w|];
  }

  /** An inert occurrence covers no delimiter... */
  lemma Straddle(s: string, w: string, p: int, k: int)
    requires OccursAt(s, w, p) && Inert(w) && 0 <= k < |s| && Delim(s[k])
    ensures k < p || p + |w| <= k
  {
    assert forall i {:trigger s[i]} :: p <= i < p + |w| ==> s[i] == w[i - p];
  }

  /** ... so one between two delimiters lies in the text between them. */
  lemma Between(s: string, w: string, p: int, lo: int, hi: int)
    requires OccursAt(s, w, p) && 0 <= lo <= p && p + |w| <= hi <= |s|
    ensures OccursAt(s[lo..hi], w, p - lo)
  {
    forall i | 0 <= i < |w| ensures s[lo..hi][p - lo + i] == w[i] {
      assert s[p..p + |w|][i] == s[p + i];
    }
  }

  /** ... and one past a point lies in the text after it. */
  lemma After(s: string, w: string, p: int, lo: int)
    requires OccursAt(s, w, p) && 0 <= lo <= p
    ensures OccursAt(s[lo..], w, p - lo)
  {
    Between(s, w, p, lo, |s|);
    assert s[lo..|s|] == s[lo..];
  }

  lemma SrcKeeps(src: string, ctx: Ctx, w: string, q: int) returns (k: int)
    requires OccursAt(src, w, q)
    ensures OccursAt(ImageSrc(src, ctx), w, k)
  {
    k := q;
    if !Slug.IsAbsUrl(src) {
      var base := ctx.assetBase + "/assets/media/" + ctx.relDir + "/";
      OccursRight(base, src, w, q);
      k := |base| + q;
    }
  }

  lemma ImageKeeps(s: string, ctx: Ctx, w: string, p: int) returns (k: int)
    requires Inert(w) && w != [] && OccursAt(s, w, p)
    requires MatchImage(s, ctx).Some? && p < MatchImage(s, ctx).value.0
    ensures OccursAt(MatchImage(s, ctx).value.1, w, k)
  {
    var a := FindChar(s, ']', 2).value;
    var b := FindChar(s, ')', a + 2).value;
    assert s[..2][0] == s[0] && s[..2][1] == s[1];
    Straddle(s, w, p, 0);
    Straddle(s, w, p, 1);
    Straddle(s, w, p, a);
    Straddle(s, w, p, a + 1);
    Straddle(s, w, p, b);
    var src, alt := ImageSrc(s[a + 2..b], ctx), s[2..a];
    assert MatchImage(s, ctx).value.1 == ImgTag(src, alt);
    if p < a {
      Between(s, w, p, 2, a);
      k := TagKeepsAlt(src, alt, w, p - 2);
    } else {
      Between(s, w, p, a + 2, b);
      var q := SrcKeeps(s[a + 2..b], ctx, w, p - a - 2);
      k := TagKeepsSrc(src, alt, w, q);
    }
  }

  lemma TagKeepsAlt(src: string, alt: string, w: string, q: int) returns (k: int)
    requires OccursAt(alt, w, q)
    ensures OccursAt(ImgTag(src, alt), w, k)
  {
    var head := "<img src=\"" + src + "\" alt=\"";
    OccursRight(head, alt, w, q);
    OccursLeft(head + alt, "\">", w, |head| + q);
    k := |head| + q;
  }

  lemma TagKeepsSrc(src: string, alt: string, w: string, q: int) returns (k: int)
    requires OccursAt(src, w, q)
    ensures OccursAt(ImgTag(src, alt), w, k)
  {
    var head := "<img src=\"" + src;
    OccursRight("<img src=\"", src, w, q);
    OccursLeft(head, "\" alt=\"", w, 10 + q);
    OccursLeft(head + "\" alt=\"", alt, w, 10 + q);
    OccursLeft(head + "\" alt=\"" + alt, "\">", w, 10 + q);
    k := 10 + q;
  }

  lemma LinkKeeps(s: string, w: string, p: int) returns (k: int)
    requires Inert(w) && w != [] && OccursAt(s, w, p)
    requires MatchLink(s).Some? && p < MatchLink(s).value.0
    ensures OccursAt(MatchLink(s).value.1, w, k)
  {
    var a := FindChar(s, ']', 1).value;
    var b := FindChar(s, ')', a + 2).value;
    assert s[..1][0] == s[0];
    Straddle(s, w, p, 0);
    Straddle(s, w, p, a);
    Straddle(s, w, p, a + 1);
    Straddle(s, w, p, b);
    var u, t := s[a + 2..b], s[1..a];
    assert MatchLink(s).value.1 == "<a href=\"" + u + "\">" + t + "</a>";
    if p < a {
      Between(s, w, p, 1, a);
      k := AnchorKeepsText(u, t, w, p - 1);
    } else {
      Between(s, w, p, a + 2, b);
      k := AnchorKeepsHref(u, t, w, p - a - 2);
    }
  }

  lemma AnchorKeepsText(u: string, t: string, w: string, q: int) returns (k: int)
    requires OccursAt(t, w, q)
    ensures OccursAt("<a href=\"" + u + "\">" + t + "</a>", w, k)
  {
    var head := "<a href=\"" + u + "\">";
    OccursRight(head, t, w, q);
    OccursLeft(head + t, "</a>", w, |head| + q);
    k := |head| + q;
  }

  lemma AnchorKeepsHref(u: string, t: string, w: string, q: int) returns (k: int)
    requires OccursAt(u, w, q)
    ensures OccursAt("<a href=\"" + u + "\">" + t + "</a>", w, k)
  {
    var head := "<a href=\"" + u + "\">";
    OccursRight("<a href=\"", u, w, q);
    OccursLeft("<a href=\"" + u, "\">", w, 9 + q);
    OccursLeft(head, t, w, 9 + q);
    OccursLeft(head + t, "</a>", w, 9 + q);
    k := 9 + q;
  }

  lemma CodeKeeps(s: string, w: string, p: int) returns (k: int)
    requires Inert(w) && w != [] && OccursAt(s, w, p)
    requires MatchCode(s).Some? && p < MatchCode(s).value.0
    ensures OccursAt(MatchCode(s).value.1, w, k)
  {
    var a := FindChar(s, '`', 1).value;
    assert s[..1][0] == s[0];
    Straddle(s, w, p, 0);
    Straddle(s, w, p, a);
    Between(s, w, p, 1, a);
    OccursRight("<code>", s[1..a], w, p - 1);
    OccursLeft("<code>" + s[1..a], "</code>", w, 6 + p - 1);
    k := 6 + p - 1;
  }

  lemma BoldKeeps(s: string, w: string, p: int) returns (k: int)
    requires Inert(w) && w != [] && OccursAt(s, w, p)
    requires MatchBold(s).Some? && p < MatchBold(s).value.0
    ensures OccursAt(MatchBold(s).value.1, w, k)
  {
    var a := FindChar(s, '*', 2).value;
    assert s[..2][0] == s[0] && s[..2][1] == s[1];
    Straddle(s, w, p, 0);
    Straddle(s, w, p, 1);
    Straddle(s, w, p, a);
    Straddle(s, w, p, a + 1);
    Between(s, w, p, 2, a);
    OccursRight("<strong>", s[2..a], w, p - 2);
    OccursLeft("<strong>" + s[2..a], "</strong>", w, 8 + p - 2);
    k := 8 + p - 2;
  }

  lemma ItalicKeeps(s: string, prevStar: bool, w: string, p: int) returns (k: int)
    requires Inert(w) && w != [] && OccursAt(s, w, p)
    requires MatchItalic(s, prevStar).Some? && p < MatchItalic(s, prevStar).value.0
    ensures OccursAt(MatchItalic(s, prevStar).value.1, w, k)
  {
    var a := FindChar(s, '*', 1).value;
    assert s[..1][0] == s[0];
    Straddle(s, w, p, 0);
    Straddle(s, w, p, a);
    Between(s, w, p, 1, a);
    OccursRight("<em>", s[1..a], w, p - 1);
    OccursLeft("<em>" + s[1..a], "</em>", w, 4 + p - 1);
    k := 4 + p - 1;
  }

  /** Every replacement holds the captured groups whole, so an inert text
      overlapping a match lies in a group and is in the replacement. */
  lemma MatchKeeps(rule: Rule, s: string, prevStar: bool, ctx: Ctx, w: string, p: int) returns (k: int)
    requires Inert(w) && w != [] && OccursAt(s, w, p)
    requires MatchAt(rule, s, prevStar, ctx).Some? && p < MatchAt(rule, s, prevStar, ctx).value.0
    ensures OccursAt(MatchAt(rule, s, prevStar, ctx).value.1, w, k)
  {
    match rule
    case Image => k := ImageKeeps(s, ctx, w, p);
    case Link => k := LinkKeeps(s, w, p);
    case Code => k := CodeKeeps(s, w, p);
    case Bold => k := BoldKeeps(s, w, p);
    case Italic => k := ItalicKeeps(s, prevStar, w, p);
  }

  /** A rewrite pass keeps every inert text that occurs in its input, and
      `k` is where it lands. */
  lemma {:induction false} SubKeeps(rule: Rule, s: string, prevStar: bool, ctx: Ctx, w: string, p: int) returns (k: int)
    requires Inert(w) && w != [] && OccursAt(s, w, p)
    ensures OccursAt(Sub(rule, s, prevStar, ctx), w, k)
    decreases |s|, 2
  {
    if p == 0 {
      k := SubKeepsHead(rule, s, prevStar, ctx, w);
    } else if MatchAt(rule, s, prevStar, ctx).Some? {
      k := SubKeepsMatch(rule, s, prevStar, ctx, w, p);
    } else {
      SubCopy(rule, s, prevStar, ctx);
      k := SubKeepsNext(rule, s, prevStar, ctx, w, p);
    }
  }

  /** Where nothing matches, the head is copied and the text is after it. */
  lemma {:induction false} SubKeepsNext(rule: Rule, s: string, prevStar: bool, ctx: Ctx, w: string, p: int) returns (k: int)
    requires Inert(w) && w != [] && OccursAt(s, w, p) && 0 < p
    requires Sub(rule, s, prevStar, ctx) == [s[0]] + Sub(rule, s[1..], s[0] == '*', ctx)
    ensures OccursAt(Sub(rule, s, prevStar, ctx), w, k)
    decreases |s|, 1
  {
    var q := SubKeepsAfter(rule, s, prevStar, ctx, w, p, 1);
    OccursRight([s[0]], Sub(rule, s[1..], s[0] == '*', ctx), w, q);
    k := 1 + q;
  }

  /** An inert text at the head is copied as it is. */
  lemma SubKeepsHead(rule: Rule, s: string, prevStar: bool, ctx: Ctx, w: string) returns (k: int)
    requires Inert(w) && w != [] && OccursAt(s, w, 0)
    ensures OccursAt(Sub(rule, s, prevStar, ctx), w, k)
  {
    assert Delim(Trigger(rule));
    assert s[..|w|] == w;
    Halves(s, |w|);
    SubSkip(rule, w, s[|w|..], prevStar, ctx);
    assert w[0..|w|] == w;
    OccursLeft(w, Sub(rule, s[|w|..], LastStar(w, prevStar), ctx), w, 0);
    k := 0;
  }

  /** Where a match starts, the pass emits its replacement and goes on
      after it. */
  lemma SubAtMatch(rule: Rule, s: string, prevStar: bool, ctx: Ctx)
    requires s != [] && s[0] == Trigger(rule) && MatchAt(rule, s, prevStar, ctx).Some?
    ensures var m := MatchAt(rule, s, prevStar, ctx).value;
      Sub(rule, s, prevStar, ctx) == m.1 + Sub(rule, s[m.0..], s[m.0 - 1] == '*', ctx)
  {
  }

  /** Where a match starts, the text is in the replacement or after it. */
  lemma SubKeepsMatch(rule: Rule, s: string, prevStar: bool, ctx: Ctx, w: string, p: int) returns (k: int)
    requires Inert(w) && w != [] && OccursAt(s, w, p)
    requires s != [] && s[0] == Trigger(rule) && MatchAt(rule, s, prevStar, ctx).Some?
    ensures OccursAt(Sub(rule, s, prevStar, ctx), w, k)
    decreases |s|, 1
  {
    var m := MatchAt(rule, s, prevStar, ctx).value;
    SubAtMatch(rule, s, prevStar, ctx);
    var tail := Sub(rule, s[m.0..], s[m.0 - 1] == '*', ctx);
    if p < m.0 {
      k := MatchKeeps(rule, s, prevStar, ctx, w, p);
      OccursLeft(m.1, tail, w, k);
    } else {
      var q := SubKeepsAfter(rule, s, prevStar, ctx, w, p, m.0);
      OccursRight(m.1, tail, w, q);
      k := |m.1| + q;
    }
  }

  lemma {:induction false} SubKeepsAfter(rule: Rule, s: string, prevStar: bool, ctx: Ctx, w: string, p: int, n: nat) returns (k: int)
    requires Inert(w) && w != [] && OccursAt(s, w, p) && 0 < n <= p
    ensures OccursAt(Sub(rule, s[n..], s[n - 1] == '*', ctx), w, k)
    decreases |s|, 0
  {
    After(s, w, p, n);
    k := SubKeeps(rule, s[n..], s[n - 1] == '*', ctx, w, p - n);
  }

  /** The five rewrites keep every inert text of their input. */
  lemma RewriteKeeps(s: string, ctx: Ctx, w: string, p: int)
    requires Inert(w) && w != [] && OccursAt(s, w, p)
    ensures Occurs(Rewrite(s, ctx), w)
  {
    var s1 := Sub(Image, s, false, ctx);
    var p1 := SubKeeps(Image, s, false, ctx, w, p);
    var s2 := Sub(Link, s1, false, ctx);
    var p2 := SubKeeps(Link, s1, false, ctx, w, p1);
    var s3 := Sub(Code, s2, false, ctx);
    var p3 := SubKeeps(Code, s2, false, ctx, w, p2);
    var s4 := Sub(Bold, s3, false, ctx);
    var p4 := SubKeeps(Bold, s3, false, ctx, w, p3);
    var p5 := SubKeeps(Italic, s4, false, ctx, w, p4);
  }

  /** `s.replace(pat, rep)` holds `rep` when `s` holds `pat`. */
  lemma {:induction false} ReplaceIntroduces(s: string, pat: string, rep: string, p: int)
    requires pat != [] && OccursAt(s, pat, p)
    ensures Occurs(Replace(s, pat, rep), rep)
    decreases |s|
  {
    var t := Replace(s[|pat|..], pat, rep);
    if s[..|pat|] == pat {
      assert rep[0..|rep|] == rep;
      OccursLeft(rep, t, rep, 0);
    } else {
      var t1 := Replace(s[1..], pat, rep);
      After(s, pat, p, 1);
      ReplaceIntroduces(s[1..], pat, rep, p - 1);
      var q :| OccursAt(t1, rep, q);
      OccursRight([s[0]], t1, rep, q);
    }
  }

  lemma TokenInert(i: nat)
    ensures Inert(Token(i)) && Token(i) != []
  {
    TokenChars(i);
    var t := Token(i);
    forall k | 0 <= k < |t| ensures !Delim(t[k]) {
      assert t[k] in t;
    }
  }

  /** The escaped text around one `$…$` span. */
  lemma EscapeAround(pre: string, x: string, post: string)
    ensures Escape(pre + "$" + x + "$" + post)
         == Escape(pre) + ("$" + Escape(x) + "$" + Escape(post))
  {
    var ep, ex, eq := Escape(pre), Escape(x), Escape(post);
    EscapeAppend(pre + "$" + x + "$", post);
    EscapeAppend(pre + "$" + x, "$");
    EscapeAppend(pre + "$", x);
    EscapeAppend(pre, "$");
    assert Escape("$") == "$";
    Assoc(ep, "$", ex);
    Assoc(ep, "$" + ex, "$");
    Assoc(ep, "$" + ex + "$", eq);
  }

  /** The `$…$` pass on `$x$` followed by text without `$`. */
  lemma DollarPass(ex: string, eq: string)
    requires ex != [] && '$' !in ex && '$' !in eq
    ensures Protect("$" + ex + "$" + eq, "$", "$", []) == Protected(Token(0) + eq, ["$" + ex + "$"])
  {
    var span := "$" + ex + "$";
    var m := span + eq;
    DollarSpan(ex, eq);
    var n := |ex| + 2;
    ProtectSpan(m, n, "$", "$", []);
    Parts(span, eq);
    assert [] + [span] == [span];
    AbsentByChar(eq, "$", '$');
    ProtectNoOpen(eq, "$", "$", [span]);
  }

  /** With no other math around it, a `$…$` span between any text
      (emphasis, code, links and images included) is the only token, and
      the rest of the text is left as it is around its placeholder. */
  lemma ProtectMathAround(ep: string, ex: string, eq: string)
    requires ex != [] && '$' !in ep && '$' !in ex && '$' !in eq && '\\' !in ep && '\\' !in eq
    ensures ProtectMath(ep + ("$" + ex + "$" + eq))
         == Protected(ep + (Token(0) + eq), ["$" + ex + "$"])
  {
    var m := "$" + ex + "$" + eq;
    var e := ep + m;
    var toks := ["$" + ex + "$"];
    var t := ep + (Token(0) + eq);
    NoDoubleDollar(ex, eq);
    ProtectNoOpen(m, "$$", "$$", []);
    ProtectSkip(ep, m, "$$", "$$", []);
    var p1 := Protect(e, "$$", "$$", []);
    assert p1 == Protected(e, []);
    DollarPass(ex, eq);
    ProtectSkip(ep, m, "$", "$", []);
    var p2 := Protect(p1.text, "$", "$", p1.tokens);
    assert p2 == Protected(t, toks);
    TokenChars(0);
    assert '\\' !in t;
    AbsentByChar(t, "\\[", '\\');
    ProtectNoOpen(t, "\\[", "\\]", toks);
    AbsentByChar(t, "\\(", '\\');
    ProtectNoOpen(t, "\\(", "\\)", toks);
  }

  /** Whatever text surrounds placeholder 0, the rewrites keep it whole and
      the restore loop puts its span in. */
  lemma RestoreAround(ep: string, eq: string, span: string, ctx: Ctx)
    ensures Occurs(Restored(Rewrite(ep + (Token(0) + eq), ctx), [span], 0), span)
  {
    var tok := Token(0);
    var t := ep + (tok + eq);
    TokenInert(0);
    assert tok[0..|tok|] == tok;
    OccursLeft(tok, eq, tok, 0);
    OccursRight(ep, tok + eq, tok, 0);
    RewriteKeeps(t, ctx, tok, |ep|);
    var r := Rewrite(t, ctx);
    var q :| OccursAt(r, tok, q);
    ReplaceIntroduces(r, tok, span, q);
    assert Restored(r, [span], 0) == Restored(Replace(r, tok, span), [span], 1);
    assert Restored(Replace(r, tok, span), [span], 1) == Replace(r, tok, span);
  }

  /** A `$…$` span inside any text without other math comes out as its
      escaped text, in one piece, whatever markup surrounds it: no rewrite
      cuts into it and no tag lands inside it. */
  lemma MathSpanInText(pre: string, x: string, post: string, ctx: Ctx)
    requires x != [] && '$' !in pre && '$' !in x && '$' !in post && '\\' !in pre && '\\' !in post
    ensures Occurs(RenderInline(pre + "$" + x + "$" + post, ctx), "$" + Escape(x) + "$")
  {
    var ep, ex, eq := Escape(pre), Escape(x), Escape(post);
    EscapeAround(pre, x, post);
    EscapeChars(pre);
    EscapeChars(x);
    EscapeChars(post);
    ProtectMathAround(ep, ex, eq);
    RestoreAround(ep, eq, "$" + ex + "$", ctx);
  }

  /** `$a*b*c$` keeps both asterisks: the math span is never italicized. */
  lemma MathExample(s: string, ctx: Ctx)
    requires s == "$a*b*c$"
    ensures RenderInline(s, ctx) == s
  {
    var x := "a*b*c";
    assert s == "$" + x + "$";
    assert forall c :: c in x ==> c == 'a' || c == '*' || c == 'b' || c == 'c';
    EscapePlain(x);
    MathSpanVerbatim(x, ctx);
  }

  /** A prefix without the first character of `open` is copied, and
      protection goes on after it. */
  lemma {:induction false} ProtectSkip(a: string, b: string, open: string, close: string, toks: seq<string>)
    requires open != [] && close != [] && open[0] !in a
    ensures Protect(a + b, open, close, toks)
         == Protected(a + Protect(b, open, close, toks).text, Protect(b, open, close, toks).tokens)
    decreases |a|
  {
    if a == [] {
      assert a + b == b;
    } else {
      var s := a + b;
      assert s[0] == a[0] && !StartsWith(s, open);
      assert s[1..] == a[1..] + b;
      assert open[0] !in a[1..];
      ProtectSkip(a[1..], b, open, close, toks);
      HeadTail(a, Protect(b, open, close, toks).text);
    }
  }

  /** The bold pass copies `*y*`. */
  lemma BoldSingleStars(y: string, prevStar: bool, ctx: Ctx)
    requires y != [] && '*' !in y
    ensures Sub(Bold, "*" + y + "*", prevStar, ctx) == "*" + y + "*"
  {
    var t := "*" + y + "*";
    assert t[1] == y[0];
    SubCopy(Bold, t, prevStar, ctx);
    assert t[1..] == y + "*";
    SubSkip(Bold, y, "*", true, ctx);
    SubCopy(Bold, "*", LastStar(y, true), ctx);
    assert Sub(Bold, y + "*", true, ctx) == y + "*";
  }

  /** Bold pass on `**x**mid*y*`: only the double-starred part changes. */
  lemma BoldPass(x: string, mid: string, y: string, ctx: Ctx)
    requires x != [] && y != [] && '*' !in x && '*' !in mid && '*' !in y
    ensures Sub(Bold, "**" + x + "**" + mid + "*" + y + "*", false, ctx)
         == "<strong>" + x + "</strong>" + mid + "*" + y + "*"
  {
    var t := "*" + y + "*";
    var rest := mid + t;
    var p := "**" + x + "**";
    Assoc(p + mid, "*", y);
    Assoc(p + mid, "*" + y, "*");
    Assoc(p, mid, t);
    BoldSpan(x, rest, false, ctx);
    SubSkip(Bold, mid, t, true, ctx);
    BoldSingleStars(y, LastStar(mid, true), ctx);
    var q := "<strong>" + x + "</strong>";
    Assoc(q + mid, "*", y);
    Assoc(q + mid, "*" + y, "*");
    Assoc(q, mid, t);
  }

  /** Italic pass on `<strong>x</strong>mid*y*`. */
  lemma ItalicPass(x: string, mid: string, y: string, ctx: Ctx)
    requires x != [] && y != [] && '*' !in x && '*' !in mid && '*' !in y
    ensures Sub(Italic, "<strong>" + x + "</strong>" + mid + "*" + y + "*", false, ctx)
         == "<strong>" + x + "</strong>" + mid + "<em>" + y + "</em>"
  {
    var pre := "<strong>" + x + "</strong>" + mid;
    assert '*' !in pre;
    assert pre[|pre| - 1] != '*';
    var t := "*" + y + "*";
    Assoc(pre, "*", y);
    Assoc(pre, "*" + y, "*");
    SubSkip(Italic, pre, t, false, ctx);
    assert t + [] == t;
    ItalicSpan(y, [], ctx);
    Assoc(pre, "<em>", y);
    Assoc(pre, "<em>" + y, "</em>");
  }

  /** Bold is rewritten before italic, and italic does not see the asterisks
      of a bold span: `**x**mid*y*` becomes
      `<strong>x</strong>mid<em>y</em>`. */
  lemma BoldThenItalic(x: string, mid: string, y: string, ctx: Ctx)
    requires x != [] && y != [] && Plain(x) && Plain(mid) && Plain(y)
    ensures RenderInline("**" + x + "**" + mid + "*" + y + "*", ctx)
         == "<strong>" + x + "</strong>" + mid + "<em>" + y + "</em>"
  {
    var s := "**" + x + "**" + mid + "*" + y + "*";
    StarredPlain(x, mid, y);
    EscapePlain(s);
    ProtectMathNone(s);
    SubNoTrigger(Image, s, false, ctx);
    SubNoTrigger(Link, s, false, ctx);
    SubNoTrigger(Code, s, false, ctx);
    BoldPass(x, mid, y, ctx);
    ItalicPass(x, mid, y, ctx);
  }

  lemma StarredPlain(x: string, mid: string, y: string)
    requires Plain(x) && Plain(mid) && Plain(y)
    ensures forall c :: c in "**" + x + "**" + mid + "*" + y + "*" ==> c == '*' || !Special(c)
  {
  }

  lemma BoldItalicInput(x: string, mid: string, y: string)
    requires x == "bold" && mid == " and " && y == "italic"
    ensures "**" + x + "**" + mid + "*" + y + "*" == "**bold** and *italic*"
    ensures Plain(x) && Plain(mid) && Plain(y)
  {
  }

  lemma BoldItalicOutput(x: string, mid: string, y: string)
    requires x == "bold" && mid == " and " && y == "italic"
    ensures "<strong>" + x + "</strong>" + mid + "<em>" + y + "</em>"
         == "<strong>bold</strong> and <em>italic</em>"
  {
  }

  /** `**bold** and *italic*` becomes `<strong>bold</strong> and
      <em>italic</em>`. */
  lemma BoldItalicExample(s: string, ctx: Ctx)
    requires s == "**bold** and *italic*"
    ensures RenderInline(s, ctx) == "<strong>bold</strong> and <em>italic</em>"
  {
    var x, mid, y := "bold", " and ", "italic";
    BoldItalicInput(x, mid, y);
    BoldThenItalic(x, mid, y, ctx);
    BoldItalicOutput(x, mid, y);
  }

  /** The rewritten source of an image keeps plain text plain. */
  lemma ImageSrcPlain(src: string, ctx: Ctx)
    requires Plain(src) && Plain(ctx.assetBase) && Plain(ctx.relDir)
    ensures Plain(ImageSrc(src, ctx))
  {
  }

  lemma ImageTagInert(alt: string, src: string, ctx: Ctx)
    requires Plain(alt) && Plain(src) && Plain(ctx.assetBase) && Plain(ctx.relDir)
    ensures forall c :: c in ImgTag(ImageSrc(src, ctx), alt) ==> c != '[' && c != '`' && c != '*'
  {
    ImageSrcPlain(src, ctx);
  }

  lemma ImageTextPlain(alt: string, src: string)
    requires Plain(alt) && Plain(src)
    ensures forall c :: c in "![" + alt + "](" + src + ")" ==> !HtmlSpecial(c) && c != '$' && c != '\\'
  {
  }

  /** `![alt](src)` renders as one `<img>` tag with the alt text: an
      absolute source is kept as it is, any other one is placed under
      `assetBase/assets/media/relDir/`. */
  lemma ImageRender(alt: string, src: string, ctx: Ctx)
    requires Plain(alt) && Plain(src) && src != []
    requires Plain(ctx.assetBase) && Plain(ctx.relDir)
    ensures Slug.IsAbsUrl(src) ==> RenderInline("![" + alt + "](" + src + ")", ctx) == ImgTag(src, alt)
    ensures !Slug.IsAbsUrl(src) ==>
      RenderInline("![" + alt + "](" + src + ")", ctx) == ImgTag(ctx.assetBase + "/assets/media/" + ctx.relDir + "/" + src, alt)
  {
    var s := "![" + alt + "](" + src + ")";
    ImageTextPlain(alt, src);
    EscapePlain(s);
    ProtectMathNone(s);
    assert s + [] == s;
    ImageSpan(alt, src, [], false, ctx);
    var tag := ImgTag(ImageSrc(src, ctx), alt);
    ImageTagInert(alt, src, ctx);
    SubNoTrigger(Link, tag, false, ctx);
    SubNoTrigger(Code, tag, false, ctx);
    SubNoTrigger(Bold, tag, false, ctx);
    SubNoTrigger(Italic, tag, false, ctx);
    assert ProtectMath(Escape(s)) == Protected(s, []);
    assert Sub(Image, s, false, ctx) == tag;
    assert Rewrite(s, ctx) == tag;
  }

  /** Protection at a text that starts with a span. */
  lemma ProtectSpan(s: string, n: nat, open: string, close: string, toks: seq<string>)
    requires open != [] && close != [] && s != [] && SpanAt(s, open, close) == Some(n)
    ensures Protect(s, open, close, toks)
         == var rest := Protect(s[n..], open, close, toks + [s[..n]]);
            Protected(Token(|toks|) + rest.text, rest.tokens)
  {
  }

  /** The first two passes on `\[$x$\]`: `$$` finds nothing, `$…$` takes
      the inner span as token 0. */
  lemma NestedInnerPass(ex: string)
    requires ex != [] && '$' !in ex
    ensures var e := "\\[" + ("$" + ex + "$" + "\\]");
      var p1 := Protect(e, "$$", "$$", []);
      p1 == Protected(e, []) &&
      Protect(p1.text, "$", "$", p1.tokens)
        == Protected("\\[" + (Token(0) + "\\]"), ["$" + ex + "$"])
  {
    var inner := "$" + ex + "$";
    var b := inner + "\\]";
    var e := "\\[" + b;
    NoDoubleDollar(ex, "\\]");
    ProtectNoOpen(b, "$$", "$$", []);
    ProtectSkip("\\[", b, "$$", "$$", []);
    DollarPass(ex, "\\]");
    ProtectSkip("\\[", b, "$", "$", []);
  }

  /** `\[` placeholder `\]` is one `\[…\]` span from end to end. */
  lemma BracketSpan(i: nat)
    ensures var t := "\\[" + (Token(i) + "\\]");
      SpanAt(t, "\\[", "\\]") == Some(|t|)
  {
    var tok := Token(i);
    var t := "\\[" + (tok + "\\]");
    TokenChars(i);
    var k := |t| - 2;
    assert t[k..k + 2] == "\\]";
    assert OccursAt(t, "\\]", k);
    forall j | 3 <= j < k ensures !OccursAt(t, "\\]", j) {
      assert t[j] == tok[j - 2];
      assert tok[j - 2] in tok;
      assert t[j..j + 2][0] == t[j];
    }
    assert FindFrom(t, "\\]", 3) == Some(k);
  }

  /** The placeholder for token 1 does not contain that for token 0. */
  lemma TokensDistinct()
    ensures Replace(Token(1), Token(0), "") == Token(1)
    ensures !Occurs(Token(1), Token(0))
  {
    assert NatToString(0) == "0" && NatToString(1) == "1";
    assert '0' in Token(0) && '0' !in Token(1);
    AbsentByChar(Token(1), Token(0), '0');
    ReplaceAbsent(Token(1), Token(0), "");
  }

  /** The four math passes on escaped `\[$x$\]`. */
  lemma ProtectMathNested(ex: string)
    requires ex != [] && '$' !in ex
    ensures var t := "\\[" + (Token(0) + "\\]");
      ProtectMath("\\[" + ("$" + ex + "$" + "\\]")) == Protected(Token(1), ["$" + ex + "$", t])
  {
    var e := "\\[" + ("$" + ex + "$" + "\\]");
    var t := "\\[" + (Token(0) + "\\]");
    var tok0 := "$" + ex + "$";
    NestedInnerPass(ex);
    var p1 := Protect(e, "$$", "$$", []);
    var p2 := Protect(p1.text, "$", "$", p1.tokens);
    assert p2 == Protected(t, [tok0]);
    BracketSpan(0);
    ProtectWhole(t, "\\[", "\\]", [tok0]);
    assert [tok0] + [t] == [tok0, t];
    var p3 := Protect(p2.text, "\\[", "\\]", p2.tokens);
    assert p3 == Protected(Token(1), [tok0, t]);
    ProtectToken(1, [tok0, t]);
  }

  /** Placeholder 1 alone passes the rewrites, and restoring puts back
      token 1 only: placeholder 0 is not in the text when its turn comes. */
  lemma RestoreSecondToken(tok0: string, tok1: string, ctx: Ctx)
    ensures Restored(Rewrite(Token(1), ctx), [tok0, tok1], 0) == tok1
  {
    TokenChars(1);
    RewriteInert(Token(1), ctx);
    TokensDistinct();
    ReplaceAbsent(Token(1), Token(0), tok0);
    ReplaceWhole(Token(1), tok1);
    var toks := [tok0, tok1];
    assert Restored(tok1, toks, 2) == tok1;
    assert Restored(Token(1), toks, 1) == Restored(tok1, toks, 2);
    assert Restored(Token(1), toks, 0) == Restored(Token(1), toks, 1);
  }

  lemma EscapeNested(x: string)
    ensures Escape("\\[" + "$" + x + "$" + "\\]") == "\\[" + ("$" + Escape(x) + "$" + "\\]")
  {
    var m := "$" + x + "$";
    Assoc("\\[", "$", x);
    Assoc("\\[", "$" + x, "$");
    EscapeAppend("\\[" + m, "\\]");
    EscapeAppend("\\[", m);
    EscapeDollars(x);
    EscapeBrackets();
    Assoc("\\[", "$" + Escape(x) + "$", "\\]");
  }

  lemma EscapeBrackets()
    ensures Escape("\\[") == "\\[" && Escape("\\]") == "\\]"
  {
    assert "\\[" == ['\\', '['];
    assert "\\]" == ['\\', ']'];
  }

  /** Restoration runs in index order in a single pass, so a `$…$` span
      inside a `\[…\]` span leaves its placeholder behind: the output of
      `\[$x$\]` holds `@@MATH0@@` where `$x$` was. */
  lemma NestedMathLeaksPlaceholder(x: string, ctx: Ctx)
    requires x != [] && '$' !in x
    ensures RenderInline("\\[" + "$" + x + "$" + "\\]", ctx) == "\\[" + Token(0) + "\\]"
  {
    var ex := Escape(x);
    EscapeChars(x);
    assert '$' !in ex;
    EscapeNested(x);
    var e := "\\[" + ("$" + ex + "$" + "\\]");
    var t := "\\[" + (Token(0) + "\\]");
    var tok0 := "$" + ex + "$";
    ProtectMathNested(ex);
    RestoreSecondToken(tok0, t, ctx);
    Assoc("\\[", Token(0), "\\]");
  }
}
