/** Name helpers of the site generator (build.py:5-18): the slug of a
    folder or file name, the split of a numeric ordering prefix from a
    label, and the test for an image source that is already absolute. */
module Slug {
  import opened Text

  /** The class `[a-z0-9]` of the slug pattern. */
  predicate IsSlugChar(c: char) { IsLowerAlpha(c) || IsDigit(c) }

  predicate NoDoubleDash(s: string) {
    forall i :: 0 <= i < |s| - 1 ==> !(s[i] == '-' && s[i + 1] == '-')
  }

  predicate SlugOrDash(s: string) {
    forall i :: 0 <= i < |s| ==> IsSlugChar(s[i]) || s[i] == '-'
  }

  /** A well-formed slug: non-empty, `[a-z0-9-]` only, no `--`, and no
      `-` at either end, i.e. `^[a-z0-9]+(-[a-z0-9]+)*$`. */
  predicate IsSlug(s: string) {
    s != [] && SlugOrDash(s) && NoDoubleDash(s) && s[0] != '-' && s[|s| - 1] != '-'
  }

  /** The letters and digits of `s` that the slug pattern keeps, in order. */
  function Alnums(s: string): string {
    if s == [] then []
    else if IsSlugChar(s[0]) then [s[0]] + Alnums(s[1..])
    else Alnums(s[1..])
  }

  /** Length of the longest prefix of `s` outside `[a-z0-9]`. */
  function NonSlugRun(s: string): (n: nat)
    ensures n <= |s| && (n < |s| ==> IsSlugChar(s[n]))
    ensures forall i :: 0 <= i < n ==> !IsSlugChar(s[i])
  {
    if s == [] || IsSlugChar(s[0]) then 0 else 1 + NonSlugRun(s[1..])
  }

  /** `re.sub(r'[^a-z0-9]+', '-', s)` */
  function DashRuns(s: string): (r: string)
    ensures (r == []) == (s == [])
    ensures r != [] ==> (if IsSlugChar(s[0]) then r[0] == s[0] else r[0] == '-')
    decreases |s|
  {
    if s == [] then []
    else if IsSlugChar(s[0]) then [s[0]] + DashRuns(s[1..])
    else "-" + DashRuns(s[NonSlugRun(s)..])
  }

  /** The dash-run output uses only `[a-z0-9-]`, has no `--`, and keeps the
      letters and digits of its input. */
  lemma {:induction false} DashRunsShape(s: string)
    ensures var r := DashRuns(s);
      SlugOrDash(r) && NoDoubleDash(r) && Alnums(r) == Alnums(s)
    decreases |s|
  {
    if s != [] {
      if IsSlugChar(s[0]) {
        DashRunsShape(s[1..]);
        ConsShape(s[0], DashRuns(s[1..]));
      } else {
        var k := NonSlugRun(s);
        AlnumsSkip(s, k);
        DashRunsShape(s[k..]);
        ConsShape('-', DashRuns(s[k..]));
      }
    }
  }

  lemma ConsShape(c: char, r: string)
    requires SlugOrDash(r) && NoDoubleDash(r) && (IsSlugChar(c) || c == '-')
    requires c == '-' && r != [] ==> r[0] != '-'
    ensures SlugOrDash([c] + r) && NoDoubleDash([c] + r)
    ensures Alnums([c] + r) == (if IsSlugChar(c) then [c] else []) + Alnums(r)
  {
    var t := [c] + r;
    assert t[1..] == r;
    assert forall i :: 0 < i < |t| ==> t[i] == r[i - 1];
  }

  /** Length of the longest prefix of `s` made of `-`. */
  function DashRun(s: string): (n: nat)
    ensures n <= |s| && (n < |s| ==> s[n] != '-')
  {
    if s == [] || s[0] != '-' then 0 else 1 + DashRun(s[1..])
  }

  /** `re.sub(r'-{2,}', '-', s)` */
  function CollapseDashes(s: string): string
    decreases |s|
  {
    if s == [] then []
    else if |s| >= 2 && s[0] == '-' && s[1] == '-' then
      var k := DashRun(s);
      "-" + CollapseDashes(s[k..])
    else [s[0]] + CollapseDashes(s[1..])
  }

  /** `slugify(s)`: strip, lower-case, turn every run of characters outside
      `[a-z0-9]` into one `-`, collapse `--`, strip `-`, and fall back to
      `index` when nothing is left.  The result is always a well-formed slug. */
  function Slugify(s: string): (r: string)
    ensures IsSlug(r)
  {
    var u := StripChar(CollapseDashes(DashRuns(Lower(Strip(s)))), '-');
    DashesStripped(s);
    IndexIsSlug();
    if u == [] then "index" else u
  }

  /** The text of a slug before the `index` fallback. */
  lemma DashesStripped(s: string)
    ensures var u := StripChar(CollapseDashes(DashRuns(Lower(Strip(s)))), '-');
      u != [] ==> IsSlug(u)
  {
    var t := DashRuns(Lower(Strip(s)));
    DashRunsShape(Lower(Strip(s)));
    CollapseIdentity(t);
    StripDashKeeps(t);
  }

  lemma IndexIsSlug()
    ensures IsSlug("index")
  {
    var w := "index";
    assert w[0] == 'i' && w[1] == 'n' && w[2] == 'd' && w[3] == 'e' && w[4] == 'x';
    assert forall i :: 0 <= i < |w| ==> IsLowerAlpha(w[i]);
  }

  // ---------------------------------------------------------------------
  // Proofs about the passes

  lemma {:induction false} AlnumsSkip(s: string, k: nat)
    requires k <= |s| && forall i :: 0 <= i < k ==> !IsSlugChar(s[i])
    ensures Alnums(s) == Alnums(s[k..])
  {
    if k > 0 {
      assert s[1..][k - 1..] == s[k..];
      AlnumsSkip(s[1..], k - 1);
    }
  }

  lemma {:induction false} AlnumsAppend(a: string, b: string)
    ensures Alnums(a + b) == Alnums(a) + Alnums(b)
  {
    if a != [] {
      assert (a + b)[1..] == a[1..] + b;
      AlnumsAppend(a[1..], b);
    } else {
      assert a + b == b;
    }
  }

  /** `-{2,}` never matches in a string without `--`. */
  lemma {:induction false} CollapseIdentity(s: string)
    requires NoDoubleDash(s)
    ensures CollapseDashes(s) == s
  {
    if s != [] {
      assert NoDoubleDash(s[1..]);
      CollapseIdentity(s[1..]);
    }
  }

  /** Stripping `-` from a dash-run output keeps the character set, the
      absence of `--` and the letters and digits. */
  lemma StripDashKeeps(t: string)
    requires SlugOrDash(t) && NoDoubleDash(t)
    ensures var u := StripChar(t, '-');
      SlugOrDash(u) && NoDoubleDash(u) && Alnums(u) == Alnums(t)
  {
    var l := LStripChar(t, '-');
    var a := |t| - |l|;
    AlnumsSkip(t, a);
    SubstringKeeps(t, a, |t|);
    var u := RStripChar(l, '-');
    AlnumsDropDashes(l, |u|);
    SubstringKeeps(l, 0, |u|);
  }

  lemma SubstringKeeps(t: string, a: nat, b: nat)
    requires a <= b <= |t| && SlugOrDash(t) && NoDoubleDash(t)
    ensures SlugOrDash(t[a..b]) && NoDoubleDash(t[a..b])
  {
    assert forall i :: 0 <= i < b - a ==> t[a..b][i] == t[a + i];
  }

  lemma AlnumsDropDashes(l: string, n: nat)
    requires n <= |l| && forall i :: n <= i < |l| ==> l[i] == '-'
    ensures Alnums(l) == Alnums(l[..n])
  {
    assert l == l[..n] + l[n..];
    AlnumsAppend(l[..n], l[n..]);
    AlnumsSkip(l[n..], |l| - n);
    assert l[n..][|l| - n..] == [];
  }

  lemma {:induction false} AlnumsOfSpaces(s: string)
    requires AllSpace(s)
    ensures Alnums(Lower(s)) == []
  {
    if s != [] {
      assert Lower(s)[1..] == Lower(s[1..]);
      AlnumsOfSpaces(s[1..]);
    }
  }

  lemma {:induction false} LowerAppend(a: string, b: string)
    ensures Lower(a + b) == Lower(a) + Lower(b)
  {
    if a != [] {
      assert (a + b)[1..] == a[1..] + b;
      LowerAppend(a[1..], b);
    } else {
      assert a + b == b;
    }
  }

  /** Stripping whitespace loses no letter or digit. */
  lemma StripKeepsAlnums(s: string)
    ensures Alnums(Lower(Strip(s))) == Alnums(Lower(s))
  {
    var l := LStrip(s);
    var r := RStrip(l);
    var a := |s| - |l|;
    assert s == s[..a] + l;
    assert l == r + l[|r|..];
    LowerAppend(s[..a], l);
    LowerAppend(r, l[|r|..]);
    AlnumsAppend(Lower(s[..a]), Lower(l));
    AlnumsAppend(Lower(r), Lower(l[|r|..]));
    AlnumsOfSpaces(s[..a]);
    AlnumsOfSpaces(l[|r|..]);
  }

  /** Every letter (lower-cased) and digit of the name survives into the
      slug, in order, and nothing else does; a name with none of them gets
      the fallback `index`. */
  lemma SlugifyKeepsAlnums(s: string)
    ensures Alnums(Lower(s)) == [] ==> Slugify(s) == "index"
    ensures Alnums(Lower(s)) != [] ==> Alnums(Slugify(s)) == Alnums(Lower(s))
  {
    StripKeepsAlnums(s);
    var t := DashRuns(Lower(Strip(s)));
    DashRunsShape(Lower(Strip(s)));
    CollapseIdentity(t);
    StripDashKeeps(t);
  }

  lemma {:induction false} LowerOfSlug(s: string)
    requires SlugOrDash(s)
    ensures Lower(s) == s
  {
    if s != [] {
      LowerOfSlug(s[1..]);
    }
  }

  lemma {:induction false} DashRunsOfSlug(s: string)
    requires SlugOrDash(s) && NoDoubleDash(s) && (s != [] ==> s[0] != '-')
    ensures DashRuns(s) == s
    decreases |s|
  {
    if s != [] {
      SlugTail(s);
      assert IsSlugChar(s[0]);
      if |s| > 1 && s[1] == '-' {
        DashRunsSkipDash(s[1..]);
      } else {
        DashRunsOfSlug(s[1..]);
      }
      assert [s[0]] + s[1..] == s;
    }
  }

  /** The tail of a dash-run output is one; a `-` head is followed by a
      letter or digit. */
  lemma SlugTail(s: string)
    requires SlugOrDash(s) && NoDoubleDash(s) && s != []
    ensures SlugOrDash(s[1..]) && NoDoubleDash(s[1..])
    ensures |s| > 1 && s[0] == '-' ==> s[1] != '-'
    ensures |s| > 2 && s[1] == '-' ==> s[1..][1] != '-'
  {
    assert forall i :: 0 <= i < |s| - 1 ==> s[1..][i] == s[i + 1];
    if |s| > 2 && s[1] == '-' {
      assert !(s[1] == '-' && s[2] == '-');
    }
  }

  lemma DashRunsSkipDash(s: string)
    requires SlugOrDash(s) && NoDoubleDash(s) && s != [] && s[0] == '-'
    requires |s| > 1 ==> s[1] != '-'
    ensures DashRuns(s) == s
    decreases |s|, 0
  {
    SlugTail(s);
    assert NonSlugRun(s) == 1 by {
      assert !IsSlugChar(s[0]);
      if |s| > 1 { assert IsSlugChar(s[1]); }
    }
    DashRunsOfSlug(s[1..]);
    assert "-" + s[1..] == s;
  }

  /** A well-formed slug is its own slug. */
  lemma SlugifyFixesSlugs(r: string)
    requires IsSlug(r)
    ensures Slugify(r) == r
  {
    assert Strip(r) == r by {
      assert IsSlugChar(r[0]) && IsSlugChar(r[|r| - 1]);
    }
    LowerOfSlug(r);
    DashRunsOfSlug(r);
    CollapseIdentity(r);
    assert StripChar(r, '-') == r by {
      assert LStripChar(r, '-') == r;
      assert RStripChar(r, '-') == r;
    }
  }

  /** Slugifying twice is slugifying once. */
  lemma SlugifyIdempotent(s: string)
    ensures Slugify(Slugify(s)) == Slugify(s)
  {
    SlugifyFixesSlugs(Slugify(s));
  }

  // ---------------------------------------------------------------------
  // Where the separators go

  /** Length of the longest prefix of `s` inside `[a-z0-9]`. */
  function SlugRun(s: string): (n: nat)
    ensures n <= |s| && (n < |s| ==> !IsSlugChar(s[n]))
    ensures forall i :: 0 <= i < n ==> IsSlugChar(s[i])
  {
    if s == [] || !IsSlugChar(s[0]) then 0 else 1 + SlugRun(s[1..])
  }

  /** The maximal runs of `[a-z0-9]` in `s`, left to right: the words a
      slug is made of. */
  function AlnumRuns(s: string): seq<string>
    decreases |s|
  {
    if s == [] then []
    else if !IsSlugChar(s[0]) then AlnumRuns(s[1..])
    else
      var m := SlugRun(s);
      [s[..m]] + AlnumRuns(s[m..])
  }

  /** A non-empty word of letters and digits. */
  predicate Word(w: string) {
    w != [] && forall j :: 0 <= j < |w| ==> IsSlugChar(w[j])
  }

  /** Every run is a word. */
  lemma {:induction false} AlnumRunsWords(s: string)
    ensures forall w :: w in AlnumRuns(s) ==> Word(w)
    decreases |s|
  {
    if s != [] {
      if !IsSlugChar(s[0]) {
        AlnumRunsWords(s[1..]);
      } else {
        var m := SlugRun(s);
        var w := s[..m];
        assert forall j :: 0 <= j < |w| ==> w[j] == s[j];
        assert Word(w);
        AlnumRunsWords(s[m..]);
      }
    }
  }

  /** A list of words joins to a non-empty text. */
  lemma JoinWords(runs: seq<string>)
    requires runs != [] && Word(runs[0])
    ensures Join(runs, "-") != []
  {
    if |runs| > 1 {
      assert |Join(runs, "-")| >= |runs[0]|;
    }
  }

  /** The slug is the maximal letter-and-digit runs of the stripped,
      lower-cased name joined by single `-`, or `index` when there are
      none: every other character only ever separates two runs. */
  lemma SlugifyJoinsRuns(s: string)
    ensures var runs := AlnumRuns(Lower(Strip(s)));
      Slugify(s) == if runs == [] then "index" else Join(runs, "-")
  {
    var t := Lower(Strip(s));
    var d := DashRuns(t);
    var k := NonSlugRun(t);
    DashRunsShape(t);
    CollapseIdentity(d);
    LStripDashRuns(t);
    DashRunsJoin(t[k..]);
    AlnumRunsSkip(t);
    var runs := AlnumRuns(t);
    var u := StripChar(CollapseDashes(d), '-');
    assert u == Join(runs, "-") by {
      assert u == RStripChar(LStripChar(d, '-'), '-');
    }
    if runs != [] {
      AlnumRunsWords(t);
      assert runs[0] in runs;
      JoinWords(runs);
    }
  }

  /** Leading characters outside `[a-z0-9]` separate nothing. */
  lemma {:induction false} AlnumRunsSkip(s: string)
    ensures AlnumRuns(s) == AlnumRuns(s[NonSlugRun(s)..])
    decreases |s|
  {
    if s != [] && !IsSlugChar(s[0]) {
      AlnumRunsSkip(s[1..]);
      assert s[1..][NonSlugRun(s[1..])..] == s[NonSlugRun(s)..];
    } else {
      assert s[0..] == s;
    }
  }

  /** Dropping leading `-` from the dash-run output is the same as dropping
      the leading non-slug characters before it. */
  lemma LStripDashRuns(t: string)
    ensures LStripChar(DashRuns(t), '-') == DashRuns(t[NonSlugRun(t)..])
  {
    var k := NonSlugRun(t);
    var x := DashRuns(t[k..]);
    if k > 0 {
      assert DashRuns(t) == "-" + x;
      assert ("-" + x)[1..] == x;
    } else {
      assert t[0..] == t;
    }
    assert x == [] || x[0] != '-';
  }

  lemma {:induction false} RStripAppend(p: string, x: string, c: char)
    requires RStripChar(x, c) != []
    ensures RStripChar(p + x, c) == p + RStripChar(x, c)
    decreases |x|
  {
    if x[|x| - 1] == c {
      assert (p + x)[..|p + x| - 1] == p + x[..|x| - 1];
      RStripAppend(p, x[..|x| - 1], c);
    }
  }

  /** A leading word passes through the dash runs unchanged. */
  lemma {:induction false} WordHead(t: string)
    requires t != [] && IsSlugChar(t[0])
    ensures DashRuns(t) == t[..SlugRun(t)] + DashRuns(t[SlugRun(t)..])
    decreases |t|
  {
    var u := t[1..];
    assert DashRuns(t) == [t[0]] + DashRuns(u);
    if u != [] && IsSlugChar(u[0]) {
      WordHead(u);
      var m := SlugRun(u);
      Assoc([t[0]], u[..m], DashRuns(u[m..]));
      ConsCut(t, m);
    } else {
      ConsCut(t, 0);
    }
  }

  lemma ConsCut(t: string, m: nat)
    requires 1 + m <= |t|
    ensures t[..1 + m] == [t[0]] + t[1..][..m] && t[1 + m..] == t[1..][m..]
  {
  }

  /** A gap of other characters becomes one `-` and separates nothing. */
  lemma GapHead(t: string)
    requires t != [] && !IsSlugChar(t[0])
    ensures var k := NonSlugRun(t);
      DashRuns(t) == "-" + DashRuns(t[k..]) && AlnumRuns(t) == AlnumRuns(t[k..])
  {
    AlnumRunsSkip(t);
  }

  /** For text that starts with a letter or digit (or is empty), dropping
      trailing `-` from the dash-run output joins the runs with `-`. */
  lemma {:induction false} DashRunsJoin(t: string)
    requires t == [] || IsSlugChar(t[0])
    ensures RStripChar(DashRuns(t), '-') == Join(AlnumRuns(t), "-")
    decreases |t|, 1
  {
    if t != [] {
      var m := SlugRun(t);
      var a, rest := t[..m], t[m..];
      WordHead(t);
      assert AlnumRuns(t) == [a] + AlnumRuns(rest);
      assert RStripChar(a, '-') == a;
      if rest == [] {
        assert a + DashRuns(rest) == a;
      } else {
        assert forall j :: 0 <= j < |a| ==> a[j] == t[j];
        GapJoin(a, rest);
      }
    }
  }

  /** A word followed by a gap: the gap's `-` survives only when another
      word follows it. */
  lemma {:induction false} GapJoin(a: string, rest: string)
    requires Word(a) && rest != [] && !IsSlugChar(rest[0])
    ensures RStripChar(a + DashRuns(rest), '-') == Join([a] + AlnumRuns(rest), "-")
    decreases |rest|, 0
  {
    var t2 := rest[NonSlugRun(rest)..];
    GapHead(rest);
    var d2 := DashRuns(t2);
    if t2 == [] {
      assert a + ("-" + d2) == a + "-";
      assert (a + "-")[..|a|] == a;
      assert RStripChar(a, '-') == a;
    } else {
      DashRunsJoin(t2);
      var runs := AlnumRuns(t2);
      AlnumRunsWords(t2);
      assert runs[0] in runs;
      JoinWords(runs);
      RStripAppend(a + "-", d2, '-');
      Assoc(a, "-", d2);
      JoinAppend([a], runs, "-");
    }
  }

  // ---------------------------------------------------------------------
  // split_num_label

  /** Every `.` is followed by a digit: the tail of `\d+(?:\.\d+)*`. */
  predicate DotTail(x: string) {
    forall i {:trigger x[i]} :: 0 <= i < |x| ==> IsDigit(x[i]) || (x[i] == '.' && i + 1 < |x| && IsDigit(x[i + 1]))
  }

  /** A whole match of `\d+(?:\.\d+)*`, such as `2.1` or `10.3.4`. */
  predicate IsDottedNumber(x: string) {
    x != [] && IsDigit(x[0]) && DotTail(x)
  }

  /** A dotted group `.` + digits can start at the head of `u`. */
  predicate DotGroupAhead(u: string) {
    |u| >= 2 && u[0] == '.' && IsDigit(u[1])
  }

  function DigitRun(s: string): (n: nat)
    ensures n <= |s| && (n < |s| ==> !IsDigit(s[n]))
    ensures forall i :: 0 <= i < n ==> IsDigit(s[i])
  {
    if s == [] || !IsDigit(s[0]) then 0 else 1 + DigitRun(s[1..])
  }

  /** Length of the `(?:\.\d+)*` part matched greedily at the head of `u`. */
  function DotGroups(u: string): (g: nat)
    requires u != [] ==> !IsDigit(u[0])
    ensures g <= |u| && DotTail(u[..g])
    ensures g < |u| ==> !IsDigit(u[g]) && !DotGroupAhead(u[g..])
    decreases |u|
  {
    if DotGroupAhead(u) then
      var e := 1 + DigitRun(u[1..]);
      var g := e + DotGroups(u[e..]);
      assert u[e..][..g - e] == u[e..g];
      assert u[e..][g - e..] == u[g..];
      forall i | 0 <= i < g
        ensures IsDigit(u[..g][i]) || (u[..g][i] == '.' && i + 1 < g && IsDigit(u[..g][i + 1]))
      {
        if i >= e {
          assert u[..g][i] == u[e..g][i - e];
          if i + 1 < g { assert u[..g][i + 1] == u[e..g][i + 1 - e]; }
        } else if i > 0 {
          assert u[..g][i] == u[1..][i - 1];
        } else {
          assert e >= 2 && u[..g][1] == u[1];
        }
      }
      g
    else 0
  }

  /** Length of the dotted number matched greedily at the head of `t`. */
  function DottedLen(t: string): (n: nat)
    ensures n <= |t| && (n == 0 <==> (t == [] || !IsDigit(t[0])))
    ensures n > 0 ==> IsDottedNumber(t[..n])
    ensures 0 < n < |t| ==> !IsDigit(t[n]) && !DotGroupAhead(t[n..])
  {
    var d := DigitRun(t);
    if d == 0 then 0
    else
      var g := DotGroups(t[d..]);
      assert t[d..][..g] == t[d..d + g];
      assert t[d..][g..] == t[d + g..];
      var m := d + g;
      var p := t[..m];
      forall i | 0 <= i < m
        ensures IsDigit(p[i]) || (p[i] == '.' && i + 1 < m && IsDigit(p[i + 1]))
      {
        if i >= d {
          assert p[i] == t[d..m][i - d];
          if i + 1 < m { assert p[i + 1] == t[d..m][i + 1 - d]; }
        } else {
          assert p[i] == t[i];
        }
      }
      m
  }

  /** `split_num_label(name)`: on the stripped name, a leading dotted number,
      whitespace, and a non-empty rest with no newline give the number and
      the rest; otherwise the prefix is empty and the label is the stripped
      name. */
  function SplitNumLabel(name: string): (r: (string, string)) {
    SplitStripped(Strip(name))
  }

  /** The match of `^(\d+(?:\.\d+)*)\s+(.+)$` on an already stripped name. */
  function SplitStripped(t: string): (r: (string, string)) {
    var n := DottedLen(t);
    if 0 < n < |t| && IsSpace(t[n]) then
      var w := n + SpaceRun(t[n..]);
      if w < |t| && '\n' !in t[w..] then (t[..n], t[w..]) else ("", t)
    else ("", t)
  }

  /** The shape `^(\d+(?:\.\d+)*)\s+(.+)$` asks of a stripped name. */
  predicate NumberedShape(t: string, num: string, ws: string, caption: string) {
    t == num + ws + caption && IsDottedNumber(num) && ws != [] && AllSpace(ws)
    && caption != [] && !IsSpace(caption[0]) && '\n' !in caption
  }

  /** What `SplitNumLabel` returns: a non-empty prefix only when the stripped
      name has the numbered shape, and then the number and the label of that
      shape; otherwise the stripped name as the label. */
  lemma SplitNumLabelSound(name: string)
    ensures SplitNumLabel(name).0 != [] ==>
      exists ws :: NumberedShape(Strip(name), SplitNumLabel(name).0, ws, SplitNumLabel(name).1)
    ensures SplitNumLabel(name).0 == [] ==> SplitNumLabel(name).1 == Strip(name)
  {
    SplitStrippedSound(Strip(name));
  }

  lemma SplitStrippedSound(t: string)
    ensures SplitStripped(t).0 != [] ==> exists ws :: NumberedShape(t, SplitStripped(t).0, ws, SplitStripped(t).1)
    ensures SplitStripped(t).0 == [] ==> SplitStripped(t).1 == t
  {
    var r := SplitStripped(t);
    var n := DottedLen(t);
    if 0 < n < |t| && IsSpace(t[n]) {
      var w := n + SpaceRun(t[n..]);
      if w < |t| && '\n' !in t[w..] {
        assert r == (t[..n], t[w..]);
        SplitShape(t, n, w);
        assert NumberedShape(t, r.0, t[n..w], r.1);
      }
    }
  }

  /** Where the pattern matches, the split is the number, whitespace and
      caption of the numbered shape. */
  lemma SplitShape(t: string, n: nat, w: nat)
    requires 0 < n < |t| && IsDottedNumber(t[..n]) && IsSpace(t[n])
    requires w == n + SpaceRun(t[n..]) && w < |t| && '\n' !in t[w..]
    ensures NumberedShape(t, t[..n], t[n..w], t[w..])
  {
    SpacesAt(t, n);
    ShapeOfSplit(t, n, w);
  }

  /** The whitespace run at `n` inside `t`. */
  lemma SpacesAt(t: string, n: nat)
    requires n < |t| && IsSpace(t[n])
    ensures var w := n + SpaceRun(t[n..]);
      n < w <= |t| && AllSpace(t[n..w]) && (w < |t| ==> !IsSpace(t[w]))
  {
    var k := SpaceRun(t[n..]);
    assert t[n..][..k] == t[n..n + k];
    assert n + k < |t| ==> t[n..][k] == t[n + k];
  }

  /** Number, whitespace and caption cut out of `t` at `n` and `w`. */
  lemma ShapeOfSplit(t: string, n: nat, w: nat)
    requires 0 < n < w < |t| && IsDottedNumber(t[..n])
    requires AllSpace(t[n..w]) && !IsSpace(t[w]) && '\n' !in t[w..]
    ensures NumberedShape(t, t[..n], t[n..w], t[w..])
  {
    assert t == t[..n] + t[n..w] + t[w..];
    assert t[w..][0] == t[w];
  }

  /** Conversely, a stripped name of the numbered shape is split at exactly
      that number and label. */
  lemma SplitNumLabelComplete(name: string, num: string, ws: string, caption: string)
    requires NumberedShape(Strip(name), num, ws, caption)
    ensures SplitNumLabel(name) == (num, caption)
  {
    SplitStrippedComplete(Strip(name), num, ws, caption);
  }

  lemma SplitStrippedComplete(t: string, num: string, ws: string, caption: string)
    requires NumberedShape(t, num, ws, caption)
    ensures SplitStripped(t) == (num, caption)
  {
    var rest := ws + caption;
    Assoc(num, ws, caption);
    DottedLenOfShape(t, num, rest);
    CutAt(num, rest);
    SpaceRunOf(ws, caption);
    CutAt(ws, caption);
    assert t[|num|] == ws[0];
    assert t[|num| + |ws|..] == caption by {
      assert t[|num|..][|ws|..] == t[|num| + |ws|..];
    }
  }

  lemma CutAt(a: string, b: string)
    ensures (a + b)[..|a|] == a && (a + b)[|a|..] == b
  {
  }

  lemma DottedLenOfShape(t: string, x: string, rest: string)
    requires t == x + rest && IsDottedNumber(x)
    requires rest != [] && IsSpace(rest[0])
    ensures DottedLen(t) == |x|
  {
    DottedLenAtMost(t, x, rest);
    DottedLenAtLeast(t, x, rest);
  }

  /** The greedy match cannot run into the whitespace after `x`. */
  lemma DottedLenAtMost(t: string, x: string, rest: string)
    requires t == x + rest && IsDottedNumber(x)
    requires rest != [] && IsSpace(rest[0])
    ensures DottedLen(t) <= |x|
  {
    var n := DottedLen(t);
    assert t[|x|] == rest[0];
    assert forall i :: 0 <= i < n ==> t[..n][i] == t[i];
  }

  /** The greedy match does not stop inside `x`. */
  lemma DottedLenAtLeast(t: string, x: string, rest: string)
    requires t == x + rest && IsDottedNumber(x)
    requires rest != [] && IsSpace(rest[0])
    ensures DottedLen(t) >= |x|
  {
    var n := DottedLen(t);
    assert forall i :: 0 <= i < |x| ==> t[i] == x[i];
    assert n + 1 < |t| ==> t[n..][0] == t[n] && t[n..][1] == t[n + 1];
  }

  lemma SplitNumLabelExample()
    ensures SplitNumLabel("2.1 Utility Functions") == ("2.1", "Utility Functions")
  {
    var t := "2.1 Utility Functions";
    assert Strip(t) == t by {
      assert !IsSpace(t[0]) && !IsSpace(t[|t| - 1]);
    }
    ExampleShape();
    SplitStrippedComplete(t, "2.1", " ", "Utility Functions");
  }

  lemma ExampleShape()
    ensures NumberedShape("2.1 Utility Functions", "2.1", " ", "Utility Functions")
  {
    assert IsDottedNumber("2.1");
    assert "2.1 Utility Functions" == "2.1" + " " + "Utility Functions";
    assert '\n' !in "Utility Functions";
  }

  /** A name whose stripped form does not start with a digit is its own
      label, e.g. `Intro` gives `("", "Intro")`. */
  lemma SplitNumLabelPlain(name: string)
    requires Strip(name) == [] || !IsDigit(Strip(name)[0])
    ensures SplitNumLabel(name) == ("", Strip(name))
  {
    assert DottedLen(Strip(name)) == 0;
  }

  // ---------------------------------------------------------------------
  // _is_abs_url

  function LowerRun(s: string): (n: nat)
    ensures n <= |s| && (n < |s| ==> !IsLowerAlpha(s[n]))
    ensures forall i :: 0 <= i < n ==> IsLowerAlpha(s[i])
  {
    if s == [] || !IsLowerAlpha(s[0]) then 0 else 1 + LowerRun(s[1..])
  }

  predicate AllLowerAlpha(s: string) { forall i :: 0 <= i < |s| ==> IsLowerAlpha(s[i]) }

  /** `_is_abs_url(u)`: `^(?:[a-z]+:)?//` matches, or `u` starts with `data:`
      or with `/`.  Stated independently of the scanner: a scheme of lower-case
      letters followed by `://`, a `data:` URI, or a root-relative path
      (which includes `//`). */
  function IsAbsUrl(u: string): (r: bool)
    ensures r <==> (StartsWith(u, "/") || StartsWith(u, "data:")
                    || exists k :: 0 < k <= |u| && AllLowerAlpha(u[..k]) && StartsWith(u[k..], "://"))
  {
    var k := LowerRun(u);
    var scheme := (k > 0 && StartsWith(u[k..], "://")) || StartsWith(u, "//");
    assert k > 0 ==> AllLowerAlpha(u[..k]);
    assert forall j :: 0 < j <= |u| && AllLowerAlpha(u[..j]) && StartsWith(u[j..], "://") ==> j == k by {
      forall j | 0 < j <= |u| && AllLowerAlpha(u[..j]) && StartsWith(u[j..], "://") ensures j == k {
        assert u[j..][..3] == "://";
        assert u[j] == ':';
        assert forall i :: 0 <= i < j ==> u[..j][i] == u[i];
      }
    }
    scheme || StartsWith(u, "data:") || StartsWith(u, "/")
  }
}
