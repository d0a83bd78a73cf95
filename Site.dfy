/** The pure pieces of `build()` (build.py:98-200): grouping the markdown
    files into sections, the output file and URL of a page, the page title
    and the removal of a heading that repeats it, the body of a directory
    index, and the placeholder substitution of `render_page`.  Directory
    listings and file contents are inputs; nothing here touches a file. */
module Site {
  import opened Text
  import Order
  import Slug
  import InlineFormat

  // ---------------------------------------------------------------------
  // Sections (build.py:113-124)

  /** A path relative to the book, as its parts (`rel.parts`). */
  type Path = seq<string>

  /** One entry of a directory listing. */
  datatype Entry = Entry(name: string, isDir: bool)

  /** A key of the `sections` dict with the files listed under it. */
  datatype Section = Section(key: string, files: seq<Path>)

  predicate Hidden(name: string) { StartsWith(name, ".") }

  /** `entry.is_dir() and not entry.name.startswith('.')` */
  predicate Visible(e: Entry) { e.isDir && !Hidden(e.name) }

  /** The entries of one listing share their parent, so `sorted` orders
      them by name. */
  predicate EntryLe(a: Entry, b: Entry) { Order.StrLe(a.name, b.name) }

  lemma EntryOrderTotal()
    ensures Order.Total(EntryLe)
  {
    forall a: Entry, b: Entry ensures EntryLe(a, b) || EntryLe(b, a) {
      Order.StrLeTotal(a.name, b.name);
    }
  }

  /** `sorted(listing)` */
  function SortEntries(listing: seq<Entry>): (r: seq<Entry>)
    ensures Order.Sorted(r, EntryLe) && multiset(r) == multiset(listing)
  {
    EntryOrderTotal();
    Order.SortSorted(listing, EntryLe);
    Order.Sort(listing, EntryLe)
  }

  predicate Distinct(s: seq<string>) {
    forall i, j :: 0 <= i < j < |s| ==> s[i] != s[j]
  }

  /** The keys of the dict, in insertion order. */
  function Labels(secs: seq<Section>): (r: seq<string>)
    ensures |r| == |secs| && forall i :: 0 <= i < |secs| ==> r[i] == secs[i].key
  {
    if secs == [] then [] else [secs[0].key] + Labels(secs[1..])
  }

  /** `sections.get(key, [])` */
  function Group(secs: seq<Section>, key: string): seq<Path> {
    if secs == [] then []
    else if secs[0].key == key then secs[0].files
    else Group(secs[1..], key)
  }

  /** `sections.setdefault(key, [])`: a new key comes last, with no files. */
  function Touch(secs: seq<Section>, key: string): (r: seq<Section>)
    ensures Labels(r) == Labels(secs) + (if key in Labels(secs) then [] else [key])
    ensures forall l :: Group(r, l) == Group(secs, l)
  {
    if secs == [] then [Section(key, [])]
    else if secs[0].key == key then secs
    else
      var t := Touch(secs[1..], key);
      assert ([secs[0]] + t)[1..] == t;
      [secs[0]] + t
  }

  /** `sections.setdefault(key, []).append(p)` */
  function AddTo(secs: seq<Section>, key: string, p: Path): (r: seq<Section>)
    ensures Labels(r) == Labels(secs) + (if key in Labels(secs) then [] else [key])
    ensures forall l :: Group(r, l) == Group(secs, l) + (if l == key then [p] else [])
  {
    if secs == [] then [Section(key, [p])]
    else if secs[0].key == key then
      var r := [secs[0].(files := secs[0].files + [p])] + secs[1..];
      assert r[1..] == secs[1..];
      r
    else
      var t := AddTo(secs[1..], key, p);
      assert ([secs[0]] + t)[1..] == t;
      [secs[0]] + t
  }

  /** The first loop: a section with no files for every visible directory
      of the listing, in listing order. */
  function Seed(entries: seq<Entry>): seq<Section> {
    if entries == [] then []
    else
      var s := Seed(entries[..|entries| - 1]);
      var e := entries[|entries| - 1];
      if Visible(e) then Touch(s, e.name) else s
  }

  /** The second loop: every file joins the section of its first part. */
  function Collect(secs: seq<Section>, files: seq<Path>): seq<Section> {
    if files == [] then secs
    else
      var s := Collect(secs, files[..|files| - 1]);
      var p := files[|files| - 1];
      if p == [] then s else AddTo(s, p[0], p)
  }

  /** The third loop: every group in `sorted` order. */
  function SortGroups(secs: seq<Section>): seq<Section> {
    seq(|secs|, i requires 0 <= i < |secs| => Section(secs[i].key, Order.SortPaths(secs[i].files)))
  }

  /** The `sections` dict once `build` has filled it from the top-level
      `listing` of the book and the markdown `files` found under it. */
  function Sections(listing: seq<Entry>, files: seq<Path>): seq<Section> {
    SortGroups(Collect(Seed(SortEntries(listing)), files))
  }

  /** The three loops of build.py:113-124 over the dict as an association
      list. */
  method GroupSections(listing: seq<Entry>, files: seq<Path>) returns (secs: seq<Section>)
    ensures secs == Sections(listing, files)
  {
    secs := SeedSections(SortEntries(listing));
    secs := CollectFiles(secs, files);
    secs := SortEach(secs);
  }

  /** build.py:116-118 */
  method SeedSections(entries: seq<Entry>) returns (secs: seq<Section>)
    ensures secs == Seed(entries)
  {
    secs := [];
    for i := 0 to |entries|
      invariant secs == Seed(entries[..i])
    {
      assert entries[..i + 1][..i] == entries[..i];
      if Visible(entries[i]) {
        secs := Touch(secs, entries[i].name);
      }
    }
    assert entries[..|entries|] == entries;
  }

  /** build.py:119-122 */
  method CollectFiles(start: seq<Section>, files: seq<Path>) returns (secs: seq<Section>)
    ensures secs == Collect(start, files)
  {
    secs := start;
    for i := 0 to |files|
      invariant secs == Collect(start, files[..i])
    {
      assert files[..i + 1][..i] == files[..i];
      var parts := files[i];
      if parts != [] {
        secs := AddTo(secs, parts[0], parts);
      }
    }
    assert files[..|files|] == files;
  }

  /** build.py:123-124 */
  method SortEach(start: seq<Section>) returns (secs: seq<Section>)
    ensures secs == SortGroups(start)
  {
    secs := start;
    for i := 0 to |secs|
      invariant |secs| == |start|
      invariant forall k :: 0 <= k < i ==> secs[k] == Section(start[k].key, Order.SortPaths(start[k].files))
      invariant forall k :: i <= k < |secs| ==> secs[k] == start[k]
    {
      secs := secs[i := Section(secs[i].key, Order.SortPaths(secs[i].files))];
    }
  }

  /** The first part of `p` is `key`. */
  predicate InSection(p: Path, key: string) { p != [] && p[0] == key }

  /** The files whose first part is `key`, in the order given. */
  function Under(files: seq<Path>, key: string): seq<Path> {
    if files == [] then []
    else
      var p := files[|files| - 1];
      Under(files[..|files| - 1], key) + (if InSection(p, key) then [p] else [])
  }

  lemma {:induction false} SeedFacts(entries: seq<Entry>)
    ensures forall l :: Group(Seed(entries), l) == []
    ensures Distinct(Labels(Seed(entries)))
    ensures forall l :: l in Labels(Seed(entries)) <==>
      exists i :: 0 <= i < |entries| && Visible(entries[i]) && entries[i].name == l
  {
    if entries != [] {
      var init := entries[..|entries| - 1];
      SeedFacts(init);
      var e := entries[|entries| - 1];
      forall l ensures l in Labels(Seed(entries)) <==>
        exists i :: 0 <= i < |entries| && Visible(entries[i]) && entries[i].name == l
      {
        if l in Labels(Seed(entries)) && !(l in Labels(Seed(init))) {
          assert Visible(entries[|entries| - 1]) && entries[|entries| - 1].name == l;
        }
        if exists i :: 0 <= i < |entries| && Visible(entries[i]) && entries[i].name == l {
          var i :| 0 <= i < |entries| && Visible(entries[i]) && entries[i].name == l;
          if i < |init| {
            assert init[i] == entries[i];
          }
        }
        if l in Labels(Seed(init)) {
          var i :| 0 <= i < |init| && Visible(init[i]) && init[i].name == l;
          assert entries[i] == init[i];
        }
      }
    }
  }

  /** What one file adds to the keys. */
  lemma CollectStep(secs: seq<Section>, files: seq<Path>)
    requires files != []
    ensures var s := Collect(secs, files[..|files| - 1]);
      var p := files[|files| - 1];
      Labels(Collect(secs, files)) == Labels(s) + (if p != [] && p[0] !in Labels(s) then [p[0]] else [])
  {
  }

  lemma {:induction false} CollectGroups(secs: seq<Section>, files: seq<Path>)
    ensures forall l :: Group(Collect(secs, files), l) == Group(secs, l) + Under(files, l)
  {
    if files == [] {
      forall l ensures Group(secs, l) + Under(files, l) == Group(secs, l) {
        assert Under(files, l) == [];
      }
    } else {
      CollectGroups(secs, files[..|files| - 1]);
    }
  }

  lemma {:induction false} CollectPrefix(secs: seq<Section>, files: seq<Path>)
    ensures |Labels(secs)| <= |Labels(Collect(secs, files))|
    ensures Labels(Collect(secs, files))[..|secs|] == Labels(secs)
  {
    if files != [] {
      var init := files[..|files| - 1];
      CollectPrefix(secs, init);
      CollectStep(secs, files);
      var s := Labels(Collect(secs, init));
      var r := Labels(Collect(secs, files));
      assert r[..|secs|] == s[..|secs|];
    }
  }

  lemma {:induction false} CollectDistinct(secs: seq<Section>, files: seq<Path>)
    requires Distinct(Labels(secs))
    ensures Distinct(Labels(Collect(secs, files)))
  {
    if files != [] {
      CollectDistinct(secs, files[..|files| - 1]);
      CollectStep(secs, files);
    }
  }

  lemma {:induction false} CollectMembers(secs: seq<Section>, files: seq<Path>)
    ensures forall l :: l in Labels(Collect(secs, files)) <==> l in Labels(secs) || Under(files, l) != []
  {
    if files != [] {
      CollectMembers(secs, files[..|files| - 1]);
      CollectStep(secs, files);
    }
  }

  /** Some file lies under a key exactly when its group is not empty. */
  lemma {:induction false} UnderNonEmpty(files: seq<Path>, key: string)
    ensures Under(files, key) != [] <==> exists i :: 0 <= i < |files| && InSection(files[i], key)
  {
    if files != [] {
      var init := files[..|files| - 1];
      var p := files[|files| - 1];
      UnderNonEmpty(init, key);
      assert Under(files, key) == Under(init, key) + (if InSection(p, key) then [p] else []);
      assert forall i :: 0 <= i < |init| ==> files[i] == init[i];
      if InSection(p, key) {
        assert InSection(files[|files| - 1], key);
      }
    }
  }

  lemma {:induction false} SortGroupsFacts(secs: seq<Section>)
    ensures Labels(SortGroups(secs)) == Labels(secs)
    ensures forall l :: Group(SortGroups(secs), l) == Order.SortPaths(Group(secs, l))
  {
    if secs != [] {
      SortGroupsFacts(secs[1..]);
      assert SortGroups(secs)[1..] == SortGroups(secs[1..]);
    } else {
      forall l ensures Group(SortGroups(secs), l) == Order.SortPaths(Group(secs, l)) {
        assert Order.SortPaths([]) == [];
      }
    }
  }

  /** Every group is the files under its key, sorted: a sorted
      permutation of them.  A key with no section has no files. */
  lemma SectionsGroupFiles(listing: seq<Entry>, files: seq<Path>)
    ensures forall l :: Group(Sections(listing, files), l) == Order.SortPaths(Under(files, l))
    ensures forall l :: Order.Sorted(Group(Sections(listing, files), l), Order.PathLe)
                     && multiset(Group(Sections(listing, files), l)) == multiset(Under(files, l))
  {
    var seed := Seed(SortEntries(listing));
    SeedFacts(SortEntries(listing));
    CollectGroups(seed, files);
    SortGroupsFacts(Collect(seed, files));
    forall l ensures Group(Sections(listing, files), l) == Order.SortPaths(Under(files, l)) {
      assert Group(seed, l) + Under(files, l) == Under(files, l);
    }
  }

  /** The sections are the visible top-level directories and the first
      parts of all files: a file at the book root or under a hidden
      directory still makes a section of its own. */
  lemma SectionsLabels(listing: seq<Entry>, files: seq<Path>)
    ensures forall l :: l in Labels(Sections(listing, files)) <==>
      (exists e :: e in listing && Visible(e) && e.name == l) ||
      (exists i :: 0 <= i < |files| && InSection(files[i], l))
  {
    var sorted := SortEntries(listing);
    var seed := Seed(sorted);
    SeedFacts(sorted);
    CollectMembers(seed, files);
    SortGroupsFacts(Collect(seed, files));
    forall l ensures Under(files, l) != [] <==> exists i :: 0 <= i < |files| && InSection(files[i], l) {
      UnderNonEmpty(files, l);
    }
    forall l ensures l in Labels(seed) <==> exists e :: e in listing && Visible(e) && e.name == l {
      if l in Labels(seed) {
        var i :| 0 <= i < |sorted| && Visible(sorted[i]) && sorted[i].name == l;
        assert sorted[i] in multiset(listing);
      }
      if exists e :: e in listing && Visible(e) && e.name == l {
        var e :| e in listing && Visible(e) && e.name == l;
        assert e in multiset(sorted);
        var i :| 0 <= i < |sorted| && sorted[i] == e;
      }
    }
  }

  /** No key names two sections, and the sections of the visible
      directories come first, in sorted order of the listing. */
  lemma SectionsOrder(listing: seq<Entry>, files: seq<Path>)
    ensures Distinct(Labels(Sections(listing, files)))
    ensures var seed := Labels(Seed(SortEntries(listing)));
      Order.Sorted(seed, Order.StrLe) &&
      |seed| <= |Sections(listing, files)| && Labels(Sections(listing, files))[..|seed|] == seed
  {
    var seed := Seed(SortEntries(listing));
    SeedFacts(SortEntries(listing));
    SeedSorted(SortEntries(listing));
    CollectPrefix(seed, files);
    CollectDistinct(seed, files);
    SortGroupsFacts(Collect(seed, files));
  }

  /** In a sorted listing every name is at most every later one. */
  lemma {:induction false} SortedNames(entries: seq<Entry>, i: nat, j: nat)
    requires Order.Sorted(entries, EntryLe) && i <= j < |entries|
    ensures Order.StrLe(entries[i].name, entries[j].name)
    decreases j - i
  {
    if i == j {
      Order.StrLeTotal(entries[i].name, entries[i].name);
    } else {
      SortedNames(entries, i, j - 1);
      Order.StrLeTrans(entries[i].name, entries[j - 1].name, entries[j].name);
    }
  }

  /** The first loop keeps the order of a sorted listing: its keys are
      sorted and none is above the last name of the listing. */
  lemma {:induction false} SeedSorted(entries: seq<Entry>)
    requires Order.Sorted(entries, EntryLe)
    ensures Order.Sorted(Labels(Seed(entries)), Order.StrLe)
    ensures entries != [] ==> forall l :: l in Labels(Seed(entries)) ==> Order.StrLe(l, entries[|entries| - 1].name)
  {
    if entries != [] {
      var init := entries[..|entries| - 1];
      var e := entries[|entries| - 1];
      assert Order.Sorted(init, EntryLe) by {
        assert forall i :: 0 <= i < |init| ==> init[i] == entries[i];
      }
      SeedSorted(init);
      var l := Labels(Seed(init));
      Order.StrLeTotal(e.name, e.name);
      forall x | x in l ensures Order.StrLe(x, e.name) {
        Order.StrLeTrans(x, init[|init| - 1].name, e.name);
      }
      if Visible(e) && e.name !in l {
        if l != [] {
          assert l[|l| - 1] in l;
        }
        Order.SortedSnoc(l, e.name, Order.StrLe);
      }
    }
  }

  // ---------------------------------------------------------------------
  // Output file and URL of a page (build.py:135-137, 152)

  /** `s.rfind(c)` */
  function RFind(s: string, c: char): (i: int)
    ensures -1 <= i < |s| && (i >= 0 ==> s[i] == c)
    ensures forall j :: i < j < |s| ==> s[j] != c
  {
    if s == [] then -1
    else if s[|s| - 1] == c then |s| - 1
    else RFind(s[..|s| - 1], c)
  }

  /** `PurePath(name).stem`: the name without its last suffix; a dot at
      either end of the name starts no suffix. */
  function Stem(name: string): string {
    var i := RFind(name, '.');
    if 0 < i < |name| - 1 then name[..i] else name
  }

  /** A file `base.ext` has the stem `base`. */
  lemma StemOfFile(base: string, ext: string)
    requires base != [] && ext != [] && '.' !in ext
    ensures Stem(base + "." + ext) == base
  {
    var name := base + "." + ext;
    assert name[|base|] == '.';
    forall j | |base| < j < |name| ensures name[j] != '.' {
      assert name[j] == ext[j - |base| - 1];
    }
    assert RFind(name, '.') == |base|;
    assert name[..|base|] == base;
  }

  /** A name with no dot is its own stem. */
  lemma StemWithoutDot(name: string)
    requires '.' !in name
    ensures Stem(name) == name
  {
  }

  /** `[slugify(p) for p in parts]` */
  function SlugAll(parts: seq<string>): seq<string> {
    seq(|parts|, i requires 0 <= i < |parts| => Slug.Slugify(parts[i]))
  }

  /** The parts of `out_html` below `out_dir` for the page `dirs/name`. */
  function PageSegments(dirs: seq<string>, name: string): seq<string> {
    SlugAll(dirs) + [Slug.Slugify(Stem(name)) + ".html"]
  }

  /** `url_path` of the page `dirs/name`. */
  function PageUrl(dirs: seq<string>, name: string): string {
    "/pages/" + Join(PageSegments(dirs, name), "/")
  }

  lemma SlugHasNoSlash(s: string)
    requires Slug.IsSlug(s)
    ensures '/' !in s
  {
    forall i | 0 <= i < |s| ensures s[i] != '/' {
      assert Slug.IsSlugChar(s[i]) || s[i] == '-';
    }
  }

  /** The URL of a page names, below `/pages/`, one slug per directory and
      the slug of the stem with `.html`; splitting it at `/` gives back
      the parts of the output file. */
  lemma PageUrlParts(dirs: seq<string>, name: string)
    ensures StartsWith(PageUrl(dirs, name), "/pages/")
    ensures var parts := Split(PageUrl(dirs, name)[7..], '/');
      parts == PageSegments(dirs, name) && |parts| == |dirs| + 1
      && (forall i :: 0 <= i < |dirs| ==> Slug.IsSlug(parts[i]))
      && parts[|dirs|] == Slug.Slugify(Stem(name)) + ".html"
  {
    var segs := PageSegments(dirs, name);
    SegmentsHaveNoSlash(dirs, name);
    SplitJoin(segs, '/');
    var j := Join(segs, "/");
    var url := "/pages/" + j;
    assert url[..7] == "/pages/";
    assert url[7..] == j;
  }

  lemma SegmentsHaveNoSlash(dirs: seq<string>, name: string)
    ensures forall k :: 0 <= k < |PageSegments(dirs, name)| ==> '/' !in PageSegments(dirs, name)[k]
  {
    var segs := PageSegments(dirs, name);
    var ds := SlugAll(dirs);
    var last := Slug.Slugify(Stem(name)) + ".html";
    SlugAllNoSlash(dirs);
    HtmlNameHasNoSlash(Slug.Slugify(Stem(name)));
    assert segs == ds + [last];
    assert forall k :: 0 <= k < |ds| ==> segs[k] == ds[k];
    assert segs[|ds|] == last;
  }

  lemma SlugAllNoSlash(dirs: seq<string>)
    ensures forall k :: 0 <= k < |SlugAll(dirs)| ==> '/' !in SlugAll(dirs)[k]
  {
    forall k | 0 <= k < |dirs| ensures '/' !in SlugAll(dirs)[k] {
      SlugHasNoSlash(Slug.Slugify(dirs[k]));
    }
  }

  lemma HtmlNameHasNoSlash(s: string)
    requires Slug.IsSlug(s)
    ensures '/' !in s + ".html"
  {
    SlugHasNoSlash(s);
    var t := s + ".html";
    forall i | 0 <= i < |t| ensures t[i] != '/' {
      if i >= |s| {
        assert t[i] == ".html"[i - |s|];
      }
    }
  }

  // ---------------------------------------------------------------------
  // Title and duplicate heading (build.py:140-147)

  /** `(num + ' ' if num else '') + caption` */
  function PageTitle(num: string, caption: string): string {
    (if num != [] then num + " " else "") + caption
  }

  /** The title of the page whose file has the stem `stem`. */
  function TitleOf(stem: string): string {
    var r := Slug.SplitNumLabel(stem);
    PageTitle(r.0, r.1)
  }

  /** A numbered stem keeps its number in the title, with one space before
      the caption whatever whitespace the stem had there. */
  lemma TitleOfNumbered(stem: string, num: string, ws: string, caption: string)
    requires Slug.NumberedShape(Strip(stem), num, ws, caption)
    ensures TitleOf(stem) == num + " " + caption
  {
    Slug.SplitNumLabelComplete(stem, num, ws, caption);
  }

  /** Any other stem is its own title, stripped. */
  lemma TitleOfPlain(stem: string)
    requires Slug.SplitNumLabel(stem).0 == []
    ensures TitleOf(stem) == Strip(stem)
  {
    Slug.SplitNumLabelSound(stem);
  }

  /** `re.match(r'^#\s+.+', line)`: `#`, whitespace, and then at least one
      character other than a line feed. */
  predicate TitleHeading(line: string) {
    |line| >= 3 && line[0] == '#' && IsSpace(line[1]) && exists j :: 2 <= j < |line| && line[j] != '\n'
  }

  /** `re.sub(r'^#\s+', '', line).strip()` on a line of that shape. */
  function HeadingText(line: string): string
    requires line != []
  {
    Strip(AfterHash(line))
  }

  /** The line after its `#` and the whitespace run that follows it. */
  function AfterHash(line: string): string
    requires line != []
  {
    line[1 + SpaceRun(line[1..])..]
  }

  /** Does the heading text repeat the title or the caption, ignoring case? */
  predicate Repeats(first: string, title: string, caption: string) {
    Lower(first) == Lower(title) || Lower(first) == Lower(caption)
  }

  /** build.py:143-147: a first line that is a level-one heading is dropped
      when it repeats the title; once the first line is such a heading the
      lines are joined again with `\n`, dropped or not. */
  function DropDuplicateHeading(md: string, title: string, caption: string): string {
    var lines := SplitLines(md);
    if lines != [] && TitleHeading(lines[0]) then
      Join(if Repeats(HeadingText(lines[0]), title, caption) then lines[1..] else lines, "\n")
    else md
  }

  /** A heading `# t` with `t` its own stripped text reads back as `t`. */
  lemma HeadingOf(t: string)
    requires t != [] && Strip(t) == t && NoLineBreak(t)
    ensures TitleHeading("# " + t) && HeadingText("# " + t) == t
  {
    var line := "# " + t;
    assert !IsSpace(t[0]) by {
      assert Strip(t)[0] == t[0];
    }
    assert line[2] == t[0] && t[0] != '\n';
    assert 2 <= 2 < |line| && line[2] != '\n';
    assert line[1..] == " " + t;
    SpaceRunOf(" ", t);
    assert line[1 + 1..] == t;
  }

  /** A markdown file whose first line is `# t`, with `t` the title or the
      caption up to case, loses that line; the rest is kept line for line.
      The file may end in a line break (`eol`) or not; the result, joined
      again with `\n`, never does. */
  lemma DuplicateHeadingDropped(t: string, title: string, caption: string, rest: seq<string>, eol: bool)
    requires t != [] && Strip(t) == t && NoLineBreak(t) && Repeats(t, title, caption)
    requires forall k :: 0 <= k < |rest| ==> NoLineBreak(rest[k])
    requires !eol && rest != [] ==> rest[|rest| - 1] != []
    ensures DropDuplicateHeading(FileText(["# " + t] + rest, eol), title, caption) == Join(rest, "\n")
  {
    HeadingOf(t);
    HashLineNoBreak(t);
    HeadingDropped("# " + t, rest, title, caption, eol);
  }

  /** The same for any leading title heading. */
  lemma HeadingDropped(head: string, rest: seq<string>, title: string, caption: string, eol: bool)
    requires TitleHeading(head) && NoLineBreak(head) && Repeats(HeadingText(head), title, caption)
    requires forall k :: 0 <= k < |rest| ==> NoLineBreak(rest[k])
    requires !eol && rest != [] ==> rest[|rest| - 1] != []
    ensures DropDuplicateHeading(FileText([head] + rest, eol), title, caption) == Join(rest, "\n")
  {
    var lines := [head] + rest;
    ConsLines(head, rest, eol);
    SplitFileText(lines, eol);
    assert lines[0] == head && lines[1..] == rest;
  }

  lemma HashLineNoBreak(t: string)
    requires NoLineBreak(t)
    ensures NoLineBreak("# " + t)
  {
    forall i | 0 <= i < |"# " + t| ensures !IsLineBreak(("# " + t)[i]) {
      if i >= 2 {
        assert ("# " + t)[i] == t[i - 2];
      }
    }
  }

  lemma ConsLines(head: string, rest: seq<string>, eol: bool)
    requires NoLineBreak(head) && forall k :: 0 <= k < |rest| ==> NoLineBreak(rest[k])
    requires !eol && rest != [] ==> rest[|rest| - 1] != []
    requires head != []
    ensures FileLines([head] + rest, eol)
  {
    var lines := [head] + rest;
    forall k | 0 <= k < |lines| ensures NoLineBreak(lines[k]) {
      if k > 0 {
        assert lines[k] == rest[k - 1];
      }
    }
    if rest != [] {
      assert lines[|lines| - 1] == rest[|rest| - 1];
    }
  }

  /** A markdown file without a leading title heading is left as it is. */
  lemma NoHeadingKept(md: string, title: string, caption: string)
    requires SplitLines(md) == [] || !TitleHeading(SplitLines(md)[0])
    ensures DropDuplicateHeading(md, title, caption) == md
  {
  }

  /** A leading heading that does not repeat the title stays, and the file
      keeps its lines; only a final line break is lost to the re-join. */
  lemma OtherHeadingKept(t: string, title: string, caption: string, rest: seq<string>, eol: bool)
    requires t != [] && Strip(t) == t && NoLineBreak(t)
    requires Lower(t) != Lower(title) && Lower(t) != Lower(caption)
    requires forall k :: 0 <= k < |rest| ==> NoLineBreak(rest[k])
    requires !eol && rest != [] ==> rest[|rest| - 1] != []
    ensures DropDuplicateHeading(FileText(["# " + t] + rest, eol), title, caption) == Join(["# " + t] + rest, "\n")
  {
    var lines := ["# " + t] + rest;
    HeadingOf(t);
    HashLineNoBreak(t);
    ConsLines("# " + t, rest, eol);
    SplitFileText(lines, eol);
    assert lines[0] == "# " + t;
  }

  // ---------------------------------------------------------------------
  // Directory index (build.py:186-200)

  /** A page as `pages_by_dir` records it. */
  datatype PageRef = PageRef(title: string, path: string)

  /** The visible subdirectories of a listing, by name, in sorted order. */
  function VisibleNames(entries: seq<Entry>): seq<string> {
    if entries == [] then []
    else (if Visible(entries[0]) then [entries[0].name] else []) + VisibleNames(entries[1..])
  }

  /** `child_dirs2`: the names of the visible subdirectories of the
      directory with `listing`. */
  function ChildNames(listing: seq<Entry>): seq<string> {
    VisibleNames(SortEntries(listing))
  }

  lemma {:induction false} VisibleNamesSorted(entries: seq<Entry>)
    requires Order.Sorted(entries, EntryLe)
    ensures Order.Sorted(VisibleNames(entries), Order.StrLe)
    ensures entries != [] ==> forall n :: n in VisibleNames(entries) ==> Order.StrLe(entries[0].name, n)
  {
    if entries != [] {
      var tail := entries[1..];
      Order.SortedTail(entries, EntryLe);
      VisibleNamesSorted(tail);
      var v := VisibleNames(tail);
      var x := entries[0].name;
      Order.StrLeTotal(x, x);
      if tail != [] {
        assert Order.StrLe(x, tail[0].name);
        forall n | n in v ensures Order.StrLe(x, n) {
          Order.StrLeTrans(x, tail[0].name, n);
        }
      }
      if Visible(entries[0]) {
        if v != [] {
          assert v[0] in v;
        }
        Order.SortedCons(x, v, Order.StrLe);
      }
    }
  }

  lemma {:induction false} VisibleNamesMembers(entries: seq<Entry>)
    ensures forall n :: n in VisibleNames(entries) <==>
      exists i :: 0 <= i < |entries| && Visible(entries[i]) && entries[i].name == n
  {
    if entries != [] {
      var tail := entries[1..];
      VisibleNamesMembers(tail);
      forall n ensures n in VisibleNames(entries) <==>
        exists i :: 0 <= i < |entries| && Visible(entries[i]) && entries[i].name == n
      {
        if n in VisibleNames(tail) {
          var i :| 0 <= i < |tail| && Visible(tail[i]) && tail[i].name == n;
          assert entries[i + 1] == tail[i];
        }
        if exists i :: 0 <= i < |entries| && Visible(entries[i]) && entries[i].name == n {
          var i :| 0 <= i < |entries| && Visible(entries[i]) && entries[i].name == n;
          if i > 0 {
            assert tail[i - 1] == entries[i];
          }
        }
      }
    }
  }

  lemma {:induction false} VisibleNamesAppend(a: seq<Entry>, b: seq<Entry>)
    ensures VisibleNames(a + b) == VisibleNames(a) + VisibleNames(b)
  {
    if a != [] {
      assert (a + b)[1..] == a[1..] + b;
      VisibleNamesAppend(a[1..], b);
    } else {
      assert a + b == b;
    }
  }

  /** Reordering a listing reorders its visible names, keeping one name
      per visible directory. */
  lemma {:induction false} VisibleNamesPerm(a: seq<Entry>, b: seq<Entry>)
    requires multiset(a) == multiset(b)
    ensures multiset(VisibleNames(a)) == multiset(VisibleNames(b))
  {
    if a == [] {
      assert b == [] by { assert |b| == |multiset(b)|; }
    } else {
      var x := a[0];
      assert x in multiset(b);
      var j :| 0 <= j < |b| && b[j] == x;
      var left, right := b[..j], b[j + 1..];
      var rest := left + right;
      MultisetCut(b, j);
      MultisetCut(a, 0);
      assert a[..0] + a[1..] == a[1..];
      VisibleNamesPerm(a[1..], rest);
      var vx := VisibleNames([x]);
      VisibleNamesAppend([x], a[1..]);
      VisibleNamesAppend(left, right);
      VisibleNamesAppend(left, [x] + right);
      VisibleNamesAppend([x], right);
      NamesJoin(vx, VisibleNames(a[1..]), VisibleNames(left), VisibleNames(right));
    }
  }

  lemma NamesJoin(vx: seq<string>, va: seq<string>, vl: seq<string>, vr: seq<string>)
    requires multiset(va) == multiset(vl + vr)
    ensures multiset(vx + va) == multiset(vl + (vx + vr))
  {
  }

  /** Taking out element `j` takes one copy of it out of the multiset. */
  lemma MultisetCut<T>(b: seq<T>, j: nat)
    requires j < |b|
    ensures b == b[..j] + ([b[j]] + b[j + 1..])
    ensures multiset(b[..j] + b[j + 1..]) == multiset(b) - multiset{b[j]}
  {
    assert b == b[..j] + [b[j]] + b[j + 1..];
  }

  /** The subdirectory links of an index: the visible subdirectories of
      the listing, each by name, in sorted order. */
  lemma ChildNamesFacts(listing: seq<Entry>)
    ensures Order.Sorted(ChildNames(listing), Order.StrLe)
    ensures forall n :: n in ChildNames(listing) <==> exists e :: e in listing && Visible(e) && e.name == n
    ensures multiset(ChildNames(listing)) == multiset(VisibleNames(listing))
  {
    var sorted := SortEntries(listing);
    VisibleNamesPerm(sorted, listing);
    VisibleNamesSorted(sorted);
    VisibleNamesMembers(sorted);
    forall n ensures n in ChildNames(listing) <==> exists e :: e in listing && Visible(e) && e.name == n {
      if n in ChildNames(listing) {
        var i :| 0 <= i < |sorted| && Visible(sorted[i]) && sorted[i].name == n;
        assert sorted[i] in multiset(listing);
      }
      if exists e :: e in listing && Visible(e) && e.name == n {
        var e :| e in listing && Visible(e) && e.name == n;
        assert e in multiset(sorted);
        var i :| 0 <= i < |sorted| && sorted[i] == e;
      }
    }
  }

  /** The parts of the index file written for the directory `rel`. */
  function IndexSegments(rel: Path): seq<string> {
    SlugAll(rel) + ["index.html"]
  }

  /** The target of the link to the subdirectory `name` of `relDir`. */
  function ChildHref(assetBase: string, relDir: Path, name: string): string {
    assetBase + "/pages/" + Join(SlugAll(relDir + [name]), "/") + "/" + "index.html"
  }

  /** The list item linking to the subdirectory `name` of `relDir`. */
  function ChildItem(assetBase: string, relDir: Path, name: string): string {
    "<li><a href=\"" + ChildHref(assetBase, relDir, name) + "\">" + InlineFormat.Escape(name) + "</a></li>"
  }

  /** The list item linking to a page of the directory. */
  function PageItem(assetBase: string, p: PageRef): string {
    "<li><a href=\"" + assetBase + p.path + "\">" + InlineFormat.Escape(p.title) + "</a></li>"
  }

  function ChildItems(assetBase: string, relDir: Path, names: seq<string>): seq<string> {
    seq(|names|, i requires 0 <= i < |names| => ChildItem(assetBase, relDir, names[i]))
  }

  function PageItems(assetBase: string, pages: seq<PageRef>): seq<string> {
    seq(|pages|, i requires 0 <= i < |pages| => PageItem(assetBase, pages[i]))
  }

  /** `'<h2>…</h2>\n<ul>\n' + '\n'.join(items) + '\n</ul>'` */
  function ItemList(heading: string, items: seq<string>): string {
    "<h2>" + heading + "</h2>" + "\n" + "<ul>" + "\n" + Join(items, "\n") + "\n" + "</ul>"
  }

  /** `sub_links` */
  function SubLinks(assetBase: string, relDir: Path, names: seq<string>): string {
    if names == [] then "" else ItemList("Subsections", ChildItems(assetBase, relDir, names))
  }

  /** `page_links` */
  function PageLinks(assetBase: string, pages: seq<PageRef>): string {
    if pages == [] then "" else ItemList("Pages", PageItems(assetBase, pages))
  }

  /** `sec_body`: the non-empty parts joined by a rule, or a placeholder. */
  function IndexBody(assetBase: string, relDir: Path, names: seq<string>, pages: seq<PageRef>): string {
    var sub := SubLinks(assetBase, relDir, names);
    var pl := PageLinks(assetBase, pages);
    var parts := (if sub != "" then [sub] else []) + (if pl != "" then [pl] else []);
    if parts != [] then Join(parts, "\n" + "<hr>" + "\n") else "<p>Coming soon.</p>"
  }

  /** `title2`: the directory's own name, or the section key for the
      book root. */
  function IndexTitle(relDir: Path, sectLabel: string): string {
    if relDir != [] then relDir[|relDir| - 1] else sectLabel
  }

  /** Every directory indexed for a section lies under the section's own
      directory, so its title is its own name; the section directory
      itself is titled with the section key. */
  lemma IndexTitleOfSectionDir(sectLabel: string, sub: Path)
    ensures IndexTitle([sectLabel] + sub, sectLabel) == if sub == [] then sectLabel else sub[|sub| - 1]
  {
  }

  /** The lines of an index body, as a reader sees them. */
  function IndexLines(assetBase: string, relDir: Path, names: seq<string>, pages: seq<PageRef>): seq<string> {
    var sub := if names == [] then [] else ["<h2>" + "Subsections" + "</h2>", "<ul>"] + ChildItems(assetBase, relDir, names) + ["</ul>"];
    var pl := if pages == [] then [] else ["<h2>" + "Pages" + "</h2>", "<ul>"] + PageItems(assetBase, pages) + ["</ul>"];
    if sub == [] && pl == [] then ["<p>Coming soon.</p>"]
    else if sub == [] then pl
    else if pl == [] then sub
    else sub + ["<hr>"] + pl
  }

  /** An item list is its heading, `<ul>`, one line per item and `</ul>`. */
  lemma ItemListLines(heading: string, items: seq<string>)
    requires items != []
    ensures ItemList(heading, items) == Join(["<h2>" + heading + "</h2>", "<ul>"] + items + ["</ul>"], "\n")
  {
    var head := ["<h2>" + heading + "</h2>", "<ul>"];
    JoinAppend(head, items, "\n");
    JoinAppend(head + items, ["</ul>"], "\n");
    assert head[1..] == ["<ul>"];
  }

  /** Joining around a separator line. */
  lemma JoinAround(a: seq<string>, b: seq<string>, mid: string)
    requires a != [] && b != []
    ensures Join(a + [mid] + b, "\n") == Join(a, "\n") + ("\n" + mid + "\n") + Join(b, "\n")
  {
    JoinAppend(a, [mid], "\n");
    JoinAppend(a + [mid], b, "\n");
    var x, y := Join(a, "\n"), Join(b, "\n");
    Assoc(x, "\n" + mid, "\n");
    Assoc(x, "\n", mid);
  }

  /** The index body is its lines joined with `\n`. */
  lemma IndexBodyLines(assetBase: string, relDir: Path, names: seq<string>, pages: seq<PageRef>)
    ensures IndexBody(assetBase, relDir, names, pages) == Join(IndexLines(assetBase, relDir, names, pages), "\n")
  {
    var ci := ChildItems(assetBase, relDir, names);
    var pi := PageItems(assetBase, pages);
    var sub := ["<h2>" + "Subsections" + "</h2>", "<ul>"] + ci + ["</ul>"];
    var pl := ["<h2>" + "Pages" + "</h2>", "<ul>"] + pi + ["</ul>"];
    var a, b := ItemList("Subsections", ci), ItemList("Pages", pi);
    if names != [] {
      ItemListLines("Subsections", ci);
      ItemListHead("Subsections", ci);
    }
    if pages != [] {
      ItemListLines("Pages", pi);
      ItemListHead("Pages", pi);
    }
    if names != [] && pages != [] {
      JoinAround(sub, pl, "<hr>");
      var parts := [a, b];
      assert parts[1..] == [b];
      assert Join(parts, "\n" + "<hr>" + "\n") == a + ("\n" + "<hr>" + "\n") + b;
    }
  }

  /** A join starts with its first part. */
  lemma {:induction false} JoinPrefix(parts: seq<string>, sep: string)
    requires parts != []
    ensures |parts[0]| <= |Join(parts, sep)| && Join(parts, sep)[..|parts[0]|] == parts[0]
  {
    if |parts| > 1 {
      var t := sep + Join(parts[1..], sep);
      assert Join(parts, sep) == parts[0] + t;
    }
  }

  lemma ItemListHead(heading: string, items: seq<string>)
    ensures |ItemList(heading, items)| >= 2 && ItemList(heading, items)[1] == 'h'
  {
    var rest := heading + "</h2>" + "\n" + "<ul>" + "\n" + Join(items, "\n") + "\n" + "</ul>";
    assert ItemList(heading, items) == "<h2>" + rest;
  }

  /** With no subdirectory and no page the body is the placeholder, and
      only then. */
  lemma ComingSoon(assetBase: string, relDir: Path, names: seq<string>, pages: seq<PageRef>)
    ensures IndexBody(assetBase, relDir, names, pages) == "<p>Coming soon.</p>" <==> names == [] && pages == []
  {
    var sub := SubLinks(assetBase, relDir, names);
    var pl := PageLinks(assetBase, pages);
    var parts := (if sub != "" then [sub] else []) + (if pl != "" then [pl] else []);
    if names != [] || pages != [] {
      var first := if names != [] then sub else pl;
      if names != [] {
        ItemListHead("Subsections", ChildItems(assetBase, relDir, names));
      } else {
        ItemListHead("Pages", PageItems(assetBase, pages));
      }
      assert parts != [] && parts[0] == first;
      JoinPrefix(parts, "\n" + "<hr>" + "\n");
      assert IndexBody(assetBase, relDir, names, pages)[1] == 'h';
    }
  }

  /** A subdirectory's item links to the index file written for that
      subdirectory. */
  lemma ChildLinkTarget(assetBase: string, relDir: Path, name: string)
    ensures ChildHref(assetBase, relDir, name) == assetBase + "/pages/" + Join(IndexSegments(relDir + [name]), "/")
  {
    var slugs := SlugAll(relDir + [name]);
    var x := assetBase + "/pages/";
    var j := Join(slugs, "/");
    JoinAppend(slugs, ["index.html"], "/");
    assert Join(["index.html"], "/") == "index.html";
    assert Join(IndexSegments(relDir + [name]), "/") == (j + "/") + "index.html";
    Assoc(x, j, "/");
    Assoc(x, j + "/", "index.html");
  }

  // ---------------------------------------------------------------------
  // Templates (build.py:98-100)

  /** `render_page` on the template text: the three placeholders, replaced
      one after another. */
  function RenderPage(tpl: string, assetBase: string, title: string, content: string): string {
    var withBase := Replace(tpl, Placeholder("asset_base"), assetBase);
    var withTitle := Replace(withBase, Placeholder("title"), title);
    Replace(withTitle, Placeholder("content"), content)
  }

  /** Text without the first character of the pattern is copied over. */
  lemma {:induction false} ReplaceSkip(a: string, t: string, pat: string, rep: string)
    requires pat != [] && pat[0] !in a
    ensures Replace(a + t, pat, rep) == a + Replace(t, pat, rep)
    decreases |a|
  {
    if a != [] {
      var s := a + t;
      if |s| >= |pat| {
        assert s[..|pat|][0] == a[0];
        assert s[1..] == a[1..] + t;
        ReplaceSkip(a[1..], t, pat, rep);
      } else {
        assert |t| < |pat|;
      }
    } else {
      assert a + t == t;
    }
  }

  /** The pattern at the head of the text is replaced. */
  lemma ReplaceHead(pat: string, t: string, rep: string)
    requires pat != []
    ensures Replace(pat + t, pat, rep) == rep + Replace(t, pat, rep)
  {
    assert (pat + t)[..|pat|] == pat;
    assert (pat + t)[|pat|..] == t;
  }

  /** Where the pattern does not start, the first character is kept. */
  lemma ReplaceKeep(s: string, pat: string, rep: string)
    requires pat != [] && s != [] && !StartsWith(s, pat)
    ensures Replace(s, pat, rep) == [s[0]] + Replace(s[1..], pat, rep)
  {
  }

  /** `{{name}}` */
  function Placeholder(name: string): string { "{{" + name + "}}" }

  /** One placeholder is passed over while another is replaced. */
  lemma ReplaceOther(name: string, other: string, t: string, rep: string)
    requires name != [] && other != [] && name[0] != other[0] && '{' !in name + "}}"
    ensures Replace(Placeholder(name) + t, Placeholder(other), rep) == Placeholder(name) + Replace(t, Placeholder(other), rep)
  {
    var pat := Placeholder(other);
    var u := name + "}}";
    var s := Placeholder(name) + t;
    Assoc("{{" + name, "}}", t);
    Assoc("{{", name, "}}" + t);
    Assoc(name, "}}", t);
    assert s == "{{" + (u + t);
    assert s[2] == name[0] && pat[2] == other[0];
    ReplaceKeep(s, pat, rep);
    assert s[1] == '{' && pat[1] == '{';
    assert s[1..][1] == name[0];
    ReplaceKeep(s[1..], pat, rep);
    assert s[1..][1..] == u + t;
    ReplaceSkip(u, t, pat, rep);
    var r := Replace(t, pat, rep);
    assert [s[0]] + ([s[1]] + (u + r)) == "{{" + (u + r);
    Assoc("{{", u, r);
    Assoc("{{", name, "}}");
  }

  /** Seven pieces, grouped from the right. */
  lemma Nest(s1: string, s2: string, s3: string, s4: string, s5: string, s6: string, s7: string)
    ensures s1 + s2 + s3 + s4 + s5 + s6 + s7 == s1 + (s2 + (s3 + (s4 + (s5 + (s6 + s7)))))
  {
  }

  lemma NoBraceAbsent(d: string, name: string, rep: string)
    requires '{' !in d
    ensures Replace(d, Placeholder(name), rep) == d
  {
    assert Placeholder(name)[0] == '{';
    AbsentByChar(d, Placeholder(name), '{');
    ReplaceAbsent(d, Placeholder(name), rep);
  }

  /** The first pass puts the asset base in place of its placeholder. */
  lemma BasePass(a: string, b: string, c: string, d: string, x: string)
    requires '{' !in a && '{' !in b && '{' !in c && '{' !in d
    ensures var pa, pt, pc := Placeholder("asset_base"), Placeholder("title"), Placeholder("content");
      Replace(a + (pa + (b + (pt + (c + (pc + d))))), pa, x) == a + (x + (b + (pt + (c + (pc + d)))))
  {
    var pa, pt, pc := Placeholder("asset_base"), Placeholder("title"), Placeholder("content");
    assert pa[0] == '{';
    NoBraceAbsent(d, "asset_base", x);
    ReplaceOther("content", "asset_base", d, x);
    ReplaceSkip(c, pc + d, pa, x);
    ReplaceOther("title", "asset_base", c + (pc + d), x);
    ReplaceSkip(b, pt + (c + (pc + d)), pa, x);
    ReplaceHead(pa, b + (pt + (c + (pc + d))), x);
    ReplaceSkip(a, pa + (b + (pt + (c + (pc + d)))), pa, x);
  }

  /** The second pass puts the title in place of its placeholder. */
  lemma TitlePass(a: string, b: string, c: string, d: string, x: string, y: string)
    requires '{' !in a && '{' !in b && '{' !in c && '{' !in d && '{' !in x
    ensures var pt, pc := Placeholder("title"), Placeholder("content");
      Replace(a + (x + (b + (pt + (c + (pc + d))))), pt, y) == a + (x + (b + (y + (c + (pc + d)))))
  {
    var pt, pc := Placeholder("title"), Placeholder("content");
    assert pt[0] == '{';
    NoBraceAbsent(d, "title", y);
    ReplaceOther("content", "title", d, y);
    ReplaceSkip(c, pc + d, pt, y);
    ReplaceHead(pt, c + (pc + d), y);
    ReplaceSkip(b, pt + (c + (pc + d)), pt, y);
    ReplaceSkip(x, b + (pt + (c + (pc + d))), pt, y);
    ReplaceSkip(a, x + (b + (pt + (c + (pc + d)))), pt, y);
  }

  /** The third pass puts the content in place of its placeholder. */
  lemma ContentPass(a: string, b: string, c: string, d: string, x: string, y: string, z: string)
    requires '{' !in a && '{' !in b && '{' !in c && '{' !in d && '{' !in x && '{' !in y
    ensures var pc := Placeholder("content");
      Replace(a + (x + (b + (y + (c + (pc + d))))), pc, z) == a + (x + (b + (y + (c + (z + d)))))
  {
    var pc := Placeholder("content");
    assert pc[0] == '{';
    NoBraceAbsent(d, "content", z);
    ReplaceHead(pc, d, z);
    ReplaceSkip(c, pc + d, pc, z);
    ReplaceSkip(y, c + (pc + d), pc, z);
    ReplaceSkip(b, y + (c + (pc + d)), pc, z);
    ReplaceSkip(x, b + (y + (c + (pc + d))), pc, z);
    ReplaceSkip(a, x + (b + (y + (c + (pc + d)))), pc, z);
  }

  /** A template with each placeholder once, around text without braces,
      receives the asset base, the title and the content in their places,
      provided the asset base and the title carry no braces. */
  lemma RenderPageFills(a: string, b: string, c: string, d: string, assetBase: string, title: string, content: string)
    requires '{' !in a && '{' !in b && '{' !in c && '{' !in d
    requires '{' !in assetBase && '{' !in title
    ensures var pa, pt, pc := Placeholder("asset_base"), Placeholder("title"), Placeholder("content");
      RenderPage(a + pa + b + pt + c + pc + d, assetBase, title, content)
         == a + assetBase + b + title + c + content + d
  {
    var pa, pt, pc := Placeholder("asset_base"), Placeholder("title"), Placeholder("content");
    Nest(a, pa, b, pt, c, pc, d);
    BasePass(a, b, c, d, assetBase);
    TitlePass(a, b, c, d, assetBase, title);
    ContentPass(a, b, c, d, assetBase, title, content);
    Nest(a, assetBase, b, title, c, content, d);
  }

  /** A template without braces comes back unchanged. */
  lemma RenderPagePlain(tpl: string, assetBase: string, title: string, content: string)
    requires '{' !in tpl && '{' !in assetBase && '{' !in title
    ensures RenderPage(tpl, assetBase, title, content) == tpl
  {
    NoBraceAbsent(tpl, "asset_base", assetBase);
    NoBraceAbsent(tpl, "title", title);
    NoBraceAbsent(tpl, "content", content);
  }

  /** The content placeholder is replaced last, so a title that spells it
      out receives the content. */
  lemma TitleReceivesContent(content: string)
    ensures RenderPage(Placeholder("title"), "", Placeholder("content"), content) == content
  {
    assert |Placeholder("title")| < |Placeholder("asset_base")|;
    ReplaceWhole(Placeholder("title"), Placeholder("content"));
    ReplaceWhole(Placeholder("content"), content);
  }

  // ---------------------------------------------------------------------
  // Templates with placeholders in any order, any number of times

  /** The names `render_page` fills. */
  predicate IsSlot(n: string) { n == "asset_base" || n == "title" || n == "content" }

  /** Text that cannot start or complete a placeholder: it holds no `{{`
      and does not begin with `{`.  Single braces, as in an inline script,
      are allowed. */
  predicate Inert(s: string) {
    (s == [] || s[0] != '{') && NoDoubleBrace(s)
  }

  predicate NoDoubleBrace(s: string) {
    forall i :: 0 <= i < |s| - 1 ==> s[i] != '{' || s[i + 1] != '{'
  }

  /** What may follow inert text: nothing, a character other than `{`,
      or `{{` and then a character other than `{`. */
  predicate SafeHead(y: string) {
    y == [] || y[0] != '{' || (|y| >= 3 && y[1] == '{' && y[2] != '{')
  }

  /** `pieces[0] + holes[0] + pieces[1] + … + holes[n-1] + pieces[n]` */
  function Weave(pieces: seq<string>, holes: seq<string>): string
    requires |pieces| == |holes| + 1
  {
    if holes == [] then pieces[0] else pieces[0] + (holes[0] + Weave(pieces[1..], holes[1..]))
  }

  /** The placeholder for each name. */
  function Placeholders(names: seq<string>): (hs: seq<string>)
    ensures |hs| == |names| && forall k :: 0 <= k < |names| ==> hs[k] == Placeholder(names[k])
  {
    if names == [] then [] else [Placeholder(names[0])] + Placeholders(names[1..])
  }

  /** The value `render_page` puts in for a name. */
  function Value(n: string, assetBase: string, title: string, content: string): string {
    if n == "asset_base" then assetBase else if n == "title" then title else content
  }

  /** The value for each name. */
  function Values(names: seq<string>, assetBase: string, title: string, content: string): (vs: seq<string>)
    ensures |vs| == |names| && forall k :: 0 <= k < |names| ==> vs[k] == Value(names[k], assetBase, title, content)
  {
    if names == [] then [] else [Value(names[0], assetBase, title, content)] + Values(names[1..], assetBase, title, content)
  }

  /** Any template made of inert text and placeholders, each of which may
      appear any number of times and in any order, becomes the same text
      with every placeholder replaced by its value, provided the asset base
      and the title are inert too (the content is put in last, so it may
      hold anything). */
  lemma RenderPageWeave(pieces: seq<string>, names: seq<string>, assetBase: string, title: string, content: string)
    requires |pieces| == |names| + 1
    requires forall k :: 0 <= k < |pieces| ==> Inert(pieces[k])
    requires forall k :: 0 <= k < |names| ==> IsSlot(names[k])
    requires Inert(assetBase) && Inert(title)
    ensures RenderPage(Weave(pieces, Placeholders(names)), assetBase, title, content)
         == Weave(pieces, Values(names, assetBase, title, content))
  {
    HolesEnds(names, assetBase, title, content);
    var w0 := Weave(pieces, Holes(names, 0, assetBase, title, content));
    var w1 := Weave(pieces, Holes(names, 1, assetBase, title, content));
    var w2 := Weave(pieces, Holes(names, 2, assetBase, title, content));
    var w3 := Weave(pieces, Holes(names, 3, assetBase, title, content));
    FillPass(pieces, names, 0, assetBase, title, content);
    assert Replace(w0, Placeholder("asset_base"), assetBase) == w1;
    FillPass(pieces, names, 1, assetBase, title, content);
    assert Replace(w1, Placeholder("title"), title) == w2;
    FillPass(pieces, names, 2, assetBase, title, content);
    assert Replace(w2, Placeholder("content"), content) == w3;
  }

  /** The position of a name in the order `render_page` fills them. */
  function SlotIndex(n: string): nat {
    if n == "asset_base" then 0 else if n == "title" then 1 else 2
  }

  function SlotName(k: nat): string {
    if k == 0 then "asset_base" else if k == 1 then "title" else "content"
  }

  /** The holes after `filled` passes: a name among the first `filled`
      shows its value, any other its placeholder. */
  function Holes(names: seq<string>, filled: nat, assetBase: string, title: string, content: string): (hs: seq<string>)
    ensures |hs| == |names|
  {
    if names == [] then []
    else [Hole(names[0], filled, assetBase, title, content)] + Holes(names[1..], filled, assetBase, title, content)
  }

  function Hole(n: string, filled: nat, assetBase: string, title: string, content: string): string {
    if SlotIndex(n) < filled then Value(n, assetBase, title, content) else Placeholder(n)
  }

  /** Before the first pass every hole is a placeholder; after the last,
      every hole is a value. */
  lemma {:induction false} HolesEnds(names: seq<string>, assetBase: string, title: string, content: string)
    ensures Holes(names, 0, assetBase, title, content) == Placeholders(names)
    ensures Holes(names, 3, assetBase, title, content) == Values(names, assetBase, title, content)
  {
    if names != [] {
      HolesEnds(names[1..], assetBase, title, content);
    }
  }

  /** What the first `filled` passes put in is inert. */
  predicate FilledInert(filled: nat, assetBase: string, title: string) {
    (filled >= 1 ==> Inert(assetBase)) && (filled >= 2 ==> Inert(title))
  }

  /** One pass of `str.replace` fills every hole of the next name and no
      other. */
  lemma {:induction false} FillPass(pieces: seq<string>, names: seq<string>, filled: nat, assetBase: string, title: string, content: string)
    requires |pieces| == |names| + 1 && filled < 3
    requires forall k :: 0 <= k < |pieces| ==> Inert(pieces[k])
    requires forall k :: 0 <= k < |names| ==> IsSlot(names[k])
    requires FilledInert(filled, assetBase, title)
    ensures var n := SlotName(filled);
      Replace(Weave(pieces, Holes(names, filled, assetBase, title, content)), Placeholder(n), Value(n, assetBase, title, content))
        == Weave(pieces, Holes(names, filled + 1, assetBase, title, content))
    decreases |names|
  {
    var n := SlotName(filled);
    var v := Value(n, assetBase, title, content);
    var pat := Placeholder(n);
    PlaceholderHead(n);
    if names == [] {
      InertSkip(pieces[0], [], pat, v);
      assert pieces[0] + [] == pieces[0];
    } else {
      var hs := Holes(names, filled, assetBase, title, content);
      var rest := Weave(pieces[1..], hs[1..]);
      WeaveHead(pieces[1..], names[1..], filled, assetBase, title, content);
      HoleHead(names[0], filled, assetBase, title, content, rest);
      InertSkip(pieces[0], hs[0] + rest, pat, v);
      HolePass(names[0], filled, assetBase, title, content, rest);
      FillPass(pieces[1..], names[1..], filled, assetBase, title, content);
    }
  }

  /** A placeholder is `{{`, then a letter. */
  lemma PlaceholderHead(n: string)
    requires IsSlot(n)
    ensures var p := Placeholder(n); |p| >= 3 && p[0] == '{' && p[1] == '{' && p[2] == n[0] && n[0] != '{'
  {
  }

  /** A hole followed by text that may follow inert text is such text too. */
  lemma HoleHead(name: string, filled: nat, assetBase: string, title: string, content: string, rest: string)
    requires IsSlot(name) && SafeHead(rest) && filled < 3 && FilledInert(filled, assetBase, title)
    ensures SafeHead(Hole(name, filled, assetBase, title, content) + rest)
  {
    var h := Hole(name, filled, assetBase, title, content);
    if SlotIndex(name) >= filled {
      PlaceholderHead(name);
    } else if h == [] {
      assert h + rest == rest;
    }
  }

  /** A woven template starts with text that may follow inert text. */
  lemma {:induction false} WeaveHead(pieces: seq<string>, names: seq<string>, filled: nat, assetBase: string, title: string, content: string)
    requires |pieces| == |names| + 1 && filled < 3
    requires forall k :: 0 <= k < |pieces| ==> Inert(pieces[k])
    requires forall k :: 0 <= k < |names| ==> IsSlot(names[k])
    requires FilledInert(filled, assetBase, title)
    ensures SafeHead(Weave(pieces, Holes(names, filled, assetBase, title, content)))
    decreases |names|
  {
    if names != [] {
      var hs := Holes(names, filled, assetBase, title, content);
      var rest := Weave(pieces[1..], hs[1..]);
      WeaveHead(pieces[1..], names[1..], filled, assetBase, title, content);
      HoleHead(names[0], filled, assetBase, title, content, rest);
      if pieces[0] == [] {
        assert Weave(pieces, hs) == hs[0] + rest;
      }
    }
  }

  /** The pass over one hole: a hole of the name being filled takes its
      value, any other hole is copied. */
  lemma HolePass(name: string, filled: nat, assetBase: string, title: string, content: string, rest: string)
    requires IsSlot(name) && filled < 3 && FilledInert(filled, assetBase, title) && SafeHead(rest)
    ensures var n := SlotName(filled);
      var v := Value(n, assetBase, title, content);
      Replace(Hole(name, filled, assetBase, title, content) + rest, Placeholder(n), v)
        == Hole(name, filled + 1, assetBase, title, content) + Replace(rest, Placeholder(n), v)
  {
    var n := SlotName(filled);
    var v := Value(n, assetBase, title, content);
    PlaceholderHead(n);
    if name == n {
      ReplaceHead(Placeholder(n), rest, v);
    } else if SlotIndex(name) < filled {
      InertSkip(Value(name, assetBase, title, content), rest, Placeholder(n), v);
    } else {
      ReplaceOther(name, n, rest, v);
    }
  }

  /** No placeholder starts inside text without `{{` that is followed by
      text that may follow inert text. */
  lemma {:induction false} InertSkip(x: string, y: string, pat: string, v: string)
    requires |pat| >= 3 && pat[0] == '{' && pat[1] == '{' && pat[2] != '{'
    requires NoDoubleBrace(x) && SafeHead(y)
    ensures Replace(x + y, pat, v) == x + Replace(y, pat, v)
    decreases |x|
  {
    if x != [] {
      var s := x + y;
      InertNoStart(x, y, pat);
      ReplaceKeep(s, pat, v);
      assert s[1..] == x[1..] + y;
      NoDoubleBraceTail(x);
      InertSkip(x[1..], y, pat, v);
      assert s[0] == x[0];
      HeadTail(x, Replace(y, pat, v));
    } else {
      assert x + y == y;
    }
  }

  /** The pattern does not start at the head of inert text. */
  lemma InertNoStart(x: string, y: string, pat: string)
    requires |pat| >= 3 && pat[0] == '{' && pat[1] == '{' && pat[2] != '{'
    requires x != [] && NoDoubleBrace(x) && SafeHead(y)
    ensures !StartsWith(x + y, pat)
  {
    var s := x + y;
    if |s| >= |pat| && x[0] == '{' {
      if |x| >= 2 {
        assert s[1] == x[1] != '{';
      } else {
        assert s[1..] == y;
      }
      assert s[..|pat|][1] == s[1] && s[..|pat|][2] == s[2];
    }
  }

  lemma NoDoubleBraceTail(x: string)
    requires x != [] && NoDoubleBrace(x)
    ensures NoDoubleBrace(x[1..])
  {
    forall i | 0 <= i < |x[1..]| - 1 ensures x[1..][i] != '{' || x[1..][i + 1] != '{' {
      assert x[1..][i] == x[i + 1] && x[1..][i + 1] == x[i + 2];
    }
  }

  /** Text without `{` is inert. */
  lemma NoBraceInert(s: string)
    requires '{' !in s
    ensures Inert(s)
  {
  }

  /** Text without `{{` stays so when joined to such text, unless a `{`
      ends the first and starts the second. */
  lemma NoDoubleBraceAppend(a: string, b: string)
    requires NoDoubleBrace(a) && NoDoubleBrace(b) && (a == [] || b == [] || a[|a| - 1] != '{' || b[0] != '{')
    ensures NoDoubleBrace(a + b)
  {
    forall i | 0 <= i < |a + b| - 1 ensures (a + b)[i] != '{' || (a + b)[i + 1] != '{' {
      if i + 1 < |a| {
        assert (a + b)[i] == a[i] && (a + b)[i + 1] == a[i + 1];
      } else if i >= |a| {
        assert (a + b)[i] == b[i - |a|] && (a + b)[i + 1] == b[i + 1 - |a|];
      }
    }
  }

  /** A template whose head is laid out like the home page's
      (build.py:253-263): an inline script whose body sits in braces, then
      the title, then the asset base twice, for the style sheet and for
      the script, and the content after.  Every placeholder is filled,
      both asset links included, and the braces of the script are left
      alone. */
  lemma RenderPageHeadLayout(pre: string, body: string, post: string, p1: string, p2: string, p3: string,
                             assetBase: string, title: string, content: string)
    requires pre != [] && '{' !in pre && '{' !in body && '{' !in post
    requires '{' !in p1 && '{' !in p2 && '{' !in p3
    requires Inert(assetBase) && Inert(title)
    ensures var pieces := [pre + "{" + body + "}" + post, p1, p2, p3, ""];
      RenderPage(Weave(pieces, Placeholders(["title", "asset_base", "asset_base", "content"])), assetBase, title, content)
        == Weave(pieces, [title, assetBase, assetBase, content])
  {
    var pieces := [pre + "{" + body + "}" + post, p1, p2, p3, ""];
    var names := ["title", "asset_base", "asset_base", "content"];
    ScriptInert(pre, body, post);
    NoBraceInert(p1);
    NoBraceInert(p2);
    NoBraceInert(p3);
    assert forall k :: 0 <= k < |pieces| ==> Inert(pieces[k]);
    HeadNames(assetBase, title, content);
    RenderPageWeave(pieces, names, assetBase, title, content);
  }

  /** The head's placeholder names, in the order the home page's layout
      uses them, and the values they stand for. */
  lemma HeadNames(assetBase: string, title: string, content: string)
    ensures var names := ["title", "asset_base", "asset_base", "content"];
      (forall k :: 0 <= k < |names| ==> IsSlot(names[k]))
      && Values(names, assetBase, title, content) == [title, assetBase, assetBase, content]
  {
    var names := ["title", "asset_base", "asset_base", "content"];
    SlotValues(assetBase, title, content);
    var vs := Values(names, assetBase, title, content);
    assert vs[0] == title && vs[1] == assetBase && vs[2] == assetBase && vs[3] == content;
  }

  /** Each placeholder name selects its own value. */
  lemma SlotValues(assetBase: string, title: string, content: string)
    ensures Value("asset_base", assetBase, title, content) == assetBase
    ensures Value("title", assetBase, title, content) == title
    ensures Value("content", assetBase, title, content) == content
  {
  }

  /** Single braces around brace-free text are inert, when text comes first. */
  lemma ScriptInert(pre: string, body: string, post: string)
    requires pre != [] && '{' !in pre && '{' !in body && '{' !in post
    ensures Inert(pre + "{" + body + "}" + post)
  {
    NoBraceInert(pre);
    NoBraceInert(body + "}" + post);
    NoDoubleBraceAppend(pre + "{", body + "}" + post);
    assert pre + "{" + body + "}" + post == (pre + "{") + (body + "}" + post);
  }


}
