# build-pages: a verified model of the page builder's core

`build.py` turns a directory tree of markdown files (a "book") into a static
site. Each markdown file becomes an HTML page, and each directory gets an
index page. This project models the logic at the centre of that program in
Dafny and proves properties of it:

- **Name helpers** (module `Slug`):
  - `slugify` turns a name into a URL-safe segment.
  - `split_num_label` splits a dotted number such as `2.1` from the front of a label.
  - `_is_abs_url` decides whether an image source is kept as written.
- **The inline formatter `inline_html`** (module `InlineFormat`):
  - it HTML-escapes the text;
  - it protects math spans behind `@@MATHi@@` tokens;
  - it rewrites images, links, code, bold and italic with one scanner per pattern;
  - it restores the tokens in index order.

  `InlineHtml` is the restore loop as a method, proved equal to the function `RenderInline`.
- **The block renderer `md_to_html`** (module `Blocks`). It is a line-by-line state machine. Its state is:
  - the output lines;
  - the pending paragraph;
  - the stack of open lists.

  The class `Renderer` holds this state as fields. Its methods `FlushPara`, `SetListDepth` and `Feed` change the state and are proved against the functions `Flush`, `SetDepth` and `Step`. The method `MdToHtml` runs the loop and is proved equal to `RenderBlocks`.
- **The pure pieces of `build()`** (module `Site`):
  - grouping the markdown files into sections keyed by their first path part, with the methods that fill the dict;
  - a page's output segments and URL, with the last-dot scan (`RFind`) behind a file's `stem`;
  - the page title, and dropping a first heading that repeats it;
  - the body of a directory index page;
  - the placeholder substitution of `render_page`.

Two support modules back them:
- `Text` holds the Python string builtins the code relies on: `isspace`, `strip`, ASCII `lower`, `join`, `replace`, `splitlines`, `split` and decimal formatting.
- `Order` holds the code-point order on strings and paths. It also holds an insertion sort that stands for `sorted`.

All inputs that come from the filesystem are parameters:
- directory listings are sequences of `Entry`;
- the `rglob` result is a sequence of relative paths;
- the page records of a directory are a sequence of `PageRef`;
- the template is a string.

## Model

| member | source | states |
|---|---|---|
| Slug.Slugify | build.py:5-9 | The result is a slug. It is non-empty and uses only `[a-z0-9-]`. It has no `--` and no leading or trailing `-`. |
| Slug.SlugifyKeepsAlnums | build.py:5-9 | A name with no ASCII letter or digit after lower-casing gives `index`. Any other name gives a slug whose letters and digits are exactly those of the lower-cased name, in order. |
| Slug.SlugifyFixesSlugs | build.py:5-9 | Every slug is its own slug. |
| Slug.SlugifyIdempotent | build.py:5-9 | `slugify(slugify(s)) == slugify(s)` for every string. |
| Slug.SlugifyJoinsRuns | build.py:5-9 | The slug is the maximal `[a-z0-9]` runs of the stripped, lower-cased name, joined by single `-`, or `index` when there is no run. Every other character only separates two runs. |
| Slug.AlnumRunsWords | build.py:7 | Every run between the separators is a non-empty string of `[a-z0-9]`. |
| Slug.SplitNumLabelSound | build.py:11-15 | A non-empty number comes back only when the stripped name is a dotted number, a whitespace run and a non-empty caption without a line feed. In that case the number and the caption are those parts. An empty number comes back with the stripped name. |
| Slug.SplitNumLabelComplete | build.py:11-15 | Every stripped name of the shape dotted number, whitespace, caption is split into exactly that number and caption. |
| Slug.SplitNumLabelPlain | build.py:12-15 | A stripped name that is empty or does not start with a digit gives `''` and the stripped name. |
| Slug.SplitNumLabelExample | build.py:11-15 | `"2.1 Utility Functions"` gives `("2.1", "Utility Functions")`. |
| Slug.IsAbsUrl | build.py:17-18 | The result is true exactly when the source starts with `/` (which covers `//`) or with `data:`, or is a non-empty run of lower-case letters followed by `://`. |
| InlineFormat.Escape | build.py:21 | No `<`, `>`, `"` or `'` survives escaping, and the text never gets shorter. |
| InlineFormat.EscapeChars | build.py:21 | Every character of the escaped text is from the input, or is one of the letters, digits, `&`, `#` and `;` that make up an entity. |
| InlineFormat.EscapePlain | build.py:21 | Text without any of `& < > " '` is left unchanged by escaping. |
| InlineFormat.SpanAt | build.py:24-28 | A span is found at the head exactly when the text starts with the opening delimiter and the closing one occurs after at least one more character. The span then ends at the first such closing delimiter, as the lazy `(.+?)` does. |
| InlineFormat.Protect | build.py:24-32 | A protect pass keeps the tokens captured before it. Every span it adds starts with the opening delimiter, holds at least one character and ends with the closing delimiter. |
| InlineFormat.ProtectRoundTrip | build.py:24-28 | Nothing is lost by a protect pass: putting each captured span back at its own placeholder, in index order, gives the input text again. |
| InlineFormat.ProtectNoOpen | build.py:24-32 | A text in which the opening delimiter never occurs passes through unchanged, and no span is captured. |
| InlineFormat.InlineHtml | build.py:20-57 | The method, with its restore loop over the captured tokens, returns `RenderInline`. That function is escape, the four protect passes, the five rewrites and the restores, in that order. |
| InlineFormat.MathSpanVerbatim | build.py:21-56 | `$x$`, with `x` free of `$`, renders as `$` + escaped `x` + `$`, whatever `*`, `` ` ``, `[` or `!` it contains. The output contains no `<`, so no tag is introduced inside the span. |
| InlineFormat.MathSpanInText | build.py:20-57 | A `$x$` span inside any surrounding text without other `$` or `\` comes out whole, as `$` + escaped `x` + `$`, whatever images, links, code or emphasis surround it. |
| InlineFormat.ProtectMathAround | build.py:29-32 | In such a text the four protect passes capture exactly the one span, as token 0, and leave the rest of the text as it is around its placeholder. |
| InlineFormat.RewriteKeeps | build.py:49-53 | The five rewrites keep whole every non-empty text of their input that holds none of `! [ ] ( ) `` ` `` *`, such as a placeholder. |
| InlineFormat.MathExample | build.py:21-56 | `$a*b*c$` renders unchanged: the stars inside math become no emphasis. |
| InlineFormat.BoldThenItalic | build.py:52-53 | `**x**` followed by a middle and `*y*` renders as `<strong>x</strong>`, the middle, `<em>y</em>`, for plain `x`, middle and `y`. |
| InlineFormat.BoldItalicExample | build.py:52-53 | `**bold** and *italic*` renders as `<strong>bold</strong> and <em>italic</em>`. |
| InlineFormat.ItalicRefusesDoubleStar | build.py:53 | The italic pass leaves `**x**` unchanged: a star next to another star starts no italic span. |
| InlineFormat.PlainUnchanged | build.py:20-57 | Text with no markup, math or escape character renders unchanged. |
| InlineFormat.SubNoTrigger | build.py:49-53 | A rewrite pass leaves alone any text without the first character of its pattern. |
| InlineFormat.LinkSpan | build.py:50 | The link pass replaces `[t](u)`, with `t` free of `]` and `u` free of `)`, by `<a href="u">t</a>`, then goes on after the closing `)`. |
| InlineFormat.CodeSpan | build.py:51 | The code pass replaces `` `x` ``, with `x` free of backticks, by `<code>x</code>`, then goes on after the closing backtick. |
| InlineFormat.ImageSpan | build.py:34-49 | The image pass replaces `![alt](src)` by `<img src="…" alt="alt">` with the rewritten source, then goes on after the closing `)`. |
| InlineFormat.ImageRender | build.py:17-49 | A plain image whose source is absolute keeps its source. Any other source becomes `asset_base + "/assets/media/" + rel_dir + "/" + src`. |
| InlineFormat.NestedMathLeaksPlaceholder | build.py:29-56 | `\[$x$\]` renders as `\[@@MATH0@@\]`. The inner `$x$` is captured first, as token 0. The outer span is captured next, as token 1, and holds the placeholder of token 0. Token 0 is restored before token 1 brings that placeholder back, so the placeholder stays in the output. |
| Blocks.RawAndBlankTests | build.py:76-78 | The scan `Classify` uses finds a first non-space `<` exactly when `line.lstrip().startswith('<')`. It finds an all-space line exactly when `not line.strip()`. |
| Blocks.ClassifyHeading | build.py:80-84 | One to six `#`, a whitespace run and text not starting with whitespace form a heading of that level with that text. |
| Blocks.HeadingShape | build.py:80 | Conversely, a line classed as a heading of level `l` with text `t` is `l` `#`s (1 to 6), a non-empty whitespace run and `t`, which does not start with whitespace. |
| Blocks.ClassifyRule | build.py:85-86 | Three or more `-` followed only by whitespace form a rule. |
| Blocks.RuleShape | build.py:85-86 | Conversely, a line classed as a rule is three or more `-` followed only by whitespace. |
| Blocks.ClassifyBullet | build.py:87-93 | An indent of spaces and tabs, a `-` or `*`, whitespace and text form a bullet with that indent and text. |
| Blocks.BulletShape | build.py:63 | Conversely, a line classed as a bullet with indent `i` and text `t` is `i` (spaces and tabs only), a `-` or `*`, a non-empty whitespace run and `t`, which does not start with whitespace. |
| Blocks.Flush | build.py:64-68 | Flushing leaves the buffer empty and the depth unchanged. A non-empty buffer appends exactly one paragraph line. An empty buffer changes nothing. |
| Blocks.SetDepth | build.py:69-73 | After setting the depth it is the one asked for, and the pending paragraph is untouched. |
| Blocks.Renderer.constructor | build.py:61-62 | A new renderer has no output, no pending lines and no open list. |
| Blocks.Renderer.FlushPara | build.py:64-68 | The new state is `Flush` of the old one, and the list stack is untouched. |
| Blocks.Renderer.SetListDepth | build.py:69-73 | The new state is `SetDepth` of the old one, and the stack length is exactly `depth`. |
| Blocks.Renderer.Feed | build.py:75-94 | One pass of the loop body moves the state by `Step`, and every stack entry stays `ul`. |
| Blocks.MdToHtml | build.py:59-96 | The method's output is `RenderBlocks`: the lines run through `Step` from the empty state, then a final flush and a reset to depth 0, joined by `\n`. |
| Blocks.ApplyFlushes | build.py:64-94 | A paragraph line only joins the pending lines. Any other line first emits the pending paragraph, if there is one, and leaves the buffer empty. |
| Blocks.RunParagraph | build.py:94 | Consecutive paragraph lines only accumulate in the buffer. |
| Blocks.OneParagraph | build.py:60-96 | A document of paragraph lines, with or without a final line break, renders as one `<p>` holding the inline rendering of its lines joined by spaces and stripped. |
| Blocks.FinishParagraph | build.py:95 | At the end of the input, from any state with pending lines, those lines become exactly one paragraph after the earlier output. Every open list is then closed, and the state has no pending lines and depth 0. |
| Blocks.HeadingLine | build.py:80-84 | A heading line flushes, closes every open list and emits `<hN>…</hN>`. The depth becomes 0. |
| Blocks.BulletLine | build.py:87-93 | A bullet line flushes and opens or closes lists until `min(6, width/2) + 1` are open, a tab counting 4 columns. It then emits the item. |
| Blocks.BulletDepthWidth | build.py:90-92 | The depth taken from the tab-expanded indent is `min(6, width/2) + 1`, with tabs counted as 4. |
| Blocks.LineOfPlainLine | build.py:75 | A line without a line boundary, as `splitlines` yields, is unchanged by `rstrip('\n')`. |
| Blocks.RunBalanced | build.py:69-95 | Each loop step keeps the emitted `<ul>`/`</ul>` lines nested. It also keeps their count of open lists equal to the depth of the state. |
| Blocks.ListsBalanced | build.py:69-96 | No prefix of the output closes more lists than it opened, and every `<ul>` is closed by the end. |
| Order.SortPaths | build.py:124 | The result is sorted and a permutation of the input. |
| Order.SortSorted | build.py:114-124 | Insertion sort under a total order yields a sorted permutation. |
| Site.SortEntries | build.py:114 | The listing comes back sorted by name and is a permutation of the input. |
| Site.Touch | build.py:116 | `setdefault(key, [])` appends the key only when it is new and changes no group. |
| Site.AddTo | build.py:122 | `setdefault(key, []).append(p)` appends the key only when it is new and adds `p` to that key's group alone. |
| Site.SeedSections | build.py:114-116 | The loop builds `Seed`: one empty group per visible directory, keys distinct. |
| Site.CollectFiles | build.py:117-122 | The loop builds `Collect`. Each file is added under its first part. |
| Site.SortEach | build.py:123-124 | The loop builds `SortGroups`: every group sorted in place. |
| Site.GroupSections | build.py:113-124 | The three loops together build `Sections`. |
| Site.SeedFacts | build.py:114-116 | The seeded keys are distinct and their groups empty. A key is seeded exactly when it names a visible directory of the listing. |
| Site.CollectGroups | build.py:117-122 | After collecting, each key's group is its old group followed by the files whose first part is that key, in listing order. |
| Site.CollectMembers | build.py:117-122 | A key is present after collecting exactly when it was present before or some file lies under it. |
| Site.SectionsGroupFiles | build.py:113-124 | Each section's files are the files under that key, sorted, and a permutation of them. |
| Site.SectionsLabels | build.py:113-124 | A key exists exactly when it is a visible directory of the book root or the first part of some file. Root files and files under hidden directories count too. |
| Site.SectionsOrder | build.py:113-124 | Keys are distinct. The visible directories come first, and they are in sorted order. |
| Site.RFind | build.py:136 | The index is the last position of the character, or -1 when it is absent. |
| Site.StemOfFile | build.py:136-140 | The stem of `base.ext`, with `ext` free of dots, is `base`. |
| Site.PageUrlParts | build.py:135-152 | The URL starts with `/pages/`. Splitting the rest at `/` gives back the slugged directories and the slugged stem plus `.html`, one segment per part. |
| Site.SegmentsHaveNoSlash | build.py:135-137 | No output segment contains a `/`. |
| Site.TitleOfNumbered | build.py:140-141 | A numbered stem's title is the number, one space and the caption. |
| Site.TitleOfPlain | build.py:140-141 | When no number splits off, the title is the stripped stem. |
| Site.HeadingOf | build.py:143-144 | `# t`, with `t` stripped, matches the heading test, and its text is `t`. |
| Site.DuplicateHeadingDropped | build.py:142-147 | A first line `# t` that repeats the title or the caption, ignoring case, is removed. The other lines come back joined by `\n`. The file may end in a line break, and then its last line may be blank; the result has no final line break. |
| Site.HeadingDropped | build.py:142-147 | The same, for any first line that passes the heading test, with or without a final line break. |
| Site.NoHeadingKept | build.py:142-143 | A document whose first line is no heading is returned exactly as given. |
| Site.OtherHeadingKept | build.py:142-147 | A first line `# t` whose `t` repeats neither the title nor the caption, ignoring case, stays. The lines are joined again unchanged, so only a final line break is lost. |
| Site.ChildNamesFacts | build.py:183 | The subdirectory names of an index are sorted, a name is among them exactly when some visible directory of the listing has it, and there is one name per visible directory. |
| Site.IndexTitleOfSectionDir | build.py:174-201 | For a directory under the section's own directory, the title is the directory's own name. The section directory itself gets the section key. |
| Site.IndexBodyLines | build.py:186-200 | The index body consists, line by line, of the Subsections list and the Pages list, each present only when non-empty. When both are present, an `<hr>` line separates them. When neither is, the body is the `Coming soon` line. |
| Site.ItemListLines | build.py:193-198 | An item list is its `<h2>` heading, `<ul>`, one line per item and `</ul>`. |
| Site.ComingSoon | build.py:199-200 | The body is `<p>Coming soon.</p>` exactly when there are no subdirectories and no pages. |
| Site.ChildLinkTarget | build.py:190-192 | A subsection link points to `asset_base + "/pages/"` and the slugged parts of the child directory, followed by `index.html`, the file written for it at build.py:180, 202. |
| Site.RenderPageFills | build.py:100 | A template with each placeholder once, around brace-free text, gets the asset base, the title and the content in their places. |
| Site.RenderPageWeave | build.py:100 | Any template made of text pieces and placeholders, in any order and any number of times, gets each placeholder replaced by its own value. The pieces, the asset base and the title must be inert; the content may be anything. |
| Site.RenderPageHeadLayout | build.py:100 | A template whose script body sits in braces, with the title before the asset base and the asset base used twice, gets every placeholder filled and its braces kept. |
| Site.RenderPagePlain | build.py:100 | A brace-free template comes back unchanged. |
| Site.TitleReceivesContent | build.py:100 | The replacements are sequential, so a title that spells out `{{content}}` receives the content. |
| Text.SplitJoinLines | build.py:142-147 | Lines free of line breaks, the last one non-empty, survive `'\n'.join` followed by `splitlines`. |
| Text.SplitFileText | build.py:60 | `splitlines` gives back the lines of a file, with or without a final line break. With one, the last line may be empty. |
| Text.SplitJoin | build.py:152 | Segments without `/` joined by `/` split back into the same segments. |

## Left out

- A failing `iterdir()` is not modelled. The source then uses an empty child list (build.py:162-165 and 182-185). Here the listing is always an input.
- File system work is not modelled. That covers `rmtree`, `mkdir`, reading and writing files, `iterdir` and `rglob` (build.py:103-110, 138-139, 151, 180-181, 202). Listings, file lists and file contents are parameters instead.
- The image copy (build.py:39-46) is not modelled. Only the rewrite of the source (build.py:47-48) is. The exception it swallows has no counterpart.
- The directory walk `all_dirs` (build.py:174-177) is not modelled. The index body and title take the directory, its sorted listing and its page records as inputs.
- The `pages_by_dir` dictionary (build.py:128, 154) is not modelled. Its per-directory lists enter the index body as a `PageRef` sequence.
- The manifest, sidebar data, JSON output, timestamp, sidebar HTML and home page (build.py:126-127, 132, 153, 156-171, 203-287) are not modelled. They are I/O and data assembly with no further logic.
- Command-line handling (build.py:289-304) and the progress `print` (build.py:155) are not modelled.
- Python's general regex engine is not modelled. Each pattern becomes its own scanner.
- `lower()` and `\d` are ASCII only, here and in the heading comparison at build.py:145. Unicode case folding and non-ASCII digits are not modelled. `isspace` and `\s` are the explicit Unicode whitespace list.
- `html.escape` is modelled as its five-character map.
- Image sources keep `rel_dir.as_posix()` as the `relDir` string of `Ctx`. `src_root` and `media_root` only matter to the copy.
- Sorting stands in for `sorted`. Paths compare part by part in code-point order. `Path` objects are sequences of parts.
- Blocks.ListsBalanced requires that no raw line is exactly `<ul>` or `</ul>`. Raw lines pass through verbatim and would otherwise count as list marks.
- Site.SectionsOrder states the order only for the seeded directories. Later keys follow the order of the `rglob` input, and no lemma states it separately.
- InlineFormat.ProtectMath has no contract of its own. Its four passes are described by `Protect`.
- InlineFormat.ImageSrc has no contract of its own. What it produces is stated by `ImageRender`.
- InlineFormat.ProtectRoundTrip requires a text without `@`. A text that already spells a placeholder would be filled as well.
- InlineFormat.ProtectRoundTrip states the round trip with `Fill`, which puts each span back at its own placeholder. The source's restore loop, modelled as `Restored`, runs `str.replace` over the whole text instead. The two differ when a span holds placeholder text, as `NestedMathLeaksPlaceholder` shows. No lemma relates `Restored` to `Fill` in general.
- InlineFormat.MathSpanInText covers one span in a text without other `$` or `\`. Several spans, and spans beside `\[` or `\(`, are covered only by the examples.
- Site.RenderPageWeave requires inert text pieces, asset base and title: none of them holds `{{` or starts with `{`. Without this, a title ending in `{` followed by the text `{content}}` would form a new placeholder across the junction. `TitleReceivesContent` shows a title that is filled in turn.
- Site.RenderPageFills covers only a template with each placeholder once, in the order asset base, title, content, around brace-free text. `RenderPageWeave` is the general statement.
