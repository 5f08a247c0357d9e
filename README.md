# zite: a verified model of the static-site generator

zite turns a source directory (`Src`, by default "src") into a web site in
an output directory (`Out`, by default "www"). It reads the source tree into
a tree of `Element`s:

- a directory becomes a "dir" element whose children are its entries, with
  entries whose names start with '_' skipped;
- a ".md" file becomes a "page" titled by its first line, with the text
  after its second line as its content;
- an ".html" file becomes a "page" whose content has every
  `{{include name}}` directive replaced by the file it names;
- anything else becomes a plain "file".

It then walks the tree depth first. Plain files are copied. Pages are
rendered through Go's `text/template`: an ".html" page is its own template,
and a ".md" page uses the nearest `_template.html` found by going up the
directories. Each page is written with its extension made ".html". The walk
stops at the first error.

The model is split into seven modules, one per part of `zite.go`:

| file | module | what it holds |
|---|---|---|
| `common.dfy` | `Common` | `Error` (a Go error return or a panic), `Result`, `Option` |
| `text.dfy` | `Text` | the `strings` functions used: `Index`, `Replace(…, 1)`, `Split`/`Join` on "\n" |
| `paths.dfy` | `Paths` | `filepath.Ext`/`Base`/`Dir`/`Join`, `ensureExt`, `pathToURL`, `stripPath` |
| `includes.dfy` | `Includes` | `replaceIncludes`: a direct scanner for the directive pattern, then substitution from a file map |
| `site.dfy` | `Site` | the filesystem value, `readFile`, `getTemplate`, `renderFile`'s dispatch |
| `tree.dfy` | `Tree` | the `Element` class, `String`, and `readDirectory` as an imperative loop that sets `Parent` and appends to `Children` |
| `generate.dfy` | `Generate` | `generate` as a method over the `Element` tree, and `main` |

Other inputs become parameters:

- The filesystem is a value: file contents by path, and directory listings
  by path, in listing order.
- The template engine is a function parameter from a template text and a
  page to a `Result`.
- `Src` and `Out` are a `Config` value.
- `generate` returns the writes it performs, in order, instead of
  performing them. The error that stopped it comes with them.

The imperative code is proved against specification functions:

- `ReadDirectory` builds the same tree as `BuildDir`.
- `Generate` produces the outcome of `RunLeaves` over the tree's files and
  pages.

What the source promises is proved as lemmas about those functions.

## Model

| member | source | states |
|---|---|---|
| Text.IndexOf | zite.go:231 | The result is the first position at which `sub` occurs in `s`; `None` exactly when it occurs nowhere (`strings.Index`, used by `strings.Replace`). |
| Text.ReplaceFirst | zite.go:231 | `strings.Replace(s, old, new, 1)`: an empty `old` puts `new` in front of `s`; with no occurrence `s` is unchanged; otherwise the first occurrence, and only it, is replaced by `new`. |
| Text.IndexOfChar | zite.go:98 | The result is the first position of the character; `None` exactly when it does not occur. |
| Text.SplitLinesCount | zite.go:98 | `strings.Split(s, "\n")` never gives an empty list, and gives one line exactly when `s` has no newline. |
| Text.JoinSplitLines | zite.go:98-105 | Joining the lines of a split text with "\n" gives the text back. |
| Text.JoinDropLines | zite.go:105 | `strings.Join(lines[n:], "\n")` is the text after the `n`-th newline: exactly the first `n` lines are dropped. |
| Paths.ExtShape | zite.go:92 | `filepath.Ext` is empty or a '.' followed by neither '/' nor '.', and is a suffix of the path; it is empty exactly when the final element has no '.'. |
| Paths.ExtOfSuffix | zite.go:92 | A path ending in '.' plus characters other than '/' and '.' has that suffix as its extension. |
| Paths.BaseDirOfJoin | zite.go:132 | `filepath.Base` and `filepath.Dir` undo `filepath.Join` of a directory and one path element, as used for each entry at zite.go:145-147. |
| Paths.EnsureExtSpec | zite.go:229-232 | `ensureExt` returns the path unchanged when the extension already is the target, and puts the target in front when there is no extension. It replaces the trailing extension when that occurs only at the end, and in every case it replaces one occurrence of the extension. |
| Paths.ExtOccurs | zite.go:230-231 | A non-empty extension occurs in the path, first at some `i` no later than the suffix position, and `ensureExt` replaces it there. |
| Paths.EnsureExtReplacesFirstOccurrence | zite.go:229-232 | The first-occurrence quirk: `src/v.md/page.md` becomes `src/v.html/page.md`. The directory's ".md" is replaced and the file keeps its own. |
| Paths.EnsureExtOnlyAtEnd | zite.go:229-232 | When the extension occurs only at the end, `ensureExt` swaps it for the new one. |
| Paths.PathToURL | zite.go:87-89 | Succeeds exactly when the ".html"-forced path is at least `len(Src)` long, and is that path with its first `len(Src)` characters dropped; otherwise a slice panic. |
| Paths.PathToURLOfSourcePath | zite.go:87-89 | The URL of `Src/rel` is "/" + `rel` with its extension replaced by ".html", when that extension occurs only at the end. |
| Paths.PathToURLExample | zite.go:87-89 | `src/docs/page.md` with `Src` = "src" is served at `/docs/page.html`. |
| Paths.StripPath | zite.go:258-260 | Succeeds exactly when the path is longer than `len(Src)`, dropping its first `len(Src)+1` characters; otherwise a slice panic. |
| Paths.StripPathOfJoin | zite.go:258-260 | `stripPath` inverts joining a relative path onto `Src`. |
| Includes.MatchAt | zite.go:41 | Finds a directive at the start of the text exactly when one is there: "{{include ", one or more characters other than '}', then "}}". |
| Includes.CloseBrace | zite.go:41 | The first '}' at or after `k`, with no '}' before it. |
| Includes.SplitRoundTrip | zite.go:56 | The scan loses nothing: putting the literal runs and the directives back together gives the input, byte for byte and in order. |
| Includes.SplitTokens | zite.go:41-48 | Every directive's token (the match minus its 10-character prefix and 2-character suffix) is non-empty and contains no '}'. |
| Includes.ExpandNoDirective | zite.go:40-58 | Text with no directive anywhere is returned unchanged. |
| Includes.ExpandLeftmost | zite.go:45-56 | For the leftmost directive of the text, the text before it is kept and the directive becomes the contents of `Join(Dir(path), token)`. Expansion resumes after its "}}", without rescanning the inserted text. If that file cannot be read, the expansion fails. |
| Includes.SubstituteFails | zite.go:50-53 | Substitution fails exactly when some directive names a file that cannot be read. |
| Includes.ExpandFails | zite.go:47-56 | `replaceIncludes` fails exactly when some directive it scans names an unreadable file. |
| Includes.IncludeExample | zite.go:40-58 | In `dir/page.html`, `A{{include partial.html}}B` becomes "A", then the contents of `dir/partial.html`, then "B". |
| Site.ReadFile | zite.go:91-127 | Every element read has path `path`, `Filename` `Base(path)` and `URL` `pathToURL(path)`, and is never a dir. A ".md" file is read exactly when it exists, has a URL and contains a newline; it is titled by the text before the first newline, with the text after the second newline as content. An ".html" file is an untitled page whose content is its include expansion, failing when that fails. Any other file is a plain file with no title or content. |
| Site.MarkdownTitleAndBody | zite.go:93-106 | A ".md" file made of a title line, a blank line and a body is read with that title and that body. |
| Site.GetTemplateNearest | zite.go:159-170 | The template used is the include-expanded `_template.html` of the nearest ancestor along `Dir` that has one. |
| Site.GetTemplateNone | zite.go:159-164 | With no template on the way to the top, the search ends in `NoTemplate`. |
| Site.TemplateIncludeBase | zite.go:161-169 | A template's includes are resolved against the directory it was found in. |
| Site.TemplateExample | zite.go:159-164 | For `a/b/page.md`, with no template in `a/b` but one in `a`, the template of `a` is used. |
| Site.RenderFile | zite.go:176-216 | An ".html" page is rendered with its own content as the template. A ".md" page succeeds only if its directory's template is found and the page is read again from the file, and then renders that template against the re-read page. Any other extension fails. |
| Site.RenderMarkdownPage | zite.go:192-212 | Re-reading a ".md" page from the same filesystem gives the page itself, so its layout is rendered against it. |
| Tree.Element.constructor | zite.go:130-134 | A new element with the given fields, no parent and no children, owning only itself. |
| Tree.Element.ToString | zite.go:60-73 | `String` on an element always gives a parenthesised text; what it prints is fixed by `Tree.ToStringModel`. |
| Tree.Element.ChildStrings | zite.go:65-68 | Go's `childrenS`: one string per child from `k` on. |
| Tree.ShowAll | zite.go:65-68 | As many printed forms as trees. |
| Tree.ToStringModel | zite.go:60-73 | `String` on the heap is `Show` of the element's tree value. A page prints as "(page: name title)" and a file as "(file: name)". A dir prints as "(dir: name [...])" around its children's strings, in order, joined by ", ". |
| Tree.ChildStringsModel | zite.go:65-68 | The children's strings are the printed forms of the children's values, in order. |
| Tree.ShowExample | zite.go:60-73 | A directory `d` holding page `a.md` titled `T` and file `b.png` prints as "(dir: d [(page: a.md T), (file: b.png)])". |
| Tree.FileReader | zite.go:147 | Reading a listed file with `readFile` yields an element at the path asked for, named by its base, and never a directory. |
| Tree.BuildEntriesNext | zite.go:139-154 | One more entry: its error ends the build, a skipped entry adds nothing, and any other entry adds its child at the end. |
| Tree.BuildEntriesError | zite.go:149-151 | An error among the first `k` entries is the error of the whole listing. |
| Tree.Visible | zite.go:141-143 | The entries that become children all have non-empty names without a leading '_'. |
| Tree.ListingNamed | zite.go:141 | A listing that builds has no empty names (an empty name makes `fi.Name()[0:1]` panic). |
| Tree.BuildEntriesShape | zite.go:139-154 | A built listing has exactly one child per visible entry, in listing order. Each child is the node `BuildEntry` builds from its entry, at `Join(path, name)`, named by its base, and a dir exactly when the entry is one. |
| Tree.BuildEntryShape | zite.go:140-153 | One entry is skipped exactly when its name starts with '_'. Otherwise it is built at `Join(path, name)`, as a dir exactly when the entry is one, named by its base. A directory entry is the directory read recursively at that path; a file entry is the element `readFile` gives for that path, with no children. |
| Tree.BuildDirShape | zite.go:129-157 | A directory that reads has the dir fields of its path, and one child per visible listing entry, in order. Each child is the node built from its entry: a subdirectory read recursively or a file read by `readFile`. |
| Tree.VisibleFromListing | zite.go:139-143 | Every child entry comes from the listing. |
| Tree.NoHiddenChildren | zite.go:141-143 | No child of a directory has a name starting with '_'. |
| Tree.NoHiddenBelow | zite.go:139-154 | When every listing entry is a single path element, no node at any depth below a built directory has an empty name or one starting with '_'. |
| Tree.ReadDirectory | zite.go:129-157 | `readDirectory` fails exactly when the specified build fails, with the same error. On success it returns a fresh, well-formed element tree without a parent, whose value is the specified tree: every child has `Parent` set to its directory, and children appear in listing order. |
| Tree.AddEntry | zite.go:140-153 | One turn of the loop: it fails exactly when building the entry fails, with the same error, and then the children and the footprint are unchanged. Otherwise the entry's element, if it is not skipped, is appended. |
| Tree.ReadEntry | zite.go:140-151 | The element for one entry: skipped for a leading '_'; a directory read recursively; a file classified by `readFile`; errors passed on. |
| Tree.AddChild | zite.go:152-153 | `e.Parent = dir` then append to `Children`: the children gain `e` at the end and the tree stays well formed. |
| Tree.SetParent | zite.go:152 | Setting `Parent` keeps the element's tree value unchanged. |
| Tree.Append | zite.go:153 | Appending a child whose parent is the directory extends its children's values by the child's value. |
| Tree.ValidAppended | zite.go:152-153 | A directory stays well formed when a well-formed element with a disjoint footprint, whose parent is the directory, is added as its last child. |
| Generate.LeafOutcome | zite.go:263-281 | One element on its own: a failure writes nothing, and a file or page that succeeds writes exactly one file. |
| Generate.LeafWrites | zite.go:264-281 | A file is copied to `Join(Out, stripPath(path))` and fails when missing. A page is rendered and written to `ensureExt(Join(Out, stripPath(path)), ".html")`. `stripPath`'s panic comes first, and a dir writes nothing itself. |
| Generate.PageDestination | zite.go:273 | A page `Src/rel` is written to `Out/rel` with its extension replaced by ".html", when that extension occurs only at the end. |
| Generate.ChainAppend | zite.go:283-288 | Running steps `a` then `b` runs `b` only when `a` succeeded. |
| Generate.ChainSucceeds | zite.go:283-288 | A chain of steps succeeds exactly when every step does, and then writes all their writes in order. |
| Generate.ChainFails | zite.go:283-288 | A failed chain stopped at its first failing step: it reports that step's error after what the earlier steps wrote. |
| Generate.LeavesAreFilesAndPages | zite.go:263-289 | The walk handles files and pages only; directories are walked into. |
| Generate.LeavesShown | zite.go:263-289 | The leaves of a shown node whose nodes below are all shown are all shown. |
| Generate.HiddenNotGenerated | zite.go:139-154 | No file or page under a name starting with '_', at any level of the source tree, is among the leaves that `generate` handles. |
| Generate.RunLeavesAppend | zite.go:283-288 | Walking `a + b` walks `b` only when `a` succeeded. |
| Generate.RunLeavesSucceeds | zite.go:262-291 | Generation succeeds exactly when every file and page does, and then writes one output per file and page, in depth-first order. |
| Generate.RunLeavesFails | zite.go:262-291 | A failed generation stopped at the first failing file or page, after writing what the ones before it wrote. |
| Generate.GenerateStep | zite.go:283-288 | One turn of the loop over a directory's children: a failing child ends the walk with its error; otherwise the walk continues with the next child. |
| Generate.Generate | zite.go:262-291 | `generate` on a well-formed tree gives the outcome of handling its files and pages depth first, in children order, stopping at the first error. |
| Generate.GenerateChildren | zite.go:282-288 | The loop over a directory's children gives the outcome of handling their files and pages in order, stopping at the first error. |
| Generate.Run | zite.go:309-319 | `main` reads the source tree and generates it. An error from `readDirectory` ends the run with nothing written. |

## Left out

- `filepath.Clean`'s lexical normalisation: paths are taken to be clean (no "." or ".." elements, no doubled separators), and `Join` concatenates with "/".
- The markdown conversion (blackfriday) and Go's `text/template` parse and execute: the engine is a function parameter, so its parse and execution errors are just an `Err` it may return.
- `readConfig` (gcfg parsing and `os.Exit(4)`): `Src` and `Out` are a `Config` parameter.
- Progress logging with `fmt.Println`: it has no effect on the result.
- `ensurePath`, `MkdirAll`, `WriteFile` and `copyFile`'s streaming: a write or copy is an entry in the outcome and always succeeds. A copy fails only when the source file is missing. `copyFile`'s ignored errors are not modelled.
- `os.Stat` on the template path: it succeeds for a file or a directory of that name. When it names a directory, reading it fails with `ReadFailed`.
- The order of `ioutil.ReadDir`: the listing order is taken as given.
- `readFile` called on a path whose listing entry is a file but whose contents are missing: a ".md" or ".html" file fails with `ReadFailed`, and any other file is classified without being read, as in the source.
- Site.GetTemplate: where Go recurses forever once `filepath.Dir` reaches "." or "/", the model stops there with `NoTemplate`.
- Text.SplitLinesCount and the other text functions: strings are sequences of characters, not UTF-8 bytes; slicing by byte count and by character count agree only on ASCII text.
- Generate.LeafOutcome and Generate.Generate: the filesystem `fs` is the one before generation, and the writes are collected, not applied to it. Every later read (`copyFile`'s open, the template search and the page re-read in `renderFile`, include reads) sees that filesystem. The model matches Go only when no write lands on a path read later, for example when `Out` is disjoint from `Src`.
- Generate.Run: Go's `panic` on an error of `readDirectory` or `generate` becomes the failure recorded in the outcome.
- Tree.ReadDirectory: the directory tree to build must be finite: its termination measure is the length of the longest directory path in the filesystem.
- Element's template fields: the engine receives the page's own fields only, not its `Parent` or `Children`.
