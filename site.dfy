/** Reading one source file, finding a layout template and rendering a page:
    `readFile` (zite.go:91-127), `getTemplate` (zite.go:159-170) and the
    dispatch of `renderFile` (zite.go:176-216). The filesystem is a value;
    the template engine (Go's text/template with the markdown helper) is a
    parameter. */
module Site {
  import opened Common
  import opened Text
  import opened Paths
  import opened Includes

  /** One entry of a directory listing (`os.FileInfo`'s name and kind). */
  datatype DirEntry = DirEntry(name: string, isDir: bool)

  /** The filesystem: file contents and directory listings, by path. */
  datatype FileSystem = FileSystem(files: map<string, string>, dirs: map<string, seq<DirEntry>>)

  /** The configuration `Src` and `Out` (defaults "src" and "www"). */
  datatype Config = Config(src: string, out: string)

  /** An element's `Type`: "dir", "page" or "file". */
  datatype ElementType = DirType | PageType | FileType

  /** The immutable fields of an `Element`. */
  datatype ElementInfo = ElementInfo(
    kind: ElementType, path: string, filename: string, url: string, title: string, content: string)

  /** The template engine: parses a template text and executes it against a
      page; parse and execution errors are `Err`. */
  type Engine = (string, ElementInfo) -> Result<string>

  /** `readFile`: ".md" gives a page titled by its first line whose content is
      everything after its second line; ".html" gives an untitled page whose
      content is the include-expanded text; anything else is a plain file. */
  function ReadFile(fs: FileSystem, src: string, path: string): (r: Result<ElementInfo>)
    ensures r.Ok? ==> r.value.path == path && r.value.filename == Base(path)
    ensures r.Ok? ==> PathToURL(src, path) == Ok(r.value.url)
    ensures r.Ok? ==> (r.value.kind == PageType <==> Ext(path) == ".md" || Ext(path) == ".html")
    ensures r.Ok? ==> r.value.kind != DirType
    ensures Ext(path) == ".md" ==>
      (r.Ok? <==> path in fs.files && PathToURL(src, path).Ok? && '\n' in fs.files[path])
    ensures Ext(path) == ".md" && r.Ok? ==>
      var text := fs.files[path];
      var k := IndexOfChar(text, '\n').value;
      r.value.title == text[..k] && r.value.content == DropLines(text, 2)
    ensures Ext(path) == ".html" ==>
      (r.Ok? <==> path in fs.files && PathToURL(src, path).Ok? && Expand(fs.files, path, fs.files[path]).Ok?)
    ensures Ext(path) == ".html" && r.Ok? ==>
      r.value.title == "" && Expand(fs.files, path, fs.files[path]) == Ok(r.value.content)
    ensures Ext(path) != ".md" && Ext(path) != ".html" ==>
      (r.Ok? <==> PathToURL(src, path).Ok?) && (r.Ok? ==> r.value.title == "" && r.value.content == "")
  {
    var ext := Ext(path);
    if ext == ".md" then
      if path !in fs.files then Err(ReadFailed(path))
      else
        var text := fs.files[path];
        var lines := SplitLines(text);
        SplitLinesCount(text);
        match PathToURL(src, path)
        case Err(e) => Err(e)
        case Ok(url) =>
          if |lines| < 2 then Err(Panic("slice bounds out of range"))
          else
            JoinDropLines(text, 2);
            assert lines[0] == text[..IndexOfChar(text, '\n').value];
            Ok(ElementInfo(PageType, path, Base(path), url, lines[0], JoinWith("\n", lines[2..])))
    else if ext == ".html" then
      if path !in fs.files then Err(ReadFailed(path))
      else
        match PathToURL(src, path)
        case Err(e) => Err(e)
        case Ok(url) =>
          match Expand(fs.files, path, fs.files[path])
          case Err(e) => Err(e)
          case Ok(content) => Ok(ElementInfo(PageType, path, Base(path), url, "", content))
    else
      match PathToURL(src, path)
      case Err(e) => Err(e)
      case Ok(url) => Ok(ElementInfo(FileType, path, Base(path), url, "", ""))
  }

  /** The layout template looked for in directory `dir`. */
  function TemplateFile(dir: string): string {
    dir + "/_template.html"
  }

  /** `os.Stat` succeeds on the template path (a file or a directory). */
  predicate HasTemplate(fs: FileSystem, dir: string) {
    TemplateFile(dir) in fs.files || TemplateFile(dir) in fs.dirs
  }

  /** Reading the template found in `dir`, its includes resolved against
      `dir` itself. */
  function ReadTemplate(fs: FileSystem, dir: string): Result<string> {
    var tf := TemplateFile(dir);
    if tf in fs.files then Expand(fs.files, tf, fs.files[tf]) else Err(ReadFailed(tf))
  }

  /** `getTemplate`: the template of `dir` or, failing that, of `Dir(dir)`.
      Go recurses forever once `Dir` reaches its fixed point ("." or "/");
      the model stops there with `NoTemplate`. */
  function GetTemplate(fs: FileSystem, dir: string): Result<string>
    decreases Rank(dir)
  {
    if HasTemplate(fs, dir) then ReadTemplate(fs, dir)
    else if Dir(dir) == dir then Err(NoTemplate(dir))
    else GetTemplate(fs, Dir(dir))
  }

  /** The `n`-th ancestor of `dir` along `Dir`. */
  function Ancestor(dir: string, n: nat): string
    decreases n
  {
    if n == 0 then dir else Ancestor(Dir(dir), n - 1)
  }

  /** The template used is that of the nearest ancestor that has one. */
  lemma {:induction false} GetTemplateNearest(fs: FileSystem, dir: string, n: nat)
    requires HasTemplate(fs, Ancestor(dir, n))
    requires forall m :: 0 <= m < n ==> !HasTemplate(fs, Ancestor(dir, m))
    ensures GetTemplate(fs, dir) == ReadTemplate(fs, Ancestor(dir, n))
    decreases n
  {
    if n > 0 {
      assert !HasTemplate(fs, Ancestor(dir, 0));
      if Dir(dir) == dir {
        AncestorFixed(dir, n);
      } else {
        forall m | 0 <= m < n - 1 ensures !HasTemplate(fs, Ancestor(Dir(dir), m)) {
          assert Ancestor(dir, m + 1) == Ancestor(Dir(dir), m);
        }
        GetTemplateNearest(fs, Dir(dir), n - 1);
      }
    }
  }

  lemma {:induction false} AncestorFixed(dir: string, n: nat)
    requires Dir(dir) == dir
    ensures Ancestor(dir, n) == dir
    decreases n
  {
    if n > 0 {
      AncestorFixed(dir, n - 1);
    }
  }

  /** With no template on the way up to the top, the search fails. */
  lemma {:induction false} GetTemplateNone(fs: FileSystem, dir: string)
    requires forall m: nat :: !HasTemplate(fs, Ancestor(dir, m))
    ensures GetTemplate(fs, dir).Err? && GetTemplate(fs, dir).error.NoTemplate?
    decreases Rank(dir)
  {
    assert !HasTemplate(fs, Ancestor(dir, 0));
    if Dir(dir) != dir {
      forall m: nat ensures !HasTemplate(fs, Ancestor(Dir(dir), m)) {
        assert Ancestor(dir, m + 1) == Ancestor(Dir(dir), m);
      }
      GetTemplateNone(fs, Dir(dir));
    }
  }

  /** The template's includes are resolved against its own directory. */
  lemma {:induction false} TemplateIncludeBase(dir: string)
    requires IsDirPath(dir)
    ensures Dir(TemplateFile(dir)) == dir
  {
    var name := "_template.html";
    assert IsElement(name);
    assert Join(dir, name) == TemplateFile(dir);
    BaseDirOfJoin(dir, name);
  }

  /** `renderFile`: an ".html" page is its own template; a ".md" page renders
      the nearest layout template against a fresh reading of its file; any
      other extension makes Go panic. */
  function RenderFile(fs: FileSystem, src: string, engine: Engine, page: ElementInfo): (r: Result<string>)
    ensures Ext(page.path) == ".html" ==> r == engine(page.content, page)
    ensures Ext(page.path) == ".md" ==>
      (r.Ok? ==> GetTemplate(fs, Dir(page.path)).Ok? && ReadFile(fs, src, page.path).Ok?)
      && (GetTemplate(fs, Dir(page.path)).Ok? && ReadFile(fs, src, page.path).Ok? ==>
          r == engine(GetTemplate(fs, Dir(page.path)).value, ReadFile(fs, src, page.path).value))
    ensures Ext(page.path) != ".html" && Ext(page.path) != ".md" ==> r.Err?
  {
    var ext := Ext(page.path);
    if ext == ".html" then engine(page.content, page)
    else if ext == ".md" then
      match GetTemplate(fs, Dir(page.path))
      case Err(e) => Err(e)
      case Ok(templateText) =>
        match ReadFile(fs, src, page.path)
        case Err(e) => Err(e)
        case Ok(reread) => engine(templateText, reread)
    else Err(Panic("Not sure how to render"))
  }

  /** Re-reading a ".md" page that was read from the same filesystem gives
      the same data: the layout is rendered against the page itself. */
  lemma {:induction false} RenderMarkdownPage(fs: FileSystem, src: string, engine: Engine, path: string)
    requires Ext(path) == ".md" && ReadFile(fs, src, path).Ok?
    ensures var page := ReadFile(fs, src, path).value;
      RenderFile(fs, src, engine, page)
        == match GetTemplate(fs, Dir(path))
           case Ok(t) => engine(t, page)
           case Err(e) => Err(e)
  {
  }

  lemma {:induction false} IndexOfCharAfter(a: string, b: string)
    requires '\n' !in a
    ensures IndexOfChar(a + "\n" + b, '\n') == Some(|a|)
    ensures (a + "\n" + b)[..|a|] == a && (a + "\n" + b)[|a| + 1..] == b
  {
    var s := a + "\n" + b;
    assert s[..|a|] == a;
    assert s[|a|] == '\n';
  }

  lemma {:induction false} TitleAndBody(title: string, body: string)
    requires '\n' !in title
    ensures var text := title + "\n\n" + body;
      IndexOfChar(text, '\n') == Some(|title|) && text[..|title|] == title && DropLines(text, 2) == body
  {
    var rest := "\n" + body;
    assert title + "\n\n" + body == title + "\n" + rest;
    IndexOfCharAfter(title, rest);
    IndexOfCharAfter("", body);
    assert "" + "\n" + body == rest;
  }

  /** A markdown file made of a title line, a blank line and a body is read
      as a page with that title and that body. */
  lemma {:induction false} MarkdownTitleAndBody(fs: FileSystem, src: string, path: string, title: string, body: string)
    requires Ext(path) == ".md" && PathToURL(src, path).Ok?
    requires '\n' !in title && path in fs.files && fs.files[path] == title + "\n\n" + body
    ensures ReadFile(fs, src, path).Ok?
    ensures ReadFile(fs, src, path).value.title == title
    ensures ReadFile(fs, src, path).value.content == body
  {
    TitleAndBody(title, body);
  }

  lemma {:induction false} ExampleAncestors(path: string)
    requires path == "a/b/page.md"
    ensures Dir(path) == "a/b" && Ancestor(Dir(path), 1) == "a"
  {
    assert path == Join("a/b", "page.md");
    BaseDirOfJoin("a/b", "page.md");
    assert "a/b" == Join("a", "b");
    BaseDirOfJoin("a", "b");
  }

  /** A layout example: for a/b/page.md, with no template in
      a/b but one in a, the template of a is used. */
  lemma {:induction false} TemplateExample(fs: FileSystem, path: string)
    requires path == "a/b/page.md"
    requires !HasTemplate(fs, "a/b") && "a/_template.html" in fs.files
    ensures GetTemplate(fs, Dir(path)) == ReadTemplate(fs, "a")
  {
    ExampleAncestors(path);
    ExampleHasTemplate(fs);
    GetTemplateNearest(fs, Dir(path), 1);
  }

  lemma {:induction false} ExampleHasTemplate(fs: FileSystem)
    requires "a/_template.html" in fs.files
    ensures HasTemplate(fs, "a")
  {
    assert TemplateFile("a") == "a/_template.html";
  }
}
