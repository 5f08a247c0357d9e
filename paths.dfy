/** Path arithmetic: Go's `filepath.Ext`, `filepath.Base`, `filepath.Dir`,
    `filepath.Join` on '/'-separated paths, and the generator's own
    `ensureExt`, `pathToURL` and `stripPath` (zite.go:87-89, 229-232, 258-260).
    `filepath.Clean`'s lexical normalisation is not modelled: paths are taken
    to be clean already (no "." or ".." elements, no doubled separators). */
module Paths {
  import opened Common
  import opened Text

  /** The index of the last '/' in `p`. */
  function LastSlash(p: string): (r: Option<nat>)
    ensures r.Some? ==> r.value < |p| && p[r.value] == '/' && '/' !in p[r.value + 1..]
    ensures r.None? ==> '/' !in p
    decreases |p|
  {
    if p == [] then None
    else if p[|p| - 1] == '/' then Some(|p| - 1)
    else
      var r := LastSlash(p[..|p| - 1]);
      assert r.Some? ==> p[r.value + 1..] == p[..|p| - 1][r.value + 1..] + [p[|p| - 1]];
      assert r.None? ==> p == p[..|p| - 1] + [p[|p| - 1]];
      r
  }

  /** `p` without its trailing separators. */
  function TrimTrailingSlashes(p: string): (r: string)
    ensures |r| <= |p| && r == p[..|r|]
    ensures r == [] || r[|r| - 1] != '/'
    ensures forall i :: |r| <= i < |p| ==> p[i] == '/'
    decreases |p|
  {
    if p != [] && p[|p| - 1] == '/' then TrimTrailingSlashes(p[..|p| - 1]) else p
  }

  /** Where the final element of `p` begins: just after its last '/'. */
  function NameStart(p: string): (n: nat)
    ensures n <= |p|
  {
    match LastSlash(p)
    case Some(k) => k + 1
    case None => 0
  }

  /** A last character other than '/' belongs to the final element. */
  lemma {:induction false} NameStartOfInit(path: string)
    requires path != [] && path[|path| - 1] != '/'
    ensures var init := path[..|path| - 1];
      NameStart(path) == NameStart(init) && path[NameStart(path)..] == init[NameStart(init)..] + [path[|path| - 1]]
  {
  }

  /** `filepath.Ext`: the suffix from the last '.' of the final path element,
      or "" when that element has no '.'. */
  function Ext(path: string): string
    decreases |path|
  {
    if path == [] then ""
    else
      var c := path[|path| - 1];
      if c == '/' then ""
      else if c == '.' then "."
      else
        var e := Ext(path[..|path| - 1]);
        if e == [] then "" else e + [c]
  }

  /** `e` has the shape of the extension of `path`: a '.' followed by
      neither '/' nor '.', ending the path; and there is none exactly when the
      final element holds no '.'. */
  predicate ExtFits(path: string, e: string) {
    && (e != [] ==> e[0] == '.' && |e| <= |path| && path[|path| - |e|..] == e)
    && (e != [] ==> '/' !in e && '.' !in e[1..])
    && (e == [] ==> '.' !in path[NameStart(path)..])
  }

  lemma {:induction false} ExtShape(path: string)
    ensures ExtFits(path, Ext(path))
    decreases |path|
  {
    if path != [] {
      var c := path[|path| - 1];
      if c == '/' {
        assert LastSlash(path) == Some(|path| - 1);
      } else if c != '.' {
        var init := path[..|path| - 1];
        ExtShape(init);
        ExtFitsSnoc(path, Ext(init));
      }
    }
  }

  /** Appending a character other than '/' and '.' extends the extension,
      if there is one, by that character. */
  lemma {:induction false} ExtFitsSnoc(path: string, e: string)
    requires path != [] && path[|path| - 1] != '/' && path[|path| - 1] != '.'
    requires ExtFits(path[..|path| - 1], e)
    ensures ExtFits(path, if e == [] then [] else e + [path[|path| - 1]])
  {
    var init, c := path[..|path| - 1], path[|path| - 1];
    NameStartOfInit(path);
    if e != [] {
      assert (e + [c])[1..] == e[1..] + [c];
      assert path[|path| - |e| - 1..] == init[|init| - |e|..] + [c];
    }
  }

  /** `filepath.Base`: the final path element; "." for "" and "/" for a path
      made only of separators. */
  function Base(path: string): (r: string)
    ensures r != []
  {
    if path == [] then "."
    else
      var t := TrimTrailingSlashes(path);
      if t == [] then "/"
      else match LastSlash(t)
        case None => t
        case Some(i) => t[i + 1..]
  }

  /** `filepath.Dir`: everything before the final element, trailing separators
      removed; "." when there is no separator, "/" for a top-level entry. */
  function Dir(path: string): (r: string)
    ensures r != []
    ensures r == path || Rank(r) < Rank(path)
  {
    match LastSlash(path)
    case None => "."
    case Some(i) =>
      var d := TrimTrailingSlashes(path[..i + 1]);
      if d == [] then "/" else d
  }

  /** Decreases along `Dir` until its fixed points "." and "/". */
  function Rank(p: string): nat {
    if p == "." || p == "/" then 0 else |p| + 1
  }

  /** `filepath.Join` of two elements (empty elements are ignored). */
  function Join(dir: string, name: string): string {
    if dir == [] then name else if name == [] then dir else dir + "/" + name
  }

  /** `name` is a single path element, as a directory listing yields. */
  predicate IsElement(name: string) {
    name != [] && '/' !in name
  }

  /** A directory path as the generator forms it: non-empty, no trailing '/'. */
  predicate IsDirPath(dir: string) {
    dir != [] && dir[|dir| - 1] != '/'
  }

  /** `Base` and `Dir` undo `Join`. */
  lemma {:induction false} BaseDirOfJoin(dir: string, name: string)
    requires IsDirPath(dir) && IsElement(name)
    ensures Base(Join(dir, name)) == name
    ensures Dir(Join(dir, name)) == dir
  {
    var p := dir + "/" + name;
    assert p[|dir|] == '/' && p[|dir| + 1..] == name;
    assert LastSlash(p) == Some(|dir|);
    assert TrimTrailingSlashes(p) == p;
    assert p[..|dir| + 1] == dir + "/";
    assert TrimTrailingSlashes(dir + "/") == TrimTrailingSlashes(dir);
  }

  /** `ext` occurs in `path` only as its suffix. */
  predicate OnlyAtEnd(path: string, ext: string) {
    |ext| <= |path| && forall i :: 0 <= i < |path| - |ext| ==> !OccursAt(path, ext, i)
  }

  /** `ensureExt` (zite.go:229-232): `strings.Replace(path, Ext(path), ext, 1)`.
      The FIRST occurrence of the current extension is replaced, which need
      not be the trailing one; with no extension the new one is put in front. */
  function EnsureExt(path: string, ext: string): string {
    ReplaceFirst(path, Ext(path), ext)
  }

  /** The extension occurs in the path, at the latest as its suffix. */
  lemma {:induction false} ExtOccurs(path: string, ext: string) returns (i: nat)
    requires Ext(path) != []
    ensures i <= |path| - |Ext(path)| && FirstOccurrence(path, Ext(path), i)
    ensures ReplaceFirst(path, Ext(path), ext) == path[..i] + ext + path[i + |Ext(path)|..]
  {
    var e := Ext(path);
    ExtShape(path);
    SuffixOccurs(path, e);
    var found := IndexOf(path, e);
    i := found.value;
    assert FirstOccurrence(path, e, i);
  }

  lemma {:induction false} SuffixOccurs(path: string, e: string)
    requires |e| <= |path| && path[|path| - |e|..] == e
    ensures OccursAt(path, e, |path| - |e|)
  {
  }

  /** What `ensureExt` does: nothing when the extension is already `ext`; puts
      `ext` in front when there is no extension; replaces the trailing
      extension when it occurs nowhere else; and in any case replaces one
      occurrence of the extension. */
  lemma {:induction false} EnsureExtSpec(path: string, ext: string)
    ensures var e := Ext(path); var r := EnsureExt(path, ext);
      && (e == ext ==> r == path)
      && (e == [] ==> r == ext + path)
      && (e != [] && OnlyAtEnd(path, e) ==> r == path[..|path| - |e|] + ext)
      && (e != [] ==>
        exists i :: 0 <= i <= |path| - |e| && OccursAt(path, e, i) && r == path[..i] + ext + path[i + |e|..])
  {
    var e := Ext(path);
    if e != [] {
      var i := ExtOccurs(path, ext);
      if e == ext {
        ReplaceSame(path, e, i);
      }
      if OnlyAtEnd(path, e) {
        assert i == |path| - |e|;
      }
    }
  }

  lemma {:induction false} ReplaceSame(path: string, e: string, i: nat)
    requires OccursAt(path, e, i)
    ensures path[..i] + e + path[i + |e|..] == path
  {
    assert path[i..i + |e|] == e;
    assert path == path[..i] + path[i..i + |e|] + path[i + |e|..];
  }

  /** A path ending in a '.'-suffix without '/' or further '.' has that
      suffix as its extension. */
  lemma {:induction false} ExtOfSuffix(stem: string, suffix: string)
    requires suffix != [] && suffix[0] == '.' && '/' !in suffix && '.' !in suffix[1..]
    ensures Ext(stem + suffix) == suffix
    decreases |suffix|
  {
    var p := stem + suffix;
    if |suffix| > 1 {
      assert p[..|p| - 1] == stem + suffix[..|suffix| - 1];
      ExtOfSuffix(stem, suffix[..|suffix| - 1]);
    }
  }

  lemma {:induction false} EnsureExtAt(path: string, ext: string, i: nat)
    requires Ext(path) != [] && FirstOccurrence(path, Ext(path), i)
    ensures EnsureExt(path, ext) == path[..i] + ext + path[i + |Ext(path)|..]
  {
  }

  lemma {:induction false} QuirkText(p: string)
    requires p == "src/v.md/page.md"
    ensures p == "src/v.md/page" + ".md"
    ensures p[..5] + ".html" + p[8..] == "src/v.html/page.md"
    ensures FirstOccurrence(p, ".md", 5)
  {
    assert p[..5] == "src/v";
    assert p[8..] == "/page.md";
    assert p[5..8] == ".md";
    forall k | 0 <= k < 5 ensures !OccursAt(p, ".md", k) {
      assert p[k] == p[..5][k] != '.';
      assert k + 3 <= |p| ==> p[k..k + 3][0] == p[k];
    }
  }

  /** The quirk: a directory whose name carries the same extension takes the
      replacement, and the file keeps its own extension. */
  lemma {:induction false} EnsureExtReplacesFirstOccurrence(p: string)
    requires p == "src/v.md/page.md"
    ensures EnsureExt(p, ".html") == "src/v.html/page.md"
  {
    QuirkText(p);
    ExtOfSuffix("src/v.md/page", ".md");
    EnsureExtAt(p, ".html", 5);
  }

  /** `pathToURL` (zite.go:87-89): drops `len(Src)` leading characters of the
      path with its extension forced to ".html"; Go panics when the forced path
      is shorter than `Src`. */
  function PathToURL(src: string, path: string): (r: Result<string>)
    ensures var h := EnsureExt(path, ".html");
      && (r.Ok? <==> |src| <= |h|)
      && (r.Ok? ==> |r.value| == |h| - |src| && h[|src|..] == r.value)
  {
    var h := EnsureExt(path, ".html");
    if |src| <= |h| then Ok(h[|src|..]) else Err(Panic("slice bounds out of range"))
  }

  /** `stripPath` (zite.go:258-260): drops `len(Src)+1` leading characters
      (the source root and its separator); Go panics on a shorter path. */
  function StripPath(src: string, path: string): (r: Result<string>)
    ensures r.Ok? <==> |src| + 1 <= |path|
    ensures r.Ok? ==> |r.value| == |path| - |src| - 1 && path[|src| + 1..] == r.value
  {
    if |src| + 1 <= |path| then Ok(path[|src| + 1..]) else Err(Panic("slice bounds out of range"))
  }

  /** `stripPath` inverts joining onto the source root. */
  lemma {:induction false} StripPathOfJoin(src: string, rel: string)
    requires src != [] && rel != []
    ensures StripPath(src, Join(src, rel)) == Ok(rel)
  {
    assert (src + "/" + rel)[|src| + 1..] == rel;
  }

  /** The extension of `dir/name` lies within `name`. */
  lemma {:induction false} ExtWithinName(dir: string, name: string)
    ensures |Ext(dir + "/" + name)| <= |name|
  {
    var p := dir + "/" + name;
    ExtShape(p);
    assert p[|dir|] == '/';
  }

  lemma {:induction false} DropRoot(src: string, rel: string, path: string, n: nat, h: string)
    requires path == src + "/" + rel && n <= |rel| && h == path[..|path| - n] + ".html"
    ensures |src| <= |h| && h[|src|..] == "/" + rel[..|rel| - n] + ".html"
  {
    assert path[..|path| - n] == src + "/" + rel[..|rel| - n];
  }

  lemma {:induction false} EnsureExtOnlyAtEnd(path: string, ext: string)
    requires Ext(path) != [] && OnlyAtEnd(path, Ext(path))
    ensures EnsureExt(path, ext) == path[..|path| - |Ext(path)|] + ext
  {
    EnsureExtSpec(path, ext);
  }

  /** The URL of a source page `src/rel` is "/" + `rel` with its extension
      forced to ".html", when that extension occurs only at the end. */
  lemma {:induction false} PathToURLOfSourcePath(src: string, rel: string, path: string)
    requires src != [] && rel != [] && path == Join(src, rel)
    requires Ext(path) != [] && OnlyAtEnd(path, Ext(path))
    ensures var e := Ext(path); |e| <= |rel| && PathToURL(src, path) == Ok("/" + rel[..|rel| - |e|] + ".html")
  {
    var e := Ext(path);
    ExtWithinName(src, rel);
    var h := path[..|path| - |e|] + ".html";
    DropRoot(src, rel, path, |e|, h);
    URLOfTrailingExt(src, path, h);
  }

  lemma {:induction false} URLOfTrailingExt(src: string, path: string, h: string)
    requires Ext(path) != [] && OnlyAtEnd(path, Ext(path))
    requires h == path[..|path| - |Ext(path)|] + ".html" && |src| <= |h|
    ensures PathToURL(src, path) == Ok(h[|src|..])
  {
    EnsureExtOnlyAtEnd(path, ".html");
  }

  lemma {:induction false} ExampleText(p: string)
    requires p == "src/docs/page.md"
    ensures p == "src/docs/page" + ".md"
    ensures (p[..13] + ".html" + p[16..])[3..] == "/docs/page.html"
    ensures FirstOccurrence(p, ".md", 13)
  {
    assert p[..13] == "src/docs/page";
    assert p[16..] == "";
    assert p[13..16] == ".md";
    assert '.' !in p[..13];
    forall k | 0 <= k < 13 ensures !OccursAt(p, ".md", k) {
      assert p[k] == p[..13][k] != '.';
      assert k + 3 <= |p| ==> p[k..k + 3][0] == p[k];
    }
  }

  /** A URL example: src/docs/page.md is served at
      /docs/page.html. */
  lemma {:induction false} PathToURLExample(p: string)
    requires p == "src/docs/page.md"
    ensures PathToURL("src", p) == Ok("/docs/page.html")
  {
    ExampleText(p);
    ExtOfSuffix("src/docs/page", ".md");
    EnsureExtAt(p, ".html", 13);
  }
}
