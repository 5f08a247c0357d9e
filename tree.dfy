/** The source tree: the `Element` record (zite.go:24-37), its printer
    `String` (zite.go:60-73) and `readDirectory` (zite.go:129-157), which
    builds the tree in place, setting each child's `Parent` and appending it
    to its directory's `Children`. */
module Tree {
  import opened Common
  import opened Paths
  import opened Text
  import opened Site

  /** The value of an element tree: an element's fields and its children. */
  datatype Node = Node(info: ElementInfo, children: seq<Node>)

  /** The fields of a directory element: no URL, title or content. */
  function DirInfo(path: string): ElementInfo {
    ElementInfo(DirType, path, Base(path), "", "", "")
  }

  class Element {
    var Parent: Element?
    const Path: string
    const Filename: string
    const Type: ElementType
    const URL: string
    const Title: string
    const Content: string
    var Children: seq<Element>
    ghost var Repr: set<object>

    function Info(): ElementInfo {
      ElementInfo(Type, Path, Filename, URL, Title, Content)
    }

    /** The element owns the subtree below it: each child is in `Repr`, points
        back to this element as its `Parent`, and owns a part of `Repr`
        disjoint from its siblings' parts. */
    ghost predicate Valid()
      reads this, Repr
      decreases Repr
    {
      && this in Repr
      && (Type != DirType ==> Children == [])
      && (forall i :: 0 <= i < |Children| ==>
            && Children[i] in Repr && Children[i].Repr <= Repr && this !in Children[i].Repr
            && Children[i].Parent == this && Children[i].Valid())
      && (forall i, j :: 0 <= i < j < |Children| ==> Children[i].Repr !! Children[j].Repr)
    }

    constructor (info: ElementInfo)
      ensures Valid() && fresh(Repr) && Repr == {this}
      ensures Info() == info && Parent == null && Children == []
    {
      Path, Filename, Type, URL, Title, Content := info.path, info.filename, info.kind, info.url, info.title, info.content;
      Parent := null;
      Children := [];
      Repr := {this};
    }

    /** The tree below this element as a value. */
    ghost function Model(): (n: Node)
      reads this, Repr
      requires Valid()
      ensures n.info == Info() && |n.children| == |Children|
      decreases Repr, 1
    {
      Node(Info(), ModelFrom(0))
    }

    ghost function ModelFrom(k: nat): (ns: seq<Node>)
      reads this, Repr
      requires Valid() && k <= |Children|
      ensures |ns| == |Children| - k
      decreases Repr, 0, |Children| - k
    {
      if k == |Children| then [] else [Children[k].Model()] + ModelFrom(k + 1)
    }

    /** `String`: "(page: name title)", "(file: name)", or "(dir: name [...])"
        listing the children's strings separated by ", ". */
    function ToString(): (r: string)
      reads this, Repr
      requires Valid()
      ensures |r| >= 2 && r[0] == '(' && r[|r| - 1] == ')'
      decreases Repr, 1
    {
      match Type
      case PageType => "(page: " + Filename + " " + Title + ")"
      case DirType => "(dir: " + Filename + " [" + JoinWith(", ", ChildStrings(0)) + "])"
      case FileType => "(file: " + Filename + ")"
    }

    /** The strings of the children from `k` on (Go's `childrenS`). */
    function ChildStrings(k: nat): (r: seq<string>)
      reads this, Repr
      requires Valid() && k <= |Children|
      ensures |r| == |Children| - k
      decreases Repr, 0, |Children| - k
    {
      if k == |Children| then [] else [Children[k].ToString()] + ChildStrings(k + 1)
    }
  }

  /** `String` on a tree value. */
  function Show(n: Node): (r: string)
    decreases n
  {
    match n.info.kind
    case PageType => "(page: " + n.info.filename + " " + n.info.title + ")"
    case DirType => "(dir: " + n.info.filename + " [" + JoinWith(", ", ShowAll(n.children)) + "])"
    case FileType => "(file: " + n.info.filename + ")"
  }

  /** The strings of the trees `ns`, one by one. */
  function ShowAll(ns: seq<Node>): (r: seq<string>)
    ensures |r| == |ns|
    decreases ns
  {
    if ns == [] then [] else [Show(ns[0])] + ShowAll(ns[1..])
  }

  /** The printed form of an element depends only on its tree value: it is
      `Show` of its model. */
  lemma {:induction false} ToStringModel(el: Element)
    requires el.Valid()
    ensures el.ToString() == Show(el.Model())
    decreases el.Repr, 1
  {
    if el.Type == DirType {
      ChildStringsModel(el, 0);
    }
  }

  /** A directory holding a page and a file prints as
      "(dir: d [(page: a.md T), (file: b.png)])". */
  lemma {:induction false} ShowExample(dir: ElementInfo, page: ElementInfo, file: ElementInfo)
    requires dir.kind == DirType && dir.filename == "d"
    requires page.kind == PageType && page.filename == "a.md" && page.title == "T"
    requires file.kind == FileType && file.filename == "b.png"
    ensures Show(Node(dir, [Node(page, []), Node(file, [])]))
      == "(dir: d [" + "(page: a.md T)" + ", " + "(file: b.png)" + "])"
  {
    var cs := [Node(page, []), Node(file, [])];
    var p, f := "(page: a.md T)", "(file: b.png)";
    assert Show(cs[0]) == "(page: " + "a.md" + " " + "T" + ")" == p;
    assert Show(cs[1]) == "(file: " + "b.png" + ")" == f;
    assert cs[1..] == [cs[1]] && cs[1..][1..] == [];
    assert ShowAll(cs) == [p, f];
    assert [p, f][1..] == [f];
    assert JoinWith(", ", [p, f]) == p + ", " + f;
  }

  lemma {:induction false} ChildStringsModel(el: Element, k: nat)
    requires el.Valid() && k <= |el.Children|
    ensures el.ChildStrings(k) == ShowAll(el.ModelFrom(k))
    decreases el.Repr, 0, |el.Children| - k
  {
    if k < |el.Children| {
      ChildValid(el, k);
      ToStringModel(el.Children[k]);
      ChildStringsModel(el, k + 1);
      var ms := el.ModelFrom(k);
      assert ms == [el.Children[k].Model()] + el.ModelFrom(k + 1);
      assert ms[0] == el.Children[k].Model() && ms[1..] == el.ModelFrom(k + 1);
    }
  }

  /** A valid element's children are valid, and each one's footprint lies
      strictly inside its parent's. */
  lemma {:induction false} ChildValid(el: Element, k: nat)
    requires el.Valid() && k < |el.Children|
    ensures el.Children[k].Valid() && el.Children[k].Repr < el.Repr
  {
  }

  /** The children's models, in order, make up the element's model. */
  lemma {:induction false} ModelsOfChildren(el: Element)
    requires el.Valid()
    ensures |el.ModelFrom(0)| == |el.Children|
    ensures forall i :: 0 <= i < |el.Children| ==> el.ModelFrom(0)[i] == el.Children[i].Model()
  {
    forall i | 0 <= i < |el.Children|
      ensures el.ModelFrom(0)[i] == el.Children[i].Model()
    {
      ModelFromAt(el, 0, i);
    }
  }

  lemma {:induction false} ModelFromAt(el: Element, k: nat, i: nat)
    requires el.Valid() && k <= |el.Children| && i < |el.Children| - k
    ensures el.ModelFrom(k)[i] == el.Children[k + i].Model()
    decreases i
  {
    if i > 0 {
      ModelFromAt(el, k + 1, i - 1);
    }
  }

  // -----------------------------------------------------------------------
  // Specification of readDirectory

  /** An upper bound on the length of the paths in `keys`. */
  ghost function MaxLen(keys: set<string>): (m: nat)
    ensures forall k :: k in keys ==> |k| <= m
    decreases keys
  {
    if keys == {} then 0
    else
      var k :| k in keys;
      var m := MaxLen(keys - {k});
      if |k| > m then |k| else m
  }

  /** Shrinks as the walk goes down: a listed directory's entries have longer
      paths, and no directory is listed under a path longer than `MaxLen`. */
  ghost function Measure(fs: FileSystem, path: string): nat {
    var m := MaxLen(fs.dirs.Keys);
    if |path| <= m then m + 1 - |path| else 0
  }

  lemma {:induction false} MeasureDecreases(fs: FileSystem, path: string, name: string)
    requires path in fs.dirs && name != []
    ensures Measure(fs, Join(path, name)) < Measure(fs, path)
  {
  }

  /** How `readDirectory` reads one listed file: `readFile`, given the path. */
  type Reader = string -> Result<ElementInfo>

  /** What the directory walk relies on from reading a file: the element is
      at the path it was asked for, named by its base, and never a
      directory. */
  ghost predicate Faithful(read: Reader) {
    forall p :: read(p).Ok? ==>
      read(p).value.path == p && read(p).value.filename == Base(p) && read(p).value.kind != DirType
  }

  /** `readFile` over the file system `fs` with source directory `src`. */
  function FileReader(fs: FileSystem, src: string): (read: Reader)
    ensures Faithful(read)
  {
    p => ReadFile(fs, src, p)
  }

  /** The directory at `path` as `readDirectory` builds it. */
  ghost function BuildDir(fs: FileSystem, read: Reader, path: string): Result<Node>
    decreases Measure(fs, path), 1, 0
  {
    if path !in fs.dirs then Err(ReadFailed(path))
    else match BuildEntries(fs, read, path, fs.dirs[path])
      case Err(e) => Err(e)
      case Ok(ns) => Ok(Node(DirInfo(path), ns))
  }

  /** The children built from `entries`, in order; the first error wins. */
  ghost function BuildEntries(fs: FileSystem, read: Reader, path: string, entries: seq<DirEntry>): Result<seq<Node>>
    requires path in fs.dirs
    decreases Measure(fs, path), 0, |entries|
  {
    if entries == [] then Ok([])
    else match BuildEntries(fs, read, path, entries[..|entries| - 1])
      case Err(e) => Err(e)
      case Ok(ns) =>
        match BuildEntry(fs, read, path, entries[|entries| - 1])
        case Err(e) => Err(e)
        case Ok(None) => Ok(ns)
        case Ok(Some(n)) => Ok(ns + [n])
  }

  /** One entry: skipped when its name starts with '_'; a directory is read
      recursively and a file classified. An empty name makes Go's
      `fi.Name()[0:1]` panic. */
  ghost function BuildEntry(fs: FileSystem, read: Reader, path: string, entry: DirEntry): Result<Option<Node>>
    requires path in fs.dirs
    decreases Measure(fs, path), 0, 0
  {
    if entry.name == [] then Err(Panic("slice bounds out of range"))
    else if entry.name[0] == '_' then Ok(None)
    else
      var child := Join(path, entry.name);
      MeasureDecreases(fs, path, entry.name);
      if entry.isDir then
        match BuildDir(fs, read, child)
        case Err(e) => Err(e)
        case Ok(n) => Ok(Some(n))
      else
        match read(child)
        case Err(e) => Err(e)
        case Ok(info) => Ok(Some(Node(info, [])))
  }

  /** Building one more entry of a listing: its error ends the build,
      a skipped entry adds nothing and any other adds its node. */
  lemma {:induction false} BuildEntriesNext(fs: FileSystem, read: Reader, path: string, entries: seq<DirEntry>, k: nat)
    requires path in fs.dirs && k < |entries|
    requires BuildEntries(fs, read, path, entries[..k]).Ok?
    ensures var ns := BuildEntries(fs, read, path, entries[..k]).value;
      var b := BuildEntry(fs, read, path, entries[k]);
      && (b.Err? ==> BuildEntries(fs, read, path, entries[..k + 1]) == Err(b.error))
      && (b.Ok? ==> BuildEntries(fs, read, path, entries[..k + 1]) ==
                    Ok(ns + if b.value.Some? then [b.value.value] else []))
  {
    assert entries[..k + 1][..k] == entries[..k];
    assert BuildEntries(fs, read, path, entries[..k]).value + [] == BuildEntries(fs, read, path, entries[..k]).value;
  }

  /** An error in the first `k` entries is the error of the whole listing. */
  lemma {:induction false} BuildEntriesError(fs: FileSystem, read: Reader, path: string, entries: seq<DirEntry>, k: nat)
    requires path in fs.dirs && k <= |entries|
    requires BuildEntries(fs, read, path, entries[..k]).Err?
    ensures BuildEntries(fs, read, path, entries) == BuildEntries(fs, read, path, entries[..k])
    decreases |entries|
  {
    if k < |entries| {
      var init := entries[..|entries| - 1];
      assert init[..k] == entries[..k];
      BuildEntriesError(fs, read, path, init, k);
    } else {
      assert entries[..k] == entries;
    }
  }

  /** The entries of a listing that become children: names not starting
      with '_', in listing order. */
  ghost function Visible(entries: seq<DirEntry>): (vs: seq<DirEntry>)
    ensures forall i :: 0 <= i < |vs| ==> vs[i].name != [] && vs[i].name[0] != '_'
  {
    if entries == [] then []
    else
      var last := entries[|entries| - 1];
      Visible(entries[..|entries| - 1]) + if last.name != [] && last.name[0] != '_' then [last] else []
  }

  /** The node built for a listed entry: what `BuildEntry` builds for it, at
      the joined path and named by its base, a directory exactly where the
      entry is one, and a leaf otherwise. */
  ghost predicate BuiltFrom(fs: FileSystem, read: Reader, path: string, n: Node, entry: DirEntry) {
    && path in fs.dirs
    && BuildEntry(fs, read, path, entry) == Ok(Some(n))
    && n.info.path == Join(path, entry.name)
    && (n.info.kind == DirType <==> entry.isDir)
    && (n.info.kind != DirType ==> n.children == [])
    && n.info.filename == Base(Join(path, entry.name))
  }

  /** A listing that builds is its listing without the last entry, then the
      last entry when that one is kept. */
  lemma {:induction false} BuildEntriesLast(fs: FileSystem, read: Reader, path: string, entries: seq<DirEntry>)
    requires path in fs.dirs && entries != []
    requires BuildEntries(fs, read, path, entries).Ok?
    ensures var init, last := entries[..|entries| - 1], entries[|entries| - 1];
      && BuildEntries(fs, read, path, init).Ok?
      && BuildEntry(fs, read, path, last).Ok?
      && BuildEntries(fs, read, path, entries).value ==
           BuildEntries(fs, read, path, init).value +
           (if BuildEntry(fs, read, path, last).value.Some? then [BuildEntry(fs, read, path, last).value.value] else [])
  {
  }

  /** A listing that builds has no empty name: `fi.Name()[0:1]` would have
      panicked on it. */
  lemma {:induction false} ListingNamed(fs: FileSystem, read: Reader, path: string, entries: seq<DirEntry>)
    requires path in fs.dirs
    requires BuildEntries(fs, read, path, entries).Ok?
    ensures forall i :: 0 <= i < |entries| ==> entries[i].name != []
    decreases |entries|
  {
    if entries != [] {
      var init, last := entries[..|entries| - 1], entries[|entries| - 1];
      BuildEntriesParts(fs, read, path, init, last);
      assert init + [last] == entries;
      ListingNamed(fs, read, path, init);
      NamedSnoc(init, last);
    }
  }

  /** A listing that builds has a prefix that builds and a last entry that
      builds. */
  lemma {:induction false} BuildEntriesParts(fs: FileSystem, read: Reader, path: string, init: seq<DirEntry>, last: DirEntry)
    requires path in fs.dirs
    requires BuildEntries(fs, read, path, init + [last]).Ok?
    ensures BuildEntries(fs, read, path, init).Ok? && last.name != []
  {
    var entries := init + [last];
    assert entries[..|entries| - 1] == init;
  }

  /** A built listing has one child per visible entry, in order, built from
      that entry. */
  lemma {:induction false} BuildEntriesShape(fs: FileSystem, read: Reader, path: string, entries: seq<DirEntry>)
    requires Faithful(read)
    requires path in fs.dirs
    requires BuildEntries(fs, read, path, entries).Ok?
    ensures var ns := BuildEntries(fs, read, path, entries).value;
      var vs := Visible(entries);
      && |ns| == |vs|
      && forall i :: 0 <= i < |ns| ==> BuiltFrom(fs, read, path, ns[i], vs[i])
    decreases |entries|
  {
    if entries != [] {
      var init, last := entries[..|entries| - 1], entries[|entries| - 1];
      BuildEntriesLast(fs, read, path, entries);
      BuildEntriesShape(fs, read, path, init);
      var b := BuildEntry(fs, read, path, last).value;
      BuildEntryShape(fs, read, path, last);
      var ns0 := BuildEntries(fs, read, path, init).value;
      if b.Some? {
        assert Visible(entries) == Visible(init) + [last];
        BuiltSnoc(fs, read, path, ns0, Visible(init), b.value, last);
      } else {
        assert Visible(entries) == Visible(init);
      }
    }
  }

  lemma {:induction false} NamedSnoc(init: seq<DirEntry>, last: DirEntry)
    requires forall i :: 0 <= i < |init| ==> init[i].name != []
    requires last.name != []
    ensures forall i :: 0 <= i < |init| + 1 ==> (init + [last])[i].name != []
  {
    forall i | 0 <= i < |init| + 1
      ensures (init + [last])[i].name != []
    {
      if i < |init| {
        assert (init + [last])[i] == init[i];
      }
    }
  }

  lemma {:induction false} BuiltSnoc(fs: FileSystem, read: Reader, path: string, ns: seq<Node>, vs: seq<DirEntry>, n: Node, v: DirEntry)
    requires |ns| == |vs| && forall i :: 0 <= i < |ns| ==> BuiltFrom(fs, read, path, ns[i], vs[i])
    requires BuiltFrom(fs, read, path, n, v)
    ensures forall i :: 0 <= i < |ns| + 1 ==> BuiltFrom(fs, read, path, (ns + [n])[i], (vs + [v])[i])
  {
    forall i | 0 <= i < |ns| + 1
      ensures BuiltFrom(fs, read, path, (ns + [n])[i], (vs + [v])[i])
    {
      if i < |ns| {
        assert (ns + [n])[i] == ns[i] && (vs + [v])[i] == vs[i];
      }
    }
  }

  /** One built entry: present exactly when its name has no leading '_',
      and then built from the entry. */
  lemma {:induction false} BuildEntryShape(fs: FileSystem, read: Reader, path: string, entry: DirEntry)
    requires Faithful(read)
    requires path in fs.dirs
    requires BuildEntry(fs, read, path, entry).Ok?
    ensures entry.name != []
    ensures BuildEntry(fs, read, path, entry).value.Some? <==> entry.name[0] != '_'
    ensures BuildEntry(fs, read, path, entry).value.Some? ==>
      BuiltFrom(fs, read, path, BuildEntry(fs, read, path, entry).value.value, entry)
    ensures var child, b := Join(path, entry.name), BuildEntry(fs, read, path, entry).value;
      b.Some? ==>
        && (entry.isDir ==> BuildDir(fs, read, child) == Ok(b.value))
        && (!entry.isDir ==> b.value == Node(read(child).value, []) && read(child).Ok?)
  {
  }

  /** `readDirectory` on a directory that reads without error: one child
      per visible entry of its listing, in order, built from that entry. */
  lemma {:induction false} BuildDirShape(fs: FileSystem, read: Reader, path: string)
    requires Faithful(read)
    requires BuildDir(fs, read, path).Ok?
    ensures path in fs.dirs
    ensures var n := BuildDir(fs, read, path).value;
      var vs := Visible(fs.dirs[path]);
      && n.info == DirInfo(path)
      && |n.children| == |vs|
      && forall i :: 0 <= i < |vs| ==> BuiltFrom(fs, read, path, n.children[i], vs[i])
  {
    BuildEntriesShape(fs, read, path, fs.dirs[path]);
  }

  /** Every visible entry comes from the listing. */
  lemma {:induction false} VisibleFromListing(entries: seq<DirEntry>)
    ensures forall i :: 0 <= i < |Visible(entries)| ==> Visible(entries)[i] in entries
    decreases |entries|
  {
    if entries != [] {
      var init := entries[..|entries| - 1];
      VisibleFromListing(init);
      assert forall e :: e in init ==> e in entries;
    }
  }

  /** No child of a directory is named with a leading '_': such entries are
      skipped, and every other name is the base of its child's path. */
  lemma {:induction false} NoHiddenChildren(fs: FileSystem, read: Reader, path: string)
    requires Faithful(read)
    requires BuildDir(fs, read, path).Ok? && IsDirPath(path)
    requires path in fs.dirs && forall e :: e in fs.dirs[path] ==> '/' !in e.name
    ensures var cs := BuildDir(fs, read, path).value.children;
      forall i :: 0 <= i < |cs| ==> cs[i].info.filename != [] && cs[i].info.filename[0] != '_'
  {
    var n := BuildDir(fs, read, path).value;
    var vs := Visible(fs.dirs[path]);
    BuildDirShape(fs, read, path);
    VisibleFromListing(fs.dirs[path]);
    forall i | 0 <= i < |n.children|
      ensures n.children[i].info.filename == vs[i].name
    {
      assert BuiltFrom(fs, read, path, n.children[i], vs[i]);
      BaseDirOfJoin(path, vs[i].name);
    }
  }

  /** The entries of every listing are single path elements, as
      `ioutil.ReadDir` yields them. */
  ghost predicate ListingsAreElements(fs: FileSystem) {
    forall d, e :: d in fs.dirs && e in fs.dirs[d] ==> '/' !in e.name
  }

  /** An element shown in the site: its name does not start with '_'. */
  predicate Shown(info: ElementInfo) {
    info.filename != [] && info.filename[0] != '_'
  }

  /** Every node below `n`, at any depth, is shown. */
  ghost predicate ShownBelow(n: Node)
    decreases n
  {
    forall i :: 0 <= i < |n.children| ==> Shown(n.children[i].info) && ShownBelow(n.children[i])
  }

  /** No node anywhere below a built directory has a name starting with
      '_': the skip applies at every level of the walk. */
  lemma {:induction false} NoHiddenBelow(fs: FileSystem, read: Reader, path: string)
    requires Faithful(read) && ListingsAreElements(fs)
    requires BuildDir(fs, read, path).Ok? && IsDirPath(path)
    ensures ShownBelow(BuildDir(fs, read, path).value)
    decreases Measure(fs, path)
  {
    var n := BuildDir(fs, read, path).value;
    var vs := Visible(fs.dirs[path]);
    BuildDirShape(fs, read, path);
    NoHiddenChildren(fs, read, path);
    VisibleFromListing(fs.dirs[path]);
    forall i | 0 <= i < |n.children|
      ensures ShownBelow(n.children[i])
    {
      assert BuiltFrom(fs, read, path, n.children[i], vs[i]);
      BuildEntryShape(fs, read, path, vs[i]);
      if vs[i].isDir {
        var child := Join(path, vs[i].name);
        assert vs[i] in fs.dirs[path];
        assert child == path + "/" + vs[i].name;
        MeasureDecreases(fs, path, vs[i].name);
        NoHiddenBelow(fs, read, child);
      }
    }
  }

  /** `readDirectory(path)`: the directory element for `path`, whose
      children are its listing's entries not starting with '_', in listing
      order, each with `Parent` set to it; any error aborts the whole build. */
  method ReadDirectory(fs: FileSystem, src: string, path: string) returns (r: Result<Element>)
    ensures r.Err? <==> BuildDir(fs, FileReader(fs, src), path).Err?
    ensures r.Err? ==> r.error == BuildDir(fs, FileReader(fs, src), path).error
    ensures r.Ok? ==> r.value.Valid() && fresh(r.value.Repr) && r.value.Parent == null
    ensures r.Ok? ==> r.value.Model() == BuildDir(fs, FileReader(fs, src), path).value
    decreases Measure(fs, path), 1
  {
    var dir := new Element(DirInfo(path));
    if path !in fs.dirs {
      return Err(ReadFailed(path));
    }
    var listing := fs.dirs[path];
    ghost var read := FileReader(fs, src);
    var k := 0;
    assert listing[..0] == [];
    while k < |listing|
      invariant 0 <= k <= |listing|
      invariant dir.Valid() && fresh(dir.Repr) && dir.Parent == null && dir.Info() == DirInfo(path)
      invariant BuildEntries(fs, read, path, listing[..k]) == Ok(dir.ModelFrom(0))
    {
      BuildEntriesNext(fs, read, path, listing, k);
      var err := AddEntry(fs, src, path, dir, listing[k]);
      if err.Some? {
        BuildEntriesError(fs, read, path, listing, k + 1);
        return Err(err.value);
      }
      k := k + 1;
    }
    assert listing[..k] == listing;
    return Ok(dir);
  }

  /** One turn of `readDirectory`'s loop: read the entry and, unless it is
      skipped, attach it to `dir`; an error leaves `dir`'s children as they
      were. */
  method AddEntry(fs: FileSystem, src: string, path: string, dir: Element, entry: DirEntry) returns (err: Option<Error>)
    requires path in fs.dirs && dir.Valid() && dir.Type == DirType
    modifies dir`Children, dir`Repr
    ensures dir.Valid() && fresh(dir.Repr - old(dir.Repr))
    ensures var b := BuildEntry(fs, FileReader(fs, src), path, entry);
      && (err.Some? <==> b.Err?)
      && (err.Some? ==> err.value == b.error)
      && (err.None? ==> dir.ModelFrom(0) == old(dir.ModelFrom(0)) + (if b.value.Some? then [b.value.value] else []))
    ensures err.Some? ==> dir.Children == old(dir.Children) && dir.Repr == old(dir.Repr)
    decreases Measure(fs, path), 0, 1
  {
    var e := ReadEntry(fs, src, path, entry);
    if e.Err? {
      return Some(e.error);
    }
    if e.value.Some? {
      AddChild(dir, e.value.value);
    }
    return None;
  }

  /** The body of `readDirectory`'s loop for one listed entry: `None` for a
      skipped name, otherwise the fresh element built for the entry. */
  method ReadEntry(fs: FileSystem, src: string, path: string, entry: DirEntry) returns (r: Result<Option<Element>>)
    requires path in fs.dirs
    ensures r.Err? <==> BuildEntry(fs, FileReader(fs, src), path, entry).Err?
    ensures r.Err? ==> r.error == BuildEntry(fs, FileReader(fs, src), path, entry).error
    ensures r.Ok? ==> (r.value.None? <==> BuildEntry(fs, FileReader(fs, src), path, entry).value.None?)
    ensures r.Ok? && r.value.Some? ==>
      var e := r.value.value;
      e.Valid() && fresh(e.Repr) && e.Parent == null && e.Model() == BuildEntry(fs, FileReader(fs, src), path, entry).value.value
    decreases Measure(fs, path), 0, 0
  {
    if entry.name == [] {
      return Err(Panic("slice bounds out of range"));
    }
    if entry.name[0] == '_' {
      return Ok(None);
    }
    var child := Join(path, entry.name);
    MeasureDecreases(fs, path, entry.name);
    if entry.isDir {
      var sub := ReadDirectory(fs, src, child);
      if sub.Err? {
        return Err(sub.error);
      }
      return Ok(Some(sub.value));
    }
    var info := ReadFile(fs, src, child);
    if info.Err? {
      return Err(info.error);
    }
    var e := new Element(info.value);
    return Ok(Some(e));
  }

  /** `e.Parent = dir; dir.Children = append(dir.Children, e)` for a freshly
      built `e`. */
  method AddChild(dir: Element, e: Element)
    requires dir.Valid() && dir.Type == DirType && e.Valid() && e.Parent == null
    requires e.Repr !! dir.Repr
    modifies e`Parent, dir`Children, dir`Repr
    ensures dir.Valid() && dir.Repr == old(dir.Repr) + e.Repr
    ensures dir.Children == old(dir.Children) + [e] && e.Parent == dir
    ensures dir.ModelFrom(0) == old(dir.ModelFrom(0)) + [old(e.Model())]
  {
    SetParent(e, dir);
    Append(dir, e);
  }

  /** Setting the parent link leaves the subtree and its value unchanged. */
  method SetParent(e: Element, parent: Element)
    requires e.Valid() && parent !in e.Repr
    modifies e`Parent
    ensures e.Valid() && e.Parent == parent && e.Model() == old(e.Model())
  {
    ghost var m := e.ModelFrom(0);
    ModelsOfChildren(e);
    e.Parent := parent;
    ModelsOfChildren(e);
    assert e.ModelFrom(0) == m;
  }

  method Append(dir: Element, e: Element)
    requires dir.Valid() && dir.Type == DirType && e.Valid() && e.Parent == dir
    requires e.Repr !! dir.Repr
    modifies dir`Children, dir`Repr
    ensures dir.Valid() && dir.Repr == old(dir.Repr) + e.Repr
    ensures dir.Children == old(dir.Children) + [e]
    ensures dir.ModelFrom(0) == old(dir.ModelFrom(0)) + [e.Model()]
  {
    ghost var before := dir.ModelFrom(0);
    ghost var kids := dir.Children;
    ghost var repr := dir.Repr;
    ModelsOfChildren(dir);
    dir.Children := dir.Children + [e];
    dir.Repr := dir.Repr + e.Repr;
    ValidAppended(dir, kids, repr, e);
    ModelOfAppended(dir, kids, before, e);
  }

  /** A directory stays well formed when a well-formed element with a
      disjoint footprint is added as its last child. */
  lemma {:induction false} ValidAppended(dir: Element, kids: seq<Element>, repr: set<object>, e: Element)
    requires dir.Children == kids + [e] && dir.Repr == repr + e.Repr
    requires dir in repr && dir.Type == DirType && repr !! e.Repr
    requires forall i :: 0 <= i < |kids| ==>
      kids[i] in repr && kids[i].Repr <= repr && dir !in kids[i].Repr && kids[i].Parent == dir && kids[i].Valid()
    requires forall i, j :: 0 <= i < j < |kids| ==> kids[i].Repr !! kids[j].Repr
    requires e.Valid() && e.Parent == dir
    ensures dir.Valid()
  {
    var cs := kids + [e];
    forall i | 0 <= i < |cs|
      ensures cs[i] in dir.Repr && cs[i].Repr <= dir.Repr && dir !in cs[i].Repr
      ensures cs[i].Parent == dir && cs[i].Valid()
    {
      if i < |kids| {
        assert cs[i] == kids[i];
      }
    }
    forall i, j | 0 <= i < j < |cs|
      ensures cs[i].Repr !! cs[j].Repr
    {
      if j < |kids| {
        assert cs[i] == kids[i] && cs[j] == kids[j];
      } else {
        assert cs[i] == kids[i];
      }
    }
  }

  lemma {:induction false} ModelOfAppended(dir: Element, kids: seq<Element>, before: seq<Node>, e: Element)
    requires dir.Valid() && e.Valid() && dir.Children == kids + [e] && |before| == |kids|
    requires forall i :: 0 <= i < |kids| ==> kids[i].Valid() && kids[i].Model() == before[i]
    ensures dir.ModelFrom(0) == before + [e.Model()]
  {
    ghost var after := dir.ModelFrom(0);
    forall i | 0 <= i <= |kids|
      ensures after[i] == (before + [e.Model()])[i]
    {
      ModelFromAt(dir, 0, i);
    }
  }
}
