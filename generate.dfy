/** Output generation: `generate` (zite.go:262-291) walks the element tree
    depth first, copying plain files and rendering pages into the output
    directory, and stops at the first error; `main` (zite.go:309-319) reads
    the source tree and generates it. The writes performed are returned as
    a list instead of being carried out. */
module Generate {
  import opened Common
  import opened Paths
  import opened Site
  import opened Tree

  /** One output file written, with its full text. */
  datatype Write = Write(dest: string, text: string)

  /** The writes performed, in order, and the error that stopped the walk. */
  datatype Outcome = Outcome(writes: seq<Write>, failure: Option<Error>)

  /** The writes `ws` happened before the walk went on with outcome `o`. */
  function After(ws: seq<Write>, o: Outcome): Outcome {
    Outcome(ws + o.writes, o.failure)
  }

  // -----------------------------------------------------------------------
  // One element

  /** What `generate` does for one element on its own (see `LeafWrites`). */
  function LeafOutcome(cfg: Config, fs: FileSystem, engine: Engine, info: ElementInfo): (o: Outcome)
    ensures o.failure.Some? ==> o.writes == []
    ensures info.kind != DirType ==> (o.failure.None? <==> |o.writes| == 1)
  {
    match info.kind
    case DirType => Outcome([], None)
    case FileType =>
      (match StripPath(cfg.src, info.path)
       case Err(e) => Outcome([], Some(e))
       case Ok(rel) =>
         if info.path !in fs.files then Outcome([], Some(ReadFailed(info.path)))
         else Outcome([Write(Join(cfg.out, rel), fs.files[info.path])], None))
    case PageType =>
      match StripPath(cfg.src, info.path)
      case Err(e) => Outcome([], Some(e))
      case Ok(rel) =>
        match RenderFile(fs, cfg.src, engine, info)
        case Err(e) => Outcome([], Some(e))
        case Ok(text) => Outcome([Write(EnsureExt(Join(cfg.out, rel), ".html"), text)], None)
  }

  /** A file is copied verbatim to `out/rel`, a page rendered and written to
      `out/rel` with its extension made ".html", where `rel` is the
      element's path below the source directory. Computing `rel` (which
      slices the path) comes first and its panic wins; a missing file and a
      failed rendering are the other errors. A directory writes nothing
      itself. */
  lemma {:induction false} LeafWrites(cfg: Config, fs: FileSystem, engine: Engine, info: ElementInfo)
    ensures var o := LeafOutcome(cfg, fs, engine, info);
      var rel := StripPath(cfg.src, info.path);
      && (info.kind == DirType ==> o == Outcome([], None))
      && (info.kind != DirType && rel.Err? ==> o.failure == Some(rel.error))
      && (info.kind == FileType ==>
            && (o.failure.None? <==> rel.Ok? && info.path in fs.files)
            && (rel.Ok? && info.path !in fs.files ==> o.failure == Some(ReadFailed(info.path)))
            && (o.failure.None? ==> o.writes == [Write(Join(cfg.out, rel.value), fs.files[info.path])]))
      && (info.kind == PageType ==>
            var page := RenderFile(fs, cfg.src, engine, info);
            && (o.failure.None? <==> rel.Ok? && page.Ok?)
            && (rel.Ok? && page.Err? ==> o.failure == Some(page.error))
            && (o.failure.None? ==> o.writes == [Write(EnsureExt(Join(cfg.out, rel.value), ".html"), page.value)]))
  {
  }

  /** Where a page lands: below `out`, at its path below `src` with the
      extension replaced by ".html" (when the extension occurs only at the
      end of the destination). */
  lemma {:induction false} PageDestination(cfg: Config, fs: FileSystem, engine: Engine, info: ElementInfo, rel: string)
    requires cfg.src != [] && rel != [] && info.path == Join(cfg.src, rel) && info.kind == PageType
    requires var dest := Join(cfg.out, rel); Ext(dest) != [] && OnlyAtEnd(dest, Ext(dest))
    requires LeafOutcome(cfg, fs, engine, info).failure.None?
    ensures var dest := Join(cfg.out, rel);
      LeafOutcome(cfg, fs, engine, info).writes[0].dest == dest[..|dest| - |Ext(dest)|] + ".html"
  {
    StripPathOfJoin(cfg.src, rel);
    LeafWrites(cfg, fs, engine, info);
    EnsureExtOnlyAtEnd(Join(cfg.out, rel), ".html");
  }

  // -----------------------------------------------------------------------
  // A sequence of steps that stops at the first error

  /** The outcomes `os` one after another, stopping at the first failure. */
  function Chain(os: seq<Outcome>): Outcome
    decreases |os|
  {
    if os == [] then Outcome([], None)
    else if os[0].failure.Some? then os[0]
    else After(os[0].writes, Chain(os[1..]))
  }

  /** Chaining `a + b` chains `a`, then `b` only when `a` succeeded. */
  lemma {:induction false} ChainAppend(a: seq<Outcome>, b: seq<Outcome>)
    ensures Chain(a + b) == if Chain(a).failure.Some? then Chain(a) else After(Chain(a).writes, Chain(b))
    decreases |a|
  {
    if a != [] {
      assert (a + b)[0] == a[0] && (a + b)[1..] == a[1..] + b;
      ChainAppend(a[1..], b);
    } else {
      assert a + b == b && [] + Chain(b).writes == Chain(b).writes;
    }
  }

  /** A chain succeeds exactly when every step does, and then its writes are
      the steps' writes in order. */
  lemma {:induction false} ChainSucceeds(os: seq<Outcome>)
    ensures Chain(os).failure.None? <==> forall i :: 0 <= i < |os| ==> os[i].failure.None?
    ensures Chain(os).failure.None? ==> Chain(os).writes == Concat(os)
    decreases |os|
  {
    if os != [] {
      ChainSucceeds(os[1..]);
      assert forall i :: 1 <= i < |os| ==> os[i] == os[1..][i - 1];
    }
  }

  /** All the writes of `os`, in order. */
  function Concat(os: seq<Outcome>): seq<Write>
    decreases |os|
  {
    if os == [] then [] else os[0].writes + Concat(os[1..])
  }

  /** A failed chain stopped at its first failing step `k`: it wrote what
      the steps before `k` wrote and reports step `k`'s error. */
  lemma {:induction false} ChainFails(os: seq<Outcome>) returns (k: nat)
    requires Chain(os).failure.Some?
    ensures k < |os| && os[k].failure.Some?
    ensures forall i :: 0 <= i < k ==> os[i].failure.None?
    ensures Chain(os).failure == os[k].failure
    ensures Chain(os).writes == Concat(os[..k]) + os[k].writes
    decreases |os|
  {
    if os[0].failure.Some? {
      k := 0;
      assert os[..0] == [];
    } else {
      var j := ChainFails(os[1..]);
      k := j + 1;
      assert os[..k] == [os[0]] + os[1..][..j];
      assert forall i :: 1 <= i < |os| ==> os[i] == os[1..][i - 1];
    }
  }

  // -----------------------------------------------------------------------
  // The whole tree

  /** The files and pages of a tree, depth first in children order. */
  function Leaves(n: Node): seq<ElementInfo>
    decreases n
  {
    if n.info.kind == DirType then LeavesOf(n.children) else [n.info]
  }

  function LeavesOf(ns: seq<Node>): seq<ElementInfo>
    decreases ns
  {
    if ns == [] then [] else Leaves(ns[0]) + LeavesOf(ns[1..])
  }

  /** Only files and pages are leaves: directories are walked, not handled. */
  lemma {:induction false} LeavesAreFilesAndPages(n: Node)
    ensures forall i :: 0 <= i < |Leaves(n)| ==> Leaves(n)[i].kind != DirType
    decreases n, 1
  {
    if n.info.kind == DirType {
      LeavesOfAreFilesAndPages(n.children);
    }
  }

  lemma {:induction false} LeavesOfAreFilesAndPages(ns: seq<Node>)
    ensures forall i :: 0 <= i < |LeavesOf(ns)| ==> LeavesOf(ns)[i].kind != DirType
    decreases ns, 0
  {
    if ns != [] {
      LeavesAreFilesAndPages(ns[0]);
      LeavesOfAreFilesAndPages(ns[1..]);
      var a, b := Leaves(ns[0]), LeavesOf(ns[1..]);
      assert forall i :: |a| <= i < |a + b| ==> (a + b)[i] == b[i - |a|];
    }
  }

  /** Every leaf of shown nodes, each shown all the way down, is shown. */
  lemma {:induction false} LeavesShown(n: Node)
    requires Shown(n.info) && ShownBelow(n)
    ensures forall i :: 0 <= i < |Leaves(n)| ==> Shown(Leaves(n)[i])
    decreases n, 1
  {
    if n.info.kind == DirType {
      LeavesOfShown(n.children);
    }
  }

  lemma {:induction false} LeavesOfShown(ns: seq<Node>)
    requires forall i :: 0 <= i < |ns| ==> Shown(ns[i].info) && ShownBelow(ns[i])
    ensures forall i :: 0 <= i < |LeavesOf(ns)| ==> Shown(LeavesOf(ns)[i])
    decreases ns, 0
  {
    if ns != [] {
      LeavesShown(ns[0]);
      LeavesOfShown(ns[1..]);
      var a, b := Leaves(ns[0]), LeavesOf(ns[1..]);
      assert forall i :: |a| <= i < |a + b| ==> (a + b)[i] == b[i - |a|];
    }
  }

  /** No file or page whose name, or whose directory's name at any level,
      starts with '_' is among the leaves that `generate` handles: every
      leaf of a built source tree is shown. */
  lemma {:induction false} HiddenNotGenerated(fs: FileSystem, read: Reader, path: string)
    requires Faithful(read) && ListingsAreElements(fs)
    requires BuildDir(fs, read, path).Ok? && IsDirPath(path)
    ensures var ls := Leaves(BuildDir(fs, read, path).value);
      forall i :: 0 <= i < |ls| ==> Shown(ls[i])
  {
    var tree := BuildDir(fs, read, path).value;
    NoHiddenBelow(fs, read, path);
    assert Leaves(tree) == LeavesOf(tree.children);
    LeavesOfShown(tree.children);
  }

  /** `generate` applied to a single file or page. */
  function Handle(cfg: Config, fs: FileSystem, engine: Engine): ElementInfo -> Outcome {
    info => LeafOutcome(cfg, fs, engine, info)
  }

  /** The outcome of each leaf on its own. */
  function Steps(step: ElementInfo -> Outcome, ls: seq<ElementInfo>): seq<Outcome> {
    seq(|ls|, i requires 0 <= i < |ls| => step(ls[i]))
  }

  /** The leaves handled in order, stopping at the first error. */
  function RunLeaves(step: ElementInfo -> Outcome, ls: seq<ElementInfo>): Outcome {
    Chain(Steps(step, ls))
  }

  lemma {:induction false} StepsAppend(step: ElementInfo -> Outcome, a: seq<ElementInfo>, b: seq<ElementInfo>)
    ensures Steps(step, a + b) == Steps(step, a) + Steps(step, b)
  {
    var l, r := Steps(step, a + b), Steps(step, a) + Steps(step, b);
    forall i | 0 <= i < |a + b| ensures l[i] == r[i] {
      if i >= |a| {
        assert (a + b)[i] == b[i - |a|];
      }
    }
  }

  /** Running the leaves of `a + b` runs `a`'s, then `b`'s only when `a`'s
      succeeded. */
  lemma {:induction false} RunLeavesAppend(step: ElementInfo -> Outcome, a: seq<ElementInfo>, b: seq<ElementInfo>)
    ensures var ra := RunLeaves(step, a);
      RunLeaves(step, a + b) == if ra.failure.Some? then ra else After(ra.writes, RunLeaves(step, b))
  {
    StepsAppend(step, a, b);
    ChainAppend(Steps(step, a), Steps(step, b));
  }

  /** Generation succeeds exactly when every leaf does, and then, when
      each leaf handled writes one file (as `LeafOutcome` does for files
      and pages), writes one output file per leaf, in order. */
  lemma {:induction false} RunLeavesSucceeds(step: ElementInfo -> Outcome, ls: seq<ElementInfo>)
    requires forall i :: 0 <= i < |ls| ==> (step(ls[i]).failure.None? ==> |step(ls[i]).writes| == 1)
    ensures var o := RunLeaves(step, ls);
      && (o.failure.None? <==> forall i :: 0 <= i < |ls| ==> step(ls[i]).failure.None?)
      && (o.failure.None? ==>
            && |o.writes| == |ls|
            && forall i :: 0 <= i < |ls| ==> [o.writes[i]] == step(ls[i]).writes)
  {
    var os := Steps(step, ls);
    assert forall i :: 0 <= i < |ls| ==> os[i] == step(ls[i]);
    ChainSucceeds(os);
    if Chain(os).failure.None? {
      ConcatSingles(os);
    }
  }

  /** Steps that write one file each write one file per step. */
  lemma {:induction false} ConcatSingles(os: seq<Outcome>)
    requires forall i :: 0 <= i < |os| ==> |os[i].writes| == 1
    ensures |Concat(os)| == |os|
    ensures forall i :: 0 <= i < |os| ==> [Concat(os)[i]] == os[i].writes
    decreases |os|
  {
    if os != [] {
      ConcatSingles(os[1..]);
      assert forall i :: 1 <= i < |os| ==> os[i] == os[1..][i - 1];
    }
  }

  /** A failed generation stopped at its first failing leaf `k`: it wrote
      what the leaves before `k` wrote and reports leaf `k`'s error. */
  lemma {:induction false} RunLeavesFails(step: ElementInfo -> Outcome, ls: seq<ElementInfo>) returns (k: nat)
    requires RunLeaves(step, ls).failure.Some?
    ensures k < |ls|
    ensures step(ls[k]).failure.Some?
    ensures forall i :: 0 <= i < k ==> step(ls[i]).failure.None?
    ensures RunLeaves(step, ls).failure == step(ls[k]).failure
    ensures RunLeaves(step, ls).writes == RunLeaves(step, ls[..k]).writes + step(ls[k]).writes
  {
    var os := Steps(step, ls);
    assert forall i :: 0 <= i < |ls| ==> os[i] == step(ls[i]);
    k := ChainFails(os);
    assert Steps(step, ls[..k]) == os[..k];
    assert forall i :: 0 <= i < k ==> os[..k][i].failure.None?;
    ChainSucceeds(os[..k]);
  }

  /** One turn of `generate`'s loop over a directory's children `ms`: the
      outcome of child `k` either ends the walk or extends the writes. */
  lemma {:induction false} GenerateStep(step: ElementInfo -> Outcome, ms: seq<Node>, k: nat, writes: seq<Write>, r: Outcome)
    requires k < |ms|
    requires RunLeaves(step, LeavesOf(ms)) == After(writes, RunLeaves(step, LeavesOf(ms[k..])))
    requires r == RunLeaves(step, Leaves(ms[k]))
    ensures r.failure.Some? ==> RunLeaves(step, LeavesOf(ms)) == Outcome(writes + r.writes, r.failure)
    ensures r.failure.None? ==> RunLeaves(step, LeavesOf(ms)) == After(writes + r.writes, RunLeaves(step, LeavesOf(ms[k + 1..])))
  {
    LeavesOfFrom(ms, k);
    RunStep(step, Leaves(ms[k]), LeavesOf(ms[k + 1..]), writes, r, RunLeaves(step, LeavesOf(ms)));
  }

  lemma {:induction false} RunStep(step: ElementInfo -> Outcome, here: seq<ElementInfo>, rest: seq<ElementInfo>, writes: seq<Write>, r: Outcome, total: Outcome)
    requires total == After(writes, RunLeaves(step, here + rest)) && r == RunLeaves(step, here)
    ensures r.failure.Some? ==> total == Outcome(writes + r.writes, r.failure)
    ensures r.failure.None? ==> total == After(writes + r.writes, RunLeaves(step, rest))
  {
    RunLeavesAppend(step, here, rest);
    if r.failure.None? {
      var x := RunLeaves(step, rest);
      assert writes + (r.writes + x.writes) == (writes + r.writes) + x.writes;
    }
  }

  lemma {:induction false} LeavesOfFrom(ms: seq<Node>, k: nat)
    requires k < |ms|
    ensures LeavesOf(ms[k..]) == Leaves(ms[k]) + LeavesOf(ms[k + 1..])
  {
    assert ms[k..][0] == ms[k] && ms[k..][1..] == ms[k + 1..];
  }

  /** A tree that is a single file or page is generated by handling it. */
  lemma {:induction false} SingleLeaf(step: ElementInfo -> Outcome, info: ElementInfo)
    requires step(info).failure.Some? ==> step(info).writes == []
    ensures RunLeaves(step, [info]) == step(info)
  {
    var o := step(info);
    assert Steps(step, [info]) == [o];
    assert Chain([o][1..]) == Outcome([], None);
    assert o.writes + [] == o.writes;
  }

  /** `generate(el)`: the outcome of processing the tree's files and pages
      depth first, stopping at the first error. The ghost `tree` is the
      value the element models. */
  method Generate(cfg: Config, fs: FileSystem, engine: Engine, el: Element, ghost tree: Node) returns (o: Outcome)
    requires el.Valid() && tree == el.Model()
    ensures o == RunLeaves(Handle(cfg, fs, engine), Leaves(tree))
    decreases el.Repr, 1
  {
    if el.Type != DirType {
      GenerateLeaf(cfg, fs, engine, el);
      o := LeafOutcome(cfg, fs, engine, el.Info());
    } else {
      ghost var ms := el.ModelFrom(0);
      ModelsOfChildren(el);
      o := GenerateChildren(cfg, fs, engine, el, ms);
      assert Leaves(tree) == LeavesOf(ms);
    }
  }

  /** The loop of `generate` over a directory's children, stopping at the
      first child that fails; `ms` are the values the children model. */
  method GenerateChildren(cfg: Config, fs: FileSystem, engine: Engine, el: Element, ghost ms: seq<Node>) returns (o: Outcome)
    requires el.Valid() && el.Type == DirType
    requires |ms| == |el.Children| && forall i :: 0 <= i < |ms| ==> ms[i] == el.Children[i].Model()
    ensures o == RunLeaves(Handle(cfg, fs, engine), LeavesOf(ms))
    decreases el.Repr, 0
  {
    ghost var step := Handle(cfg, fs, engine);
    GenerateDirStart(step, ms);
    var writes := [];
    var k := 0;
    while k < |el.Children|
      invariant 0 <= k <= |el.Children|
      invariant RunLeaves(step, LeavesOf(ms)) == After(writes, RunLeaves(step, LeavesOf(ms[k..])))
    {
      ChildValid(el, k);
      var r := Generate(cfg, fs, engine, el.Children[k], ms[k]);
      GenerateStep(step, ms, k, writes, r);
      if r.failure.Some? {
        return Outcome(writes + r.writes, r.failure);
      }
      writes := writes + r.writes;
      k := k + 1;
    }
    GenerateDirEnd(step, ms, writes, RunLeaves(step, LeavesOf(ms)));
    o := Outcome(writes, None);
  }

  /** An element that is not a directory is its own single leaf. */
  lemma {:induction false} GenerateLeaf(cfg: Config, fs: FileSystem, engine: Engine, el: Element)
    requires el.Valid() && el.Type != DirType
    ensures RunLeaves(Handle(cfg, fs, engine), Leaves(el.Model())) == LeafOutcome(cfg, fs, engine, el.Info())
  {
    assert Leaves(el.Model()) == [el.Info()];
    SingleLeaf(Handle(cfg, fs, engine), el.Info());
  }

  /** Before the loop over a directory's children nothing has been written. */
  lemma {:induction false} GenerateDirStart(step: ElementInfo -> Outcome, ms: seq<Node>)
    ensures RunLeaves(step, LeavesOf(ms)) == After([], RunLeaves(step, LeavesOf(ms[0..])))
  {
    assert ms[0..] == ms;
    var x := RunLeaves(step, LeavesOf(ms));
    assert [] + x.writes == x.writes;
  }

  /** After the last child the walk has succeeded with what it wrote. */
  lemma {:induction false} GenerateDirEnd(step: ElementInfo -> Outcome, ms: seq<Node>, writes: seq<Write>, total: Outcome)
    requires total == After(writes, RunLeaves(step, LeavesOf(ms[|ms|..])))
    ensures total == Outcome(writes, None)
  {
    assert ms[|ms|..] == [];
    assert LeavesOf([]) == [];
    assert Steps(step, []) == [];
    assert writes + [] == writes;
  }

  /** What running the generator on the source tree of `cfg` does. */
  ghost function SiteOutcome(cfg: Config, fs: FileSystem, engine: Engine): Outcome {
    match BuildDir(fs, FileReader(fs, cfg.src), cfg.src)
    case Err(e) => Outcome([], Some(e))
    case Ok(tree) => RunLeaves(Handle(cfg, fs, engine), Leaves(tree))
  }

  /** `main` after the configuration is read: read the source tree, then
      generate it; an error from either step ends the run. */
  method Run(cfg: Config, fs: FileSystem, engine: Engine) returns (o: Outcome)
    ensures o == SiteOutcome(cfg, fs, engine)
  {
    var tree := ReadDirectory(fs, cfg.src, cfg.src);
    if tree.Err? {
      return Outcome([], Some(tree.error));
    }
    o := Generate(cfg, fs, engine, tree.value, tree.value.Model());
  }
}
