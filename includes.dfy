/** Include expansion, `replaceIncludes` (zite.go:40-58): every match of
    `\{\{include ([^}]+)}}`, scanned leftmost-first, is replaced by the
    contents of the file it names, resolved against the directory of the
    including file. Inserted text is not scanned again. The regular
    expression is specified directly as a scanner over characters. */
module Includes {
  import opened Common
  import opened Text
  import opened Paths

  const Opening: string := "{{include "
  const Closing: string := "}}"

  /** A directive occupies `s[i..j + 2]`: the opening marker, a token
      `s[i + 10..j]` of one or more characters other than '}', and "}}". */
  predicate DirectiveAt(s: string, i: int, j: int) {
    0 <= i && i + |Opening| < j && j + |Closing| <= |s|
    && s[i..i + |Opening|] == Opening && s[j..j + |Closing|] == Closing
    && forall k :: i + |Opening| <= k < j ==> s[k] != '}'
  }

  /** The first '}' at or after `k`, or `|s|` when there is none. */
  function CloseBrace(s: string, k: nat): (j: nat)
    requires k <= |s|
    ensures k <= j <= |s| && (j < |s| ==> s[j] == '}')
    ensures forall m :: k <= m < j ==> s[m] != '}'
    decreases |s| - k
  {
    if k == |s| || s[k] == '}' then k else CloseBrace(s, k + 1)
  }

  /** The directive at the start of `s`, given by the index of its "}}". */
  function MatchAt(s: string): (r: Option<nat>)
    ensures r.Some? ==> DirectiveAt(s, 0, r.value)
    ensures r.None? ==> forall j :: !DirectiveAt(s, 0, j)
  {
    if |s| >= |Opening| && s[..|Opening|] == Opening then
      var j := CloseBrace(s, |Opening|);
      if j > |Opening| && j + |Closing| <= |s| && s[j + 1] == '}' then
        assert s[j..j + 2] == Closing;
        Some(j)
      else
        assert forall j' :: DirectiveAt(s, 0, j') ==> j' == j by {
          forall j' | DirectiveAt(s, 0, j') ensures j' == j {
            assert s[j'] == s[j'..j' + 2][0];
          }
        }
        None
    else None
  }

  /** A scanned piece of text: a literal run, or a directive with its token. */
  datatype Piece = Literal(text: string) | Include(token: string)

  /** The text a piece was scanned from. */
  function Source(p: Piece): string {
    match p
    case Literal(t) => t
    case Include(t) => Opening + t + Closing
  }

  function Unsplit(ps: seq<Piece>): string {
    if ps == [] then "" else Source(ps[0]) + Unsplit(ps[1..])
  }

  /** Adds `c` in front of the leading literal run. */
  function PrependChar(c: char, ps: seq<Piece>): seq<Piece> {
    if ps != [] && ps[0].Literal? then [Literal([c] + ps[0].text)] + ps[1..]
    else [Literal([c])] + ps
  }

  /** The scanner: leftmost-first directives and the literal runs between them. */
  function Split(s: string): seq<Piece>
    decreases |s|, 1
  {
    if |s| == 0 then [] else SplitStep(s, MatchAt(s))
  }

  /** One step of the scan, given the directive (if any) at the start of `s`. */
  function SplitStep(s: string, m: Option<nat>): seq<Piece>
    requires |s| > 0 && (m.Some? ==> DirectiveAt(s, 0, m.value))
    decreases |s|, 0
  {
    match m
    case Some(j) => [Include(s[|Opening|..j])] + Split(s[j + |Closing|..])
    case None => PrependChar(s[0], Split(s[1..]))
  }

  /** The contents a piece stands for once expanded. */
  function Emit(files: map<string, string>, base: string, p: Piece): Result<string> {
    match p
    case Literal(t) => Ok(t)
    case Include(t) =>
      var key := Join(base, t);
      if key in files then Ok(files[key]) else Err(ReadFailed(key))
  }

  /** Expands the pieces left to right; the first unreadable include fails. */
  function Substitute(files: map<string, string>, base: string, ps: seq<Piece>): Result<string> {
    if ps == [] then Ok("")
    else match Emit(files, base, ps[0])
      case Err(e) => Err(e)
      case Ok(h) =>
        match Substitute(files, base, ps[1..])
        case Err(e) => Err(e)
        case Ok(r) => Ok(h + r)
  }

  /** `replaceIncludes(path, content)` with the filesystem as a map from path
      to contents. */
  function Expand(files: map<string, string>, path: string, content: string): Result<string> {
    Substitute(files, Dir(path), Split(content))
  }

  function PrefixWith(x: string, r: Result<string>): Result<string> {
    match r
    case Ok(v) => Ok(x + v)
    case Err(e) => Err(e)
  }

  // ---------------------------------------------------------------------
  // Scanning

  lemma {:induction false} UnsplitPrepend(c: char, ps: seq<Piece>)
    ensures Unsplit(PrependChar(c, ps)) == [c] + Unsplit(ps)
  {
    if ps != [] && ps[0].Literal? {
      var qs := PrependChar(c, ps);
      assert qs[1..] == ps[1..];
      calc {
        Unsplit(qs);
        Source(qs[0]) + Unsplit(qs[1..]);
        ([c] + ps[0].text) + Unsplit(ps[1..]);
        [c] + (ps[0].text + Unsplit(ps[1..]));
        [c] + Unsplit(ps);
      }
    } else {
      assert PrependChar(c, ps)[1..] == ps;
    }
  }

  lemma {:induction false} UnsplitCons(p: Piece, ps: seq<Piece>)
    ensures Unsplit([p] + ps) == Source(p) + Unsplit(ps)
  {
    assert ([p] + ps)[1..] == ps;
  }

  /** The scan loses nothing: the literal runs and directives, put back
      together, are the input text byte for byte. */
  lemma {:induction false} SplitRoundTrip(s: string)
    ensures Unsplit(Split(s)) == s
    decreases |s|
  {
    if s != [] {
      var m := MatchAt(s);
      if m.Some? {
        var j := m.value;
        SplitWhenMatch(s, j);
        SplitRoundTrip(s[j + |Closing|..]);
        UnsplitCons(Include(s[|Opening|..j]), Split(s[j + |Closing|..]));
        DirectiveText(s, j);
      } else {
        SplitWhenNoMatch(s);
        SplitRoundTrip(s[1..]);
        UnsplitPrepend(s[0], Split(s[1..]));
        assert s == [s[0]] + s[1..];
      }
    }
  }

  lemma {:induction false} SplitWhenMatch(s: string, j: nat)
    requires s != [] && MatchAt(s) == Some(j)
    ensures j + |Closing| <= |s| && |Opening| <= j
    ensures Split(s) == [Include(s[|Opening|..j])] + Split(s[j + |Closing|..])
  {
  }

  /** Every directive found names a file by one or more characters other
      than '}', as the pattern's `[^}]+` demands. */
  lemma {:induction false} SplitTokens(s: string)
    ensures forall k :: 0 <= k < |Split(s)| && Split(s)[k].Include? ==>
      Split(s)[k].token != [] && '}' !in Split(s)[k].token
    decreases |s|
  {
    if s != [] {
      var m := MatchAt(s);
      if m.Some? {
        var j := m.value;
        SplitWhenMatch(s, j);
        SplitTokens(s[j + |Closing|..]);
        var token := s[|Opening|..j];
        assert forall n :: 0 <= n < |token| ==> token[n] == s[|Opening| + n];
        var ps := Split(s);
        assert forall k :: 1 <= k < |ps| ==> ps[k] == Split(s[j + |Closing|..])[k - 1];
      } else {
        SplitWhenNoMatch(s);
        SplitTokens(s[1..]);
        var qs := Split(s[1..]);
        assert forall k :: 1 <= k < |Split(s)| ==> Split(s)[k] == qs[k - 1] || Split(s)[k] == qs[k];
      }
    }
  }

  lemma {:induction false} SplitWhenNoMatch(s: string)
    requires s != [] && MatchAt(s).None?
    ensures Split(s) == PrependChar(s[0], Split(s[1..]))
  {
  }

  /** A directive at the start of `s` is the opening marker, the token and
      the closing marker. */
  lemma {:induction false} DirectiveText(s: string, j: nat)
    requires DirectiveAt(s, 0, j)
    ensures s == Opening + s[|Opening|..j] + Closing + s[j + |Closing|..]
  {
    assert s == s[..|Opening|] + s[|Opening|..j] + s[j..j + |Closing|] + s[j + |Closing|..];
  }


  /** Directives of `s[1..]` are those of `s` shifted by one. */
  lemma {:induction false} DirectiveShift(s: string, i: int, j: int)
    requires s != [] && 0 <= i
    ensures DirectiveAt(s[1..], i, j) <==> DirectiveAt(s, i + 1, j + 1)
  {
    if DirectiveAt(s[1..], i, j) || DirectiveAt(s, i + 1, j + 1) {
      assert s[1..][i..i + |Opening|] == s[i + 1..i + 1 + |Opening|];
      assert j + |Closing| <= |s| - 1 ==> s[1..][j..j + |Closing|] == s[j + 1..j + 1 + |Closing|];
    }
  }

  // ---------------------------------------------------------------------
  // Expansion

  lemma {:induction false} SubstitutePrepend(files: map<string, string>, base: string, c: char, ps: seq<Piece>)
    ensures Substitute(files, base, PrependChar(c, ps)) == PrefixWith([c], Substitute(files, base, ps))
  {
    var qs := PrependChar(c, ps);
    if ps != [] && ps[0].Literal? {
      assert qs[1..] == ps[1..];
      var rest := Substitute(files, base, ps[1..]);
      if rest.Ok? {
        assert ([c] + ps[0].text) + rest.value == [c] + (ps[0].text + rest.value);
      }
    } else {
      assert qs[1..] == ps;
    }
  }

  lemma {:induction false} SubstituteInclude(files: map<string, string>, base: string, t: string, ps: seq<Piece>)
    ensures var key := Join(base, t);
      Substitute(files, base, [Include(t)] + ps)
        == if key in files then PrefixWith(files[key], Substitute(files, base, ps)) else Err(ReadFailed(key))
  {
    assert ([Include(t)] + ps)[1..] == ps;
  }

  /** Text without a directive is left unchanged. */
  lemma {:induction false} ExpandNoDirective(files: map<string, string>, path: string, s: string)
    requires forall i, j :: !DirectiveAt(s, i, j)
    ensures Expand(files, path, s) == Ok(s)
    decreases |s|
  {
    if s != [] {
      assert MatchAt(s).None?;
      forall i, j ensures !DirectiveAt(s[1..], i, j) {
        if 0 <= i {
          DirectiveShift(s, i, j);
        }
      }
      ExpandNoDirective(files, path, s[1..]);
      SplitWhenNoMatch(s);
      SubstitutePrepend(files, Dir(path), s[0], Split(s[1..]));
      assert [s[0]] + s[1..] == s;
    }
  }

  /** The directive found at the start of the text is the one `MatchAt`
      reports. */
  lemma {:induction false} MatchAtDirective(s: string, j: nat)
    requires DirectiveAt(s, 0, j)
    ensures MatchAt(s) == Some(j)
  {
    var m := MatchAt(s);
    if m.Some? {
      var j' := m.value;
      assert s[j] == s[j..j + 2][0] && s[j'] == s[j'..j' + 2][0];
    }
  }

  lemma {:induction false} ExpandPastChar(files: map<string, string>, path: string, s: string)
    requires s != [] && MatchAt(s).None?
    ensures Expand(files, path, s) == PrefixWith([s[0]], Expand(files, path, s[1..]))
  {
    SplitWhenNoMatch(s);
    SubstitutePrepend(files, Dir(path), s[0], Split(s[1..]));
  }

  /** What `ExpandLeftmost` promises for a directive at `s[i..j + 2]`
      naming `key`. */
  function LeftmostExpansion(files: map<string, string>, path: string, s: string, i: nat, j: nat, key: string): Result<string>
    requires i <= j + |Closing| <= |s|
  {
    if key in files then PrefixWith(s[..i] + files[key], Expand(files, path, s[j + |Closing|..]))
    else Err(ReadFailed(key))
  }

  lemma {:induction false} ExpandAtStart(files: map<string, string>, path: string, s: string, j: nat)
    requires DirectiveAt(s, 0, j)
    ensures Expand(files, path, s) == LeftmostExpansion(files, path, s, 0, j, Join(Dir(path), s[|Opening|..j]))
  {
    MatchAtDirective(s, j);
    SplitWhenMatch(s, j);
    var key := Join(Dir(path), s[|Opening|..j]);
    SubstituteInclude(files, Dir(path), s[|Opening|..j], Split(s[j + |Closing|..]));
    if key in files {
      assert s[..0] + files[key] == files[key];
    }
  }

  lemma {:induction false} PrefixTwice(c: char, u: string, f: string, r: Result<string>)
    ensures PrefixWith([c], PrefixWith(u + f, r)) == PrefixWith([c] + u + f, r)
  {
    if r.Ok? {
      assert [c] + (u + f + r.value) == [c] + u + f + r.value;
    }
  }

  lemma {:induction false} TokenShift(s: string, i: nat, j: nat)
    requires 0 < i && i + |Opening| <= j <= |s|
    ensures s[1..][i - 1 + |Opening|..j - 1] == s[i + |Opening|..j]
  {
  }

  lemma {:induction false} LeftmostStep(files: map<string, string>, path: string, s: string, i: nat, j: nat, key: string)
    requires 0 < i <= j && j + |Closing| <= |s|
    requires Expand(files, path, s) == PrefixWith([s[0]], Expand(files, path, s[1..]))
    requires Expand(files, path, s[1..]) == LeftmostExpansion(files, path, s[1..], i - 1, j - 1, key)
    ensures Expand(files, path, s) == LeftmostExpansion(files, path, s, i, j, key)
  {
    var t := s[1..];
    assert t[j - 1 + |Closing|..] == s[j + |Closing|..];
    assert [s[0]] + t[..i - 1] == s[..i];
    if key in files {
      PrefixTwice(s[0], t[..i - 1], files[key], Expand(files, path, s[j + |Closing|..]));
    }
  }

  lemma {:induction false} NoDirectiveBefore(s: string, i: nat)
    requires 0 < i <= |s|
    requires forall i', j' :: 0 <= i' < i ==> !DirectiveAt(s, i', j')
    ensures MatchAt(s).None?
    ensures forall i', j' :: 0 <= i' < i - 1 ==> !DirectiveAt(s[1..], i', j')
  {
    assert forall j' :: !DirectiveAt(s, 0, j');
    forall i', j' | 0 <= i' < i - 1 ensures !DirectiveAt(s[1..], i', j') {
      DirectiveShift(s, i', j');
    }
  }

  /** Leftmost-first replacement: the first directive of the text is replaced
      by the named file's contents, the text before it is kept, and expansion
      resumes after its "}}"; an unreadable file makes the whole expansion
      fail. */
  lemma {:induction false} ExpandLeftmost(files: map<string, string>, path: string, s: string, i: nat, j: nat)
    requires DirectiveAt(s, i, j)
    requires forall i', j' :: 0 <= i' < i ==> !DirectiveAt(s, i', j')
    ensures Expand(files, path, s) == LeftmostExpansion(files, path, s, i, j, Join(Dir(path), s[i + |Opening|..j]))
    decreases i
  {
    if i == 0 {
      ExpandAtStart(files, path, s, j);
    } else {
      var t := s[1..];
      NoDirectiveBefore(s, i);
      DirectiveShift(s, i - 1, j - 1);
      ExpandLeftmost(files, path, t, i - 1, j - 1);
      ExpandPastChar(files, path, s);
      TokenShift(s, i, j);
      LeftmostStep(files, path, s, i, j, Join(Dir(path), s[i + |Opening|..j]));
    }
  }

  /** Some directive among `ps` names a file that cannot be read. */
  predicate HasUnreadable(files: map<string, string>, base: string, ps: seq<Piece>) {
    exists k :: 0 <= k < |ps| && ps[k].Include? && Join(base, ps[k].token) !in files
  }

  /** Expansion fails exactly when some directive names a file that cannot
      be read. */
  lemma {:induction false} SubstituteFails(files: map<string, string>, base: string, ps: seq<Piece>)
    ensures Substitute(files, base, ps).Err? <==> HasUnreadable(files, base, ps)
  {
    if ps != [] {
      SubstituteFails(files, base, ps[1..]);
      if Emit(files, base, ps[0]).Ok? {
        if HasUnreadable(files, base, ps) {
          var k :| 0 <= k < |ps| && ps[k].Include? && Join(base, ps[k].token) !in files;
          assert k != 0;
          assert ps[1..][k - 1] == ps[k];
        }
        if HasUnreadable(files, base, ps[1..]) {
          var k :| 0 <= k < |ps[1..]| && ps[1..][k].Include? && Join(base, ps[1..][k].token) !in files;
          assert ps[k + 1] == ps[1..][k];
        }
      } else {
        assert ps[0].Include? && Join(base, ps[0].token) !in files;
      }
    }
  }

  lemma {:induction false} ExpandFails(files: map<string, string>, path: string, s: string)
    ensures Expand(files, path, s).Err? <==> HasUnreadable(files, Dir(path), Split(s))
  {
    SubstituteFails(files, Dir(path), Split(s));
  }

  lemma {:induction false} ExampleText(s: string)
    requires s == "A{{include partial.html}}B"
    ensures DirectiveAt(s, 1, 23) && s[1 + |Opening|..23] == "partial.html"
    ensures s[..1] == "A" && s[23 + |Closing|..] == "B"
    ensures forall j :: !DirectiveAt(s, 0, j)
  {
    var token := "partial.html";
    assert s == "A" + Opening + token + Closing + "B";
    assert s[1..11] == Opening;
    assert s[23..25] == Closing;
    assert s[11..23] == token;
    assert forall k :: 11 <= k < 23 ==> s[k] == token[k - 11];
    assert s[0] != Opening[0];
  }

  lemma {:induction false} ExampleDir(path: string)
    requires path == "dir/page.html"
    ensures Dir(path) == "dir"
  {
    assert path == Join("dir", "page.html");
    BaseDirOfJoin("dir", "page.html");
  }

  lemma {:induction false} ExampleKey(dir: string)
    requires dir == "dir"
    ensures Join(dir, "partial.html") == "dir/partial.html"
  {
  }

  /** An include example: `{{include partial.html}}` inside
      dir/page.html is replaced by the contents of dir/partial.html, whatever
      they are (they are not scanned again), and the text around it is kept. */
  lemma {:induction false} IncludeExample(files: map<string, string>, path: string, s: string)
    requires path == "dir/page.html" && s == "A{{include partial.html}}B"
    requires "dir/partial.html" in files
    ensures Expand(files, path, s) == Ok("A" + files["dir/partial.html"] + "B")
  {
    ExampleText(s);
    ExampleDir(path);
    ExampleKey(Dir(path));
    ExpandLeftmost(files, path, s, 1, 23);
    ExpandNoDirective(files, path, "B");
  }
}
