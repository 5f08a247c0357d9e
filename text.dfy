/** String primitives of Go's `strings` package that the generator uses:
    `Index`, `Replace(s, old, new, 1)`, `Split(s, "\n")` and `Join`. */
module Text {
  import opened Common

  /** `s` starts with `p`. */
  predicate StartsWith(s: string, p: string) {
    |p| <= |s| && s[..|p|] == p
  }

  /** `sub` occurs in `s` at position `i`. */
  predicate OccursAt(s: string, sub: string, i: int) {
    0 <= i && i + |sub| <= |s| && s[i..i + |sub|] == sub
  }

  /** `i` is the first position of `sub` in `s`. */
  predicate FirstOccurrence(s: string, sub: string, i: int) {
    OccursAt(s, sub, i) && forall k :: 0 <= k < i ==> !OccursAt(s, sub, k)
  }

  /** The first position of `sub` in `s` (Go `strings.Index`). */
  function IndexOf(s: string, sub: string): (r: Option<nat>)
    ensures r.Some? ==> FirstOccurrence(s, sub, r.value)
    ensures r.None? ==> forall i :: !OccursAt(s, sub, i)
    decreases |s|
  {
    if StartsWith(s, sub) then
      assert s[0..|sub|] == s[..|sub|];
      Some(0)
    else if |s| <= |sub| then
      assert |sub| == |s| ==> s[0..|sub|] == s[..|sub|];
      None
    else
      OccursShift(s, sub);
      assert s[0..|sub|] == s[..|sub|];
      match IndexOf(s[1..], sub)
      case Some(k) => Some(k + 1)
      case None => None
  }

  /** Past the first character, `sub` occurs in `s` where it occurs in
      `s[1..]`, one position later. */
  lemma {:induction false} OccursShift(s: string, sub: string)
    requires s != []
    ensures forall i :: 1 <= i ==> (OccursAt(s, sub, i) <==> OccursAt(s[1..], sub, i - 1))
  {
    forall i | 1 <= i
      ensures OccursAt(s, sub, i) <==> OccursAt(s[1..], sub, i - 1)
    {
      if i + |sub| <= |s| {
        assert s[1..][i - 1..] == s[i..];
        assert s[1..][i - 1..i - 1 + |sub|] == s[i..][..|sub|] == s[i..i + |sub|];
      }
    }
  }

  /** Go `strings.Replace(s, old, new, 1)`: the first occurrence of `old` is
      replaced; an empty `old` matches at the beginning of `s`. */
  function ReplaceFirst(s: string, pat: string, rep: string): (r: string)
    ensures pat == [] ==> r == rep + s
    ensures pat != [] && (forall i :: !OccursAt(s, pat, i)) ==> r == s
    ensures pat != [] ==> forall i :: FirstOccurrence(s, pat, i) ==> r == s[..i] + rep + s[i + |pat|..]
  {
    if pat == [] then rep + s
    else match IndexOf(s, pat)
      case None => s
      case Some(i) => s[..i] + rep + s[i + |pat|..]
  }

  /** The first position of character `c` in `s`. */
  function IndexOfChar(s: string, c: char): (r: Option<nat>)
    ensures r.Some? ==> r.value < |s| && s[r.value] == c && c !in s[..r.value]
    ensures r.None? ==> c !in s
  {
    if c !in s then None
    else if s[0] == c then Some(0)
    else
      var k := IndexOfChar(s[1..], c).value;
      assert s[1..][..k] == s[1..k + 1];
      Some(k + 1)
  }

  /** Go `strings.Split(s, "\n")`. */
  function SplitLines(s: string): seq<string>
    decreases |s|
  {
    match IndexOfChar(s, '\n')
    case None => [s]
    case Some(k) => [s[..k]] + SplitLines(s[k + 1..])
  }

  /** Go `strings.Join(parts, sep)`. */
  function JoinWith(sep: string, parts: seq<string>): string
  {
    if parts == [] then ""
    else if |parts| == 1 then parts[0]
    else parts[0] + sep + JoinWith(sep, parts[1..])
  }

  lemma {:induction false} SplitLinesAt(s: string, k: nat)
    requires IndexOfChar(s, '\n') == Some(k)
    ensures k < |s|
    ensures SplitLines(s) == [s[..k]] + SplitLines(s[k + 1..])
  {
  }

  /** Splitting never gives an empty list (`""` gives `[""]`), and gives a
      single line exactly when there is no newline. */
  lemma {:induction false} SplitLinesCount(s: string)
    ensures |SplitLines(s)| >= 1
    ensures |SplitLines(s)| == 1 <==> '\n' !in s
    decreases |s|
  {
    match IndexOfChar(s, '\n')
    case None =>
    case Some(k) =>
      SplitLinesAt(s, k);
      SplitLinesCount(s[k + 1..]);
  }

  lemma {:induction false} SplitLinesNone(s: string)
    requires IndexOfChar(s, '\n') == None
    ensures SplitLines(s) == [s]
  {
  }

  /** A text is its first line, the newline ending it, and the rest. */
  lemma {:induction false} CutAtNewline(s: string, k: nat)
    requires IndexOfChar(s, '\n') == Some(k)
    ensures s == s[..k] + "\n" + s[k + 1..]
  {
    assert s[k] == '\n';
    assert s == s[..k] + [s[k]] + s[k + 1..];
  }

  lemma {:induction false} JoinCons(sep: string, part: string, tail: seq<string>)
    requires |tail| >= 1
    ensures JoinWith(sep, [part] + tail) == part + sep + JoinWith(sep, tail)
  {
    assert ([part] + tail)[1..] == tail;
  }

  /** Joining the lines of a split text gives the text back. */
  lemma {:induction false} JoinSplitLines(s: string)
    ensures JoinWith("\n", SplitLines(s)) == s
    decreases |s|
  {
    var o := IndexOfChar(s, '\n');
    if o.Some? {
      var k := o.value;
      var rest := s[k + 1..];
      JoinSplitLines(rest);
      SplitLinesAt(s, k);
      JoinCons("\n", s[..k], SplitLines(rest));
      CutAtNewline(s, k);
    } else {
      SplitLinesNone(s);
    }
  }

  /** The text after the `n`-th newline of `s` (empty when `s` has fewer). */
  function DropLines(s: string, n: nat): string
    decreases n
  {
    if n == 0 then s
    else match IndexOfChar(s, '\n')
      case None => ""
      case Some(k) => DropLines(s[k + 1..], n - 1)
  }

  /** The lines of `s` from line `n` on, joined again, are the text after the
      `n`-th newline of `s`: `strings.Join(lines[n:], "\n")` drops exactly the
      first `n` lines. */
  lemma {:induction false} JoinDropLines(s: string, n: nat)
    requires n <= |SplitLines(s)|
    ensures JoinWith("\n", SplitLines(s)[n..]) == DropLines(s, n)
    decreases n
  {
    if n == 0 {
      JoinSplitLines(s);
      assert SplitLines(s)[0..] == SplitLines(s);
    } else {
      var o := IndexOfChar(s, '\n');
      if o.None? {
        SplitLinesNone(s);
        assert SplitLines(s)[n..] == [];
      } else {
        var k := o.value;
        var rest := s[k + 1..];
        SplitLinesAt(s, k);
        DropLinesAt(s, n, k);
        DropFromCons(s[..k], SplitLines(rest), n);
        JoinDropLines(rest, n - 1);
      }
    }
  }

  lemma {:induction false} DropFromCons<T>(x: T, tail: seq<T>, n: nat)
    requires 0 < n <= |tail| + 1
    ensures ([x] + tail)[n..] == tail[n - 1..]
  {
  }

  lemma {:induction false} DropLinesAt(s: string, n: nat, k: nat)
    requires n > 0 && IndexOfChar(s, '\n') == Some(k)
    ensures DropLines(s, n) == DropLines(s[k + 1..], n - 1)
  {
  }
}
