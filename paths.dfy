/**
 * The part of `pathlib` the runner relies on: a path is a root flag and a
 * sequence of components; `p / name` appends a component, `q.relative_to(d)`
 * drops the components of `d` from the front of `q`, and `as_posix()` joins
 * the components with `/`.
 */
module Paths {
  import opened Results

  /** A `pathlib` path: whether it starts at the root, and its components in order. */
  datatype Path = Path(absolute: bool, parts: seq<string>)

  /** A component as `pathlib` keeps it: not empty, not `.`, and without a `/`. */
  predicate IsComponent(c: string)
  {
    c != "" && c != "." && '/' !in c
  }

  predicate WellFormed(p: Path)
  {
    forall k :: 0 <= k < |p.parts| ==> IsComponent(p.parts[k])
  }

  /** `p / name` for a single component `name`. */
  function Child(p: Path, name: string): (r: Path)
  {
    Path(p.absolute, p.parts + [name])
  }

  /** `q` lies strictly below the directory `dir`. */
  predicate IsBelow(q: Path, dir: Path)
  {
    q.absolute == dir.absolute && |dir.parts| < |q.parts| && q.parts[..|dir.parts|] == dir.parts
  }

  /** `q.relative_to(dir)`; `None` where `pathlib` raises `ValueError`. */
  function RelativeTo(q: Path, dir: Path): (r: Option<Path>)
  {
    if q.absolute == dir.absolute && |dir.parts| <= |q.parts| && q.parts[..|dir.parts|] == dir.parts
    then Some(Path(false, q.parts[|dir.parts|..]))
    else None
  }

  /** The components joined with `/`. */
  function JoinSlash(parts: seq<string>): (r: string)
  {
    if parts == [] then ""
    else if |parts| == 1 then parts[0]
    else parts[0] + "/" + JoinSlash(parts[1..])
  }

  /** Position of the first `/` in `s`, or `|s|`. */
  function SlashIndex(s: string): (k: nat)
    ensures k <= |s| && '/' !in s[..k] && (k < |s| ==> s[k] == '/')
  {
    if s == [] then 0
    else if s[0] == '/' then 0
    else
      var k := SlashIndex(s[1..]);
      assert s[..k + 1] == [s[0]] + s[1..][..k];
      k + 1
  }

  /** The pieces of `s` between the `/` characters. */
  function SplitSlash(s: string): (r: seq<string>)
    ensures r != []
    decreases |s|
  {
    var k := SlashIndex(s);
    if k == |s| then [s] else [s[..k]] + SplitSlash(s[k + 1..])
  }

  /** `p.as_posix()`. */
  function AsPosix(p: Path): (r: string)
  {
    if p.absolute then "/" + JoinSlash(p.parts)
    else if p.parts == [] then "."
    else JoinSlash(p.parts)
  }

  /** Joining components that hold no `/` and splitting the result at `/` gives the components back. */
  lemma {:induction false} SplitJoinSlash(parts: seq<string>)
    requires parts != [] && forall k :: 0 <= k < |parts| ==> '/' !in parts[k]
    ensures SplitSlash(JoinSlash(parts)) == parts
    decreases |parts|
  {
    var a := parts[0];
    if |parts| == 1 {
      assert SlashIndex(a) == |a|;
    } else {
      var rest := JoinSlash(parts[1..]);
      var s := a + "/" + rest;
      SlashAfterPlain(a, rest);
      assert s[..|a|] == a && s[|a| + 1..] == rest;
      SplitJoinSlash(parts[1..]);
      assert parts == [a] + parts[1..];
    }
  }

  lemma {:induction false} SlashAfterPlain(a: string, rest: string)
    requires '/' !in a
    ensures SlashIndex(a + "/" + rest) == |a|
  {
    var s := a + "/" + rest;
    assert s[|a|] == '/';
    assert forall y :: 0 <= y < |a| ==> s[y] == a[y];
    var k := SlashIndex(s);
    if k < |a| {
      assert false;
    }
    if k > |a| {
      assert false;
    }
  }

  /** Splitting at `/` and joining again gives the text back. */
  lemma {:induction false} JoinSplitSlash(s: string)
    ensures JoinSlash(SplitSlash(s)) == s
    decreases |s|
  {
    var k := SlashIndex(s);
    if k < |s| {
      JoinSplitSlash(s[k + 1..]);
      assert s == s[..k] + "/" + s[k + 1..];
    }
  }

  /** `relative_to` succeeds with components exactly for the paths strictly below the directory, and joining them back onto it restores the path. */
  lemma {:induction false} RelativeToBelow(q: Path, dir: Path)
    ensures IsBelow(q, dir) <==> RelativeTo(q, dir).Some? && RelativeTo(q, dir).value.parts != []
    ensures RelativeTo(q, dir).Some? ==> Path(dir.absolute, dir.parts + RelativeTo(q, dir).value.parts) == q
  {
    if RelativeTo(q, dir).Some? {
      assert q.parts == q.parts[..|dir.parts|] + q.parts[|dir.parts|..];
    }
  }
}
