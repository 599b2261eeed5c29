/**
 * `re.sub(pattern, repl, text)` for the patcher's patterns: scan the text
 * from left to right, replace each match by the replacement, and resume the
 * scan where the match ended, so that matches never overlap. The replacement
 * is taken literally.
 */
module Substitute {
  import opened Results
  import opened Text
  import opened Patterns

  /** The output `re.sub` produces for the part of `t` from position `i` on, once its scan has reached `i`. */
  function SubFrom(p: Pattern, r: string, t: string, i: nat): (out: string)
    requires i <= |t|
    decreases |t| - i
  {
    if i == |t| then []
    else
      match MatchAt(p, t, i)
      case Some(e) => r + SubFrom(p, r, t, e)
      case None => [t[i]] + SubFrom(p, r, t, i + 1)
  }

  /** Where the pass goes on after position `i`: the end of a match there, or the next position. */
  function PassNext(p: Pattern, t: string, i: nat): (j: nat)
    requires i < |t|
    ensures i < j <= |t|
  {
    match MatchAt(p, t, i)
    case Some(e) => e
    case None => i + 1
  }

  /** `re.sub(p, r, t)`. */
  function SubAll(p: Pattern, r: string, t: string): (out: string)
  {
    SubFrom(p, r, t, 0)
  }

  /** No match of `p` starts anywhere in `t[i..m]`. */
  ghost predicate NoMatchIn(p: Pattern, t: string, i: int, m: int)
  {
    0 <= i <= m <= |t| && forall k :: i <= k < m ==> MatchAt(p, t, k).None?
  }

  /** The first position at or after `i` where a match starts, or the end of the text. */
  ghost function NextMatch(p: Pattern, t: string, i: nat): (m: nat)
    requires i <= |t|
    ensures i <= m <= |t| && NoMatchIn(p, t, i, m)
    ensures m < |t| ==> MatchAt(p, t, m).Some?
    decreases |t| - i
  {
    if i == |t| || MatchAt(p, t, i).Some? then i
    else
      var m := NextMatch(p, t, i + 1);
      NoMatchInExtend(p, t, i, m);
      m
  }

  lemma {:induction false} NoMatchInExtend(p: Pattern, t: string, i: nat, m: nat)
    requires i < |t| && MatchAt(p, t, i).None? && NoMatchIn(p, t, i + 1, m)
    ensures NoMatchIn(p, t, i, m)
  {
  }

  /** Text in which no match starts is copied to the output unchanged. */
  lemma {:induction false} SubFromCopies(p: Pattern, r: string, t: string, i: nat, m: nat)
    requires NoMatchIn(p, t, i, m)
    ensures SubFrom(p, r, t, i) == t[i..m] + SubFrom(p, r, t, m)
    decreases m - i
  {
    if i < m {
      SubFromCopies(p, r, t, i + 1, m);
      SubFromCopiesOne(p, r, t, i);
      SliceCons(t, i, m);
      AppendAssoc([t[i]], t[i + 1..m], SubFrom(p, r, t, m));
    }
  }

  /** Where no match starts, the output is the character, then the output from the next position. */
  lemma {:induction false} SubFromCopiesOne(p: Pattern, r: string, t: string, i: nat)
    requires i < |t| && MatchAt(p, t, i).None?
    ensures SubFrom(p, r, t, i) == [t[i]] + SubFrom(p, r, t, i + 1)
  {
  }

  /** Where a match starts, the output is the replacement, then the output from the match's end. */
  lemma {:induction false} SubFromReplacesOne(p: Pattern, r: string, t: string, i: nat)
    requires i < |t| && MatchAt(p, t, i).Some?
    ensures SubFrom(p, r, t, i) == r + SubFrom(p, r, t, MatchAt(p, t, i).value)
  {
  }

  /** From `i` on, the output is the text up to the next match, then the replacement, then the output from the match's end. */
  lemma {:induction false} SubFromToNextMatch(p: Pattern, r: string, t: string, i: nat, m: nat)
    requires i <= m < |t| && NoMatchIn(p, t, i, m) && MatchAt(p, t, m).Some?
    ensures SubFrom(p, r, t, i) == t[i..][..m - i] + r + SubFrom(p, r, t, MatchAt(p, t, m).value)
  {
    SubFromCopies(p, r, t, i, m);
    SubFromReplacesOne(p, r, t, m);
    SliceOfSuffix(t, i, m);
    AppendAssoc(t[i..m], r, SubFrom(p, r, t, MatchAt(p, t, m).value));
  }

  /** Without a match from `i` on, the output from `i` on is the rest of the text. */
  lemma {:induction false} SubFromNoMatchLeft(p: Pattern, r: string, t: string, i: nat)
    requires NoMatchIn(p, t, i, |t|)
    ensures SubFrom(p, r, t, i) == t[i..]
  {
    SubFromCopies(p, r, t, i, |t|);
  }

  /** A missing variable is a silent no-op: if the pattern matches nowhere, the text comes back unchanged. */
  lemma {:induction false} SubAllNoMatch(p: Pattern, r: string, t: string)
    requires NoMatchIn(p, t, 0, |t|)
    ensures SubAll(p, r, t) == t
  {
    SubFromCopies(p, r, t, 0, |t|);
  }

  /** Indented, commented or otherwise prefixed lines are never touched: without a line that starts with `name`, the anchored pass changes nothing. */
  lemma {:induction false} NoColumnZeroName(name: string, r: string, t: string)
    requires forall i :: 0 <= i < |t| && AtLineStart(t, i) ==> !StartsWith(t[i..], name)
    ensures SubAll(Assign(name), r, t) == t
  {
    SubAllNoMatch(Assign(name), r, t);
  }

  /** Everything before the first match is kept, the first match is replaced, and the scan resumes after it. */
  lemma {:induction false} SubAllFirstMatch(p: Pattern, r: string, t: string)
    requires NextMatch(p, t, 0) < |t|
    ensures var m := NextMatch(p, t, 0);
            SubAll(p, r, t) == t[..m] + r + SubFrom(p, r, t, MatchAt(p, t, m).value)
  {
    SubFromToNextMatch(p, r, t, 0, NextMatch(p, t, 0));
    SliceOfSuffix(t, 0, NextMatch(p, t, 0));
  }

  /** A text with exactly one match, from `m` to `e`, has that span replaced and the rest kept. */
  lemma {:induction false} SubAllOneMatch(p: Pattern, r: string, t: string, m: nat, e: nat)
    requires m < |t| && NoMatchIn(p, t, 0, m) && MatchAt(p, t, m) == Some(e) && NoMatchIn(p, t, e, |t|)
    ensures SubAll(p, r, t) == t[..m] + r + t[e..]
  {
    SubFromToNextMatch(p, r, t, 0, m);
    SubFromNoMatchLeft(p, r, t, e);
    SliceOfSuffix(t, 0, m);
  }

  /** Every match that starts anywhere in `u` is exactly the replacement text. */
  ghost predicate Settled(p: Pattern, r: string, u: string)
  {
    forall x :: 0 <= x < |u| && MatchAt(p, u, x).Some? ==>
      MatchAt(p, u, x).value == x + |r| && u[x..x + |r|] == r
  }

  /** A text whose every match is already the replacement is left unchanged by another pass. */
  lemma {:induction false} SettledIsFixedPoint(p: Pattern, r: string, u: string)
    requires Settled(p, r, u)
    ensures SubAll(p, r, u) == u
  {
    SettledSubFrom(p, r, u, 0);
  }

  lemma {:induction false} SettledSubFrom(p: Pattern, r: string, u: string, i: nat)
    requires Settled(p, r, u) && i <= |u|
    ensures SubFrom(p, r, u, i) == u[i..]
    decreases |u| - i
  {
    if i < |u| {
      SettledSubFrom(p, r, u, PassNext(p, u, i));
      SettledStep(p, r, u, i);
    }
  }

  /** Inductive step of `SettledSubFrom`, from the position where the scan goes on to `i`. */
  lemma {:induction false} SettledStep(p: Pattern, r: string, u: string, i: nat)
    requires Settled(p, r, u) && i < |u|
    requires SubFrom(p, r, u, PassNext(p, u, i)) == u[PassNext(p, u, i)..]
    ensures SubFrom(p, r, u, i) == u[i..]
  {
    if MatchAt(p, u, i).Some? {
      var e := MatchAt(p, u, i).value;
      SettledMatch(p, r, u, i);
      SubFromReplacesOne(p, r, u, i);
      SuffixSplit(u, i, e);
    } else {
      SubFromCopiesOne(p, r, u, i);
      SuffixCons(u, i);
    }
  }

  lemma {:induction false} SettledMatch(p: Pattern, r: string, u: string, x: nat)
    requires Settled(p, r, u) && x < |u| && MatchAt(p, u, x).Some?
    ensures MatchAt(p, u, x).value == x + |r| && u[x..MatchAt(p, u, x).value] == r
  {
  }

  // ---------------------------------------------------------------------
  // The anchored pattern: its reads stop at the first line break that ends the match
  // ---------------------------------------------------------------------

  /** If no match starts at `s`, none starts at a text `u` that agrees with `s` up to the first character of a later line. */
  lemma {:induction false} AssignNoneStable(name: string, s: string, u: string, len: nat)
    requires IsPlainName(name) && AssignLen(name, s).None?
    requires 2 <= len <= |s| && len <= |u| && s[..len] == u[..len]
    requires s[len - 2] == '\n' && IsNameChar(s[len - 1])
    ensures AssignLen(name, u).None?
  {
    var n := |name|;
    if StartsWith(u, name) {
      AgreeAt(s, u, len, len - 2);
      forall y | 0 <= y < n ensures u[y] != '\n' {
        assert u[y] == name[y];
        NameCharIsPlain(name[y]);
      }
      AgreePrefix(s, u, len, n);
      var j := SkipSpaces(s, n);
      NameCharIsPlain(s[len - 1]);
      SkipSpacesAgrees(s, u, n, len);
      AgreeAt(s, u, len, j);
    }
  }

  /** A match that ends before `len` is found the same in any text agreeing with `s` on its first `len` characters. */
  lemma {:induction false} AssignSomeStable(name: string, s: string, u: string, len: nat)
    requires AssignLen(name, s).Some? && AssignLen(name, s).value < len
    requires len <= |s| && len <= |u| && s[..len] == u[..len]
    ensures AssignLen(name, u) == AssignLen(name, s)
  {
    var n := |name|;
    var j := SkipSpaces(s, n);
    var k := SkipSpaces(s, j + 1);
    var e := LineEnd(s, k);
    assert AssignLen(name, s) == Some(e) && j < k <= e;
    AgreePrefix(s, u, len, n);
    assert StartsWith(u, name);
    SkipSpacesAgrees(s, u, n, len);
    AgreeAt(s, u, len, j);
    SkipSpacesAgrees(s, u, j + 1, len);
    LineEndAgrees(s, u, k, len);
    AssignLenIs(name, u, j, k);
  }

  lemma {:induction false} AssignLenIs(name: string, u: string, j: nat, k: nat)
    requires StartsWith(u, name) && j == SkipSpaces(u, |name|) && j < |u| && u[j] == '='
    requires k == SkipSpaces(u, j + 1)
    ensures AssignLen(name, u) == Some(LineEnd(u, k))
  {
  }

}
