/**
 * The unanchored `BASE` pattern after the patch: where it can no longer
 * match. Its lazy `.*?` stops at the first newline, and its `\s*` and
 * literal parts stop at the first character that does not fit, so a text
 * that agrees with another up to such a character has the same (absent) match.
 */
module BaseFree {
  import opened Results
  import opened Text
  import opened Patterns
  import opened Substitute
  import opened Settle

  /** No `BASE` match starts anywhere in `w`. */
  ghost predicate NoBaseMatch(w: string)
  {
    forall x :: 0 <= x < |w| ==> BaseLen(w[x..]).None?
  }

  lemma {:induction false} NoBaseMatchNoMatchIn(w: string)
    requires NoBaseMatch(w)
    ensures NoMatchIn(BasePath, w, 0, |w|)
  {
    forall k | 0 <= k < |w| ensures MatchAt(BasePath, w, k).None? {
      assert BaseLen(w[k..]).None?;
    }
  }

  /** If the lazy closing finds nothing in `a` because a newline comes first, it finds nothing in `b` either. */
  lemma {:induction false} ClosingNoneStable(a: string, b: string, len: nat)
    requires ClosingLen(a).None? && 1 <= len <= |a| && len <= |b| && a[..len] == b[..len] && a[len - 1] == '\n'
    ensures ClosingLen(b).None?
    decreases len
  {
    AgreeAt(a, b, len, 0);
    if len >= 2 {
      AgreeAt(a, b, len, 1);
      if a[0] != '\n' && !(IsQuote(a[0]) && a[1] == ')') {
        AgreeWindow(a, b, len, 1, len - 1);
        assert a[1..][len - 2] == a[len - 1];
        ClosingNoneStable(a[1..], b[1..], len - 1);
      }
    }
  }

  /**
   * What may follow the part `s[..len]` that another text shares with `s`:
   * the character `s[len - 1]` ends every run of `\s` and is no `=`, and it is
   * either the first character (no `P`) of a line, or the `B` of a `BASE`
   * match of `s` that closes at `f` on its own line.
   */
  ghost predicate BaseBoundary(s: string, len: int, f: int)
  {
    2 <= len <= |s| && !IsSpace(s[len - 1]) && s[len - 1] != '='
    && ((s[len - 2] == '\n' && s[len - 1] != 'P')
        || (s[len - 1] == 'B' && len + 1 <= f <= |s| && NoNewline(s, len - 1, f - 2)
            && IsQuote(s[f - 2]) && s[f - 1] == ')'))
  }

  /** If no `BASE` match starts at `s`, none starts at a text that agrees with `s` up to a boundary. */
  lemma {:induction false} BaseNoneStable(s: string, u: string, len: nat, f: int)
    requires BaseLen(s).None? && BaseBoundary(s, len, f) && len <= |u| && s[..len] == u[..len]
    ensures BaseLen(u).None?
  {
    if StartsWith(u, "BASE") {
      LiteralBeforeBoundary(s, u, len, f);
      var j := SkipSpaces(s, 4);
      SkipSpacesAgrees(s, u, 4, len);
      AgreeAt(s, u, len, j);
      if j < |s| && s[j] == '=' {
        var k := SkipSpaces(s, j + 1);
        SkipSpacesAgrees(s, u, j + 1, len);
        if PathOpens(u, k) {
          PathNoneStable(s, u, len, f, j, k);
        } else {
          BaseLenNoPath(u, j, k);
        }
      } else {
        BaseLenNoEquals(u, j);
      }
    }
  }

  /** `BaseNoneStable` where `u` opens `Path(` and a quote at `k`: the closing part, read before the boundary, fails in `u` as in `s`. */
  lemma {:induction false} PathNoneStable(s: string, u: string, len: nat, f: int, j: nat, k: nat)
    requires BaseLen(s).None? && BaseBoundary(s, len, f) && len <= |u| && s[..len] == u[..len]
    requires StartsWith(s, "BASE") && j == SkipSpaces(s, 4) && j < |s| && s[j] == '=' && k == SkipSpaces(s, j + 1)
    requires StartsWith(u, "BASE") && j == SkipSpaces(u, 4) && u[j] == '=' && k == SkipSpaces(u, j + 1)
    requires k < len && PathOpens(u, k)
    ensures BaseLen(u).None?
  {
    PathBeforeBoundary(s, u, len, f, k);
    ClosingNoneAtPath(s, j, k);
    ClosingFromBoundary(s, u, len, f, k + 6);
    BaseNoneAtPath(u, j, k);
  }

  /** A `BASE` line that opens `Path(` and a quote but has no match lacks the closing part. */
  lemma {:induction false} ClosingNoneAtPath(s: string, j: nat, k: nat)
    requires BaseLen(s).None? && StartsWith(s, "BASE") && j == SkipSpaces(s, 4) && j < |s| && s[j] == '='
    requires k == SkipSpaces(s, j + 1) && PathOpens(s, k)
    ensures ClosingLen(s[k + 6..]).None?
  {
    BaseLenAtPath(s, j, k);
  }

  /** A `BASE` line that opens `Path(` and a quote but lacks the closing part has no match. */
  lemma {:induction false} BaseNoneAtPath(u: string, j: nat, k: nat)
    requires StartsWith(u, "BASE") && j == SkipSpaces(u, 4) && j < |u| && u[j] == '='
    requires k == SkipSpaces(u, j + 1) && PathOpens(u, k) && ClosingLen(u[k + 6..]).None?
    ensures BaseLen(u).None?
  {
    BaseLenAtPath(u, j, k);
  }

  lemma {:induction false} BaseLenNoEquals(u: string, j: nat)
    requires StartsWith(u, "BASE") && j == SkipSpaces(u, 4) && !(j < |u| && u[j] == '=')
    ensures BaseLen(u).None?
  {
  }

  lemma {:induction false} BaseLenNoPath(u: string, j: nat, k: nat)
    requires StartsWith(u, "BASE") && j == SkipSpaces(u, 4) && j < |u| && u[j] == '='
    requires k == SkipSpaces(u, j + 1) && !PathOpens(u, k)
    ensures BaseLen(u).None?
  {
  }

  /** `Path(` and a quote at `k`. */
  predicate PathOpens(s: string, k: int)
  {
    0 <= k && k + 6 <= |s| && s[k..k + 5] == "Path(" && IsQuote(s[k + 5])
  }

  /** The literal `BASE` of a match in `u` lies before the boundary, so `s` starts with it too. */
  lemma {:induction false} LiteralBeforeBoundary(s: string, u: string, len: nat, f: int)
    requires BaseBoundary(s, len, f) && len <= |u| && s[..len] == u[..len] && StartsWith(u, "BASE")
    ensures 5 <= len && StartsWith(s, "BASE")
  {
    AgreeAt(s, u, len, len - 1);
    AgreeAt(s, u, len, len - 2);
    if len < 5 {
      assert false;
    }
    AgreePrefix(s, u, len, 4);
  }

  /** `Path(` and its quote, found in `u` at `k` before the boundary, are found in `s` as well. */
  lemma {:induction false} PathBeforeBoundary(s: string, u: string, len: nat, f: int, k: nat)
    requires BaseBoundary(s, len, f) && len <= |u| && s[..len] == u[..len]
    requires k <= len - 1 && PathOpens(u, k)
    ensures k + 6 <= len - 1 && (s[len - 2] == '\n' ==> k + 6 <= len - 2) && PathOpens(s, k)
  {
    AgreeAt(s, u, len, len - 1);
    AgreeAt(s, u, len, len - 2);
    PathOpensChars(u, k);
    if k + 6 > len - 1 || (s[len - 2] == '\n' && k + 6 > len - 2) {
      assert false;
    }
    AgreeSlice(s, u, len, k, k + 5);
    AgreeAt(s, u, len, k + 5);
  }

  /** `Path(` and its quote hold no newline and no `B`, and start with `P`. */
  lemma {:induction false} PathOpensChars(u: string, k: nat)
    requires PathOpens(u, k)
    ensures u[k] == 'P' && forall m :: k <= m <= k + 5 ==> u[m] != '\n' && u[m] != 'B'
  {
    var w := u[k..k + 5];
    assert w == "Path(";
    forall m | k <= m <= k + 5 ensures u[m] != '\n' && u[m] != 'B' {
      if m < k + 5 {
        assert u[m] == w[m - k];
      }
    }
    assert u[k] == w[0];
  }

  /** The closing part, read from `q` on before the boundary, finds nothing in `u` as it finds nothing in `s`. */
  lemma {:induction false} ClosingFromBoundary(s: string, u: string, len: nat, f: int, q: nat)
    requires BaseBoundary(s, len, f) && len <= |u| && s[..len] == u[..len]
    requires q <= len - 1 && (s[len - 2] == '\n' ==> q <= len - 2) && ClosingLen(s[q..]).None?
    ensures ClosingLen(u[q..]).None?
  {
    var z: int;
    if s[len - 2] == '\n' {
      z := len - 2;
    } else {
      assert !Closes(s[q..], f - q);
      var z' :| 0 <= z' < f - q - 2 && s[q..][z'] == '\n';
      z := q + z';
    }
    assert q <= z < len - 1 && s[z] == '\n';
    var l := z - q + 1;
    AgreeWindow(s, u, len, q, l);
    assert s[q..][l - 1] == s[z];
    ClosingNoneStable(s[q..], u[q..], l);
  }

  // ---------------------------------------------------------------------
  // The patch's passes leave no BASE match behind
  // ---------------------------------------------------------------------

  /** What the `BASE` pass writes: `BASE = Path(r"<resolved base>")`. */
  function BaseAssignment(resolvedBase: string): (r: string)
  {
    "BASE = Path(r\"" + resolvedBase + "\")"
  }

  /** No character of `w` is `c`. */
  predicate Lacks(w: string, c: char)
  {
    forall y :: 0 <= y < |w| ==> w[y] != c
  }

  /**
   * The written `BASE` line is not matched again at any of its positions: at
   * its start the `r` prefix stands where the pattern wants a quote, and a
   * `BASE` inside the path is not followed by `=` when the path holds none.
   */
  lemma {:induction false} BaseAssignmentNoMatch(resolvedBase: string, rest: string, x: nat)
    requires Lacks(resolvedBase, '=') && x < |BaseAssignment(resolvedBase)|
    ensures BaseLen((BaseAssignment(resolvedBase) + rest)[x..]).None?
  {
    var r := BaseAssignment(resolvedBase);
    var w := (r + rest)[x..];
    var n := |resolvedBase|;
    if x == 0 {
      BaseAssignmentStartNoMatch(resolvedBase, rest);
    } else if 14 <= x < 14 + n {
      BaseInsidePathNoMatch(resolvedBase, rest, x);
    } else {
      AssignmentCharNotB(resolvedBase, x);
      assert w[0] == r[x];
      BaseNeedsB(w);
    }
  }

  /** Outside its first character and its path, the written line holds no `B`. */
  lemma {:induction false} AssignmentCharNotB(resolvedBase: string, x: nat)
    requires 0 < x < |BaseAssignment(resolvedBase)| && !(14 <= x < 14 + |resolvedBase|)
    ensures BaseAssignment(resolvedBase)[x] != 'B'
  {
    var r := BaseAssignment(resolvedBase);
    var n := |resolvedBase|;
    if x < 14 {
      assert r[..14] == "BASE = Path(r\"";
      assert r[x] == r[..14][x];
    } else {
      assert r[n + 14] == '"' && r[n + 15] == ')';
    }
  }

  /** Text that does not open with `B` has no `BASE` match at its start. */
  lemma {:induction false} BaseNeedsB(w: string)
    requires w != [] && w[0] != 'B'
    ensures BaseLen(w).None?
  {
  }

  /** At the start of the written line the pattern fails on the `r` prefix. */
  lemma {:induction false} BaseAssignmentStartNoMatch(resolvedBase: string, rest: string)
    ensures BaseLen(BaseAssignment(resolvedBase) + rest).None?
  {
    var w := BaseAssignment(resolvedBase) + rest;
    assert w[..4] == "BASE" && w[4] == ' ' && w[5] == '=' && w[6] == ' ' && w[7..12] == "Path(" && w[12] == 'r';
    assert SkipSpaces(w, 5) == 5 && SkipSpaces(w, 4) == 5;
    assert SkipSpaces(w, 7) == 7 && SkipSpaces(w, 6) == 7;
  }

  /** Inside the path, a `BASE` runs into a character of the path or the closing quote, never an `=`. */
  lemma {:induction false} BaseInsidePathNoMatch(resolvedBase: string, rest: string, x: nat)
    requires Lacks(resolvedBase, '=') && 14 <= x < 14 + |resolvedBase|
    ensures BaseLen((BaseAssignment(resolvedBase) + rest)[x..]).None?
  {
    var r := BaseAssignment(resolvedBase);
    var w := (r + rest)[x..];
    var d := 14 + |resolvedBase| - x;
    assert w[d] == r[14 + |resolvedBase|] == '"';
    assert forall y :: 0 <= y < d ==> w[y] == resolvedBase[x - 14 + y];
    if StartsWith(w, "BASE") {
      assert forall y :: 0 <= y < 4 ==> w[y] != '"';
      if d < 4 {
        assert false;
      }
      var j := SkipSpaces(w, 4);
      assert j <= d;
    }
  }

  /** A match of the `BASE` pattern ends with a quote and `)`. */
  lemma {:induction false} BaseLenCloses(s: string)
    requires BaseLen(s).Some?
    ensures IsQuote(s[BaseLen(s).value - 2]) && s[BaseLen(s).value - 1] == ')'
  {
    var j := SkipSpaces(s, 4);
    var k := SkipSpaces(s, j + 1);
    var c := ClosingLen(s[k + 6..]).value;
    assert s[k + 6..][c - 2] == s[k + 6 + c - 2] && s[k + 6..][c - 1] == s[k + 6 + c - 1];
  }

  /** Putting a text without any `B` in front of a text without a `BASE` match creates none. */
  lemma {:induction false} NoBaseAfterPrefix(r: string, rest: string)
    requires Lacks(r, 'B') && NoBaseMatch(rest)
    ensures NoBaseMatch(r + rest)
  {
    var w := r + rest;
    forall x | 0 <= x < |w| ensures BaseLen(w[x..]).None? {
      if x < |r| {
        assert w[x..][0] == r[x];
      } else {
        assert w[x..] == rest[x - |r|..];
      }
    }
  }

  /** A character copied in front of a text without a `BASE` match keeps it so when no match starts at it. */
  lemma {:induction false} NoBaseAfterCopy(w: string, c: char, rest: string)
    requires w == [c] + rest && BaseLen(w).None? && NoBaseMatch(rest)
    ensures NoBaseMatch(w)
  {
    forall x | 0 < x < |w| ensures BaseLen(w[x..]).None? {
      assert w[x..] == rest[x - 1..];
    }
  }

  /** An anchored pass whose written line holds no `B` leaves a text without a `BASE` match without one. */
  lemma {:induction false} AnchoredPassKeepsNoBase(name: string, v: string, u: string, i: nat)
    requires IsPlainName(name) && name[0] != 'P' && Lacks(Assignment(name, v), 'B')
    requires NoBaseMatch(u) && i <= |u|
    ensures NoBaseMatch(SubFrom(Assign(name), Assignment(name, v), u, i))
  {
    forall x | 0 <= x < |u| ensures BaseAt(u, x).None? {
    }
    AnchoredPassFrom(name, v, u, i);
  }

  /** `BaseLen` from position `x` of `u`, as a term of its own. */
  ghost function BaseAt(u: string, x: nat): (r: Option<nat>)
    requires x < |u|
  {
    BaseLen(u[x..])
  }

  /** `NoBaseMatch(u)`, instantiated only where `BaseAt` is mentioned. */
  ghost predicate NoBaseAt(u: string)
  {
    forall x :: 0 <= x < |u| ==> BaseAt(u, x).None?
  }

  /** The induction behind `AnchoredPassKeepsNoBase`, over the position of the pass. */
  lemma {:induction false} AnchoredPassFrom(name: string, v: string, u: string, i: nat)
    requires IsPlainName(name) && name[0] != 'P' && Lacks(Assignment(name, v), 'B')
    requires NoBaseAt(u) && i <= |u|
    ensures NoBaseMatch(SubFrom(Assign(name), Assignment(name, v), u, i))
    decreases |u| - i
  {
    if i < |u| {
      AnchoredPassFrom(name, v, u, PassNext(Assign(name), u, i));
      AnchoredStep(name, v, u, i);
    }
  }

  /** Inductive step of `AnchoredPassFrom`, from the position where the pass goes on to `i`. */
  lemma {:induction false} AnchoredStep(name: string, v: string, u: string, i: nat)
    requires IsPlainName(name) && name[0] != 'P' && Lacks(Assignment(name, v), 'B')
    requires NoBaseAt(u) && i < |u|
    requires NoBaseMatch(SubFrom(Assign(name), Assignment(name, v), u, PassNext(Assign(name), u, i)))
    ensures NoBaseMatch(SubFrom(Assign(name), Assignment(name, v), u, i))
  {
    match MatchAt(Assign(name), u, i)
    case Some(e) =>
      AnchoredReplaceStep(name, v, u, i, e);
    case None =>
      NoBaseCopyStep(name, v, u, i);
  }

  /** Inductive step of `AnchoredPassKeepsNoBase` where a match at `i` is replaced. */
  lemma {:induction false} AnchoredReplaceStep(name: string, v: string, u: string, i: nat, e: nat)
    requires Lacks(Assignment(name, v), 'B')
    requires i < |u| && MatchAt(Assign(name), u, i) == Some(e)
    requires NoBaseMatch(SubFrom(Assign(name), Assignment(name, v), u, e))
    ensures NoBaseMatch(SubFrom(Assign(name), Assignment(name, v), u, i))
  {
    var p := Assign(name);
    var r := Assignment(name, v);
    SubFromReplacesOne(p, r, u, i);
    NoBaseAfterPrefix(r, SubFrom(p, r, u, e));
  }

  /** Inductive step of `AnchoredPassKeepsNoBase` where no match of the anchored pattern starts at `i`. */
  lemma {:induction false} NoBaseCopyStep(name: string, v: string, u: string, i: nat)
    requires IsPlainName(name) && name[0] != 'P'
    requires NoBaseAt(u) && i < |u| && MatchAt(Assign(name), u, i).None?
    requires NoBaseMatch(SubFrom(Assign(name), Assignment(name, v), u, i + 1))
    ensures NoBaseMatch(SubFrom(Assign(name), Assignment(name, v), u, i))
  {
    var p := Assign(name);
    var r := Assignment(name, v);
    var w := SubFrom(p, r, u, i);
    assert BaseAt(u, i).None?;
    var len := CopiedUpToNextLine(name, v, u, i);
    if len > 0 {
      NameCharIsPlain(name[0]);
      BaseNoneStable(u[i..], w, len, 0);
    }
    NoBaseAfterCopy(w, u[i], SubFrom(p, r, u, i + 1));
  }

  /** Every `BASE` match of `t` lies on one line: its `\s*` runs contain no newline. */
  ghost predicate BaseMatchesOneLine(t: string)
  {
    forall m :: 0 <= m < |t| && BaseLen(t[m..]).Some? ==> NoNewline(t[m..], 0, BaseLen(t[m..]).value)
  }

  /**
   * The `BASE` pass leaves no `BASE` match behind, when every match it
   * replaces lies on one line and the resolved path holds no `=`.
   */
  lemma {:induction false} BasePassLeavesNoBase(resolvedBase: string, t: string, i: nat)
    requires Lacks(resolvedBase, '=') && BaseMatchesOneLine(t) && i <= |t|
    ensures NoBaseMatch(SubFrom(BasePath, BaseAssignment(resolvedBase), t, i))
    decreases |t| - i
  {
    if i < |t| {
      BasePassLeavesNoBase(resolvedBase, t, PassNext(BasePath, t, i));
      BasePassStep(resolvedBase, t, i);
    }
  }

  /** Inductive step of `BasePassLeavesNoBase`, from the position where the scan goes on to `i`. */
  lemma {:induction false} BasePassStep(resolvedBase: string, t: string, i: nat)
    requires Lacks(resolvedBase, '=') && BaseMatchesOneLine(t) && i < |t|
    requires NoBaseMatch(SubFrom(BasePath, BaseAssignment(resolvedBase), t, PassNext(BasePath, t, i)))
    ensures NoBaseMatch(SubFrom(BasePath, BaseAssignment(resolvedBase), t, i))
  {
    match MatchAt(BasePath, t, i)
    case Some(e) =>
      BaseReplaceStep(resolvedBase, t, i, e);
    case None =>
      BaseCopyStep(resolvedBase, t, i);
  }

  /** Inductive step of `BasePassLeavesNoBase` where a match at `i` is replaced. */
  lemma {:induction false} BaseReplaceStep(resolvedBase: string, t: string, i: nat, e: nat)
    requires Lacks(resolvedBase, '=') && i < |t| && MatchAt(BasePath, t, i) == Some(e)
    requires NoBaseMatch(SubFrom(BasePath, BaseAssignment(resolvedBase), t, e))
    ensures NoBaseMatch(SubFrom(BasePath, BaseAssignment(resolvedBase), t, i))
  {
    var r := BaseAssignment(resolvedBase);
    SubFromReplacesOne(BasePath, r, t, i);
    NoBaseAfterAssignment(resolvedBase, SubFrom(BasePath, r, t, e));
  }

  /** The written line followed by a text without a `BASE` match has none either. */
  lemma {:induction false} NoBaseAfterAssignment(resolvedBase: string, rest: string)
    requires Lacks(resolvedBase, '=') && NoBaseMatch(rest)
    ensures NoBaseMatch(BaseAssignment(resolvedBase) + rest)
  {
    var r := BaseAssignment(resolvedBase);
    forall x | 0 <= x < |r + rest| ensures BaseLen((r + rest)[x..]).None? {
      if x < |r| {
        BaseAssignmentNoMatch(resolvedBase, rest, x);
      } else {
        DropAppend(r, rest, x);
      }
    }
  }

  /** Inductive step of `BasePassLeavesNoBase` where the character at `i` is copied. */
  lemma {:induction false} BaseCopyStep(resolvedBase: string, t: string, i: nat)
    requires BaseMatchesOneLine(t) && i < |t| && MatchAt(BasePath, t, i).None?
    requires NoBaseMatch(SubFrom(BasePath, BaseAssignment(resolvedBase), t, i + 1))
    ensures NoBaseMatch(SubFrom(BasePath, BaseAssignment(resolvedBase), t, i))
  {
    var r := BaseAssignment(resolvedBase);
    assert r[0] == 'B';
    BaseCopiedLineStart(r, t, i);
    SubFromCopiesOne(BasePath, r, t, i);
    NoBaseAfterCopy(SubFrom(BasePath, r, t, i), t[i], SubFrom(BasePath, r, t, i + 1));
  }

  /** Where a `BASE` pass that writes a line starting with `B` finds no match at `i`, no match starts at `i` of its output either. */
  lemma {:induction false} BaseCopiedLineStart(r: string, t: string, i: nat)
    requires r != [] && r[0] == 'B'
    requires BaseMatchesOneLine(t) && i < |t| && MatchAt(BasePath, t, i).None?
    ensures BaseLen(SubFrom(BasePath, r, t, i)).None?
  {
    var m := NextMatch(BasePath, t, i);
    assert BaseLen(t[i..]).None?;
    if m == |t| {
      SubFromNoMatchLeft(BasePath, r, t, i);
    } else {
      assert BaseLen(t[m..]).Some?;
      assert NoNewline(t[m..], 0, BaseLen(t[m..]).value);
      BaseCopiedBeforeMatch(r, t, i, m);
    }
  }

  /** `BaseCopiedLineStart` when a later match is replaced: the copied text is followed by the written line's `B`. */
  lemma {:induction false} BaseCopiedBeforeMatch(r: string, t: string, i: nat, m: nat)
    requires r != [] && r[0] == 'B'
    requires i < m < |t| && BaseLen(t[i..]).None?
    requires NoMatchIn(BasePath, t, i, m) && MatchAt(BasePath, t, m).Some?
    requires NoNewline(t[m..], 0, BaseLen(t[m..]).value)
    ensures BaseLen(SubFrom(BasePath, r, t, i)).None?
  {
    var w := SubFrom(BasePath, r, t, i);
    var rest := SubFrom(BasePath, r, t, MatchAt(BasePath, t, m).value);
    SubFromCopies(BasePath, r, t, i, m);
    SubFromReplacesOne(BasePath, r, t, m);
    AppendAssoc(t[i..m], r, rest);
    SuffixSplit(t, i, m);
    assert BaseLen(t[i..m] + t[m..]).None?;
    assert BaseLen(t[m..]).Some?;
    assert w == t[i..m] + r + rest;
    NoBaseBeforeNextBase(t[i..m], t[m..], r, rest, w);
  }

  /**
   * No match starts at `x + y`, and a one-line match starts at `y`: a text
   * that keeps `x` and goes on with another `B` has no match at its start.
   */
  lemma {:induction false} NoBaseBeforeNextBase(x: string, y: string, r: string, rest: string, w: string)
    requires x != [] && BaseLen(x + y).None? && BaseLen(y).Some?
    requires NoNewline(y, 0, BaseLen(y).value)
    requires r != [] && r[0] == 'B' && w == x + r + rest
    ensures BaseLen(w).None?
  {
    var s := x + y;
    var a := |x|;
    assert s[a..] == y;
    BoundaryAtBaseMatch(s, a);
    assert s[a] == 'B';
    SharedPrefix(x, r, rest, y);
    BaseNoneStable(s, w, a + 1, a + BaseLen(y).value);
  }

  /** Two texts that continue the same `x` with the same character agree on `|x| + 1` characters. */
  lemma {:induction false} SharedPrefix(x: string, r: string, rest: string, y: string)
    requires r != [] && y != [] && r[0] == y[0]
    ensures (x + r + rest)[..|x| + 1] == (x + y)[..|x| + 1]
  {
    assert (x + r + rest)[..|x| + 1] == x + [r[0]];
    assert (x + y)[..|x| + 1] == x + [y[0]];
  }

  /** A one-line `BASE` match that starts at `a > 0` is a boundary at its `B`. */
  lemma {:induction false} BoundaryAtBaseMatch(s: string, a: nat)
    requires 0 < a < |s| && BaseLen(s[a..]).Some? && NoNewline(s[a..], 0, BaseLen(s[a..]).value)
    ensures BaseBoundary(s, a + 1, a + BaseLen(s[a..]).value)
  {
    var n := BaseLen(s[a..]).value;
    BaseLenCloses(s[a..]);
    assert s[a] == s[a..][..4][0] == 'B';
    assert s[a + n - 2] == s[a..][n - 2] && s[a + n - 1] == s[a..][n - 1];
    forall y | a <= y < a + n - 2 ensures s[y] != '\n' {
      assert s[y] == s[a..][y - a];
    }
  }
}
