/**
 * One pass of an anchored pattern `^name\s*=\s*.*$` that writes `name = value`
 * leaves a text in which every column-0 assignment of `name` reads exactly
 * `name = value`; a second identical pass therefore changes nothing.
 */
module Settle {
  import opened Results
  import opened Text
  import opened Patterns
  import opened Substitute

  /** The line an anchored pass writes in place of each match. */
  function Assignment(name: string, value: string): (r: string)
  {
    name + " = " + value
  }

  /** A value as the patcher renders it: not empty, not starting with `\s`, and on one line. */
  predicate IsValueText(v: string)
  {
    v != [] && !IsSpace(v[0]) && NoNewline(v, 0, |v|)
  }

  lemma {:induction false} AssignmentIsOneLine(name: string, v: string)
    requires IsPlainName(name) && IsValueText(v)
    ensures NoNewline(Assignment(name, v), 0, |Assignment(name, v)|)
  {
    var r := Assignment(name, v);
    forall y | 0 <= y < |r| ensures r[y] != '\n' {
      if y < |name| {
        NameCharIsPlain(name[y]);
      } else if y >= |name| + 3 {
        assert r[y] == v[y - |name| - 3];
      }
    }
  }

  /** A written line, followed by a newline or by nothing, is matched again as a whole. */
  lemma {:induction false} AssignmentMatchesItself(name: string, v: string, rest: string)
    requires IsPlainName(name) && IsValueText(v) && (rest == [] || rest[0] == '\n')
    ensures AssignLen(name, Assignment(name, v) + rest) == Some(|Assignment(name, v)|)
  {
    var s := Assignment(name, v) + rest;
    var n := |name|;
    assert s[..n] == name;
    assert s[n] == ' ' && s[n + 1] == '=' && s[n + 2] == ' ' && s[n + 3] == v[0];
    assert SkipSpaces(s, n + 1) == n + 1;
    assert SkipSpaces(s, n) == n + 1;
    assert SkipSpaces(s, n + 3) == n + 3;
    assert SkipSpaces(s, n + 2) == n + 3;
    forall y | n + 3 <= y < n + 3 + |v| ensures s[y] != '\n' {
      assert s[y] == v[y - n - 3];
    }
    LineEndIs(s, n + 3, n + 3 + |v|);
  }

  /** At the start of `s`, the anchored pattern finds no match, or exactly the written line `r`. */
  ghost predicate SettledAt(name: string, r: string, s: string)
  {
    AssignLen(name, s).None? || (AssignLen(name, s) == Some(|r|) && s[..|r|] == r)
  }

  /** `SettledAt` holds at every line start of `w`; position 0 counts as a line start when `ls` holds. */
  ghost predicate SettledFrom(name: string, r: string, w: string, ls: bool)
  {
    forall x :: 0 <= x < |w| && (if x == 0 then ls else w[x - 1] == '\n') ==> SettledAt(name, r, w[x..])
  }

  /** The output of the scan from `i` on is settled. */
  lemma {:induction false} SubFromSettles(name: string, v: string, t: string, i: nat)
    requires IsPlainName(name) && IsValueText(v) && i <= |t|
    ensures SettledFrom(name, Assignment(name, v), SubFrom(Assign(name), Assignment(name, v), t, i), AtLineStart(t, i))
    decreases |t| - i
  {
    if i < |t| {
      SubFromSettles(name, v, t, PassNext(Assign(name), t, i));
      SettlesStep(name, v, t, i);
    }
  }

  /** Inductive step of `SubFromSettles`, from the position where the scan goes on to `i`. */
  lemma {:induction false} SettlesStep(name: string, v: string, t: string, i: nat)
    requires IsPlainName(name) && IsValueText(v) && i < |t|
    requires var j := PassNext(Assign(name), t, i);
      SettledFrom(name, Assignment(name, v), SubFrom(Assign(name), Assignment(name, v), t, j), AtLineStart(t, j))
    ensures SettledFrom(name, Assignment(name, v), SubFrom(Assign(name), Assignment(name, v), t, i), AtLineStart(t, i))
  {
    match MatchAt(Assign(name), t, i)
    case Some(e) =>
      SettledAfterReplacement(name, v, t, i, e);
    case None =>
      SettledAfterCopy(name, v, t, i);
  }

  /** Inductive step of `SubFromSettles` where a match at `i` is replaced. */
  lemma {:induction false} SettledAfterReplacement(name: string, v: string, t: string, i: nat, e: nat)
    requires IsPlainName(name) && IsValueText(v) && i < |t|
    requires MatchAt(Assign(name), t, i) == Some(e)
    requires SettledFrom(name, Assignment(name, v), SubFrom(Assign(name), Assignment(name, v), t, e), AtLineStart(t, e))
    ensures SettledFrom(name, Assignment(name, v), SubFrom(Assign(name), Assignment(name, v), t, i), AtLineStart(t, i))
  {
    var p := Assign(name);
    var r := Assignment(name, v);
    var rest := SubFrom(p, r, t, e);
    var w := SubFrom(p, r, t, i);
    SubFromReplacesOne(p, r, t, i);
    assert w == r + rest;
    if e < |t| {
      assert t[i..][e - i] == t[e] == '\n';
      NameCharIsPlain(name[0]);
      assert t[e..][0] == t[e];
      assert !StartsWith(t[e..], name);
      SubFromCopiesOne(p, r, t, e);
      assert rest[0] == '\n';
    }
    AssignmentMatchesItself(name, v, rest);
    AssignmentIsOneLine(name, v);
    PrefixOfAppend(r, rest);
    assert SettledAt(name, r, w);
    SettledFromAppend(name, r, r, rest, w, AtLineStart(t, i), AtLineStart(t, e));
  }

  /** Inductive step of `SubFromSettles` where the character at `i` is copied. */
  lemma {:induction false} SettledAfterCopy(name: string, v: string, t: string, i: nat)
    requires IsPlainName(name) && IsValueText(v) && i < |t|
    requires MatchAt(Assign(name), t, i).None?
    requires SettledFrom(name, Assignment(name, v), SubFrom(Assign(name), Assignment(name, v), t, i + 1), AtLineStart(t, i + 1))
    ensures SettledFrom(name, Assignment(name, v), SubFrom(Assign(name), Assignment(name, v), t, i), AtLineStart(t, i))
  {
    var p := Assign(name);
    var r := Assignment(name, v);
    var rest := SubFrom(p, r, t, i + 1);
    var w := SubFrom(p, r, t, i);
    SubFromCopiesOne(p, r, t, i);
    if AtLineStart(t, i) {
      CopiedLineStartSettled(name, v, t, i);
    }
    assert AtLineStart(t, i + 1) == (t[i] == '\n');
    SettledFromCons(name, r, t[i], rest, w, AtLineStart(t, i));
  }

  /** A text `[c] + rest` is settled at its start as given, and after it as `rest` is. */
  lemma {:induction false} SettledFromCons(name: string, rn: string, c: char, rest: string, w: string, ls: bool)
    requires w == [c] + rest
    requires SettledFrom(name, rn, rest, c == '\n')
    requires ls ==> SettledAt(name, rn, w)
    ensures SettledFrom(name, rn, w, ls)
  {
    forall x | 0 <= x < |w| && (if x == 0 then ls else w[x - 1] == '\n')
      ensures SettledAt(name, rn, w[x..])
    {
      if x == 0 {
        assert w[x..] == w;
      } else {
        DropAppend([c], rest, x);
        assert w[x - 1] == if x == 1 then c else rest[x - 2];
      }
    }
  }

  /** A text `r + rest`, with `r` on one line, is settled at its start as given, and after `r` as `rest` is. */
  lemma {:induction false} SettledFromAppend(name: string, rn: string, r: string, rest: string, w: string, ls: bool, ls2: bool)
    requires w == r + rest && r != [] && NoNewline(r, 0, |r|)
    requires SettledFrom(name, rn, rest, ls2)
    requires ls ==> SettledAt(name, rn, w)
    ensures SettledFrom(name, rn, w, ls)
  {
    forall x | 0 <= x < |w| && (if x == 0 then ls else w[x - 1] == '\n')
      ensures SettledAt(name, rn, w[x..])
    {
      if x == 0 {
        assert w[x..] == w;
      } else if x > |r| {
        DropAppend(r, rest, x);
        assert w[x - 1] == rest[x - |r| - 1];
      }
    }
  }

  /** The copied line start at `i` stays without a match, however the rest of its line continues in the output. */
  lemma {:induction false} CopiedLineStartSettled(name: string, v: string, t: string, i: nat)
    requires IsPlainName(name) && IsValueText(v) && i < |t|
    requires AtLineStart(t, i) && MatchAt(Assign(name), t, i).None?
    ensures SettledAt(name, Assignment(name, v), SubFrom(Assign(name), Assignment(name, v), t, i))
  {
    var p := Assign(name);
    var r := Assignment(name, v);
    var w := SubFrom(p, r, t, i);
    assert AssignLen(name, t[i..]).None?;
    var m := NextMatch(p, t, i);
    if m == |t| {
      SubFromNoMatchLeft(p, r, t, i);
    } else {
      CopiedLineBeforeMatch(name, v, t, i, m);
    }
  }

  /** `CopiedLineStartSettled` when a later match is replaced: the output starts with the copied text up to that match and then the written line. */
  lemma {:induction false} CopiedLineBeforeMatch(name: string, v: string, t: string, i: nat, m: nat)
    requires IsPlainName(name) && IsValueText(v) && i < m < |t|
    requires AssignLen(name, t[i..]).None?
    requires NoMatchIn(Assign(name), t, i, m) && MatchAt(Assign(name), t, m).Some?
    ensures AssignLen(name, SubFrom(Assign(name), Assignment(name, v), t, i)).None?
  {
    var p := Assign(name);
    var r := Assignment(name, v);
    var w := SubFrom(p, r, t, i);
    var rest := SubFrom(p, r, t, MatchAt(p, t, m).value);
    SubFromCopies(p, r, t, i, m);
    SubFromReplacesOne(p, r, t, m);
    SliceOfSuffix(t, i, m);
    assert w == t[i..][..m - i] + (r + rest);
    assert t[m..][0] == t[m] == name[0] == r[0];
    assert AtLineStart(t, m);
    assert t[i..][m - i - 1] == t[m - 1] == '\n';
    assert t[i..][m - i] == t[m];
    assert (r + rest)[0] == r[0];
    assert IsPlainName(name);
    assert AssignLen(name, t[i..]).None?;
    assert 0 < m - i < |t[i..]|;
    assert r + rest != [];
    assert w == t[i..][..m - i] + (r + rest);
    NoneStableBeforeWrite(name, t[i..], m - i, r + rest, w);
  }

  /**
   * A text with no match at its start, whose line starting at `k` begins
   * with the variable's first character, still has none when that line is
   * replaced by any text beginning with the same character.
   */
  lemma {:induction false} NoneStableBeforeWrite(name: string, s: string, k: nat, b: string, w: string)
    requires IsPlainName(name) && AssignLen(name, s).None?
    requires 0 < k < |s| && s[k - 1] == '\n' && s[k] == name[0]
    requires b != [] && b[0] == name[0] && w == s[..k] + b
    ensures AssignLen(name, w).None?
  {
    PrefixThroughNext(s, k, b, w);
    AssignNoneStable(name, s, w, k + 1);
  }

  /** After one pass every column-0 assignment of `name` reads exactly `name = value`. */
  lemma {:induction false} SubAllSettles(name: string, v: string, t: string)
    requires IsPlainName(name) && IsValueText(v)
    ensures Settled(Assign(name), Assignment(name, v), SubAll(Assign(name), Assignment(name, v), t))
  {
    var p := Assign(name);
    var r := Assignment(name, v);
    var u := SubAll(p, r, t);
    SubFromSettles(name, v, t, 0);
    SettledFromStart(name, r, u);
  }

  /** A text settled at every line start, its first position included, is settled for the anchored pattern. */
  lemma {:induction false} SettledFromStart(name: string, r: string, u: string)
    requires SettledFrom(name, r, u, true)
    ensures Settled(Assign(name), r, u)
  {
    forall x | 0 <= x < |u| && MatchAt(Assign(name), u, x).Some?
      ensures MatchAt(Assign(name), u, x).value == x + |r| && u[x..x + |r|] == r
    {
      assert SettledAt(name, r, u[x..]);
      assert u[x..][..|r|] == u[x..x + |r|];
    }
  }

  /** A second identical anchored pass changes nothing. */
  lemma {:induction false} AnchoredPassIdempotent(name: string, v: string, t: string)
    requires IsPlainName(name) && IsValueText(v)
    ensures var once := SubAll(Assign(name), Assignment(name, v), t);
            SubAll(Assign(name), Assignment(name, v), once) == once
  {
    SubAllSettles(name, v, t);
    SettledIsFixedPoint(Assign(name), Assignment(name, v), SubAll(Assign(name), Assignment(name, v), t));
  }

  // ---------------------------------------------------------------------
  // A pass for another variable keeps a settled text settled
  // ---------------------------------------------------------------------

  /** The line written for `other` is no match for a different plain `name`. */
  lemma {:induction false} OtherAssignmentNoMatch(name: string, other: string, v: string, rest: string)
    requires IsPlainName(name) && IsPlainName(other) && name != other
    ensures AssignLen(name, Assignment(other, v) + rest).None?
  {
    var s := Assignment(other, v) + rest;
    var n := |name|;
    if StartsWith(s, name) {
      if n <= |other| {
        assert name == other[..n] by {
          assert s[..n] == other[..n];
        }
        assert n < |other|;
        assert s[n] == other[n];
        NameCharIsPlain(other[n]);
        assert SkipSpaces(s, n) == n;
      } else {
        assert s[|other|] == ' ' == name[|other|] by {
          assert s[..n][|other|] == s[|other|];
        }
        NameCharIsPlain(name[|other|]);
      }
    }
  }

  /** The scan of a pass for `other` from `i` on keeps every line start that was settled for `name` settled. */
  lemma {:induction false} SubFromKeepsSettled(name: string, vName: string, other: string, v: string, u: string, i: nat)
    requires IsPlainName(name) && IsValueText(vName) && IsPlainName(other) && IsValueText(v) && name != other
    requires Settled(Assign(name), Assignment(name, vName), u) && i <= |u|
    ensures SettledFrom(name, Assignment(name, vName), SubFrom(Assign(other), Assignment(other, v), u, i), AtLineStart(u, i))
    decreases |u| - i
  {
    if i < |u| {
      SubFromKeepsSettled(name, vName, other, v, u, PassNext(Assign(other), u, i));
      KeptStep(name, vName, other, v, u, i);
    }
  }

  /** Inductive step of `SubFromKeepsSettled`, from the position where the scan goes on to `i`. */
  lemma {:induction false} KeptStep(name: string, vName: string, other: string, v: string, u: string, i: nat)
    requires IsPlainName(name) && IsValueText(vName) && IsPlainName(other) && IsValueText(v) && name != other
    requires Settled(Assign(name), Assignment(name, vName), u) && i < |u|
    requires var j := PassNext(Assign(other), u, i);
      SettledFrom(name, Assignment(name, vName), SubFrom(Assign(other), Assignment(other, v), u, j), AtLineStart(u, j))
    ensures SettledFrom(name, Assignment(name, vName), SubFrom(Assign(other), Assignment(other, v), u, i), AtLineStart(u, i))
  {
    match MatchAt(Assign(other), u, i)
    case Some(e) =>
      KeptAfterReplacement(name, vName, other, v, u, i, e);
    case None =>
      KeptCopyStep(name, vName, other, v, u, i);
  }

  /** Inductive step of `SubFromKeepsSettled` where no match of `other` starts at `i`. */
  lemma {:induction false} KeptCopyStep(name: string, vName: string, other: string, v: string, u: string, i: nat)
    requires IsPlainName(name) && IsValueText(vName) && IsPlainName(other) && IsValueText(v) && name != other
    requires Settled(Assign(name), Assignment(name, vName), u) && i < |u| && MatchAt(Assign(other), u, i).None?
    requires SettledFrom(name, Assignment(name, vName), SubFrom(Assign(other), Assignment(other, v), u, i + 1), AtLineStart(u, i + 1))
    ensures SettledFrom(name, Assignment(name, vName), SubFrom(Assign(other), Assignment(other, v), u, i), AtLineStart(u, i))
  {
    if AtLineStart(u, i) {
      SettledAtLineStart(name, Assignment(name, vName), u, i);
      CopiedLineStartKept(name, vName, other, v, u, i);
    }
    KeptAfterCopy(name, vName, other, v, u, i);
  }

  /** Inductive step of `SubFromKeepsSettled` where a match of `other` at `i` is replaced. */
  lemma {:induction false} KeptAfterReplacement(name: string, vName: string, other: string, v: string, u: string, i: nat, e: nat)
    requires IsPlainName(name) && IsPlainName(other) && IsValueText(v) && name != other && i < |u|
    requires MatchAt(Assign(other), u, i) == Some(e)
    requires SettledFrom(name, Assignment(name, vName), SubFrom(Assign(other), Assignment(other, v), u, e), AtLineStart(u, e))
    ensures SettledFrom(name, Assignment(name, vName), SubFrom(Assign(other), Assignment(other, v), u, i), AtLineStart(u, i))
  {
    var q := Assign(other);
    var r := Assignment(other, v);
    var rest := SubFrom(q, r, u, e);
    var w := SubFrom(q, r, u, i);
    SubFromReplacesOne(q, r, u, i);
    assert w == r + rest;
    OtherAssignmentNoMatch(name, other, v, rest);
    AssignmentIsOneLine(other, v);
    assert SettledAt(name, Assignment(name, vName), w);
    SettledFromAppend(name, Assignment(name, vName), r, rest, w, AtLineStart(u, i), AtLineStart(u, e));
  }

  /** Inductive step of `SubFromKeepsSettled` where the character at `i` is copied. */
  lemma {:induction false} KeptAfterCopy(name: string, vName: string, other: string, v: string, u: string, i: nat)
    requires i < |u| && MatchAt(Assign(other), u, i).None?
    requires SettledFrom(name, Assignment(name, vName), SubFrom(Assign(other), Assignment(other, v), u, i + 1), AtLineStart(u, i + 1))
    requires AtLineStart(u, i) ==> SettledAt(name, Assignment(name, vName), SubFrom(Assign(other), Assignment(other, v), u, i))
    ensures SettledFrom(name, Assignment(name, vName), SubFrom(Assign(other), Assignment(other, v), u, i), AtLineStart(u, i))
  {
    var q := Assign(other);
    var r := Assignment(other, v);
    var rest := SubFrom(q, r, u, i + 1);
    var w := SubFrom(q, r, u, i);
    SubFromCopiesOne(q, r, u, i);
    assert AtLineStart(u, i + 1) == (u[i] == '\n');
    SettledFromCons(name, Assignment(name, vName), u[i], rest, w, AtLineStart(u, i));
  }

  /** A settled line start of `u` where the pass for `other` finds nothing stays settled in that pass's output. */
  lemma {:induction false} CopiedLineStartKept(name: string, vName: string, other: string, v: string, u: string, i: nat)
    requires IsPlainName(name) && IsValueText(vName) && IsPlainName(other) && IsValueText(v) && name != other
    requires i < |u| && SettledAt(name, Assignment(name, vName), u[i..])
    requires AtLineStart(u, i) && MatchAt(Assign(other), u, i).None?
    ensures SettledAt(name, Assignment(name, vName), SubFrom(Assign(other), Assignment(other, v), u, i))
  {
    var w := SubFrom(Assign(other), Assignment(other, v), u, i);
    var len := CopiedUpToNextLine(other, v, u, i);
    if len == 0 {
    } else if AssignLen(name, u[i..]).None? {
      AssignNoneStable(name, u[i..], w, len);
    } else {
      SettledLineKept(name, vName, u, i, w, len);
    }
  }

  /**
   * Where a pass finds no match at `i`, its output from `i` on is the rest of
   * the text, or agrees with the text up to the first character of the next
   * line on which a match starts (a name character); `len` is that length.
   */
  lemma {:induction false} CopiedUpToNextLine(other: string, v: string, u: string, i: nat) returns (len: nat)
    requires IsPlainName(other) && i < |u| && MatchAt(Assign(other), u, i).None?
    ensures var w := SubFrom(Assign(other), Assignment(other, v), u, i);
      (len == 0 && w == u[i..]) || CopiedThrough(other, u, i, w, len)
  {
    var q := Assign(other);
    var r := Assignment(other, v);
    var m := NextMatch(q, u, i);
    if m == |u| {
      SubFromNoMatchLeft(q, r, u, i);
      len := 0;
    } else {
      len := m - i + 1;
      CopiedUpToMatch(other, v, u, i, m, len);
    }
  }

  /**
   * The output `w` of a pass from `i` on agrees with the text for `len`
   * characters, the last of which is the first character of a line that
   * starts with the name `other`.
   */
  ghost predicate CopiedThrough(other: string, u: string, i: nat, w: string, len: nat)
    requires i <= |u|
  {
    2 <= len <= |u| - i && len <= |w| && w[..len] == u[i..][..len] && other != []
    && u[i..][len - 2] == '\n' && u[i..][len - 1] == other[0] && IsNameChar(other[0])
  }

  /** `CopiedUpToNextLine` when the next match starts at `m`: the output agrees with the text through the match's first character. */
  lemma {:induction false} CopiedUpToMatch(other: string, v: string, u: string, i: nat, m: nat, len: nat)
    requires IsPlainName(other) && i < m < |u| && len == m - i + 1
    requires NoMatchIn(Assign(other), u, i, m) && MatchAt(Assign(other), u, m).Some?
    ensures CopiedThrough(other, u, i, SubFrom(Assign(other), Assignment(other, v), u, i), len)
  {
    var q := Assign(other);
    var r := Assignment(other, v);
    var w := SubFrom(q, r, u, i);
    var rest := SubFrom(q, r, u, MatchAt(q, u, m).value);
    SubFromToNextMatch(q, r, u, i, m);
    assert u[i..][..m - i] == u[i..][..len - 1];
    MatchStartsLine(other, u, i, m, len);
    NameCharIsPlain(other[0]);
    AssignmentStartsWithName(other, v);
    PrefixThroughWrite(u[i..], len, r, rest, w);
  }

  lemma {:induction false} AssignmentStartsWithName(name: string, v: string)
    requires name != []
    ensures Assignment(name, v)[0] == name[0]
  {
  }

  /** A text that keeps `s[..n - 1]` and goes on with a text starting with `s[n - 1]` agrees with `s` on `n` characters. */
  lemma {:induction false} PrefixThroughWrite(s: string, n: nat, r: string, rest: string, w: string)
    requires 1 <= n <= |s| && r != [] && r[0] == s[n - 1] && w == s[..n - 1] + r + rest
    ensures w[..n] == s[..n]
  {
    AppendAssoc(s[..n - 1], r, rest);
    PrefixThroughNext(s, n - 1, r + rest, w);
  }

  /** A match of the anchored pattern at `m > i` starts a line with the variable's first character. */
  lemma {:induction false} MatchStartsLine(name: string, u: string, i: nat, m: nat, len: nat)
    requires IsPlainName(name) && i < m < |u| && MatchAt(Assign(name), u, m).Some? && len == m - i + 1
    ensures u[i..][len - 2] == '\n' && u[i..][len - 1] == name[0]
  {
    assert u[m..][0] == u[m];
  }

  /** A written line at the line start `i` of `u` ends before the next line start `i + len - 1`, so text agreeing up to there keeps it. */
  lemma {:induction false} SettledLineKept(name: string, vName: string, u: string, i: nat, w: string, len: nat)
    requires IsPlainName(name) && IsValueText(vName)
    requires i < |u| && SettledAt(name, Assignment(name, vName), u[i..])
    requires AssignLen(name, u[i..]).Some?
    requires 2 <= len <= |u| - i && len <= |w| && w[..len] == u[i..][..len] && u[i..][len - 2] == '\n'
    ensures SettledAt(name, Assignment(name, vName), w)
  {
    var rn := Assignment(name, vName);
    var n := AssignLen(name, u[i..]).value;
    assert u[i..][..n] == rn;
    AssignmentIsOneLine(name, vName);
    assert forall y :: 0 <= y < n ==> u[i..][y] == rn[y] != '\n';
    AssignSomeStable(name, u[i..], w, len);
    assert w[..n] == w[..len][..n] == u[i..][..len][..n];
  }

  /** In a settled text, the anchored pattern at a line start finds nothing or exactly the written line. */
  lemma {:induction false} SettledAtLineStart(name: string, r: string, u: string, i: nat)
    requires Settled(Assign(name), r, u) && i < |u| && AtLineStart(u, i)
    ensures SettledAt(name, r, u[i..])
  {
    if MatchAt(Assign(name), u, i).Some? {
      assert u[i..][..|r|] == u[i..i + |r|];
    }
  }

  /**
   * After a pass for a different variable, every column-0 assignment of `name`
   * that is left in the text still reads `name = vName`. The pass may remove a
   * written line, when a match of `other` with an empty right-hand side runs
   * over it.
   */
  lemma {:induction false} SubAllKeepsSettled(name: string, vName: string, other: string, v: string, u: string)
    requires IsPlainName(name) && IsValueText(vName) && IsPlainName(other) && IsValueText(v) && name != other
    requires Settled(Assign(name), Assignment(name, vName), u)
    ensures Settled(Assign(name), Assignment(name, vName), SubAll(Assign(other), Assignment(other, v), u))
  {
    var out := SubAll(Assign(other), Assignment(other, v), u);
    var rn := Assignment(name, vName);
    SubFromKeepsSettled(name, vName, other, v, u, 0);
    SettledFromStart(name, rn, out);
  }
}
