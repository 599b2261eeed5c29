/** The patcher's behaviour on small texts, as Python's `re.sub` produces it. */
module PatchCases {
  import opened Results
  import opened Text
  import opened Patterns
  import opened Substitute
  import opened Settle
  import opened BaseFree
  import opened NotebookPatch
  import opened CellPatch

  // ---------------------------------------------------------------------
  // The BASE pattern
  // ---------------------------------------------------------------------

  /** The unanchored `BASE` pattern also rewrites the tail of `DATABASE = Path(...)`. */
  lemma {:induction false} DatabaseTailRewritten(t: string, r: string)
    requires t == "DATABASE = Path('/d')\n"
    ensures SubAll(BasePath, r, t) == "DATA" + r + "\n"
  {
    DatabaseMatches(t);
    SubAllOneMatch(BasePath, r, t, 4, 21);
  }

  /**
   * The lazy `.*?` stops at the first quote directly followed by `)`, whichever
   * quote opened the path, and what follows on the line is kept.
   */
  lemma {:induction false} LazyClosingKeepsTail(t: string, r: string)
    requires t == "BASE = Path(\"a') + Path('b')"
    ensures SubAll(BasePath, r, t) == r + " + Path('b')"
  {
    LazyClosingMatch(t);
    assert NoMatchIn(BasePath, t, 0, 0);
    SubAllOneMatch(BasePath, r, t, 0, 16);
    assert t[..0] + r == r;
  }

  // ---------------------------------------------------------------------
  // The anchored passes
  // ---------------------------------------------------------------------

  /** `\s*` after `=` runs over line breaks, so an empty right-hand side swallows the next non-blank line. */
  lemma {:induction false} EmptyValueSwallowsNextLine(t: string, r: string)
    requires t == "MAX_VIDEOS =\n\nX = 1\nY"
    ensures SubAll(Assign("MAX_VIDEOS"), r, t) == r + "\nY"
  {
    SwallowMatch(t);
    SubFromToNextMatch(Assign("MAX_VIDEOS"), r, t, 0, 0);
    assert t[18] == '1' && t[19] == '\n' && t[20] == 'Y';
    assert MatchAt(Assign("MAX_VIDEOS"), t, 19).None?;
    assert t[20..][0] == 'Y';
    assert MatchAt(Assign("MAX_VIDEOS"), t, 20).None?;
    SubFromNoMatchLeft(Assign("MAX_VIDEOS"), r, t, 19);
    assert t[19..] == "\nY";
  }

  /**
   * A later pass can swallow a line an earlier pass wrote: `SKIP_EXISTING =`
   * with an empty right-hand side runs over the line break and takes the
   * written `MAX_VIDEOS` line into its own match, so the patched text holds
   * no `MAX_VIDEOS` line at all.
   */
  lemma {:induction false} LaterPassSwallowsWrittenLine(src: string, resolvedBase: string, maxVideos: Option<int>,
                                    maxImagesTotal: Option<int>, skipExisting: bool)
    requires src == "SKIP_EXISTING =\nMAX_VIDEOS = 3"
    ensures PatchNotebookSource(src, resolvedBase, maxVideos, maxImagesTotal, skipExisting)
      == Assignment("SKIP_EXISTING", BoolText(skipExisting))
  {
    var h := src[..16];
    var v := IntOrNone(maxVideos);
    SwallowSourceShape(src);
    NoBaseBetween(src, 0, |src|);
    SubAllNoMatch(BasePath, BaseAssignment(resolvedBase), src);
    VideosLineWritten(src, maxVideos);
    NamesArePlain();
    IntOrNoneIsValueText(maxVideos);
    HeadThenWrittenLineKept("MAX_IMAGES_TOTAL", h, "MAX_VIDEOS", v, Assignment("MAX_IMAGES_TOTAL", IntOrNone(maxImagesTotal)));
    EmptySkipSwallows(h, v, skipExisting);
  }

  /** Every column-0 assignment is rewritten, each on its own line. */
  lemma {:induction false} EveryAssignmentRewritten(t: string, r: string)
    requires t == "MAX_VIDEOS = 1\nMAX_VIDEOS=2"
    ensures SubAll(Assign("MAX_VIDEOS"), r, t) == r + "\n" + r
  {
    var p := Assign("MAX_VIDEOS");
    EveryMatches(t);
    SubFromToNextMatch(p, r, t, 0, 0);
    assert SubFrom(p, r, t, 14) == [t[14]] + SubFrom(p, r, t, 15);
    SubFromToNextMatch(p, r, t, 15, 15);
    assert SubFrom(p, r, t, 27) == [];
  }

  /** An indented assignment is not at a line start, so it is left as it is. */
  lemma {:induction false} IndentedAssignmentUntouched(val: Option<int>)
    ensures ReplaceIntOrNone("  MAX_VIDEOS = 1", "MAX_VIDEOS", val) == "  MAX_VIDEOS = 1"
  {
    var t := "  MAX_VIDEOS = 1";
    forall i | 0 <= i < |t| && AtLineStart(t, i) ensures !StartsWith(t[i..], "MAX_VIDEOS") {
      assert t[i..][0] == ' ';
    }
    NoColumnZeroName("MAX_VIDEOS", Assignment("MAX_VIDEOS", IntOrNone(val)), t);
  }

  // ---------------------------------------------------------------------
  // Patching twice can differ from patching once
  // ---------------------------------------------------------------------

  /**
   * A `BASE` whose `\s*` runs over a line break, after an unclosed `Path("a`
   * on the same line as its `BASE`: the first pass rewrites only the second
   * match; the first `BASE`'s lazy scan, stopped by the line break before,
   * now runs through the written line and closes on its `")`.
   */
  lemma {:induction false} PatchNotIdempotent(t: string)
    requires t == "BASE = Path(\"aBASE\n= Path(\"x\")"
    ensures var once := PatchNotebookSource(t, "/p", None, None, false);
      PatchNotebookSource(once, "/p", None, None, false) != once
  {
    var r := BaseAssignment("/p");
    var head := t[..14];
    assert head == "BASE = Path(\"a";
    var once := head + r;
    FirstPassRewritesSecond(t, r);
    WrittenLineOneLine(r);
    HeadOneLine(head);
    LacksConcat(head, r, '\n');
    AnchoredPassesKeep(once, None, None, false);
    SecondPassRewritesAll(once, r);
    AnchoredPassesKeep(r, None, None, false);
  }

  // ---------------------------------------------------------------------
  // The patch on the file text of a notebook, where each source line is a JSON string
  // ---------------------------------------------------------------------

  /**
   * On a code line as the `.ipynb` file holds it (indented, quoted, with the
   * line's newline written as the two characters `\n`), no pass matches and
   * the file text is returned unchanged; the same line as the cell's own
   * source is rewritten.
   */
  lemma {:induction false} JsonLayoutMissesAssignment(t: string, src: string, resolvedBase: string, maxVideos: Option<int>,
                                   maxImagesTotal: Option<int>, skipExisting: bool)
    requires t == "    \"MAX_VIDEOS = 5\\n\",\n" && src == "MAX_VIDEOS = 5\n"
    ensures PatchNotebookSource(t, resolvedBase, maxVideos, maxImagesTotal, skipExisting) == t
    ensures PatchCells([Cell(true, src)], resolvedBase, maxVideos, maxImagesTotal, skipExisting)
      == [Cell(true, Assignment("MAX_VIDEOS", IntOrNone(maxVideos)) + "\n")]
  {
    JsonLineUnpatched(t, resolvedBase, maxVideos, maxImagesTotal, skipExisting);
    CellSourcePatched(src, resolvedBase, maxVideos, maxImagesTotal, skipExisting);
  }

  /** In the file text a double-quoted path reads `Path(\"...\")`: a backslash follows `Path(`, so the `BASE` pass does not fire. */
  lemma {:induction false} JsonLayoutMissesBase(t: string, resolvedBase: string)
    requires t == "    \"BASE = Path(\\\"/c\\\")\\n\",\n"
    ensures SubAll(BasePath, BaseAssignment(resolvedBase), t) == t
  {
    JsonBaseLetters(t);
    JsonBaseOpening(t);
    UnquotedPathNoMatch(t, 5);
    OnlyCandidateNoMatch(t, 5);
    SubAllNoMatch(BasePath, BaseAssignment(resolvedBase), t);
  }

  // =====================================================================
  // Proof steps. The lemmas below are the steps of the examples' proofs:
  // the shape of each example text, character by character, and the
  // matches found in it, one at a time.
  // =====================================================================

  // Steps shared by several examples

  /** No `BASE` match starts at a character other than `B`. */
  lemma {:induction false} NoBaseAtOtherLetter(t: string, k: nat)
    requires k < |t| && t[k] != 'B'
    ensures MatchAt(BasePath, t, k).None?
  {
    assert t[k..][0] == t[k];
    BaseNeedsB(t[k..]);
  }

  /** Without any `B` in `t[i..m]`, no `BASE` match starts there. */
  lemma {:induction false} NoBaseBetween(t: string, i: nat, m: nat)
    requires i <= m <= |t| && forall k :: i <= k < m ==> t[k] != 'B'
    ensures NoMatchIn(BasePath, t, i, m)
  {
    forall k | i <= k < m ensures MatchAt(BasePath, t, k).None? {
      NoBaseAtOtherLetter(t, k);
    }
  }

  /** Without any `B` from `i` on, no `BASE` match starts there. */
  lemma {:induction false} NoBaseWithoutB(t: string, i: nat)
    requires i <= |t| && Lacks(t[i..], 'B')
    ensures NoMatchIn(BasePath, t, i, |t|)
  {
    forall k | i <= k < |t| ensures t[k] != 'B' {
      assert t[k] == t[i..][k - i];
    }
    NoBaseBetween(t, i, |t|);
  }

  /** No match of the anchored pattern starts at a character other than the name's first. */
  lemma {:induction false} NoAssignAtOtherLetter(name: string, t: string, k: nat)
    requires k < |t| && name != [] && t[k] != name[0]
    ensures MatchAt(Assign(name), t, k).None?
  {
    assert t[k..][0] == t[k];
  }

  /** No match of the anchored pattern starts off a line start. */
  lemma {:induction false} NoAssignOffLineStart(name: string, t: string, i: nat, m: nat)
    requires 0 < i <= m <= |t| && forall k :: i - 1 <= k < m - 1 ==> t[k] != '\n'
    ensures NoMatchIn(Assign(name), t, i, m)
  {
    forall k | i <= k < m ensures MatchAt(Assign(name), t, k).None? {
      assert t[k - 1] != '\n';
    }
  }

  /**
   * An assignment line spelled out character by character: `name` at a line
   * start, `\s*` up to the `=` at `j`, `\s*` up to `k`, and the value up to
   * the newline or the end at `e`.
   */
  lemma {:induction false} AssignLineMatch(name: string, t: string, i: nat, j: nat, k: nat, e: nat)
    requires AtLineStart(t, i) && i + |name| <= j < k <= e <= |t|
    requires forall x :: 0 <= x < |name| ==> t[i + x] == name[x]
    requires AllSpace(t, i + |name|, j) && t[j] == '=' && AllSpace(t, j + 1, k) && (k < |t| ==> !IsSpace(t[k]))
    requires NoNewline(t, k, e) && (e == |t| || t[e] == '\n')
    ensures MatchAt(Assign(name), t, i) == Some(e)
  {
    AssignLineShifted(name, t, i, j, k, e);
    AssignLineLen(name, t[i..], j - i, k - i, e - i);
    AssignMatchAt(name, t, i);
  }

  /** The same line read from its start. */
  lemma {:induction false} AssignLineShifted(name: string, t: string, i: nat, j: nat, k: nat, e: nat)
    requires i + |name| <= j < k <= e <= |t|
    requires forall x :: 0 <= x < |name| ==> t[i + x] == name[x]
    requires AllSpace(t, i + |name|, j) && t[j] == '=' && AllSpace(t, j + 1, k) && (k < |t| ==> !IsSpace(t[k]))
    requires NoNewline(t, k, e) && (e == |t| || t[e] == '\n')
    ensures var s := t[i..];
      StartsWith(s, name) && AllSpace(s, |name|, j - i) && s[j - i] == '=' && AllSpace(s, j - i + 1, k - i)
      && (k - i < |s| ==> !IsSpace(s[k - i])) && NoNewline(s, k - i, e - i) && (e - i == |s| || s[e - i] == '\n')
  {
    var s := t[i..];
    var n := |name|;
    forall x | 0 <= x < n ensures s[..n][x] == name[x] {
      assert s[x] == t[i + x];
    }
    forall x | 0 <= x < |s| ensures s[x] == t[i + x] {
    }
  }

  /** An assignment line spelled out from its start is what the anchored pattern's matcher finds. */
  lemma {:induction false} AssignLineLen(name: string, s: string, j: nat, k: nat, e: nat)
    requires StartsWith(s, name) && AllSpace(s, |name|, j) && j < |s| && s[j] == '=' && AllSpace(s, j + 1, k)
    requires (k < |s| ==> !IsSpace(s[k])) && NoNewline(s, k, e) && (e == |s| || s[e] == '\n')
    ensures AssignLen(name, s) == Some(e)
  {
    SkipSpacesStopsAt(s, |name|, j);
    if k < |s| {
      SkipSpacesStopsAt(s, j + 1, k);
    } else {
      SkipSpacesIsLongest(s, j + 1, k);
    }
    LineEndIs(s, k, e);
    AssignLenIs(name, s, j, k);
  }

  /** The pattern up to `Path(`, written with single spaces around `=`: the match then hangs on a quote and the lazy scan after it. */
  lemma {:induction false} OpensAfterPrefix(s: string)
    requires |s| >= 13 && s[..12] == "BASE = Path("
    ensures BaseLen(s) == if !IsQuote(s[12]) then None
                          else match ClosingLen(s[13..]) case None => None case Some(c) => Some(13 + c)
  {
    var q := s[..12];
    PrefixOfPrefix(s, 4, 12);
    assert s[..4] == q[..4] == "BASE";
    assert s[4] == q[4] == ' ' && s[5] == q[5] == '=' && s[6] == q[6] == ' ' && s[7] == q[7] == 'P';
    SkipSpacesStopsAt(s, 4, 5);
    SkipSpacesStopsAt(s, 6, 7);
    SliceOfPrefix(s, 7, 12, 12);
    assert s[7..12] == q[7..12] == "Path(";
  }

  /** The lazy scan passes over characters that are neither quotes nor newlines. */
  lemma {:induction false} ClosingSkips(c: string, a: nat)
    requires a <= |c| && forall y :: 0 <= y < a ==> c[y] != '\n' && !IsQuote(c[y])
    ensures ClosingLen(c) == match ClosingLen(c[a..]) case None => None case Some(n) => Some(n + a)
    decreases a
  {
    if a == 0 {
      assert c[a..] == c;
    } else if |c| >= 2 {
      ClosingSkips(c[1..], a - 1);
      assert c[1..][a - 1..] == c[a..];
    }
  }

  lemma {:induction false} LacksConcat(a: string, b: string, ch: char)
    requires Lacks(a, ch) && Lacks(b, ch)
    ensures Lacks(a + b, ch)
  {
    forall y | 0 <= y < |a + b| ensures (a + b)[y] != ch {
      if y >= |a| {
        assert (a + b)[y] == b[y - |a|];
      }
    }
  }

  /** A text that starts with a space and has no line break before its last character holds no column-0 assignment. */
  lemma {:induction false} IndentedLineKept(t: string, name: string, r: string)
    requires t != [] && t[0] == ' ' && name != [] && name[0] != ' '
    requires forall i :: 0 <= i < |t| - 1 ==> t[i] != '\n'
    ensures SubAll(Assign(name), r, t) == t
  {
    forall i | 0 <= i < |t| && AtLineStart(t, i) ensures !StartsWith(t[i..], name) {
      if i > 0 {
        assert false;
      }
      assert t[i..][0] == ' ';
    }
    NoColumnZeroName(name, r, t);
  }

  /** A written line and its newline are no match for a pass over another variable. */
  lemma {:induction false} OtherLineKept(name: string, other: string, v: string, r: string)
    requires IsPlainName(name) && IsPlainName(other) && name != other && IsValueText(v)
    ensures SubAll(Assign(name), r, Assignment(other, v) + "\n") == Assignment(other, v) + "\n"
  {
    var w := Assignment(other, v);
    var u := w + "\n";
    AssignmentIsOneLine(other, v);
    forall k | 0 <= k < |u| ensures MatchAt(Assign(name), u, k).None? {
      if k == 0 {
        OtherAssignmentNoMatch(name, other, v, "\n");
        assert u[0..] == u;
      } else {
        assert u[k - 1] == w[k - 1];
      }
    }
    SubAllNoMatch(Assign(name), r, u);
  }

  // Steps of DatabaseTailRewritten

  lemma {:induction false} DatabaseLineMatch()
    ensures BaseLen("BASE = Path('/d')\n") == Some(17)
  {
    var s := "BASE = Path('/d')\n";
    assert s[..12] == "BASE = Path(" && s[12] == '\'';
    assert s[13..] == "/d')\n";
    OpensAfterPrefix(s);
    DatabasePathCloses(s[13..]);
  }

  lemma {:induction false} DatabasePathCloses(c: string)
    requires c == "/d')\n"
    ensures ClosingLen(c) == Some(4)
  {
    ClosingSkips(c, 2);
    assert c[2..] == "')\n";
  }

  lemma {:induction false} DatabaseMatches(t: string)
    requires t == "DATABASE = Path('/d')\n"
    ensures NoMatchIn(BasePath, t, 0, 4) && MatchAt(BasePath, t, 4) == Some(21) && NoMatchIn(BasePath, t, 21, |t|)
    ensures t[..4] == "DATA" && t[21..] == "\n"
  {
    DatabaseShape(t);
    NoBaseBetween(t, 0, 4);
    NoBaseBetween(t, 21, |t|);
    DatabaseLineMatch();
    BaseMatchAt(t, 4);
  }

  lemma {:induction false} DatabaseShape(t: string)
    requires t == "DATABASE = Path('/d')\n"
    ensures |t| == 22 && t[..4] == "DATA" && t[21..] == "\n" && t[4..] == "BASE = Path('/d')\n"
    ensures forall k :: 0 <= k < 4 ==> t[k] != 'B'
    ensures forall k :: 21 <= k < |t| ==> t[k] != 'B'
  {
  }

  // Steps of LazyClosingKeepsTail

  lemma {:induction false} LazyClosingMatch(t: string)
    requires t == "BASE = Path(\"a') + Path('b')"
    ensures MatchAt(BasePath, t, 0) == Some(16) && NoMatchIn(BasePath, t, 16, |t|) && t[16..] == " + Path('b')"
  {
    LazyLineMatch(t);
    BaseMatchAt(t, 0);
    assert t[0..] == t;
    LazyTail(t);
    NoBaseWithoutB(t, 16);
  }

  lemma {:induction false} LazyTail(t: string)
    requires t == "BASE = Path(\"a') + Path('b')"
    ensures t[16..] == " + Path('b')" && Lacks(t[16..], 'B')
  {
  }

  lemma {:induction false} LazyLineMatch(s: string)
    requires s == "BASE = Path(\"a') + Path('b')"
    ensures BaseLen(s) == Some(16)
  {
    assert s[..12] == "BASE = Path(" && s[12] == '"';
    assert s[13..] == "a') + Path('b')";
    OpensAfterPrefix(s);
    LazyPathCloses(s[13..]);
  }

  lemma {:induction false} LazyPathCloses(c: string)
    requires c == "a') + Path('b')"
    ensures ClosingLen(c) == Some(3)
  {
    ClosingSkips(c, 1);
    assert c[1..] == "') + Path('b')";
  }

  // Steps of EmptyValueSwallowsNextLine

  lemma {:induction false} SwallowMatch(t: string)
    requires t == "MAX_VIDEOS =\n\nX = 1\nY"
    ensures MatchAt(Assign("MAX_VIDEOS"), t, 0) == Some(19)
  {
    SwallowLine(t);
    AssignLineMatch("MAX_VIDEOS", t, 0, 11, 14, 19);
  }

  lemma {:induction false} SwallowLine(t: string)
    requires t == "MAX_VIDEOS =\n\nX = 1\nY"
    ensures 19 < |t| && forall x :: 0 <= x < 10 ==> t[x] == "MAX_VIDEOS"[x]
    ensures AllSpace(t, 10, 11) && t[11] == '=' && AllSpace(t, 12, 14) && !IsSpace(t[14])
    ensures NoNewline(t, 14, 19) && t[19] == '\n'
  {
  }

  // Steps of LaterPassSwallowsWrittenLine

  lemma {:induction false} SwallowSourceShape(src: string)
    requires src == "SKIP_EXISTING =\nMAX_VIDEOS = 3"
    ensures |src| == 30 && (forall k :: 0 <= k < 30 ==> src[k] != 'B') && src[0] == 'S'
    ensures (forall k :: 0 <= k < 15 ==> src[k] != '\n') && src[15] == '\n'
    ensures (forall x :: 0 <= x < 13 ==> src[x] == "SKIP_EXISTING"[x]) && src[13] == ' ' && src[14] == '='
    ensures (forall x :: 0 <= x < 10 ==> src[16 + x] == "MAX_VIDEOS"[x])
    ensures AllSpace(src, 26, 27) && src[27] == '=' && AllSpace(src, 28, 29) && !IsSpace(src[29]) && NoNewline(src, 29, 30)
  {
  }

  /** The `MAX_VIDEOS` pass rewrites the second line of the source. */
  lemma {:induction false} VideosLineWritten(src: string, maxVideos: Option<int>)
    requires |src| == 30 && src[0] == 'S' && (forall k :: 0 <= k < 15 ==> src[k] != '\n') && src[15] == '\n'
    requires (forall x :: 0 <= x < 10 ==> src[16 + x] == "MAX_VIDEOS"[x])
    requires AllSpace(src, 26, 27) && src[27] == '=' && AllSpace(src, 28, 29) && !IsSpace(src[29]) && NoNewline(src, 29, 30)
    ensures ReplaceIntOrNone(src, "MAX_VIDEOS", maxVideos) == src[..16] + Assignment("MAX_VIDEOS", IntOrNone(maxVideos))
  {
    var p := Assign("MAX_VIDEOS");
    var r := Assignment("MAX_VIDEOS", IntOrNone(maxVideos));
    AssignLineMatch("MAX_VIDEOS", src, 16, 27, 29, 30);
    NoAssignAtOtherLetter("MAX_VIDEOS", src, 0);
    NoAssignOffLineStart("MAX_VIDEOS", src, 1, 16);
    assert NoMatchIn(p, src, 0, 16);
    SubAllOneMatch(p, r, src, 16, 30);
    assert src[..16] + r + src[30..] == src[..16] + r;
  }

  /** A first line that is no assignment of `name`, then a written line of another variable: the pass for `name` changes nothing. */
  lemma {:induction false} HeadThenWrittenLineKept(name: string, h: string, other: string, v: string, r: string)
    requires IsPlainName(name) && IsPlainName(other) && name != other && IsValueText(v)
    requires |h| >= 1 && h[|h| - 1] == '\n' && (forall k :: 0 <= k < |h| - 1 ==> h[k] != '\n') && h[0] != name[0]
    ensures SubAll(Assign(name), r, h + Assignment(other, v)) == h + Assignment(other, v)
  {
    var w := Assignment(other, v);
    var t := h + w;
    AssignmentIsOneLine(other, v);
    NoAssignAtOtherLetter(name, t, 0);
    if |h| > 1 {
      NoAssignOffLineStart(name, t, 1, |h|);
    }
    OtherAssignmentNoMatch(name, other, v, []);
    AssignMatchAt(name, t, |h|);
    assert t[|h|..] == w + [];
    forall k | |h| < k < |t| ensures MatchAt(Assign(name), t, k).None? {
      assert t[k - 1] == w[k - 1 - |h|];
    }
    assert NoMatchIn(Assign(name), t, 0, |t|);
    SubAllNoMatch(Assign(name), r, t);
  }

  /** `SKIP_EXISTING =` with nothing after it on its line: `\s*` runs over the break and `.*` takes the whole next line. */
  lemma {:induction false} EmptySkipSwallows(h: string, v: string, sk: bool)
    requires |h| == 16 && (forall x :: 0 <= x < 13 ==> h[x] == "SKIP_EXISTING"[x]) && h[13] == ' ' && h[14] == '=' && h[15] == '\n'
    requires IsValueText(v)
    ensures SubAll(Assign("SKIP_EXISTING"), Assignment("SKIP_EXISTING", BoolText(sk)), h + Assignment("MAX_VIDEOS", v))
      == Assignment("SKIP_EXISTING", BoolText(sk))
  {
    var p := Assign("SKIP_EXISTING");
    var r := Assignment("SKIP_EXISTING", BoolText(sk));
    var w := Assignment("MAX_VIDEOS", v);
    var t := h + w;
    NamesArePlain();
    AssignmentIsOneLine("MAX_VIDEOS", v);
    assert w[0] == 'M';
    assert NoNewline(t, 16, |t|) by {
      forall k | 16 <= k < |t| ensures t[k] != '\n' {
        assert t[k] == w[k - 16];
      }
    }
    AssignLineMatch("SKIP_EXISTING", t, 0, 14, 16, |t|);
    assert NoMatchIn(p, t, 0, 0) && NoMatchIn(p, t, |t|, |t|);
    SubAllOneMatch(p, r, t, 0, |t|);
    assert t[..0] + r + t[|t|..] == r;
  }

  // Steps of EveryAssignmentRewritten

  lemma {:induction false} EveryMatches(t: string)
    requires t == "MAX_VIDEOS = 1\nMAX_VIDEOS=2"
    ensures MatchAt(Assign("MAX_VIDEOS"), t, 0) == Some(14)
    ensures MatchAt(Assign("MAX_VIDEOS"), t, 14).None?
    ensures MatchAt(Assign("MAX_VIDEOS"), t, 15) == Some(27)
  {
    EveryFirstLine(t);
    AssignLineMatch("MAX_VIDEOS", t, 0, 11, 13, 14);
    EverySecondLine(t);
    AssignLineMatch("MAX_VIDEOS", t, 15, 25, 26, 27);
  }

  lemma {:induction false} EveryFirstLine(t: string)
    requires t == "MAX_VIDEOS = 1\nMAX_VIDEOS=2"
    ensures 14 < |t| && forall x :: 0 <= x < 10 ==> t[x] == "MAX_VIDEOS"[x]
    ensures AllSpace(t, 10, 11) && t[11] == '=' && AllSpace(t, 12, 13) && !IsSpace(t[13])
    ensures NoNewline(t, 13, 14) && t[14] == '\n' && t[13] != '\n'
  {
  }

  lemma {:induction false} EverySecondLine(t: string)
    requires t == "MAX_VIDEOS = 1\nMAX_VIDEOS=2"
    ensures |t| == 27 && AtLineStart(t, 15) && forall x :: 0 <= x < 10 ==> t[15 + x] == "MAX_VIDEOS"[x]
    ensures AllSpace(t, 25, 25) && t[25] == '=' && AllSpace(t, 26, 26) && !IsSpace(t[26]) && NoNewline(t, 26, 27)
  {
  }

  // Steps of PatchNotIdempotent

  lemma {:induction false} HeadOneLine(head: string)
    requires head == "BASE = Path(\"a"
    ensures Lacks(head, '\n') && head[0] == 'B'
  {
  }

  lemma {:induction false} WrittenLineOneLine(r: string)
    requires r == BaseAssignment("/p")
    ensures Lacks(r, '\n') && r[0] == 'B'
  {
    assert r == "BASE = Path(r\"/p\")";
  }

  lemma {:induction false} FirstPassRewritesSecond(t: string, r: string)
    requires t == "BASE = Path(\"aBASE\n= Path(\"x\")"
    ensures SubAll(BasePath, r, t) == t[..14] + r
  {
    FirstPassMatches(t);
    SubAllOneMatch(BasePath, r, t, 14, 30);
    assert t[30..] == [];
  }

  lemma {:induction false} FirstPassMatches(t: string)
    requires t == "BASE = Path(\"aBASE\n= Path(\"x\")"
    ensures NoMatchIn(BasePath, t, 0, 14) && MatchAt(BasePath, t, 14) == Some(30) && |t| == 30
  {
    FirstPassShape(t);
    UnclosedLineNoMatch(t);
    BaseMatchAt(t, 0);
    assert t[0..] == t;
    NoBaseBetween(t, 1, 14);
    SecondBaseMatch(t[14..]);
    BaseMatchAt(t, 14);
  }

  lemma {:induction false} FirstPassShape(t: string)
    requires t == "BASE = Path(\"aBASE\n= Path(\"x\")"
    ensures |t| == 30 && t[14..] == "BASE\n= Path(\"x\")"
    ensures forall k :: 1 <= k < 14 ==> t[k] != 'B'
  {
  }

  lemma {:induction false} UnclosedLineNoMatch(s: string)
    requires s == "BASE = Path(\"aBASE\n= Path(\"x\")"
    ensures BaseLen(s).None?
  {
    assert s[13..] == "aBASE\n= Path(\"x\")";
    UnclosedRest(s[13..]);
    assert s[..12] == "BASE = Path(" && s[12] == '"';
    OpensAfterPrefix(s);
  }

  lemma {:induction false} UnclosedRest(c: string)
    requires c == "aBASE\n= Path(\"x\")"
    ensures ClosingLen(c).None?
  {
    UnclosedShape(c);
    ClosingSkips(c, 5);
  }

  lemma {:induction false} UnclosedShape(c: string)
    requires c == "aBASE\n= Path(\"x\")"
    ensures forall y :: 0 <= y < 5 ==> c[y] != '\n' && !IsQuote(c[y])
    ensures c[5..] == "\n= Path(\"x\")"
  {
  }

  lemma {:induction false} SecondBaseMatch(s: string)
    requires s == "BASE\n= Path(\"x\")"
    ensures BaseLen(s) == Some(16)
  {
    SecondBaseShape(s);
    BaseLenAtRuns(s, 5, 7);
    ClosingAfterOne(s[13..]);
  }

  lemma {:induction false} SecondBaseShape(s: string)
    requires s == "BASE\n= Path(\"x\")"
    ensures |s| == 16 && StartsWith(s, "BASE") && AllSpace(s, 4, 5) && s[5] == '=' && AllSpace(s, 6, 7)
    ensures s[7..12] == "Path(" && s[12] == '"' && s[13] == 'x' && s[14] == '"' && s[15] == ')'
  {
  }

  /** One plain character, then a quote and `)`: the lazy scan closes after three characters. */
  lemma {:induction false} ClosingAfterOne(c: string)
    requires |c| == 3 && c[0] != '\n' && !IsQuote(c[0]) && IsQuote(c[1]) && c[2] == ')'
    ensures ClosingLen(c) == Some(3)
  {
    assert c[1..][0] == c[1] && c[1..][1] == c[2];
  }

  lemma {:induction false} SecondPassRewritesAll(once: string, r: string)
    requires r == BaseAssignment("/p") && once == "BASE = Path(\"a" + r
    ensures SubAll(BasePath, r, once) == r
  {
    OnceSpelledOut(once, r);
    RewrittenLineMatch(once);
    BaseMatchAt(once, 0);
    assert once[0..] == once;
    assert NoMatchIn(BasePath, once, 0, 0) && NoMatchIn(BasePath, once, |once|, |once|);
    SubAllOneMatch(BasePath, r, once, 0, |once|);
    assert once[..0] + r == r && once[|once|..] == [];
  }

  lemma {:induction false} OnceSpelledOut(once: string, r: string)
    requires r == BaseAssignment("/p") && once == "BASE = Path(\"a" + r
    ensures once == "BASE = Path(\"aBASE = Path(r\"/p\")"
  {
  }

  lemma {:induction false} RewrittenLineMatch(s: string)
    requires s == "BASE = Path(\"aBASE = Path(r\"/p\")"
    ensures BaseLen(s) == Some(|s|)
  {
    RewrittenShape(s);
    RewrittenRest(s[13..]);
    OpensAfterPrefix(s);
  }

  lemma {:induction false} RewrittenShape(s: string)
    requires s == "BASE = Path(\"aBASE = Path(r\"/p\")"
    ensures |s| == 32 && s[..12] == "BASE = Path(" && s[12] == '"' && s[13..] == "aBASE = Path(r\"/p\")"
  {
  }

  lemma {:induction false} RewrittenRest(c: string)
    requires c == "aBASE = Path(r\"/p\")"
    ensures ClosingLen(c) == Some(|c|)
  {
    ClosingSkips(c, 14);
    assert c[14..] == "\"/p\")";
    RewrittenQuote(c[14..]);
  }

  lemma {:induction false} RewrittenQuote(d: string)
    requires d == "\"/p\")"
    ensures ClosingLen(d) == Some(5)
  {
    assert ClosingLen(d) == match ClosingLen(d[1..]) case None => None case Some(n) => Some(n + 1);
    ClosingSkips(d[1..], 2);
    assert d[1..][2..] == "\")";
  }

  /** The three anchored passes leave a one-line text that starts with `B` as it is. */
  lemma {:induction false} AnchoredPassesKeep(u: string, mv: Option<int>, mi: Option<int>, sk: bool)
    requires u != [] && u[0] == 'B' && Lacks(u, '\n')
    ensures ReplaceIntOrNone(u, "MAX_VIDEOS", mv) == u
    ensures ReplaceIntOrNone(u, "MAX_IMAGES_TOTAL", mi) == u
    ensures SubAll(Assign("SKIP_EXISTING"), Assignment("SKIP_EXISTING", BoolText(sk)), u) == u
  {
    forall i | 0 <= i < |u| && AtLineStart(u, i)
      ensures u[i..][0] == 'B'
    {
    }
    NoColumnZeroName("MAX_VIDEOS", Assignment("MAX_VIDEOS", IntOrNone(mv)), u);
    NoColumnZeroName("MAX_IMAGES_TOTAL", Assignment("MAX_IMAGES_TOTAL", IntOrNone(mi)), u);
    NoColumnZeroName("SKIP_EXISTING", Assignment("SKIP_EXISTING", BoolText(sk)), u);
  }

  // Steps of JsonLayoutMissesAssignment

  lemma {:induction false} JsonLineUnpatched(t: string, resolvedBase: string, maxVideos: Option<int>,
                          maxImagesTotal: Option<int>, skipExisting: bool)
    requires t == "    \"MAX_VIDEOS = 5\\n\",\n"
    ensures PatchNotebookSource(t, resolvedBase, maxVideos, maxImagesTotal, skipExisting) == t
  {
    JsonLineShape(t);
    NoBaseWithoutB(t, 0);
    SubAllNoMatch(BasePath, BaseAssignment(resolvedBase), t);
    IndentedLineKept(t, "MAX_VIDEOS", Assignment("MAX_VIDEOS", IntOrNone(maxVideos)));
    IndentedLineKept(t, "MAX_IMAGES_TOTAL", Assignment("MAX_IMAGES_TOTAL", IntOrNone(maxImagesTotal)));
    IndentedLineKept(t, "SKIP_EXISTING", Assignment("SKIP_EXISTING", BoolText(skipExisting)));
  }

  lemma {:induction false} JsonLineShape(t: string)
    requires t == "    \"MAX_VIDEOS = 5\\n\",\n"
    ensures t[0] == ' ' && Lacks(t[0..], 'B')
    ensures forall i :: 0 <= i < |t| - 1 ==> t[i] != '\n'
  {
    assert t[0..] == t;
  }

  lemma {:induction false} CellSourcePatched(src: string, resolvedBase: string, maxVideos: Option<int>,
                          maxImagesTotal: Option<int>, skipExisting: bool)
    requires src == "MAX_VIDEOS = 5\n"
    ensures PatchNotebookSource(src, resolvedBase, maxVideos, maxImagesTotal, skipExisting)
      == Assignment("MAX_VIDEOS", IntOrNone(maxVideos)) + "\n"
  {
    assert src[0..] == src;
    NoBaseWithoutB(src, 0);
    SubAllNoMatch(BasePath, BaseAssignment(resolvedBase), src);
    CellLineRewritten(src, maxVideos);
    NamesArePlain();
    IntOrNoneIsValueText(maxVideos);
    OtherLineKept("MAX_IMAGES_TOTAL", "MAX_VIDEOS", IntOrNone(maxVideos),
                  Assignment("MAX_IMAGES_TOTAL", IntOrNone(maxImagesTotal)));
    OtherLineKept("SKIP_EXISTING", "MAX_VIDEOS", IntOrNone(maxVideos),
                  Assignment("SKIP_EXISTING", BoolText(skipExisting)));
  }

  lemma {:induction false} CellLineRewritten(src: string, val: Option<int>)
    requires src == "MAX_VIDEOS = 5\n"
    ensures ReplaceIntOrNone(src, "MAX_VIDEOS", val) == Assignment("MAX_VIDEOS", IntOrNone(val)) + "\n"
  {
    var p := Assign("MAX_VIDEOS");
    var r := Assignment("MAX_VIDEOS", IntOrNone(val));
    CellLine(src);
    AssignLineMatch("MAX_VIDEOS", src, 0, 11, 13, 14);
    assert NoMatchIn(p, src, 0, 0) && NoMatchIn(p, src, 14, |src|);
    SubAllOneMatch(p, r, src, 0, 14);
    assert src[..0] + r == r;
  }

  lemma {:induction false} CellLine(src: string)
    requires src == "MAX_VIDEOS = 5\n"
    ensures |src| == 15 && forall x :: 0 <= x < 10 ==> src[x] == "MAX_VIDEOS"[x]
    ensures AllSpace(src, 10, 11) && src[11] == '=' && AllSpace(src, 12, 13) && !IsSpace(src[13])
    ensures NoNewline(src, 13, 14) && src[14] == '\n' && src[13] != '\n' && src[14..] == "\n"
  {
  }

  // Steps of JsonLayoutMissesBase

  /** A `BASE = Path(` whose next character is no quote is no match. */
  lemma {:induction false} UnquotedPathNoMatch(t: string, c: nat)
    requires c <= |t| && |t[c..]| >= 13 && t[c..][..12] == "BASE = Path(" && !IsQuote(t[c..][12])
    ensures MatchAt(BasePath, t, c).None?
  {
    OpensAfterPrefix(t[c..]);
    BaseMatchAt(t, c);
  }

  /** When the only `B` of `t` stands at `c` and no match starts there, no match starts anywhere. */
  lemma {:induction false} OnlyCandidateNoMatch(t: string, c: nat)
    requires c < |t| && MatchAt(BasePath, t, c).None?
    requires forall k :: 0 <= k < |t| && k != c ==> t[k] != 'B'
    ensures NoMatchIn(BasePath, t, 0, |t|)
  {
    forall k | 0 <= k < |t| && k != c ensures MatchAt(BasePath, t, k).None? {
      NoBaseAtOtherLetter(t, k);
    }
  }

  lemma {:induction false} JsonBaseLetters(t: string)
    requires t == "    \"BASE = Path(\\\"/c\\\")\\n\",\n"
    ensures forall k :: 0 <= k < |t| && k != 5 ==> t[k] != 'B'
  {
  }

  lemma {:induction false} JsonBaseOpening(t: string)
    requires t == "    \"BASE = Path(\\\"/c\\\")\\n\",\n"
    ensures |t[5..]| >= 13 && t[5..][..12] == "BASE = Path(" && t[5..][12] == '\\'
  {
  }
}
