/**
 * The two regular-expression shapes of the notebook patcher, each as a
 * deterministic matcher, together with a declarative description of the
 * strings the regular expression accepts and a proof that the matcher returns
 * the match Python's backtracking engine returns:
 *
 *   BASE\s*=\s*Path\(["'].*?["']\)     (unanchored; lazy: the SHORTEST match)
 *   ^NAME\s*=\s*.*$   with re.M         (anchored at a line start; greedy: the LONGEST match)
 *
 * Neither pattern can match the empty string, so every match makes progress.
 */
module Patterns {
  import opened Results
  import opened Text

  datatype Pattern =
    | BasePath              // the `BASE = Path("...")` pattern
    | Assign(name: string)  // the `^name = ...` pattern

  // ---------------------------------------------------------------------
  // ^name\s*=\s*.*$
  // ---------------------------------------------------------------------

  /** `s[..e]` read as: name, `\s*` up to `j`, `=` at `j`, `\s*` up to `k`, `.*` up to `e`, and `$` holds at `e`. */
  ghost predicate AssignSplit(name: string, s: string, j: int, k: int, e: int)
  {
    StartsWith(s, name) && AllSpace(s, |name|, j) && j < |s| && s[j] == '='
    && AllSpace(s, j + 1, k) && NoNewline(s, k, e) && (e == |s| || s[e] == '\n')
  }

  /** `s[..e]` is a string the anchored assignment pattern accepts. */
  ghost predicate AssignSpan(name: string, s: string, e: int)
  {
    exists j, k :: AssignSplit(name, s, j, k, e)
  }

  /** Length of the match of `name\s*=\s*.*$` at the start of `s`, if any. */
  function AssignLen(name: string, s: string): (r: Option<nat>)
    ensures r.Some? ==> |name| < r.value <= |s|
    ensures r.Some? && r.value < |s| ==> s[r.value] == '\n' && s[r.value - 1] != '\n'
  {
    if !StartsWith(s, name) then None
    else
      var j := SkipSpaces(s, |name|);
      if j < |s| && s[j] == '=' then Some(LineEnd(s, SkipSpaces(s, j + 1))) else None
  }

  /**
   * The matcher agrees with the regular expression: it finds a match exactly
   * when the pattern accepts some prefix of `s`, and the one it finds is the
   * longest such prefix (both `\s*` and `.*` are greedy, and `$` under re.M
   * accepts only the end of the text or a position before a newline).
   */
  lemma {:induction false} AssignLenIsLongestMatch(name: string, s: string)
    ensures match AssignLen(name, s)
      case None => forall e :: !AssignSpan(name, s, e)
      case Some(n) => AssignSpan(name, s, n) && forall e :: AssignSpan(name, s, e) ==> e <= n
  {
    if StartsWith(s, name) {
      var j := SkipSpaces(s, |name|);
      forall e, j', k' | AssignSplit(name, s, j', k', e)
        ensures j' == j && e <= LineEnd(s, SkipSpaces(s, j + 1))
      {
        SkipSpacesIsLongest(s, |name|, j');
        SkipSpacesIsLongest(s, j + 1, k');
      }
      if j < |s| && s[j] == '=' {
        var k := SkipSpaces(s, j + 1);
        assert AssignSplit(name, s, j, k, LineEnd(s, k));
      }
    }
  }

  // ---------------------------------------------------------------------
  // BASE\s*=\s*Path\(["'].*?["']\)
  // ---------------------------------------------------------------------

  /** `s[..c]` is what `.*?["']\)` can consume: no newline, then a quote and `)`. */
  ghost predicate Closes(s: string, c: int)
  {
    2 <= c <= |s| && NoNewline(s, 0, c - 2) && IsQuote(s[c - 2]) && s[c - 1] == ')'
  }

  /**
   * What the lazy `.*?["']\)` consumes at the start of `s`: up to and including
   * the first quote that is directly followed by `)`, provided no newline comes first.
   */
  function ClosingLen(s: string): (r: Option<nat>)
    ensures match r
      case None => forall c :: !Closes(s, c)
      case Some(c) => Closes(s, c) && forall c' :: Closes(s, c') ==> c <= c'
    decreases |s|
  {
    if |s| < 2 then None
    else if IsQuote(s[0]) && s[1] == ')' then Some(2)
    else if s[0] == '\n' then None
    else
      ClosesAfterFirst(s);
      match ClosingLen(s[1..])
      case None => None
      case Some(c) => Some(c + 1)
  }

  /** Dropping a first character that is no newline shifts every way to close by one. */
  lemma {:induction false} ClosesAfterFirst(s: string)
    requires |s| >= 2 && s[0] != '\n' && !(IsQuote(s[0]) && s[1] == ')')
    ensures forall c :: Closes(s, c) <==> c >= 3 && Closes(s[1..], c - 1)
  {
    forall c ensures Closes(s, c) <==> c >= 3 && Closes(s[1..], c - 1) {
      if c >= 3 && c <= |s| {
        assert NoNewline(s, 0, c - 2) <==> NoNewline(s[1..], 0, c - 3) by {
          if NoNewline(s[1..], 0, c - 3) {
            forall i | 0 <= i < c - 2 ensures s[i] != '\n' {
              if i > 0 { assert s[i] == s[1..][i - 1]; }
            }
          }
        }
      }
    }
  }

  /** `s[..e]` read as: `BASE`, `\s*` up to `j`, `=`, `\s*` up to `k`, `Path(`, a quote, then what `Closes` accepts. */
  ghost predicate BaseSplit(s: string, j: int, k: int, e: int)
  {
    StartsWith(s, "BASE") && AllSpace(s, 4, j) && j < |s| && s[j] == '='
    && AllSpace(s, j + 1, k) && k + 6 <= |s| && s[k..k + 5] == "Path(" && IsQuote(s[k + 5])
    && k + 6 <= e && Closes(s[k + 6..], e - k - 6)
  }

  /** `s[..e]` is a string the `BASE` pattern accepts. */
  ghost predicate BaseSpan(s: string, e: int)
  {
    exists j, k :: BaseSplit(s, j, k, e)
  }

  /** Length of the match of the `BASE` pattern at the start of `s`, if any. */
  function BaseLen(s: string): (r: Option<nat>)
    ensures r.Some? ==> 13 <= r.value <= |s|
  {
    if !StartsWith(s, "BASE") then None
    else
      var j := SkipSpaces(s, 4);
      if !(j < |s| && s[j] == '=') then None
      else
        var k := SkipSpaces(s, j + 1);
        if !(k + 6 <= |s| && s[k..k + 5] == "Path(" && IsQuote(s[k + 5])) then None
        else
          match ClosingLen(s[k + 6..])
          case None => None
          case Some(c) => Some(k + 6 + c)
  }

  /**
   * The matcher agrees with the regular expression: it finds a match exactly
   * when the pattern accepts some prefix of `s`, and the one it finds is the
   * shortest such prefix (the `.*?` is lazy; the two `\s*` have only one
   * possible extent, since `=` and `P` are not whitespace).
   */
  lemma {:induction false} BaseLenIsShortestMatch(s: string)
    ensures match BaseLen(s)
      case None => forall e :: !BaseSpan(s, e)
      case Some(n) => BaseSpan(s, n) && forall e :: BaseSpan(s, e) ==> n <= e
  {
    forall e, j, k | BaseSplit(s, j, k, e)
      ensures BaseLen(s).Some? && BaseLen(s).value <= e
    {
      BaseSplitBoundsLen(s, j, k, e);
    }
    if BaseLen(s).Some? {
      BaseLenSplits(s);
    }
  }

  /** Every way to read a prefix of `s` as the pattern has the matcher succeed, with no longer a match. */
  lemma {:induction false} BaseSplitBoundsLen(s: string, j: int, k: int, e: int)
    requires BaseSplit(s, j, k, e)
    ensures BaseLen(s).Some? && BaseLen(s).value <= e
  {
    SkipSpacesStopsAt(s, 4, j);
    SliceHead(s, k, k + 5);
    SkipSpacesStopsAt(s, j + 1, k);
    BaseSplitAtRuns(s, j, k, e);
  }

  /** A reading of the pattern whose `\s*` runs are the longest ones bounds the matcher's result. */
  lemma {:induction false} BaseSplitAtRuns(s: string, j: int, k: int, e: int)
    requires BaseSplit(s, j, k, e)
    requires j == SkipSpaces(s, 4) && k == SkipSpaces(s, j + 1)
    ensures BaseLen(s).Some? && BaseLen(s).value <= e
  {
    assert Closes(s[k + 6..], e - k - 6);
  }

  /** With both `\s*` runs given, the match hangs on the lazy scan after the opening quote. */
  lemma {:induction false} BaseLenAtRuns(s: string, j: int, k: int)
    requires StartsWith(s, "BASE") && AllSpace(s, 4, j) && j < |s| && s[j] == '=' && AllSpace(s, j + 1, k)
    requires k + 6 <= |s| && s[k..k + 5] == "Path(" && IsQuote(s[k + 5])
    ensures BaseLen(s) == match ClosingLen(s[k + 6..]) case None => None case Some(c) => Some(k + 6 + c)
  {
    SkipSpacesStopsAt(s, 4, j);
    SliceHead(s, k, k + 5);
    SkipSpacesStopsAt(s, j + 1, k);
    BaseLenAtPath(s, j, k);
  }

  /** `BaseLen` unfolded once its two `\s*` runs are known. */
  lemma {:induction false} BaseLenAtPath(s: string, j: nat, k: nat)
    requires StartsWith(s, "BASE") && j == SkipSpaces(s, 4) && j < |s| && s[j] == '='
    requires k == SkipSpaces(s, j + 1) && k + 6 <= |s| && s[k..k + 5] == "Path(" && IsQuote(s[k + 5])
    ensures BaseLen(s) == match ClosingLen(s[k + 6..]) case None => None case Some(c) => Some(k + 6 + c)
  {
    var t := s[k + 6..];
    if ClosingLen(t).Some? {
      assert BaseLen(s) == Some(k + 6 + ClosingLen(t).value);
    }
  }

  /** The matcher's result is itself a reading of the pattern, with the `\s*` runs as long as they go. */
  lemma {:induction false} BaseLenSplits(s: string)
    requires BaseLen(s).Some?
    ensures BaseSplit(s, SkipSpaces(s, 4), SkipSpaces(s, SkipSpaces(s, 4) + 1), BaseLen(s).value)
  {
    var j := SkipSpaces(s, 4);
    var k := SkipSpaces(s, j + 1);
    var c := ClosingLen(s[k + 6..]).value;
    assert BaseLen(s).value == k + 6 + c;
    assert Closes(s[k + 6..], c);
  }

  // ---------------------------------------------------------------------
  // Matching inside a whole text, as `re.sub` tries it position by position
  // ---------------------------------------------------------------------

  /** Length of the match of `p` at the start of `s` (ignoring the line-start anchor). */
  function MatchLen(p: Pattern, s: string): (r: Option<nat>)
    ensures r.Some? ==> 0 < r.value <= |s|
  {
    match p
    case BasePath => BaseLen(s)
    case Assign(name) => AssignLen(name, s)
  }

  /** Where `^` matches under re.M: the start of the text, or just after a newline. */
  predicate AtLineStart(t: string, i: int)
  {
    i == 0 || (0 < i <= |t| && t[i - 1] == '\n')
  }

  /** End of the match of `p` that starts at position `i` of `t`, if any. */
  function MatchAt(p: Pattern, t: string, i: nat): (r: Option<nat>)
    requires i <= |t|
    ensures r.Some? ==> i < r.value <= |t|
    ensures r.Some? && p.Assign? ==> AtLineStart(t, i) && StartsWith(t[i..], p.name)
  {
    if p.Assign? && !AtLineStart(t, i) then None
    else
      match MatchLen(p, t[i..])
      case None => None
      case Some(n) => Some(i + n)
  }

  /** The anchored pattern matches at a line start `i` exactly as far as `AssignLen` reaches from there. */
  lemma {:induction false} AssignMatchAt(name: string, t: string, i: nat)
    requires i <= |t| && AtLineStart(t, i)
    ensures MatchAt(Assign(name), t, i) == match AssignLen(name, t[i..]) case None => None case Some(n) => Some(i + n)
  {
  }

  /** The unanchored `BASE` pattern matches at `i` exactly as far as `BaseLen` reaches from there. */
  lemma {:induction false} BaseMatchAt(t: string, i: nat)
    requires i <= |t|
    ensures MatchAt(BasePath, t, i) == match BaseLen(t[i..]) case None => None case Some(n) => Some(i + n)
  {
  }
}
