/**
 * What `run_reliability_notebook` does around the notebook's execution: its
 * error conditions, the log fan-out (the captured output split with
 * `str.splitlines()`, each line sent to `on_log` with one `"\n"` appended,
 * once execution has finished) and the check for `base_dir/"reports"`.
 */
module Runner {
  import opened Results
  import opened Text
  import opened Paths
  import opened NotebookPatch

  // ---------------------------------------------------------------------
  // str.splitlines()
  // ---------------------------------------------------------------------

  /** The characters at which `str.splitlines()` ends a line. */
  predicate IsLineBoundary(c: char)
  {
    c == '\n' || c == '\r' || c == '\U{0B}' || c == '\U{0C}' || ('\U{1C}' <= c <= '\U{1E}')
    || c == '\U{85}' || c == '\U{2028}' || c == '\U{2029}'
  }

  predicate NoBoundary(s: string)
  {
    forall k :: 0 <= k < |s| ==> !IsLineBoundary(s[k])
  }

  /** Position of the first line boundary in `s`, or `|s|`. */
  function FirstBoundary(s: string): (k: nat)
    ensures k <= |s| && NoBoundary(s[..k]) && (k < |s| ==> IsLineBoundary(s[k]))
  {
    if s == [] || IsLineBoundary(s[0]) then 0
    else
      var k := FirstBoundary(s[1..]);
      assert s[..k + 1] == [s[0]] + s[1..][..k];
      k + 1
  }

  /** Length of the line break at position `k`: `\r\n` counts as one break of two characters. */
  function BreakWidth(s: string, k: nat): (w: nat)
    requires k < |s| && IsLineBoundary(s[k])
    ensures 1 <= w <= |s| - k
  {
    if s[k] == '\r' && k + 1 < |s| && s[k + 1] == '\n' then 2 else 1
  }

  /** `s.splitlines()`: the lines without their breaks; a final break does not start an empty line, and `""` has no lines. */
  function SplitLines(s: string): (lines: seq<string>)
    ensures forall i :: 0 <= i < |lines| ==> NoBoundary(lines[i])
    decreases |s|
  {
    if s == [] then []
    else
      var k := FirstBoundary(s);
      if k == |s| then [s] else [s[..k]] + SplitLines(s[k + BreakWidth(s, k)..])
  }

  /** What `on_log` receives, call by call: every line with one `"\n"` appended. */
  function LogMessages(captured: string): (msgs: seq<string>)
  {
    Terminated(SplitLines(captured))
  }

  /** Each line with one `"\n"` appended. */
  function Terminated(lines: seq<string>): (msgs: seq<string>)
  {
    seq(|lines|, i requires 0 <= i < |lines| => lines[i] + "\n")
  }

  lemma {:induction false} TerminatedCons(line: string, lines: seq<string>)
    ensures Terminated([line] + lines) == [line + "\n"] + Terminated(lines)
  {
    var a := Terminated([line] + lines);
    var b := [line + "\n"] + Terminated(lines);
    assert forall i :: 1 <= i < |a| ==> a[i] == lines[i - 1] + "\n" == b[i];
  }

  /** The loop `for line in buf.getvalue().splitlines(): on_log(line + "\n")`: the calls it makes, in order. */
  method ForwardLog(captured: string) returns (calls: seq<string>)
    ensures calls == LogMessages(captured)
  {
    var lines := SplitLines(captured);
    calls := [];
    var i := 0;
    while i < |lines|
      invariant 0 <= i <= |lines|
      invariant |calls| == i
      invariant forall j :: 0 <= j < i ==> calls[j] == lines[j] + "\n"
    {
      calls := calls + [lines[i] + "\n"];
      i := i + 1;
    }
  }

  /** Each call carries one line: it ends in `"\n"`, and holds no other line break. */
  lemma {:induction false} LogMessagesAreLines(captured: string)
    ensures |LogMessages(captured)| == |SplitLines(captured)|
    ensures forall i :: 0 <= i < |LogMessages(captured)| ==>
      var m := LogMessages(captured)[i];
      m != [] && m[|m| - 1] == '\n' && m[..|m| - 1] == SplitLines(captured)[i] && NoBoundary(m[..|m| - 1])
  {
  }

  // ---------------------------------------------------------------------
  // The log, read back as one text
  // ---------------------------------------------------------------------

  /** The messages one after another. */
  function Concat(msgs: seq<string>): (r: string)
  {
    if msgs == [] then [] else msgs[0] + Concat(msgs[1..])
  }

  /** `s` with each line break (`\r\n` as one) written as `"\n"`. */
  function NormalizeBreaks(s: string): (r: string)
    decreases |s|
  {
    if s == [] then []
    else if s[0] == '\r' && |s| >= 2 && s[1] == '\n' then "\n" + NormalizeBreaks(s[2..])
    else if IsLineBoundary(s[0]) then "\n" + NormalizeBreaks(s[1..])
    else [s[0]] + NormalizeBreaks(s[1..])
  }

  /** The text a reader of the log sees: the captured output with `"\n"` breaks, ending in a break unless it is empty. */
  function LogText(captured: string): (r: string)
  {
    NormalizeBreaks(captured) + FinalBreak(captured)
  }

  /** The `"\n"` the last call adds when the output does not end with a break. */
  function FinalBreak(s: string): (r: string)
  {
    if s != [] && !IsLineBoundary(s[|s| - 1]) then "\n" else ""
  }

  lemma {:induction false} NormalizeNoBoundary(s: string)
    requires NoBoundary(s)
    ensures NormalizeBreaks(s) == s
    decreases |s|
  {
    if s != [] {
      NormalizeNoBoundary(s[1..]);
      assert s == [s[0]] + s[1..];
    }
  }

  /** Text without a break, then a break, then the rest. */
  lemma {:induction false} NormalizeAtBreak(s: string, k: nat)
    requires k < |s| && NoBoundary(s[..k]) && IsLineBoundary(s[k])
    ensures NormalizeBreaks(s) == s[..k] + "\n" + NormalizeBreaks(s[k + BreakWidth(s, k)..])
  {
    TakeDrop(s, k);
    NormalizePrefix(s[..k], s[k..]);
    NormalizeBreakAt(s, k);
    AppendAssoc(s[..k], "\n", NormalizeBreaks(s[k + BreakWidth(s, k)..]));
  }

  /** From a break on, the output is `"\n"` and the output after the break. */
  lemma {:induction false} NormalizeBreakAt(s: string, k: nat)
    requires k < |s| && IsLineBoundary(s[k])
    ensures NormalizeBreaks(s[k..]) == "\n" + NormalizeBreaks(s[k + BreakWidth(s, k)..])
  {
    var b := s[k..];
    var w := BreakWidth(s, k);
    assert b[0] == s[k] && (1 < |b| <==> k + 1 < |s|) && (1 < |b| ==> b[1] == s[k + 1]);
    NormalizeBreakFirst(b, w);
    DropDrop(s, k, w);
  }

  /** Text without a break passes through unchanged in front of whatever follows. */
  lemma {:induction false} NormalizePrefix(p: string, b: string)
    requires NoBoundary(p)
    ensures NormalizeBreaks(p + b) == p + NormalizeBreaks(b)
    decreases |p|
  {
    if p == [] {
      assert p + b == b;
    } else {
      assert p[1..] == p[1..|p|];
      NoBoundarySlice(p, 1, |p|);
      NormalizePrefix(p[1..], b);
      NormalizeCopiesFirst(p + b);
      TailAppend(p, b);
      AppendAssoc([p[0]], p[1..], NormalizeBreaks(b));
    }
  }

  /** A first character that is no break is copied. */
  lemma {:induction false} NormalizeCopiesFirst(s: string)
    requires s != [] && !IsLineBoundary(s[0])
    ensures NormalizeBreaks(s) == [s[0]] + NormalizeBreaks(s[1..])
  {
  }

  /** A first break of width `w` becomes `"\n"`. */
  lemma {:induction false} NormalizeBreakFirst(b: string, w: nat)
    requires b != [] && IsLineBoundary(b[0])
    requires w == if b[0] == '\r' && 1 < |b| && b[1] == '\n' then 2 else 1
    ensures NormalizeBreaks(b) == "\n" + NormalizeBreaks(b[w..])
  {
  }

  lemma {:induction false} NoBoundarySlice(s: string, a: nat, b: nat)
    requires a <= b <= |s| && NoBoundary(s)
    ensures NoBoundary(s[a..b])
  {
    assert forall y :: 0 <= y < b - a ==> s[a..b][y] == s[a + y];
  }

  lemma {:induction false} ConcatCons(m: string, msgs: seq<string>)
    ensures Concat([m] + msgs) == m + Concat(msgs)
  {
    assert ([m] + msgs)[1..] == msgs;
  }

  /** At the first break, the calls are the first line's call followed by the calls for the rest. */
  lemma {:induction false} LogMessagesAtBreak(s: string)
    requires FirstBoundary(s) < |s|
    ensures var k := FirstBoundary(s);
      LogMessages(s) == [s[..k] + "\n"] + LogMessages(s[k + BreakWidth(s, k)..])
  {
    var k := FirstBoundary(s);
    var rest := s[k + BreakWidth(s, k)..];
    assert SplitLines(s) == [s[..k]] + SplitLines(rest);
    TerminatedCons(s[..k], SplitLines(rest));
  }

  /** Whether a final `"\n"` is added depends only on the last character, which the text after the first break shares. */
  lemma {:induction false} FinalBreakAfterFirst(s: string)
    requires FirstBoundary(s) < |s|
    ensures FinalBreak(s) == FinalBreak(s[FirstBoundary(s) + BreakWidth(s, FirstBoundary(s))..])
  {
    var k := FirstBoundary(s);
    var rest := s[k + BreakWidth(s, k)..];
    if rest != [] {
      assert s[|s| - 1] == rest[|rest| - 1];
    } else {
      assert IsLineBoundary(s[|s| - 1]);
    }
  }

  /** At the first break, the log text is the first line, `"\n"`, and the log text of the rest. */
  lemma {:induction false} LogTextAtBreak(s: string)
    requires FirstBoundary(s) < |s|
    ensures var k := FirstBoundary(s);
      LogText(s) == s[..k] + "\n" + LogText(s[k + BreakWidth(s, k)..])
  {
    var k := FirstBoundary(s);
    var rest := s[k + BreakWidth(s, k)..];
    NormalizeAtBreak(s, k);
    FinalBreakAfterFirst(s);
  }

  /**
   * Read back in order, the calls to `on_log` spell out the captured output:
   * every line break becomes `"\n"`, and a final `"\n"` is added when the
   * output did not end with a break. Nothing is lost, duplicated or reordered.
   */
  lemma {:induction false} LogCarriesOutput(captured: string)
    ensures Concat(LogMessages(captured)) == LogText(captured)
    decreases |captured|
  {
    var s := captured;
    if s != [] {
      var k := FirstBoundary(s);
      if k == |s| {
        LogOfOneLine(s);
      } else {
        LogCarriesOutput(s[k + BreakWidth(s, k)..]);
        LogBreakStep(s);
      }
    }
  }

  /** Output without a break is one call: the output and `"\n"`. */
  lemma {:induction false} LogOfOneLine(s: string)
    requires s != [] && FirstBoundary(s) == |s|
    ensures Concat(LogMessages(s)) == LogText(s)
  {
    assert s[..|s|] == s;
    NormalizeNoBoundary(s);
    assert SplitLines(s) == [s];
    TerminatedCons(s, []);
    assert LogMessages(s) == [s + "\n"];
    ConcatCons(s + "\n", []);
    assert !IsLineBoundary(s[|s| - 1]);
  }

  /** Inductive step of `LogCarriesOutput` at the first break. */
  lemma {:induction false} LogBreakStep(s: string)
    requires FirstBoundary(s) < |s|
    requires var rest := s[FirstBoundary(s) + BreakWidth(s, FirstBoundary(s))..];
      Concat(LogMessages(rest)) == LogText(rest)
    ensures Concat(LogMessages(s)) == LogText(s)
  {
    var k := FirstBoundary(s);
    var rest := s[k + BreakWidth(s, k)..];
    LogMessagesAtBreak(s);
    LogTextAtBreak(s);
    ConcatCons(s[..k] + "\n", LogMessages(rest));
  }

  /** For output whose only breaks are `"\n"` and that ends with one, the log is the output itself. */
  lemma {:induction false} LogOfPlainOutput(captured: string)
    requires forall k :: 0 <= k < |captured| && IsLineBoundary(captured[k]) ==> captured[k] == '\n'
    requires captured == [] || captured[|captured| - 1] == '\n'
    ensures Concat(LogMessages(captured)) == captured
  {
    LogCarriesOutput(captured);
    PlainNormalized(captured);
  }

  lemma {:induction false} PlainNormalized(s: string)
    requires forall k :: 0 <= k < |s| && IsLineBoundary(s[k]) ==> s[k] == '\n'
    ensures NormalizeBreaks(s) == s
    decreases |s|
  {
    if s != [] {
      PlainNormalized(s[1..]);
      assert s == [s[0]] + s[1..];
    }
  }

  // ---------------------------------------------------------------------
  // run_reliability_notebook
  // ---------------------------------------------------------------------

  /** `Path(base_dir) / "reports"`. */
  function ReportsDir(baseDir: Path): (r: Path)
  {
    Child(baseDir, "reports")
  }

  /** The reports directory lies directly below the base directory, under the name `reports`. */
  lemma {:induction false} ReportsDirBelowBase(baseDir: Path)
    ensures IsBelow(ReportsDir(baseDir), baseDir)
    ensures RelativeTo(ReportsDir(baseDir), baseDir) == Some(Path(false, ["reports"]))
  {
    assert ReportsDir(baseDir).parts[|baseDir.parts|..] == ["reports"];
  }

  /** Why a run raises. */
  datatype RunError =
    | NotebookNotFound(notebook: Path)  // `FileNotFoundError`
    | MissingDependency                 // `RuntimeError`: nbformat/nbclient cannot be imported
    | ExecutionFailed                   // the notebook cannot be read as a notebook, or a cell raises
    | ReportsMissing(expected: Path)    // `RuntimeError`: no `base_dir/reports` after execution

  /** What executing the patched notebook gives: the output captured from stdout and stderr and the paths that exist afterwards, or an exception. */
  datatype Execution =
    | Completed(captured: string, existing: set<Path>)
    | Raised

  /**
   * `run_reliability_notebook`. The filesystem enters as `notebookText` (the
   * notebook's text, or `None` when it does not exist) and as the paths that
   * exist after execution; the kernel is the function `execute` from the
   * patched text to its outcome. Besides the result, the method returns the
   * calls made to `on_log`, which are empty when no callback is given.
   */
  method RunReliabilityNotebook(notebookPath: Path, notebookText: Option<string>, baseDir: Path,
                                resolvedBase: string, maxVideos: Option<int>, maxImagesTotal: Option<int>,
                                skipExisting: bool, hasOnLog: bool, librariesInstalled: bool,
                                execute: string -> Execution)
    returns (result: Result<Path, RunError>, log: seq<string>)
    ensures notebookText.None? ==> result == Failure(NotebookNotFound(notebookPath)) && log == []
    ensures notebookText.Some? && !librariesInstalled ==> result == Failure(MissingDependency) && log == []
    ensures notebookText.Some? && librariesInstalled ==>
      var outcome := execute(PatchNotebookSource(notebookText.value, resolvedBase, maxVideos, maxImagesTotal, skipExisting));
      match outcome
      case Raised => result == Failure(ExecutionFailed) && log == []
      case Completed(captured, existing) =>
        && log == (if hasOnLog then LogMessages(captured) else [])
        && (ReportsDir(baseDir) in existing ==> result == Success(ReportsDir(baseDir)))
        && (ReportsDir(baseDir) !in existing ==> result == Failure(ReportsMissing(ReportsDir(baseDir))))
    ensures result.Success? ==> result.value == ReportsDir(baseDir) && IsBelow(result.value, baseDir)
    ensures log != [] ==>
      hasOnLog && notebookText.Some? && librariesInstalled && execute(
        PatchNotebookSource(notebookText.value, resolvedBase, maxVideos, maxImagesTotal, skipExisting)).Completed?
  {
    ReportsDirBelowBase(baseDir);
    log := [];
    if notebookText.None? {
      return Failure(NotebookNotFound(notebookPath)), log;
    }
    var patched := PatchNotebookSource(notebookText.value, resolvedBase, maxVideos, maxImagesTotal, skipExisting);
    if !librariesInstalled {
      return Failure(MissingDependency), log;
    }
    var outcome := execute(patched);
    if outcome.Raised? {
      return Failure(ExecutionFailed), log;
    }
    if hasOnLog {
      log := ForwardLog(outcome.captured);
    }
    var reportsDir := ReportsDir(baseDir);
    if reportsDir !in outcome.existing {
      return Failure(ReportsMissing(reportsDir)), log;
    }
    return Success(reportsDir), log;
  }
}
