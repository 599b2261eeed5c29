# Notebook runner: a verified model

This project models the core of `notebook_runner.py`, the part of the
reliability-test tool that prepares and runs a Jupyter notebook:

- **The constant patcher** (`_patch_notebook_source`, `_replace_int_or_none`).
  It makes four `re.sub` passes over the notebook's text, in a fixed order.
  - The first pass uses the unanchored, lazy pattern `BASE\s*=\s*Path\(["'].*?["']\)`.
    Every match becomes `BASE = Path(r"<resolved base>")`.
  - Then come three anchored passes `^NAME\s*=\s*.*$` under `re.M`. They write
    `MAX_VIDEOS = <None or decimal>`, `MAX_IMAGES_TOTAL = <None or decimal>` and
    `SKIP_EXISTING = True` or `SKIP_EXISTING = False`.
- **The run** (`run_reliability_notebook`).
  - It raises when the notebook does not exist or the execution libraries are missing.
  - It patches the notebook text and executes it.
  - After execution it sends the captured output to `on_log`, line by line, each
    line with one `"\n"` appended.
  - It then requires `base_dir/"reports"` to exist, and returns that path.
- **The archive** (`zip_dir`). It writes every regular file below the source
  directory under its relative path, with the parts joined by `/`.

## How the model is built

- **Patterns** (`patterns.dfy`). Each regular expression is a deterministic
  matcher on the suffix of the text at a position. A declarative description of
  the strings the expression accepts sits beside each matcher, with a proof that
  the matcher returns the match Python's backtracking engine returns:
  - the longest match for the greedy anchored pattern;
  - the shortest match for the lazy `BASE` pattern.
- **Character classes.** `\s` is exactly the set of characters for which
  `str.isspace()` holds, and `.` is any character but `\n`. The line breaks of
  `str.splitlines()` are `\n`, `\r`, `\r\n`, `\v`, `\f`, `\x1c`-`\x1e`, `\x85`,
  `\u2028` and `\u2029`.
- **`re.sub`** (`substitute.dfy`). One scan from left to right. It replaces
  each match and resumes after it, so matches never overlap.
- **Effects as parameters.**
  - The filesystem enters as the notebook's text (`None` when the file is
    missing), as the set of paths that exist after execution, and, for the
    archive, as the sequence of entries the recursive walk yields.
  - The resolved base path (`Path(base_dir).resolve().as_posix()`) is a
    parameter.
  - The kernel is a function from the patched text to its outcome.

### What is proved about the patcher

- Every column-0 assignment of the three variables is rewritten, not only the
  first. After the patch, each such assignment left in the text reads exactly
  `NAME = value`. A later pass never turns a written line into a different
  assignment of that name, but it can remove one. In `SKIP_EXISTING =` +
  newline + `MAX_VIDEOS = 3`, the `MAX_VIDEOS` pass writes its line, and the
  empty right-hand side of `SKIP_EXISTING` then swallows it. The result is the single `SKIP_EXISTING`
  line (`PatchCases.LaterPassSwallowsWrittenLine`).
- A pass leaves the text alone when no line starts with its name, so indented
  or otherwise prefixed assignments are untouched then. After a column-0
  assignment with an empty right-hand side, the next non-blank line is part of
  the match, indented or not.
- Text in which none of the four patterns matches comes back unchanged, so a
  missing variable is a silent no-op.
- The `BASE` pattern is unanchored: the tail of `DATABASE = Path(...)` is
  rewritten too. A match ends at the first quote that is directly followed by
  `)`, whichever quote opened the path. The rest of the line is kept.
- An empty right-hand side swallows the following blank lines and the next
  non-blank line, because `\s*` runs over line breaks.
- Written integers read back as the integers given.
- **Idempotence is conditional.** Patching a patched text again, even with
  another base directory, changes nothing under two conditions:
  - every `BASE` match of the original text lies on one line;
  - the resolved path holds no `=`.

  Without the first condition, patching twice can differ from patching once.
  The text `BASE = Path("aBASE` + newline + `= Path("x")` is such a case
  (`PatchCases.PatchNotIdempotent`). The first pass rewrites only the second
  `BASE`. In the second pass, the first `BASE`'s lazy scan runs through the
  written line and closes on its `")`.

## Model

| member | source | states |
|---|---|---|
| Text.IsSpace | notebook_runner.py:21-28 | `\s` in both patterns: exactly the characters for which `str.isspace()` holds (`\t` to `\r`, `\x1c` to `\x1f`, space, `\x85`, `\xa0`, `\u1680`, `\u2000` to `\u200a`, `\u2028`, `\u2029`, `\u202f`, `\u205f`, `\u3000`); `SkipSpaces` and the matchers use it |
| Patterns.AssignLen | notebook_runner.py:28 | the matcher of `NAME\s*=\s*.*$` at the start of a text: the name, spaces, `=`, spaces, then the rest of the line; a match is longer than the name and stops at a newline that is not its last character; `AssignLenIsLongestMatch` proves it is Python's match |
| Patterns.BaseLen | notebook_runner.py:21 | the matcher of `BASE\s*=\s*Path\(["'].*?["']\)` at the start of a text; a match has at least 13 characters; `BaseLenIsShortestMatch` proves it is Python's lazy match |
| Patterns.MatchAt | notebook_runner.py:21-28 | the end of the match at a position of the text; a match is non-empty, and an anchored one starts at a line start (`re.M`'s `^`) with the name |
| Patterns.AssignLenIsLongestMatch | notebook_runner.py:28 | the anchored matcher finds a match exactly when `NAME\s*=\s*.*$` accepts a prefix at that position, and returns the longest one (greedy `\s*` and `.*`, `$` at a newline or the end) |
| Patterns.BaseLenIsShortestMatch | notebook_runner.py:21 | the `BASE` matcher finds a match exactly when the pattern accepts a prefix, and returns the shortest one (lazy `.*?`) |
| Patterns.ClosingLen | notebook_runner.py:21 | the lazy `.*?["']\)` consumes up to the first quote directly followed by `)` with no newline before it; no closing exists when it returns none |
| Substitute.SubFrom | notebook_runner.py:20-24 | the left-to-right scan of `re.sub` from a position: a match is replaced and the scan resumes at its end, otherwise one character is copied; its properties are in `SubAllFirstMatch`, `SubAllNoMatch` and `SettledIsFixedPoint` |
| Substitute.SubAll | notebook_runner.py:20-24 | `re.sub(pattern, repl, text)`, the scan from position 0; used for all four passes (lines 20-24, 28 and 32) |
| Substitute.SubAllNoMatch | notebook_runner.py:20-24 | a text in which the pattern matches nowhere is returned unchanged (a missing variable is a silent no-op) |
| Substitute.NoColumnZeroName | notebook_runner.py:26-28 | without a line that starts with the name, the anchored pass changes nothing (indented and commented assignments are untouched) |
| Substitute.SubAllFirstMatch | notebook_runner.py:20-24 | the text before the first match is kept, the first match is replaced, and the scan resumes at the end of that match |
| Substitute.SettledIsFixedPoint | notebook_runner.py:26-28 | a text whose every match already is the replacement is left unchanged by another pass |
| Settle.Assignment | notebook_runner.py:28-32 | the line an anchored pass writes, `f"{var} = {repl}"` and `SKIP_EXISTING = {str(bool(...))}`; `AssignmentMatchesItself`, `SubAllSettles` and `AnchoredPassIdempotent` are stated in terms of it |
| Settle.AssignmentMatchesItself | notebook_runner.py:28 | a written `NAME = value` line is matched again, as a whole, by its own pattern |
| Settle.SubAllSettles | notebook_runner.py:26-28 | after one anchored pass, every column-0 assignment of the name reads exactly `NAME = value` |
| Settle.AnchoredPassIdempotent | notebook_runner.py:26-28 | a second identical anchored pass changes nothing |
| Settle.SubAllKeepsSettled | notebook_runner.py:30-32 | after a pass for a different variable, every column-0 assignment of the first variable left in the text still reads as written, so the pass never turns a written line into a different assignment of that name; it may remove a written line |
| BaseFree.BaseAssignment | notebook_runner.py:22 | the `BASE` replacement `BASE = Path(r"<resolved base>")`; `BaseAssignmentNoMatch` and `BasePassLeavesNoBase` are stated in terms of it, and `PatchIdempotent` rests on them |
| BaseFree.BaseLenCloses | notebook_runner.py:21 | a `BASE` match ends with a quote followed by `)` |
| BaseFree.BaseAssignmentNoMatch | notebook_runner.py:21-22 | the written `BASE = Path(r"...")` line is matched at none of its positions when the path holds no `=` |
| BaseFree.BasePassLeavesNoBase | notebook_runner.py:20-24 | the `BASE` pass leaves no `BASE` match behind when every match it replaces lies on one line and the path holds no `=` |
| BaseFree.AnchoredPassKeepsNoBase | notebook_runner.py:26-32 | for a plain name not starting with `P`, on a text with no `BASE` match, an anchored pass whose written line holds no `B` cannot create a `BASE` match |
| Decimal.IntToDecimal | notebook_runner.py:27 | `str(int(val))`: a non-empty text of digits with an optional leading `-`; `IntToDecimalRoundTrip` proves it reads back |
| Decimal.IntToDecimalRoundTrip | notebook_runner.py:27 | the text `str(int(val))` reads back as `val` |
| NotebookPatch.IntOrNone | notebook_runner.py:27 | the replacement value of a limit: it is `None` exactly when the limit is absent; `IntOrNoneReadsBack` proves the decimal reads back |
| NotebookPatch.BoolText | notebook_runner.py:32 | `str(bool(skip_existing))`, `True` or `False`; `BoolTextIsValueText` shows it is a one-line value |
| NotebookPatch.ReplaceIntOrNone | notebook_runner.py:26-28 | `_replace_int_or_none`: one anchored pass that writes `NAME = <None or decimal>`; its properties are those of `SubAllSettles` and `AnchoredPassIdempotent` |
| NotebookPatch.PatchNotebookSource | notebook_runner.py:9-33 | `_patch_notebook_source`: the `BASE` pass, then `MAX_VIDEOS`, `MAX_IMAGES_TOTAL` and `SKIP_EXISTING`, each replacement taken literally; properties in `PatchSettlesAssignments`, `PatchLeavesNoBase`, `PatchNoMatchUnchanged` and `PatchIdempotent` |
| NotebookPatch.IntOrNoneReadsBack | notebook_runner.py:27 | a limit is written as `None` when absent, and otherwise as a decimal that reads back as the limit |
| NotebookPatch.PatchSettlesAssignments | notebook_runner.py:30-32 | after the patch every column-0 assignment of `MAX_VIDEOS`, `MAX_IMAGES_TOTAL` and `SKIP_EXISTING` left in the text reads `NAME = value` with the caller's value |
| NotebookPatch.PatchLeavesNoBase | notebook_runner.py:20-32 | the patched text holds no `BASE` match, under the one-line condition and when the path has no `=` |
| NotebookPatch.RepatchKeepsText | notebook_runner.py:20-33 | patching the patched text again with any base directory and the same limits returns it unchanged, under the same conditions |
| NotebookPatch.PatchIdempotent | notebook_runner.py:9-33 | patching twice with the same arguments gives the result of patching once, under the same conditions |
| NotebookPatch.PatchNoMatchUnchanged | notebook_runner.py:20-33 | a text in which none of the four patterns matches anywhere comes back unchanged |
| NotebookPatch.PatchNoTargetsUnchanged | notebook_runner.py:20-33 | corollary: a text with no `BASE` match and no line starting with one of the three names comes back unchanged |
| PatchCases.DatabaseTailRewritten | notebook_runner.py:21 | the unanchored pattern rewrites the `BASE = Path('/d')` tail of `DATABASE = Path('/d')` |
| PatchCases.LazyClosingKeepsTail | notebook_runner.py:21 | `BASE = Path("a') + Path('b')` closes at the first `')`, mixing quote kinds, and keeps ` + Path('b')` |
| PatchCases.EmptyValueSwallowsNextLine | notebook_runner.py:28 | `MAX_VIDEOS =` followed by a blank line and `X = 1` is rewritten as one line, swallowing `X = 1` |
| PatchCases.LaterPassSwallowsWrittenLine | notebook_runner.py:26-32 | in `SKIP_EXISTING =` + newline + `MAX_VIDEOS = 3`, the empty right-hand side swallows the line the `MAX_VIDEOS` pass wrote, and the patch returns the single line `SKIP_EXISTING = True` or `SKIP_EXISTING = False` |
| PatchCases.EveryAssignmentRewritten | notebook_runner.py:28 | two column-0 assignments are both rewritten, each on its own line |
| PatchCases.IndentedAssignmentUntouched | notebook_runner.py:28 | `  MAX_VIDEOS = 1` is left unchanged |
| PatchCases.PatchNotIdempotent | notebook_runner.py:20-33 | a text with a `BASE` match spanning a newline changes when patched a second time |
| PatchCases.JsonLayoutMissesAssignment | notebook_runner.py:52-53 | on a code line as the `.ipynb` file stores it, the patch changes nothing, while the same line as cell source is rewritten |
| PatchCases.JsonLayoutMissesBase | notebook_runner.py:21 | in the file text, `Path(\"/c\")` (a JSON-escaped double quote) is not matched by the `BASE` pattern |
| CellPatch.PatchCell | notebook_runner.py:52-53 | the corrected patch of one cell: the four passes over a code cell's source, any other cell kept |
| CellPatch.PatchCells | notebook_runner.py:52-53 | the corrected patch of a notebook: `PatchCell` on every cell; properties in `PatchCellsSettles` and `PatchCellsIdempotent` |
| CellPatch.PatchCellsSettles | notebook_runner.py:52-53 | patching each code cell's source keeps the cells' number, order and kind, leaves other cells alone, and settles every column-0 assignment of the three variables left in each code cell |
| CellPatch.PatchCellsIdempotent | notebook_runner.py:52-53 | patching the patched cells again changes nothing, under the one-line condition per code cell |
| Runner.IsLineBoundary | notebook_runner.py:75 | the characters at which `str.splitlines()` ends a line: `\n`, `\r`, `\v`, `\f`, `\x1c` to `\x1e`, `\x85`, `\u2028` and `\u2029` (`\r\n` is one break, handled by `SplitLines`) |
| Runner.SplitLines | notebook_runner.py:75 | `str.splitlines()`: no line holds a line break |
| Runner.LogMessages | notebook_runner.py:74-76 | the arguments of the `on_log` calls, in order: every line of `splitlines()` with `"\n"` appended; `ForwardLog` computes it and `LogMessagesAreLines` and `LogCarriesOutput` state its properties |
| Runner.ForwardLog | notebook_runner.py:74-76 | the loop calls `on_log` once per line of the captured output, in order, with `"\n"` appended |
| Runner.LogMessagesAreLines | notebook_runner.py:74-76 | there is one call per line; each call ends with exactly one `"\n"` and holds no other line break |
| Runner.LogCarriesOutput | notebook_runner.py:74-76 | read back in order, the calls spell out the captured output with every line break written as `"\n"` and a final `"\n"` when the output did not end with one |
| Runner.LogOfPlainOutput | notebook_runner.py:74-76 | for output with only `"\n"` breaks that ends with one, the calls concatenate to the output itself |
| Runner.ReportsDir | notebook_runner.py:78 | `Path(base_dir) / "reports"`; `ReportsDirBelowBase` places it directly below `base_dir` |
| Runner.ReportsDirBelowBase | notebook_runner.py:78 | `base_dir/"reports"` lies directly below `base_dir`, under the name `reports` |
| Runner.RunReliabilityNotebook | notebook_runner.py:35-81 | a missing notebook or missing libraries raise before any log; the kernel receives the patched text; a raising execution gives no log; after a finished execution `on_log` gets the log messages, and the run returns `base_dir/"reports"` exactly when that path exists, raising otherwise |
| Paths.RelativeTo | notebook_runner.py:90 | `q.relative_to(dir)`, none where `pathlib` raises `ValueError`; `RelativeToBelow` states when it succeeds |
| Paths.AsPosix | notebook_runner.py:90 | `p.as_posix()`: the components joined with `/`, a leading `/` for an absolute path, `.` for the empty relative path; `SplitJoinSlash` and `JoinSplitSlash` state the join's round trips |
| Paths.SplitJoinSlash | notebook_runner.py:90 | components without `/`, joined with `/`, split back into the same components |
| Paths.JoinSplitSlash | notebook_runner.py:90 | splitting a text at `/` and joining again gives the text back |
| Paths.RelativeToBelow | notebook_runner.py:90 | `relative_to` gives components exactly for paths strictly below the directory, and they restore the path when appended to it |
| Archive.ArcName | notebook_runner.py:90 | `p.relative_to(src_dir).as_posix()` for a file below the source directory; `ArcNameRecoversPath` and `ArcNameInjective` state its properties |
| Archive.Archived | notebook_runner.py:88-90 | the members of the zip file: one per regular file of the walk, in the walk's order; `ZipDir`'s loop is proved against it and `ArchivedOnlyFiles` characterises it |
| Archive.ZipDir | notebook_runner.py:83-91 | the loop writes, in the walk's order, one member per regular file and nothing for other entries, and returns `out_zip` |
| Archive.ArchivedOnlyFiles | notebook_runner.py:88-90 | a member is in the archive exactly when it is the member for some regular file of the walk |
| Archive.ArcNameRecoversPath | notebook_runner.py:90 | a member's name is the file's components below the source directory joined with `/`, and splitting it restores the file's path |
| Archive.ArcNameInjective | notebook_runner.py:90 | two different files below the source directory never share a member name |

## Findings

| source | as written | input that shows it | evidently intended | confidence | as-written member | corrected member |
|---|---|---|---|---|---|---|
| notebook_runner.py:52-53 | The four passes run over the raw `.ipynb` file text. There, every code line is an indented, quoted JSON string, so no line starts with a variable name and the anchored passes never fire. | A code cell holding `MAX_VIDEOS = 5`, stored in the file as the line `    "MAX_VIDEOS = 5\n",` | Each code cell's `MAX_VIDEOS = 5` becomes `MAX_VIDEOS = <limit>`, as the patcher does on a cell's own source | high; not executed | PatchCases.JsonLayoutMissesAssignment | CellPatch.PatchCellsSettles |

The same layout also hides a double-quoted `BASE = Path("...")` from the first
pass, since the file stores it as `Path(\"...\")` (`PatchCases.JsonLayoutMissesBase`).
A single-quoted path is matched. It is then rewritten with bare double quotes
inside a JSON string, and the text stops being valid JSON.

`CellPatch.PatchCells` applies the four passes to each code cell's source.
`Runner.RunReliabilityNotebook` keeps the program's behaviour: it patches the
file text.

## Left out

- Notebook execution: `nbformat.reads`, `NotebookClient.execute` and the kernel
  are the parameter `execute`. A read failure and a cell error are one
  `ExecutionFailed` outcome. Exception types and messages are not modelled.
- The import check is the flag `librariesInstalled`. The redirection of stdout and
  stderr is the captured text inside the execution outcome.
- Filesystem effects: existence checks, reading the notebook (including
  `errors="replace"` decoding), `Path.resolve()`, creating and compressing the zip
  file. The recursive walk's order and its listing are given as a sequence of
  entries.
- The walk can also list the zip file itself when `out_zip` lies below
  `src_dir`. That is not modelled.
- NotebookPatch.PatchNotebookSource: takes the replacement text literally. Python's
  `re.sub` processes backslash escapes in a replacement, so a resolved path
  holding a backslash is not modelled faithfully.
- NotebookPatch.PatchIdempotent: proved only when every `BASE` match of the input
  lies on one line and the resolved path holds no `=`. Without the first
  condition the patch is not idempotent (`PatchCases.PatchNotIdempotent`).
- NotebookPatch.RepatchKeepsText: proved under the same two conditions as
  `PatchIdempotent`.
- What happens when `on_log` itself raises is not modelled.
- Whether the patched text is still valid notebook JSON.
- The Streamlit web page (`webui_streamlit_app.py`): uploads, widgets, temporary
  directories, the mapping of 0 to no limit, and keeping the last 250 log lines.
- Behaviours this program does not have:
  - patching cell by cell with a "was replaced" flag;
  - saving and restoring a `BASE_DIR` environment variable;
  - searching for misplaced `reports` directories;
  - accepting leading whitespace before a variable name.
