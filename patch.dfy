/**
 * `_patch_notebook_source`: four `re.sub` passes over the raw notebook text,
 * in a fixed order, that overwrite the right-hand sides of `BASE`,
 * `MAX_VIDEOS`, `MAX_IMAGES_TOTAL` and `SKIP_EXISTING`.
 *
 * The resolved base directory (`Path(base_dir).resolve().as_posix()`) depends
 * on the filesystem and the working directory, so it is a parameter here.
 */
module NotebookPatch {
  import opened Results
  import opened Text
  import opened Decimal
  import opened Patterns
  import opened Substitute
  import opened Settle
  import opened BaseFree

  /** `"None" if val is None else str(int(val))`. */
  function IntOrNone(val: Option<int>): (r: string)
    ensures r == "None" <==> val.None?
  {
    match val
    case None => "None"
    case Some(n) => IntToDecimal(n)
  }

  /** `str(bool(b))`. */
  function BoolText(b: bool): (r: string)
  {
    if b then "True" else "False"
  }

  /** `_replace_int_or_none(txt, var, val)`: every column-0 `var = ...` becomes `var = <None or decimal>`. */
  function ReplaceIntOrNone(txt: string, name: string, val: Option<int>): (r: string)
  {
    SubAll(Assign(name), Assignment(name, IntOrNone(val)), txt)
  }

  /** `_patch_notebook_source(nb_text, base_dir, max_videos, max_images_total, skip_existing)`. */
  function PatchNotebookSource(nbText: string, resolvedBase: string, maxVideos: Option<int>,
                               maxImagesTotal: Option<int>, skipExisting: bool): (r: string)
  {
    var t1 := SubAll(BasePath, BaseAssignment(resolvedBase), nbText);
    var t2 := ReplaceIntOrNone(t1, "MAX_VIDEOS", maxVideos);
    var t3 := ReplaceIntOrNone(t2, "MAX_IMAGES_TOTAL", maxImagesTotal);
    SubAll(Assign("SKIP_EXISTING"), Assignment("SKIP_EXISTING", BoolText(skipExisting)), t3)
  }

  lemma {:induction false} IntOrNoneIsValueText(val: Option<int>)
    ensures IsValueText(IntOrNone(val))
  {
    var v := IntOrNone(val);
    forall k | 0 <= k < |v| ensures v[k] != '\n' {
    }
  }

  /** The value written for an integer limit reads back as that integer; `None` is written for no limit. */
  lemma {:induction false} IntOrNoneReadsBack(val: Option<int>)
    ensures match val
      case None => IntOrNone(val) == "None"
      case Some(n) => ParseDecimal(IntOrNone(val)) == Some(n)
  {
    if val.Some? {
      IntToDecimalRoundTrip(val.value);
    }
  }

  /** The three variable names are plain names. */
  lemma {:induction false} NamesArePlain()
    ensures IsPlainName("MAX_VIDEOS") && IsPlainName("MAX_IMAGES_TOTAL") && IsPlainName("SKIP_EXISTING")
  {
  }

  lemma {:induction false} BoolTextIsValueText(b: bool)
    ensures IsValueText(BoolText(b))
  {
  }

  /** None of the three anchored passes writes a `B`, so none of them can start a `BASE` match. */
  lemma {:induction false} AssignmentsLackB(mv: Option<int>, mi: Option<int>, sk: bool)
    ensures Lacks(Assignment("MAX_VIDEOS", IntOrNone(mv)), 'B')
    ensures Lacks(Assignment("MAX_IMAGES_TOTAL", IntOrNone(mi)), 'B')
    ensures Lacks(Assignment("SKIP_EXISTING", BoolText(sk)), 'B')
  {
    IntOrNoneLacksB(mv);
    IntOrNoneLacksB(mi);
  }

  lemma {:induction false} IntOrNoneLacksB(val: Option<int>)
    ensures Lacks(IntOrNone(val), 'B')
  {
  }

  /**
   * After the patch every column-0 assignment of the three variables that is
   * left in the text reads exactly `NAME = value`. A later pass never turns a
   * written line into a different assignment of an earlier name, but a later
   * match with an empty right-hand side can swallow it whole.
   */
  lemma {:induction false} PatchSettlesAssignments(nbText: string, resolvedBase: string, maxVideos: Option<int>,
                                maxImagesTotal: Option<int>, skipExisting: bool)
    ensures var out := PatchNotebookSource(nbText, resolvedBase, maxVideos, maxImagesTotal, skipExisting);
      && Settled(Assign("MAX_VIDEOS"), Assignment("MAX_VIDEOS", IntOrNone(maxVideos)), out)
      && Settled(Assign("MAX_IMAGES_TOTAL"), Assignment("MAX_IMAGES_TOTAL", IntOrNone(maxImagesTotal)), out)
      && Settled(Assign("SKIP_EXISTING"), Assignment("SKIP_EXISTING", BoolText(skipExisting)), out)
  {
    var mv, mi, sk := IntOrNone(maxVideos), IntOrNone(maxImagesTotal), BoolText(skipExisting);
    NamesArePlain();
    IntOrNoneIsValueText(maxVideos);
    IntOrNoneIsValueText(maxImagesTotal);
    BoolTextIsValueText(skipExisting);
    var t1 := SubAll(BasePath, BaseAssignment(resolvedBase), nbText);
    var t2 := ReplaceIntOrNone(t1, "MAX_VIDEOS", maxVideos);
    var t3 := ReplaceIntOrNone(t2, "MAX_IMAGES_TOTAL", maxImagesTotal);
    SubAllSettles("MAX_VIDEOS", mv, t1);
    SubAllSettles("MAX_IMAGES_TOTAL", mi, t2);
    SubAllKeepsSettled("MAX_VIDEOS", mv, "MAX_IMAGES_TOTAL", mi, t2);
    SubAllSettles("SKIP_EXISTING", sk, t3);
    SubAllKeepsSettled("MAX_VIDEOS", mv, "SKIP_EXISTING", sk, t3);
    SubAllKeepsSettled("MAX_IMAGES_TOTAL", mi, "SKIP_EXISTING", sk, t3);
  }

  /** After the patch no `BASE` match is left, when every match of the input lies on one line and the path holds no `=`. */
  lemma {:induction false} PatchLeavesNoBase(nbText: string, resolvedBase: string, maxVideos: Option<int>,
                          maxImagesTotal: Option<int>, skipExisting: bool)
    requires BaseMatchesOneLine(nbText) && Lacks(resolvedBase, '=')
    ensures NoBaseMatch(PatchNotebookSource(nbText, resolvedBase, maxVideos, maxImagesTotal, skipExisting))
  {
    var mv, mi, sk := IntOrNone(maxVideos), IntOrNone(maxImagesTotal), BoolText(skipExisting);
    NamesArePlain();
    AssignmentsLackB(maxVideos, maxImagesTotal, skipExisting);
    var t1 := SubAll(BasePath, BaseAssignment(resolvedBase), nbText);
    var t2 := ReplaceIntOrNone(t1, "MAX_VIDEOS", maxVideos);
    var t3 := ReplaceIntOrNone(t2, "MAX_IMAGES_TOTAL", maxImagesTotal);
    BasePassLeavesNoBase(resolvedBase, nbText, 0);
    AnchoredPassKeepsNoBase("MAX_VIDEOS", mv, t1, 0);
    AnchoredPassKeepsNoBase("MAX_IMAGES_TOTAL", mi, t2, 0);
    AnchoredPassKeepsNoBase("SKIP_EXISTING", sk, t3, 0);
  }

  /**
   * A patched notebook patched again, even for another base directory, comes
   * back unchanged, when every `BASE` match of the original text lies on one
   * line and the first resolved path holds no `=`: the rewritten
   * `Path(r"...")` no longer matches the `BASE` pattern, and every anchored
   * assignment already reads as the second patch would write it.
   */
  lemma {:induction false} RepatchKeepsText(nbText: string, resolvedBase: string, otherBase: string, maxVideos: Option<int>,
                         maxImagesTotal: Option<int>, skipExisting: bool)
    requires BaseMatchesOneLine(nbText) && Lacks(resolvedBase, '=')
    ensures var once := PatchNotebookSource(nbText, resolvedBase, maxVideos, maxImagesTotal, skipExisting);
      PatchNotebookSource(once, otherBase, maxVideos, maxImagesTotal, skipExisting) == once
  {
    var once := PatchNotebookSource(nbText, resolvedBase, maxVideos, maxImagesTotal, skipExisting);
    PatchLeavesNoBase(nbText, resolvedBase, maxVideos, maxImagesTotal, skipExisting);
    PatchSettlesAssignments(nbText, resolvedBase, maxVideos, maxImagesTotal, skipExisting);
    NoBaseMatchNoMatchIn(once);
    SubAllNoMatch(BasePath, BaseAssignment(otherBase), once);
    SettledIsFixedPoint(Assign("MAX_VIDEOS"), Assignment("MAX_VIDEOS", IntOrNone(maxVideos)), once);
    SettledIsFixedPoint(Assign("MAX_IMAGES_TOTAL"), Assignment("MAX_IMAGES_TOTAL", IntOrNone(maxImagesTotal)), once);
    SettledIsFixedPoint(Assign("SKIP_EXISTING"), Assignment("SKIP_EXISTING", BoolText(skipExisting)), once);
  }

  /**
   * Patching a patched notebook again with the same arguments changes
   * nothing, under the same conditions. (Without them it can change: see
   * `PatchCases.PatchNotIdempotent`.)
   */
  lemma {:induction false} PatchIdempotent(nbText: string, resolvedBase: string, maxVideos: Option<int>,
                        maxImagesTotal: Option<int>, skipExisting: bool)
    requires BaseMatchesOneLine(nbText) && Lacks(resolvedBase, '=')
    ensures var once := PatchNotebookSource(nbText, resolvedBase, maxVideos, maxImagesTotal, skipExisting);
      PatchNotebookSource(once, resolvedBase, maxVideos, maxImagesTotal, skipExisting) == once
  {
    RepatchKeepsText(nbText, resolvedBase, resolvedBase, maxVideos, maxImagesTotal, skipExisting);
  }

  /** A notebook in which none of the four patterns matches anywhere comes back unchanged. */
  lemma {:induction false} PatchNoMatchUnchanged(nbText: string, resolvedBase: string, maxVideos: Option<int>,
                             maxImagesTotal: Option<int>, skipExisting: bool)
    requires NoMatchIn(BasePath, nbText, 0, |nbText|)
    requires NoMatchIn(Assign("MAX_VIDEOS"), nbText, 0, |nbText|)
    requires NoMatchIn(Assign("MAX_IMAGES_TOTAL"), nbText, 0, |nbText|)
    requires NoMatchIn(Assign("SKIP_EXISTING"), nbText, 0, |nbText|)
    ensures PatchNotebookSource(nbText, resolvedBase, maxVideos, maxImagesTotal, skipExisting) == nbText
  {
    SubAllNoMatch(BasePath, BaseAssignment(resolvedBase), nbText);
    SubAllNoMatch(Assign("MAX_VIDEOS"), Assignment("MAX_VIDEOS", IntOrNone(maxVideos)), nbText);
    SubAllNoMatch(Assign("MAX_IMAGES_TOTAL"), Assignment("MAX_IMAGES_TOTAL", IntOrNone(maxImagesTotal)), nbText);
    SubAllNoMatch(Assign("SKIP_EXISTING"), Assignment("SKIP_EXISTING", BoolText(skipExisting)), nbText);
  }

  /** In particular, a notebook without any `BASE` match and without a line starting with one of the three names comes back unchanged. */
  lemma {:induction false} PatchNoTargetsUnchanged(nbText: string, resolvedBase: string, maxVideos: Option<int>,
                                maxImagesTotal: Option<int>, skipExisting: bool)
    requires NoBaseMatch(nbText)
    requires forall i :: 0 <= i < |nbText| && AtLineStart(nbText, i) ==>
      !StartsWith(nbText[i..], "MAX_VIDEOS") && !StartsWith(nbText[i..], "MAX_IMAGES_TOTAL") && !StartsWith(nbText[i..], "SKIP_EXISTING")
    ensures PatchNotebookSource(nbText, resolvedBase, maxVideos, maxImagesTotal, skipExisting) == nbText
  {
    NoBaseMatchNoMatchIn(nbText);
    assert NoMatchIn(Assign("MAX_VIDEOS"), nbText, 0, |nbText|);
    assert NoMatchIn(Assign("MAX_IMAGES_TOTAL"), nbText, 0, |nbText|);
    assert NoMatchIn(Assign("SKIP_EXISTING"), nbText, 0, |nbText|);
    PatchNoMatchUnchanged(nbText, resolvedBase, maxVideos, maxImagesTotal, skipExisting);
  }
}
