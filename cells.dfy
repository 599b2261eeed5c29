/**
 * The patch applied to the notebook's cells rather than to the raw `.ipynb`
 * file text: each code cell's source is rewritten by the same four passes,
 * and every other cell is kept as it is.
 *
 * In the file text every source line is a quoted, indented JSON string, so
 * no line of the file starts with a variable name and the anchored passes
 * never fire there (see `PatchCases.JsonLayoutMissesAssignment`); on a
 * cell's own source they do.
 */
module CellPatch {
  import opened Results
  import opened Patterns
  import opened Substitute
  import opened Settle
  import opened BaseFree
  import opened NotebookPatch

  /** A notebook cell: whether it is a code cell, and its source text. */
  datatype Cell = Cell(isCode: bool, source: string)

  /** The four passes over the source of a code cell; any other cell is kept as it is. */
  function PatchCell(c: Cell, resolvedBase: string, maxVideos: Option<int>,
                     maxImagesTotal: Option<int>, skipExisting: bool): (r: Cell)
  {
    if c.isCode then Cell(true, PatchNotebookSource(c.source, resolvedBase, maxVideos, maxImagesTotal, skipExisting))
    else c
  }

  /** The four passes over the source of every code cell. */
  function PatchCells(cells: seq<Cell>, resolvedBase: string, maxVideos: Option<int>,
                      maxImagesTotal: Option<int>, skipExisting: bool): (r: seq<Cell>)
  {
    seq(|cells|, i requires 0 <= i < |cells| => PatchCell(cells[i], resolvedBase, maxVideos, maxImagesTotal, skipExisting))
  }

  /**
   * The cells keep their number, order and kind; cells that are not code are
   * untouched; and in every code cell each column-0 assignment of the three
   * variables left in it reads exactly `NAME = value`.
   */
  lemma {:induction false} PatchCellsSettles(cells: seq<Cell>, resolvedBase: string, maxVideos: Option<int>,
                          maxImagesTotal: Option<int>, skipExisting: bool)
    ensures var out := PatchCells(cells, resolvedBase, maxVideos, maxImagesTotal, skipExisting);
      && |out| == |cells|
      && forall i :: 0 <= i < |cells| ==>
        && out[i].isCode == cells[i].isCode
        && (!cells[i].isCode ==> out[i] == cells[i])
        && (cells[i].isCode ==>
             && Settled(Assign("MAX_VIDEOS"), Assignment("MAX_VIDEOS", IntOrNone(maxVideos)), out[i].source)
             && Settled(Assign("MAX_IMAGES_TOTAL"), Assignment("MAX_IMAGES_TOTAL", IntOrNone(maxImagesTotal)), out[i].source)
             && Settled(Assign("SKIP_EXISTING"), Assignment("SKIP_EXISTING", BoolText(skipExisting)), out[i].source))
  {
    forall i | 0 <= i < |cells| && cells[i].isCode {
      PatchSettlesAssignments(cells[i].source, resolvedBase, maxVideos, maxImagesTotal, skipExisting);
    }
  }

  /** Patching the patched cells again changes nothing, when every `BASE` match of every code cell lies on one line and the path holds no `=`. */
  lemma {:induction false} PatchCellsIdempotent(cells: seq<Cell>, resolvedBase: string, maxVideos: Option<int>,
                             maxImagesTotal: Option<int>, skipExisting: bool)
    requires Lacks(resolvedBase, '=')
    requires forall i :: 0 <= i < |cells| && cells[i].isCode ==> BaseMatchesOneLine(cells[i].source)
    ensures var once := PatchCells(cells, resolvedBase, maxVideos, maxImagesTotal, skipExisting);
      PatchCells(once, resolvedBase, maxVideos, maxImagesTotal, skipExisting) == once
  {
    var once := PatchCells(cells, resolvedBase, maxVideos, maxImagesTotal, skipExisting);
    var twice := PatchCells(once, resolvedBase, maxVideos, maxImagesTotal, skipExisting);
    forall i | 0 <= i < |cells| ensures twice[i] == once[i] {
      if cells[i].isCode {
        PatchIdempotent(cells[i].source, resolvedBase, maxVideos, maxImagesTotal, skipExisting);
      }
    }
  }
}
