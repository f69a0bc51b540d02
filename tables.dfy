/**
 * `normalizeTableRowBlocks`: pads every row of a table with empty cells up to the width
 * of its widest row. Both the converter class and the older script carry the same code.
 */
module Tables {
  import opened Blocks

  /** The cell appended to short rows: one empty text run. */
  const EmptyCell: Cell := [PlainText("")]

  /** `Math.max` over the row widths (0 for no rows). */
  function MaxWidth(rows: seq<TableRow>): (w: nat)
    ensures forall i :: 0 <= i < |rows| ==> |rows[i].cells| <= w
    ensures rows != [] ==> exists i :: 0 <= i < |rows| && |rows[i].cells| == w
    ensures rows == [] ==> w == 0
    decreases |rows|
  {
    if rows == [] then 0
    else
      var rest := MaxWidth(rows[1..]);
      assert forall i :: 1 <= i < |rows| ==> rows[i] == rows[1..][i - 1];
      if |rows[0].cells| >= rest then |rows[0].cells|
      else
        var i :| 0 <= i < |rows[1..]| && |rows[1..][i].cells| == rest;
        assert rows[i + 1] == rows[1..][i];
        rest
  }

  function Padding(n: nat): (p: seq<Cell>)
    ensures |p| == n && forall k :: 0 <= k < n ==> p[k] == EmptyCell
  {
    seq(n, _ => EmptyCell)
  }

  function PadRow(row: TableRow, width: nat): TableRow
    requires |row.cells| <= width
  {
    TableRow(row.cells + Padding(width - |row.cells|))
  }

  /** `normalizeTableRowBlocks(rows)`. */
  function NormalizeTableRows(rows: seq<TableRow>): seq<TableRow>
  {
    if rows == [] then []
    else
      var width := MaxWidth(rows);
      if width == 0 then []
      else seq(|rows|, i requires 0 <= i < |rows| => PadRow(rows[i], width))
  }

  predicate AllEmptyRows(rows: seq<TableRow>)
  {
    forall i :: 0 <= i < |rows| ==> rows[i].cells == []
  }

  /** Every row has `width` cells. */
  predicate Rectangular(rows: seq<TableRow>, width: nat)
  {
    forall i :: 0 <= i < |rows| ==> |rows[i].cells| == width
  }

  /**
   * An empty table and a table whose rows are all empty give no rows; any other table keeps
   * its rows, each holding its own cells followed by empty cells up to the widest row's width.
   */
  lemma NormalizeShape(rows: seq<TableRow>)
    ensures NormalizeTableRows(rows) == [] <==> AllEmptyRows(rows)
    ensures !AllEmptyRows(rows) ==>
      var r := NormalizeTableRows(rows);
      && |r| == |rows|
      && (exists i :: 0 <= i < |rows| && |rows[i].cells| == |r[0].cells|)
      && Rectangular(r, |r[0].cells|)
      && forall i :: 0 <= i < |rows| ==>
           && rows[i].cells <= r[i].cells
           && forall k :: |rows[i].cells| <= k < |r[i].cells| ==> r[i].cells[k] == EmptyCell
  {
    var r := NormalizeTableRows(rows);
    if rows != [] {
      var width := MaxWidth(rows);
      if width == 0 {
        assert AllEmptyRows(rows);
      } else {
        var i :| 0 <= i < |rows| && |rows[i].cells| == width;
        assert !AllEmptyRows(rows);
        assert |r| == |rows| && r != [];
        assert |r[0].cells| == width;
      }
    }
  }

  /** A table whose rows all have the same non-zero width is left as it is. */
  lemma NormalizeRectangular(rows: seq<TableRow>, width: nat)
    requires rows != [] && width > 0 && Rectangular(rows, width)
    ensures NormalizeTableRows(rows) == rows
  {
    assert MaxWidth(rows) == width by {
      var i :| 0 <= i < |rows| && |rows[i].cells| == MaxWidth(rows);
    }
    var r := NormalizeTableRows(rows);
    forall i | 0 <= i < |rows| ensures r[i] == rows[i] {
      assert rows[i].cells + Padding(0) == rows[i].cells;
    }
  }

  /** Normalizing twice is normalizing once. */
  lemma NormalizeIdempotent(rows: seq<TableRow>)
    ensures NormalizeTableRows(NormalizeTableRows(rows)) == NormalizeTableRows(rows)
  {
    NormalizeShape(rows);
    var r := NormalizeTableRows(rows);
    if r != [] {
      NormalizeRectangular(r, |r[0].cells|);
    }
  }
}
