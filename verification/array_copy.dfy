/**
 * The bounded, truthiness-filtered copy of one two-dimensional array into
 * another (`copy2DArrayElements`). Cells are numbers, so the only falsy value
 * modelled is 0.
 */
module ArrayCopy {

  import opened Grid

  /** JavaScript truthiness of a numeric cell. */
  predicate Truthy(v: int) {
    v != 0
  }

  /** (x, y) lies inside a source row and inside the destination row of the same index. */
  predicate InOverlap(source: Board, dest: Board, x: int, y: int) {
    0 <= x < |source| && x < |dest| && 0 <= y < |source[x]| && y < |dest[x]|
  }

  /** Same number of rows, and rows of equal index have equal lengths. */
  predicate SameShape(a: Board, b: Board) {
    |a| == |b| && forall x :: 0 <= x < |a| ==> |a[x]| == |b[x]|
  }

  /** The inner loop over the columns of one row, resumed at column `y`. */
  function CopyRow(sourceRow: seq<int>, destRow: seq<int>, y: nat): (r: seq<int>)
    decreases |sourceRow| - y
    ensures |r| == |destRow|
    ensures forall k :: 0 <= k < |destRow| && (k < y || k >= |sourceRow|) ==> r[k] == destRow[k]
    ensures forall k :: y <= k < |destRow| && k < |sourceRow| ==>
      r[k] == if Truthy(sourceRow[k]) then sourceRow[k] else destRow[k]
  {
    if y >= |sourceRow| then
      destRow
    else
      var next := if y <= |destRow| - 1 && Truthy(sourceRow[y]) then destRow[y := sourceRow[y]] else destRow;
      CopyRow(sourceRow, next, y + 1)
  }

  /** The outer loop over the source rows, resumed at row `x`; a row with no destination row is skipped. */
  function CopyRows(source: Board, dest: Board, x: nat): (r: Board)
    decreases |source| - x
    ensures SameShape(r, dest)
    ensures forall i, j :: 0 <= i < |dest| && 0 <= j < |dest[i]| && i < x ==> r[i][j] == dest[i][j]
    ensures forall i, j :: 0 <= i < |dest| && 0 <= j < |dest[i]| && x <= i ==>
      r[i][j] == if InOverlap(source, dest, i, j) && Truthy(source[i][j]) then source[i][j] else dest[i][j]
  {
    if x >= |source| then
      dest
    else if x < |dest| then
      CopyRows(source, dest[x := CopyRow(source[x], dest[x], 0)], x + 1)
    else
      CopyRows(source, dest, x + 1)
  }

  /**
   * copy2DArrayElements: writes only inside the overlap of the two arrays,
   * and there only the truthy source cells; the destination keeps its shape.
   */
  function Copy2DArrayElements(source: Board, dest: Board): (r: Board)
    ensures SameShape(r, dest)
    ensures forall x, y :: 0 <= x < |dest| && 0 <= y < |dest[x]| && !InOverlap(source, dest, x, y) ==>
      r[x][y] == dest[x][y]
    ensures forall x, y :: InOverlap(source, dest, x, y) && !Truthy(source[x][y]) ==> r[x][y] == dest[x][y]
    ensures forall x, y :: InOverlap(source, dest, x, y) && Truthy(source[x][y]) ==> r[x][y] == source[x][y]
  {
    CopyRows(source, dest, 0)
  }

  /** The unconditional in-bounds copy: every overlapping cell, truthy or not, comes from the source. */
  function OverlapCopy(source: Board, dest: Board): (r: Board)
  {
    seq(|dest|, x requires 0 <= x < |dest| =>
      seq(|dest[x]|, y requires 0 <= y < |dest[x]| =>
        if InOverlap(source, dest, x, y) then source[x][y] else dest[x][y]))
  }

  /** Into an all-zero destination, skipping falsy cells makes no difference: the copy is the unconditional one. */
  lemma CopyIntoAllDead(source: Board, dest: Board)
    requires AllDead(dest)
    ensures Copy2DArrayElements(source, dest) == OverlapCopy(source, dest)
  {
    var r := Copy2DArrayElements(source, dest);
    var u := OverlapCopy(source, dest);
    forall x | 0 <= x < |dest|
      ensures r[x] == u[x]
    {
    }
  }

  /** With a non-zero destination cell the skip is visible: a 0 in the source is not carried over. */
  lemma FalsySourceCellIsNotCopied()
    ensures Copy2DArrayElements([[0]], [[1]]) == [[1]]
    ensures OverlapCopy([[0]], [[1]]) == [[0]]
  {
    var r := Copy2DArrayElements([[0]], [[1]]);
    assert InOverlap([[0]], [[1]], 0, 0);
    assert r[0][0] == 1;
    assert r[0] == [1];
    var u := OverlapCopy([[0]], [[1]]);
    assert u[0][0] == 0;
    assert u[0] == [0];
  }
}
