/**
 * `visibleToColumnIndex` of src/helpers.ts: the index of a column in the
 * full column list, given its index among the columns that are not hidden.
 * Only the `hidden` setting of a column is modelled.
 */
module Columns {

  /** The settings of one column. */
  datatype Column = Column(hidden: bool)

  /** `columns[i] || {}`: an index past the end reads as empty settings, so as a visible column. */
  predicate IsVisible(columns: seq<Column>, i: nat)
  {
    i >= |columns| || !columns[i].hidden
  }

  /** The number of visible columns among indices 0..n-1. */
  function VisibleCount(columns: seq<Column>, n: nat): (count: nat)
    ensures count <= n
    ensures count == n <==> forall i :: 0 <= i < n ==> IsVisible(columns, i)
  {
    if n == 0 then 0 else VisibleCount(columns, n - 1) + (if IsVisible(columns, n - 1) then 1 else 0)
  }

  /**
   * `visibleToColumnIndex`: for a non-negative visible index, the least index r
   * whose columns 0..r hold visibleIndex + 1 visible ones, so column r is the
   * visible column with that visible index; -1 for a negative index.
   */
  method VisibleToColumnIndex(visibleIndex: int, columns: seq<Column>) returns (r: int)
    ensures visibleIndex < 0 ==> r == -1
    ensures visibleIndex >= 0 ==>
              && r >= visibleIndex
              && VisibleCount(columns, r + 1) == visibleIndex + 1
              && IsVisible(columns, r)
              && forall n :: 0 <= n <= r ==> VisibleCount(columns, n) <= visibleIndex
    ensures (forall i :: 0 <= i < |columns| ==> !columns[i].hidden) ==> r == if visibleIndex < 0 then -1 else visibleIndex
  {
    var counter := 0;
    var columnIndex := 0;
    while counter < visibleIndex + 1
      invariant 0 <= counter == VisibleCount(columns, columnIndex)
      invariant visibleIndex >= 0 ==> counter <= visibleIndex + 1
      invariant visibleIndex < 0 ==> columnIndex == 0
      invariant forall j :: 0 <= j < columnIndex ==> VisibleCount(columns, j) < visibleIndex + 1
      decreases visibleIndex + 1 - counter, if columnIndex < |columns| then |columns| - columnIndex else 0
    {
      var columnSettings := if columnIndex < |columns| then columns[columnIndex] else Column(false);
      if !columnSettings.hidden {
        counter := counter + 1;
      }
      columnIndex := columnIndex + 1;
    }
    r := columnIndex - 1;
  }
}
