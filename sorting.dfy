/** Sorting the data by one column while carrying the selection through
    (`getSortDirection`, `sortCompare`, `sortTable` and the direction
    toggle of `toggleSortColumn`, src/DripTable.js:366-394, 654-684). */
module TableSort {
  import opened Wrappers
  import opened Lists
  import opened Cells
  import opened Columns

  /** `getSortDirection(column)` */
  function DirectionLabel(column: ColumnDescriptor): string
  {
    if column.sortDirection == Some(Asc) then "ascending" else "descending"
  }

  /** The direction a click records: "desc" after "asc", "asc" otherwise. */
  function NextDirection(d: Option<Direction>): Direction
  {
    if d == Some(Asc) then Desc else Asc
  }

  /** The columns after a click on column `index`. */
  function ToggledColumns(cols: seq<ColumnDescriptor>, index: nat): (r: seq<ColumnDescriptor>)
    requires index < |cols|
    ensures |r| == |cols|
  {
    seq(|cols|, pos requires 0 <= pos < |cols| =>
      cols[pos].(sortDirection := if pos == index then Some(NextDirection(cols[pos].sortDirection)) else None))
  }

  /** After a click, the clicked column is the only one with a direction;
      it goes from ascending to descending and from anything else to
      ascending; nothing but directions changes. */
  lemma ToggledColumnsDirections(cols: seq<ColumnDescriptor>, index: nat)
    requires index < |cols|
    ensures var r := ToggledColumns(cols, index);
      (forall pos :: 0 <= pos < |cols| ==> (r[pos].sortDirection.Some? <==> pos == index)) &&
      (r[index].sortDirection == Some(Desc) <==> cols[index].sortDirection == Some(Asc)) &&
      (forall pos :: 0 <= pos < |cols| ==> r[pos].(sortDirection := cols[pos].sortDirection) == cols[pos])
  {
  }

  /** The loop of src/DripTable.js:377-383 over a copy of the columns. */
  method ToggleDirections(cols: seq<ColumnDescriptor>, index: nat) returns (columns: seq<ColumnDescriptor>)
    requires index < |cols|
    ensures columns == ToggledColumns(cols, index)
  {
    columns := cols;
    for pos := 0 to |columns|
      invariant |columns| == |cols|
      invariant forall p :: 0 <= p < pos ==> columns[p] == ToggledColumns(cols, index)[p]
      invariant forall p :: pos <= p < |cols| ==> columns[p] == cols[p]
    {
      if index != pos {
        columns := columns[pos := columns[pos].(sortDirection := None)];
      } else {
        var next := if columns[pos].sortDirection == Some(Asc) then Desc else Asc;
        columns := columns[pos := columns[pos].(sortDirection := Some(next))];
      }
    }
  }

  /** The live-region text announced after a click. */
  function AnnounceText(column: ColumnDescriptor): string
  {
    "Table now sorted by " + column.name + " : " + DirectionLabel(column)
  }

  /** The announcement names the clicked column and says "ascending"
      exactly when its new direction is ascending. */
  lemma AnnouncementMatchesDirection(cols: seq<ColumnDescriptor>, index: nat)
    requires index < |cols|
    ensures var c := ToggledColumns(cols, index)[index];
      var text := AnnounceText(c);
      text == "Table now sorted by " + cols[index].name + " : " +
        (if cols[index].sortDirection == Some(Asc) then "descending" else "ascending")
  {
  }

  /** An element of the array `sortTable` sorts: the sort key, the row's
      position in `data` and whether that position was selected. */
  datatype SortEntry = SortEntry(data: Cell, position: nat, rowSelected: bool)

  /** The comparisons `sortCompare` relies on, supplied by the environment:
      `localeCompare(s, t)` for a string key, and `coercedMinus(x, s)`, the
      value of `x - s` for a number `x` and a string `s`. JavaScript
      converts `s` to a number there (`7 - "5"` is 2, `3 - ""` is 3), and
      the sort reads a NaN result as 0. */
  datatype CellComparison = CellComparison(localeCompare: (string, string) -> int,
                                           coercedMinus: (int, string) -> int)

  /** `a.localeCompare(b)` when `a` is a string (the other side as text),
      else `a - b`. */
  function CompareCells(cmp: CellComparison, a: Cell, b: Cell): int
  {
    match a
    case Str(s) => cmp.localeCompare(s, CellText(b))
    case Num(x) =>
      match b
      case Num(y) => x - y
      case Str(t) => cmp.coercedMinus(x, t)
  }

  /** Comparisons that agree with themselves: the locale comparison's sign
      flips when its arguments swap, and a number against a string gets
      the opposite sign of the string against the number's text. The
      engine's own comparisons need not be consistent (`9 - "10"` is
      negative, and so is `"10".localeCompare("9")` in most locales). */
  ghost predicate Consistent(cmp: CellComparison)
  {
    SignAntisymmetric(cmp.localeCompare) &&
    forall x: int, t: string ::
      (cmp.coercedMinus(x, t) < 0 <==> cmp.localeCompare(t, CellText(Num(x))) > 0) &&
      (cmp.coercedMinus(x, t) > 0 <==> cmp.localeCompare(t, CellText(Num(x))) < 0)
  }

  /** With consistent comparisons, swapping two cells flips the sign of
      their comparison. */
  lemma CompareCellsAntisymmetric(cmp: CellComparison, a: Cell, b: Cell)
    requires Consistent(cmp)
    ensures CompareCells(cmp, a, b) < 0 <==> CompareCells(cmp, b, a) > 0
  {
    match a {
      case Str(s) =>
        match b {
          case Str(t) => assert cmp.localeCompare(s, t) < 0 <==> cmp.localeCompare(t, s) > 0;
          case Num(y) =>
        }
      case Num(x) =>
    }
  }

  /** `order === "asc" ? -1 : 1`, where `order` is the direction recorded
      BEFORE the click. */
  function OrderFactor(order: Option<Direction>): int
  {
    if order == Some(Asc) then -1 else 1
  }

  /** `sortCompare(order)` */
  function SortCompare(cmp: CellComparison, order: Option<Direction>): (SortEntry, SortEntry) -> int
  {
    (a: SortEntry, b: SortEntry) => CompareCells(cmp, a.data, b.data) * OrderFactor(order)
  }

  /** A previous direction of "asc" reverses the comparison, any other
      leaves it as it is; two numbers compare by their difference, so they
      end up ascending unless the previous direction was "asc". */
  lemma SortCompareDirection(cmp: CellComparison, a: SortEntry, b: SortEntry)
    ensures SortCompare(cmp, Some(Asc))(a, b) == -SortCompare(cmp, None)(a, b)
    ensures SortCompare(cmp, Some(Desc))(a, b) == SortCompare(cmp, None)(a, b)
    ensures a.data.Num? && b.data.Num? ==>
      (SortCompare(cmp, None)(a, b) < 0 <==> a.data.n < b.data.n) &&
      (SortCompare(cmp, Some(Asc))(a, b) < 0 <==> a.data.n > b.data.n)
  {
    var c := CompareCells(cmp, a.data, b.data);
    assert SortCompare(cmp, None)(a, b) == c * 1 == c;
    assert SortCompare(cmp, Some(Asc))(a, b) == c * -1 == -c;
    assert SortCompare(cmp, Some(Desc))(a, b) == c * 1;
  }

  /** The order the sort leaves entries in. */
  function EntryOrder(cmp: CellComparison, order: Option<Direction>): (SortEntry, SortEntry) -> bool
  {
    NotAfter(SortCompare(cmp, order), 1)
  }

  /** Every neighbour pair of rows is in order on column `col`: the
      comparator times the direction factor is not positive. */
  ghost predicate OrderedOn(rows: seq<Row>, col: nat, cmp: CellComparison,
                            order: Option<Direction>)
  {
    forall k :: 0 <= k < |rows| - 1 ==> PairInOrder(rows, k, col, cmp, order)
  }

  ghost predicate PairInOrder(rows: seq<Row>, k: nat, col: nat, cmp: CellComparison,
                              order: Option<Direction>)
    requires k + 1 < |rows|
  {
    col < |rows[k]| && col < |rows[k + 1]| &&
    CompareCells(cmp, rows[k][col], rows[k + 1][col]) * OrderFactor(order) <= 0
  }

  /** The comparison agrees with itself on the cells of column `col`:
      for every two of them, its sign flips when they swap. */
  ghost predicate ColumnConsistent(data: seq<Row>, col: nat, cmp: CellComparison)
    requires forall i :: 0 <= i < |data| ==> col < |data[i]|
  {
    forall i, j :: 0 <= i < |data| && 0 <= j < |data| ==>
      (CompareCells(cmp, data[i][col], data[j][col]) < 0 <==>
       CompareCells(cmp, data[j][col], data[i][col]) > 0)
  }

  /** A column of numbers always agrees with itself: numbers compare by
      their difference. */
  lemma NumberColumnConsistent(data: seq<Row>, col: nat, cmp: CellComparison)
    requires forall i :: 0 <= i < |data| ==> col < |data[i]| && data[i][col].Num?
    ensures ColumnConsistent(data, col, cmp)
  {
  }

  /** A column of strings agrees with itself when the locale comparison's
      sign flips with its arguments. */
  lemma StringColumnConsistent(data: seq<Row>, col: nat, cmp: CellComparison)
    requires forall i :: 0 <= i < |data| ==> col < |data[i]| && data[i][col].Str?
    requires SignAntisymmetric(cmp.localeCompare)
    ensures ColumnConsistent(data, col, cmp)
  {
    forall i, j | 0 <= i < |data| && 0 <= j < |data|
      ensures CompareCells(cmp, data[i][col], data[j][col]) < 0 <==>
              CompareCells(cmp, data[j][col], data[i][col]) > 0
    {
      var s, t := data[i][col].s, data[j][col].s;
      assert cmp.localeCompare(s, t) < 0 <==> cmp.localeCompare(t, s) > 0;
    }
  }

  /** Comparisons consistent on all cells are consistent on every column. */
  lemma ConsistentColumns(data: seq<Row>, col: nat, cmp: CellComparison)
    requires forall i :: 0 <= i < |data| ==> col < |data[i]|
    requires Consistent(cmp)
    ensures ColumnConsistent(data, col, cmp)
  {
    forall i, j | 0 <= i < |data| && 0 <= j < |data|
      ensures CompareCells(cmp, data[i][col], data[j][col]) < 0 <==>
              CompareCells(cmp, data[j][col], data[i][col]) > 0
    {
      CompareCellsAntisymmetric(cmp, data[i][col], data[j][col]);
    }
  }

  /** On a column that agrees with itself, every two entries are ordered
      one way or the other, whichever the direction factor. */
  lemma EntryOrderTotal(data: seq<Row>, col: nat, selectedRows: seq<int>,
                        cmp: CellComparison, order: Option<Direction>)
    requires forall i :: 0 <= i < |data| ==> col < |data[i]|
    requires ColumnConsistent(data, col, cmp)
    ensures TotalOn(EntryOrder(cmp, order), Entries(data, col, selectedRows))
  {
    var es := Entries(data, col, selectedRows);
    forall a, b | a in es && b in es
      ensures EntryOrder(cmp, order)(a, b) || EntryOrder(cmp, order)(b, a)
    {
      var i :| 0 <= i < |es| && es[i] == a;
      var j :| 0 <= j < |es| && es[j] == b;
      assert a.data == data[i][col] && b.data == data[j][col];
    }
  }

  /** `data.map((row, index) => ({data: row[col], position: index, rowSelected}))` */
  function Entries(data: seq<Row>, col: nat, selectedRows: seq<int>): (es: seq<SortEntry>)
    requires forall i :: 0 <= i < |data| ==> col < |data[i]|
    ensures |es| == |data|
  {
    seq(|data|, i requires 0 <= i < |data| => SortEntry(data[i][col], i, IndexOf(selectedRows, i) >= 0))
  }

  function Position(e: SortEntry): nat
  {
    e.position
  }

  /** The data row an entry stands for. */
  function RowFor(data: seq<Row>): SortEntry -> Row
  {
    (e: SortEntry) => if e.position < |data| then data[e.position] else []
  }

  /** The entries after `sortedData.sort(this.sortCompare(order))`. */
  function SortedEntries(data: seq<Row>, col: nat, selectedRows: seq<int>,
                         cmp: CellComparison, order: Option<Direction>): seq<SortEntry>
    requires forall i :: 0 <= i < |data| ==> col < |data[i]|
  {
    InsertionSort(Entries(data, col, selectedRows), EntryOrder(cmp, order))
  }

  /** Each sorted entry is the entry of one data row. */
  lemma SortedEntriesFaithful(data: seq<Row>, col: nat, selectedRows: seq<int>,
                              cmp: CellComparison, order: Option<Direction>)
    requires forall i :: 0 <= i < |data| ==> col < |data[i]|
    ensures var sorted := SortedEntries(data, col, selectedRows, cmp, order);
      |sorted| == |data| &&
      forall k :: 0 <= k < |sorted| ==>
        sorted[k].position < |data| && sorted[k].data == data[sorted[k].position][col] &&
        (sorted[k].rowSelected <==> sorted[k].position in selectedRows)
  {
    var entries := Entries(data, col, selectedRows);
    var sorted := SortedEntries(data, col, selectedRows, cmp, order);
    SortPermutes(entries, EntryOrder(cmp, order));
    assert |sorted| == |multiset(sorted)| == |multiset(entries)| == |data|;
    forall k | 0 <= k < |sorted|
      ensures sorted[k].position < |data| && sorted[k].data == data[sorted[k].position][col]
      ensures sorted[k].rowSelected <==> sorted[k].position in selectedRows
    {
      assert sorted[k] in multiset(entries);
    }
  }

  /** The positions of the sorted entries are a permutation of the data
      positions, and the rows they stand for a permutation of the data. */
  lemma SortedEntriesPermute(data: seq<Row>, col: nat, selectedRows: seq<int>,
                             cmp: CellComparison, order: Option<Direction>)
    requires forall i :: 0 <= i < |data| ==> col < |data[i]|
    ensures var sorted := SortedEntries(data, col, selectedRows, cmp, order);
      multiset(Map(Position, sorted)) == multiset(Range(|data|)) &&
      multiset(Map(RowFor(data), sorted)) == multiset(data)
  {
    var entries := Entries(data, col, selectedRows);
    var sorted := SortedEntries(data, col, selectedRows, cmp, order);
    SortPermutes(entries, EntryOrder(cmp, order));
    MapPermutation(Position, sorted, entries);
    MapPermutation(RowFor(data), sorted, entries);
    EntriesInPlace(data, col, selectedRows);
  }

  /** Before the sort, entry `i` stands for row `i`. */
  lemma EntriesInPlace(data: seq<Row>, col: nat, selectedRows: seq<int>)
    requires forall i :: 0 <= i < |data| ==> col < |data[i]|
    ensures Map(Position, Entries(data, col, selectedRows)) == Range(|data|)
    ensures Map(RowFor(data), Entries(data, col, selectedRows)) == data
  {
    var entries := Entries(data, col, selectedRows);
    MapPointwise(Position, entries, Range(|data|));
    MapPointwise(RowFor(data), entries, data);
  }

  /** Entry `i` stands for a selected row. */
  function Selected(es: seq<SortEntry>): nat -> bool
  {
    (i: nat) => i < |es| && es[i].rowSelected
  }

  /** The indices of the selected entries, in increasing order. */
  function SelectedIndices(es: seq<SortEntry>): seq<int>
  {
    IndicesWhere(|es|, Selected(es))
  }

  /** The new `data`: the rows in the order of the sorted entries. */
  function SortedData(data: seq<Row>, col: nat, selectedRows: seq<int>,
                      cmp: CellComparison, order: Option<Direction>): seq<Row>
    requires forall i :: 0 <= i < |data| ==> col < |data[i]|
  {
    Map(RowFor(data), SortedEntries(data, col, selectedRows, cmp, order))
  }

  /** The new `selectedRows`. */
  function SortedSelection(data: seq<Row>, col: nat, selectedRows: seq<int>,
                           cmp: CellComparison, order: Option<Direction>): seq<int>
    requires forall i :: 0 <= i < |data| ==> col < |data[i]|
  {
    SelectedIndices(SortedEntries(data, col, selectedRows, cmp, order))
  }

  /** `SortPermutation(...)[k]` is the old position of the row sorted to `k`. */
  function SortPermutation(data: seq<Row>, col: nat, selectedRows: seq<int>,
                           cmp: CellComparison, order: Option<Direction>): seq<nat>
    requires forall i :: 0 <= i < |data| ==> col < |data[i]|
  {
    Map(Position, SortedEntries(data, col, selectedRows, cmp, order))
  }

  /** The sort moves rows and nothing else: row `k` of the new data is the
      old row `perm[k]`, `perm` is a permutation of the positions, and the
      new data is a permutation of the old. */
  lemma SortIsPermutation(data: seq<Row>, col: nat, selectedRows: seq<int>,
                          cmp: CellComparison, order: Option<Direction>)
    requires forall i :: 0 <= i < |data| ==> col < |data[i]|
    ensures var perm := SortPermutation(data, col, selectedRows, cmp, order);
      var sorted := SortedData(data, col, selectedRows, cmp, order);
      |perm| == |data| && |sorted| == |data| &&
      multiset(perm) == multiset(Range(|data|)) && multiset(sorted) == multiset(data) &&
      forall k :: 0 <= k < |data| ==> perm[k] < |data| && sorted[k] == data[perm[k]]
  {
    SortedEntriesFaithful(data, col, selectedRows, cmp, order);
    SortedEntriesPermute(data, col, selectedRows, cmp, order);
  }

  /** When the comparison agrees with itself on column `col` (its sign
      flips when two of the column's cells swap), the new data is ordered
      on that column by the comparator times the factor of the direction
      recorded before the click. */
  lemma SortIsOrdered(data: seq<Row>, col: nat, selectedRows: seq<int>,
                      cmp: CellComparison, order: Option<Direction>)
    requires forall i :: 0 <= i < |data| ==> col < |data[i]|
    requires ColumnConsistent(data, col, cmp)
    ensures OrderedOn(SortedData(data, col, selectedRows, cmp, order), col, cmp, order)
  {
    var es := SortedEntries(data, col, selectedRows, cmp, order);
    SortedEntriesFaithful(data, col, selectedRows, cmp, order);
    EntryOrderTotal(data, col, selectedRows, cmp, order);
    SortSorted(Entries(data, col, selectedRows), EntryOrder(cmp, order));
    forall k | 0 <= k < |es| - 1
      ensures EntryOrder(cmp, order)(es[k], es[k + 1])
    {
    }
  }

  /** The sort is stable: two rows whose keys compare equal (the earlier
      row's key against the later one's) keep their relative order. */
  lemma SortIsStable(data: seq<Row>, col: nat, selectedRows: seq<int>,
                     cmp: CellComparison, order: Option<Direction>)
    requires forall i :: 0 <= i < |data| ==> col < |data[i]|
    ensures var perm := SortPermutation(data, col, selectedRows, cmp, order);
      |perm| == |data| && (forall k :: 0 <= k < |data| ==> perm[k] < |data|) &&
      forall a, b ::
        0 <= a < |data| && 0 <= b < |data| && perm[a] < perm[b] &&
        CompareCells(cmp, data[perm[a]][col], data[perm[b]][col]) == 0
        ==> a < b
  {
    var es := Entries(data, col, selectedRows);
    var sorted := SortedEntries(data, col, selectedRows, cmp, order);
    SortedEntriesFaithful(data, col, selectedRows, cmp, order);
    var rank := (e: SortEntry) => e.position as int;
    forall i, j | 0 <= i < j < |es| ensures rank(es[i]) < rank(es[j]) {
      assert es[i].position == i && es[j].position == j;
    }
    SortStable(es, EntryOrder(cmp, order), rank);
    assert StableBy(sorted, EntryOrder(cmp, order), rank);
    forall a, b | 0 <= b < a < |data| && sorted[a].position < sorted[b].position
      ensures CompareCells(cmp, sorted[a].data, sorted[b].data) != 0
    {
      assert rank(sorted[a]) < rank(sorted[b]);
      assert !EntryOrder(cmp, order)(sorted[a], sorted[b]);
    }
  }

  /** The selection follows the rows: position `k` is selected after the
      sort exactly when the row moved there was selected before, and the
      new list is increasing. */
  lemma SortRemapsSelection(data: seq<Row>, col: nat, selectedRows: seq<int>,
                            cmp: CellComparison, order: Option<Direction>)
    requires forall i :: 0 <= i < |data| ==> col < |data[i]|
    ensures var perm := SortPermutation(data, col, selectedRows, cmp, order);
      var sel := SortedSelection(data, col, selectedRows, cmp, order);
      StrictlyIncreasing(sel) && |perm| == |data| &&
      forall k :: k in sel <==> 0 <= k < |data| && perm[k] in selectedRows
  {
    SortedEntriesFaithful(data, col, selectedRows, cmp, order);
  }

  /** `sortTable(data, col, order)`: sort the entries, then rebuild the
      data in the new order and collect the new positions of the rows
      that were selected. */
  method SortTable(data: seq<Row>, col: nat, order: Option<Direction>, selectedRows: seq<int>,
                   cmp: CellComparison)
    returns (tableData: seq<Row>, newSelected: seq<int>)
    requires forall i :: 0 <= i < |data| ==> col < |data[i]|
    ensures tableData == SortedData(data, col, selectedRows, cmp, order)
    ensures newSelected == SortedSelection(data, col, selectedRows, cmp, order)
  {
    var sortedData := Entries(data, col, selectedRows);
    sortedData := InsertionSort(sortedData, EntryOrder(cmp, order));
    SortedEntriesFaithful(data, col, selectedRows, cmp, order);
    tableData, newSelected := Rebuild(data, sortedData);
  }

  /** The loop of `sortTable` over the sorted entries: each entry's row,
      and the index of each selected entry. */
  method Rebuild(data: seq<Row>, sortedData: seq<SortEntry>) returns (tableData: seq<Row>, newSelected: seq<int>)
    requires forall k :: 0 <= k < |sortedData| ==> sortedData[k].position < |data|
    ensures tableData == Map(RowFor(data), sortedData)
    ensures newSelected == SelectedIndices(sortedData)
  {
    tableData, newSelected := [], [];
    for i := 0 to |sortedData|
      invariant |tableData| == i
      invariant forall k :: 0 <= k < i ==> tableData[k] == RowFor(data)(sortedData[k])
      invariant newSelected == IndicesWhere(i, Selected(sortedData))
    {
      var row := sortedData[i];
      assert Selected(sortedData)(i) == row.rowSelected;
      assert RowFor(data)(row) == data[row.position];
      tableData := tableData + [data[row.position]];
      if row.rowSelected {
        newSelected := newSelected + [i];
      }
    }
    MapPointwise(RowFor(data), sortedData, tableData);
  }
}
