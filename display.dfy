/** The row predicate and the `displayData` projection
    (`isRowDisplayed` and `getDisplayData`, src/DripTable.js:265-344). */
module Display {
  import opened Lists
  import opened Cells
  import opened Columns

  /** Shapes the row filter can rely on: one descriptor and one filter
      list for each cell of the row. */
  ghost predicate Fits(cols: seq<ColumnDescriptor>, row: Row, filters: seq<seq<Cell>>)
  {
    |row| <= |cols| && |row| <= |filters|
  }

  /** The value the row filter reads from cell `k`: note that the renderer
      is given the column index here, not the row index. */
  function ScanValue(cols: seq<ColumnDescriptor>, row: Row, k: nat): Cell
    requires k < |row| <= |cols|
  {
    EffectiveValue(cols[k].customRender, k, row[k])
  }

  /** Column `k` has a non-empty filter that does not list the cell's value. */
  predicate Rejects(cols: seq<ColumnDescriptor>, row: Row, filters: seq<seq<Cell>>, k: nat)
    requires Fits(cols, row, filters) && k < |row|
  {
    |filters[k]| > 0 && ScanValue(cols, row, k) !in filters[k]
  }

  /** The search text is set and cell `k` contains it. */
  predicate Hits(cols: seq<ColumnDescriptor>, row: Row, query: string, caseSensitive: bool, k: nat)
    requires k < |row| <= |cols|
  {
    query != "" && SearchHits(ScanValue(cols, row, k), query, caseSensitive)
  }

  /** How the scan over a row's cells ends: at a column whose filter
      rejects the row, at the first search hit, or at the end of the row. */
  datatype Scan = Filtered | Found | Exhausted

  function ScanRow(cols: seq<ColumnDescriptor>, row: Row, filters: seq<seq<Cell>>, query: string,
                   caseSensitive: bool, k: nat): Scan
    requires Fits(cols, row, filters) && k <= |row|
    decreases |row| - k
  {
    if k == |row| then Exhausted
    else if Rejects(cols, row, filters, k) then Filtered
    else if Hits(cols, row, query, caseSensitive, k) then Found
    else ScanRow(cols, row, filters, query, caseSensitive, k + 1)
  }

  /** `isRowDisplayed`: hidden when the scan stopped at a rejecting filter,
      or when a search text is set and the scan found no hit. The empty
      query stands for a `null` search text. */
  predicate RowDisplayed(cols: seq<ColumnDescriptor>, row: Row, filters: seq<seq<Cell>>, query: string,
                         caseSensitive: bool)
    requires Fits(cols, row, filters)
  {
    var s := ScanRow(cols, row, filters, query, caseSensitive, 0);
    s != Filtered && (query != "" ==> s == Found)
  }

  /** Every column from `k0` on whose filter rejects the row comes after
      a column from `k0` on where the search text was found. */
  ghost predicate RejectsAfterHit(cols: seq<ColumnDescriptor>, row: Row, filters: seq<seq<Cell>>,
                                  query: string, caseSensitive: bool, k0: nat)
    requires Fits(cols, row, filters) && k0 <= |row|
  {
    forall k :: k0 <= k < |row| && Rejects(cols, row, filters, k) ==>
      exists j :: k0 <= j < k && Hits(cols, row, query, caseSensitive, j)
  }

  /** Some column from `k0` on contains the search text. */
  ghost predicate HitFrom(cols: seq<ColumnDescriptor>, row: Row, query: string, caseSensitive: bool, k0: nat)
    requires k0 <= |row| <= |cols|
  {
    exists k :: k0 <= k < |row| && Hits(cols, row, query, caseSensitive, k)
  }

  /** What the scan from column `k0` decides, stated without the scan. */
  lemma {:induction false} ScanFrom(cols: seq<ColumnDescriptor>, row: Row, filters: seq<seq<Cell>>,
                                     query: string, caseSensitive: bool, k0: nat)
    requires Fits(cols, row, filters) && k0 <= |row|
    ensures var s := ScanRow(cols, row, filters, query, caseSensitive, k0);
      (s != Filtered && (query != "" ==> s == Found)) <==>
      RejectsAfterHit(cols, row, filters, query, caseSensitive, k0) &&
      (query != "" ==> HitFrom(cols, row, query, caseSensitive, k0))
    decreases |row| - k0
  {
    if k0 == |row| {
    } else if Rejects(cols, row, filters, k0) {
    } else if Hits(cols, row, query, caseSensitive, k0) {
      assert HitFrom(cols, row, query, caseSensitive, k0);
      forall k | k0 <= k < |row| && Rejects(cols, row, filters, k)
        ensures exists j :: k0 <= j < k && Hits(cols, row, query, caseSensitive, j)
      {
        assert k0 < k;
      }
    } else {
      ScanFrom(cols, row, filters, query, caseSensitive, k0 + 1);
      ScanSkip(cols, row, filters, query, caseSensitive, k0);
    }
  }

  /** A column that neither rejects the row nor contains the search text
      changes neither condition. */
  lemma ScanSkip(cols: seq<ColumnDescriptor>, row: Row, filters: seq<seq<Cell>>,
                 query: string, caseSensitive: bool, k0: nat)
    requires Fits(cols, row, filters) && k0 < |row|
    requires !Rejects(cols, row, filters, k0) && !Hits(cols, row, query, caseSensitive, k0)
    ensures RejectsAfterHit(cols, row, filters, query, caseSensitive, k0) <==>
            RejectsAfterHit(cols, row, filters, query, caseSensitive, k0 + 1)
    ensures HitFrom(cols, row, query, caseSensitive, k0) <==> HitFrom(cols, row, query, caseSensitive, k0 + 1)
  {
    if RejectsAfterHit(cols, row, filters, query, caseSensitive, k0) {
      forall k | k0 + 1 <= k < |row| && Rejects(cols, row, filters, k)
        ensures exists j :: k0 + 1 <= j < k && Hits(cols, row, query, caseSensitive, j)
      {
        var j :| k0 <= j < k && Hits(cols, row, query, caseSensitive, j);
        assert j != k0;
      }
    }
    if RejectsAfterHit(cols, row, filters, query, caseSensitive, k0 + 1) {
      forall k | k0 <= k < |row| && Rejects(cols, row, filters, k)
        ensures exists j :: k0 <= j < k && Hits(cols, row, query, caseSensitive, j)
      {
        assert k != k0;
        var j :| k0 + 1 <= j < k && Hits(cols, row, query, caseSensitive, j);
      }
    }
    if HitFrom(cols, row, query, caseSensitive, k0) {
      var k :| k0 <= k < |row| && Hits(cols, row, query, caseSensitive, k);
      assert k != k0;
    }
  }

  /** A row is shown exactly when every column whose filter rejects it
      comes after a column where the search text was found (the scan
      stops at the first hit), and, when a search text is set, some
      column contains it. */
  lemma RowDisplayedIff(cols: seq<ColumnDescriptor>, row: Row, filters: seq<seq<Cell>>, query: string,
                        caseSensitive: bool)
    requires Fits(cols, row, filters)
    ensures RowDisplayed(cols, row, filters, query, caseSensitive) <==>
      (forall k :: 0 <= k < |row| && Rejects(cols, row, filters, k) ==>
         exists j :: 0 <= j < k && Hits(cols, row, query, caseSensitive, j)) &&
      (query != "" ==> exists k :: 0 <= k < |row| && Hits(cols, row, query, caseSensitive, k))
  {
    ScanFrom(cols, row, filters, query, caseSensitive, 0);
  }

  /** A row without cells never satisfies a search. */
  lemma EmptyRowFailsSearch(cols: seq<ColumnDescriptor>, filters: seq<seq<Cell>>, query: string,
                            caseSensitive: bool)
    requires query != ""
    ensures !RowDisplayed(cols, [], filters, query, caseSensitive)
  {
  }

  /** The loop of `isRowDisplayed`, with its two flags and its breaks. */
  method IsRowDisplayed(cols: seq<ColumnDescriptor>, row: Row, filters: seq<seq<Cell>>, query: string,
                        caseSensitive: bool) returns (shown: bool)
    requires Fits(cols, row, filters)
    ensures shown == RowDisplayed(cols, row, filters, query, caseSensitive)
  {
    ghost var outcome := ScanRow(cols, row, filters, query, caseSensitive, 0);
    var isFiltered, isSearchFound := false, false;
    var index := 0;
    while index < |row|
      invariant 0 <= index <= |row|
      invariant !isFiltered && !isSearchFound
      invariant ScanRow(cols, row, filters, query, caseSensitive, index) == outcome
    {
      var column := EffectiveValue(cols[index].customRender, index, row[index]);
      assert column == ScanValue(cols, row, index);
      if |filters[index]| > 0 && IndexOf(filters[index], column) < 0 {
        isFiltered := true;
        assert ScanRow(cols, row, filters, query, caseSensitive, index) == Filtered;
        break;
      }
      assert !Rejects(cols, row, filters, index);
      var searchCase := if !caseSensitive then ToLower(CellText(column)) else CellText(column);
      if query != "" && Contains(searchCase, ToLower(query)) {
        isSearchFound := true;
        assert ScanRow(cols, row, filters, query, caseSensitive, index) == Found;
        break;
      }
      assert ScanRow(cols, row, filters, query, caseSensitive, index) ==
             ScanRow(cols, row, filters, query, caseSensitive, index + 1);
      index := index + 1;
    }
    shown := !(isFiltered || (query != "" && !isSearchFound));
  }

  /** A displayed row: each cell drawn by its column's renderer, which is
      given the row index, or left raw. */
  function ShowRow(cols: seq<ColumnDescriptor>, row: Row, rowIndex: nat): (r: seq<Shown>)
    requires |cols| <= |row|
    ensures |r| == |cols|
  {
    seq(|cols|, c requires 0 <= c < |cols| => ShowCell(cols[c].customRender, rowIndex, row[c]))
  }

  /** The displayed rows among the first `n` data rows, in data order. */
  function DisplayPrefix(cols: seq<ColumnDescriptor>, data: seq<Row>, filters: seq<seq<Cell>>,
                         query: string, caseSensitive: bool, n: nat): seq<seq<Shown>>
    requires Rectangular(data, |cols|) && |filters| == |cols| && n <= |data|
  {
    if n == 0 then []
    else
      var before := DisplayPrefix(cols, data, filters, query, caseSensitive, n - 1);
      if RowDisplayed(cols, data[n - 1], filters, query, caseSensitive)
      then before + [ShowRow(cols, data[n - 1], n - 1)]
      else before
  }

  /** `getDisplayData(columns, data, filterList, searchText)` */
  function DisplayRows(cols: seq<ColumnDescriptor>, data: seq<Row>, filters: seq<seq<Cell>>,
                       query: string, caseSensitive: bool): seq<seq<Shown>>
    requires Rectangular(data, |cols|) && |filters| == |cols|
  {
    DisplayPrefix(cols, data, filters, query, caseSensitive, |data|)
  }

  /** Data row `i` passes the row filter. */
  function Passes(cols: seq<ColumnDescriptor>, data: seq<Row>, filters: seq<seq<Cell>>,
                  query: string, caseSensitive: bool): nat -> bool
  {
    (i: nat) => i < |data| && |data[i]| <= |cols| && |data[i]| <= |filters| &&
      RowDisplayed(cols, data[i], filters, query, caseSensitive)
  }

  /** The indices of the displayed rows among the first `n`, increasing. */
  function PassingIndices(cols: seq<ColumnDescriptor>, data: seq<Row>, filters: seq<seq<Cell>>,
                          query: string, caseSensitive: bool, n: nat): (p: seq<nat>)
    requires Rectangular(data, |cols|) && |filters| == |cols| && n <= |data|
    ensures forall j :: 0 <= j < |p| ==> p[j] < n
    ensures StrictlyIncreasing(p)
    ensures forall i :: 0 <= i < n ==> (i in p <==> RowDisplayed(cols, data[i], filters, query, caseSensitive))
  {
    IndicesWhere(n, Passes(cols, data, filters, query, caseSensitive))
  }

  /** `displayData` is the order-preserving subsequence of the rows that
      pass the row filter (PassingIndices), each drawn with one cell per
      column. */
  lemma {:induction false} DisplayIsSubsequence(cols: seq<ColumnDescriptor>, data: seq<Row>,
                                                filters: seq<seq<Cell>>, query: string,
                                                caseSensitive: bool, n: nat)
    requires Rectangular(data, |cols|) && |filters| == |cols| && n <= |data|
    ensures var p := PassingIndices(cols, data, filters, query, caseSensitive, n);
      var d := DisplayPrefix(cols, data, filters, query, caseSensitive, n);
      |d| == |p| && forall j :: 0 <= j < |p| ==> d[j] == ShowRow(cols, data[p[j]], p[j]) && |d[j]| == |cols|
  {
    if n > 0 {
      DisplayIsSubsequence(cols, data, filters, query, caseSensitive, n - 1);
      var p' := PassingIndices(cols, data, filters, query, caseSensitive, n - 1);
      var d' := DisplayPrefix(cols, data, filters, query, caseSensitive, n - 1);
      if RowDisplayed(cols, data[n - 1], filters, query, caseSensitive) {
        var p := PassingIndices(cols, data, filters, query, caseSensitive, n);
        var d := DisplayPrefix(cols, data, filters, query, caseSensitive, n);
        assert p == p' + [n - 1];
        assert d == d' + [ShowRow(cols, data[n - 1], n - 1)];
        forall j | 0 <= j < |p| ensures d[j] == ShowRow(cols, data[p[j]], p[j]) && |d[j]| == |cols| {
          if j < |p'| {
            assert p[j] == p'[j] && d[j] == d'[j];
          }
        }
      } else {
        assert PassingIndices(cols, data, filters, query, caseSensitive, n) == p';
      }
    }
  }

  /** With every filter list empty and no search text, every data row is
      displayed, at its own index. */
  lemma {:induction false} UnfilteredShowsAll(cols: seq<ColumnDescriptor>, data: seq<Row>,
                                              filters: seq<seq<Cell>>, caseSensitive: bool, n: nat)
    requires Rectangular(data, |cols|) && |filters| == |cols| && n <= |data|
    requires forall c :: 0 <= c < |filters| ==> filters[c] == []
    ensures var d := DisplayPrefix(cols, data, filters, "", caseSensitive, n);
      |d| == n && forall i :: 0 <= i < n ==> d[i] == ShowRow(cols, data[i], i)
  {
    if n > 0 {
      UnfilteredShowsAll(cols, data, filters, caseSensitive, n - 1);
      var row := data[n - 1];
      ScanFrom(cols, row, filters, "", caseSensitive, 0);
    }
  }

  /** The loop of `getDisplayData`: push each passing row, drawn. */
  method GetDisplayData(cols: seq<ColumnDescriptor>, data: seq<Row>, filters: seq<seq<Cell>>,
                        query: string, caseSensitive: bool) returns (newRows: seq<seq<Shown>>)
    requires Rectangular(data, |cols|) && |filters| == |cols|
    ensures newRows == DisplayRows(cols, data, filters, query, caseSensitive)
  {
    newRows := [];
    for index := 0 to |data|
      invariant newRows == DisplayPrefix(cols, data, filters, query, caseSensitive, index)
    {
      var shown := IsRowDisplayed(cols, data[index], filters, query, caseSensitive);
      if shown {
        newRows := newRows + [ShowRow(cols, data[index], index)];
      }
    }
  }

  /** Two column lists that differ at most outside their renderers (for
      instance in `display` or `sortDirection`). */
  ghost predicate SameRenderers(cols: seq<ColumnDescriptor>, cols': seq<ColumnDescriptor>)
  {
    |cols| == |cols'| && forall c :: 0 <= c < |cols| ==> cols[c].customRender == cols'[c].customRender
  }

  lemma {:induction false} ScanIgnoresAllButRenderers(cols: seq<ColumnDescriptor>, cols': seq<ColumnDescriptor>,
                                                      row: Row, filters: seq<seq<Cell>>, query: string,
                                                      caseSensitive: bool, k: nat)
    requires SameRenderers(cols, cols') && Fits(cols, row, filters) && k <= |row|
    ensures ScanRow(cols, row, filters, query, caseSensitive, k) ==
            ScanRow(cols', row, filters, query, caseSensitive, k)
    decreases |row| - k
  {
    if k < |row| {
      ScanIgnoresAllButRenderers(cols, cols', row, filters, query, caseSensitive, k + 1);
    }
  }

  /** Which rows are displayed, and how, depends on the columns only
      through their renderers: hiding a column or changing its sort
      direction leaves `displayData` as it is. */
  lemma {:induction false} DisplayIgnoresAllButRenderers(cols: seq<ColumnDescriptor>, cols': seq<ColumnDescriptor>,
                                                         data: seq<Row>, filters: seq<seq<Cell>>,
                                                         query: string, caseSensitive: bool, n: nat)
    requires SameRenderers(cols, cols') && Rectangular(data, |cols|) && |filters| == |cols| && n <= |data|
    ensures DisplayPrefix(cols, data, filters, query, caseSensitive, n) ==
            DisplayPrefix(cols', data, filters, query, caseSensitive, n)
  {
    if n > 0 {
      DisplayIgnoresAllButRenderers(cols, cols', data, filters, query, caseSensitive, n - 1);
      ScanIgnoresAllButRenderers(cols, cols', data[n - 1], filters, query, caseSensitive, 0);
      assert ShowRow(cols, data[n - 1], n - 1) == ShowRow(cols', data[n - 1], n - 1);
    }
  }
}
