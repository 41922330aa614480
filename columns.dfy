/** Column descriptors and the per-column filter universe (`filterData`)
    that `setTableData` builds (src/DripTable.js:196-245). */
module Columns {
  import opened Wrappers
  import opened Lists
  import opened Cells

  datatype Direction = Asc | Desc

  /** The keys of an object column's `options` that the table reads; an
      absent key is `None`. */
  datatype ColumnOptions = ColumnOptions(
    name: Option<string>,
    display: Option<bool>,
    filter: Option<bool>,
    sort: Option<bool>,
    sortDirection: Option<Direction>,
    customRender: Option<Renderer>)

  /** An entry of the `columns` prop: a bare name or `{name, options}`
      (absent `options` are all-`None` options). */
  datatype ColumnSpec = Named(name: string) | Described(name: string, options: ColumnOptions)

  datatype ColumnDescriptor = ColumnDescriptor(
    name: string,
    display: bool,
    filter: bool,
    sort: bool,
    sortDirection: Option<Direction>,
    customRender: Option<Renderer>)

  /** Every row has one cell per column. */
  ghost predicate Rectangular(data: seq<Row>, width: nat)
  {
    forall i :: 0 <= i < |data| ==> |data[i]| == width
  }

  /** The descriptor of one column: the defaults display, filter and sort
      all true and no sort direction, overridden by an object column's
      options, whose `name` also wins over the column's own
      (src/DripTable.js:204-219). */
  function Describe(spec: ColumnSpec): (d: ColumnDescriptor)
    ensures d.name == if spec.Described? && spec.options.name.Some? then spec.options.name.value else spec.name
    ensures d.sortDirection == if spec.Described? then spec.options.sortDirection else None
    ensures !d.display <==> spec.Described? && spec.options.display == Some(false)
    ensures !d.filter <==> spec.Described? && spec.options.filter == Some(false)
    ensures !d.sort <==> spec.Described? && spec.options.sort == Some(false)
    ensures d.customRender.Some? ==> spec.Described? && d.customRender == spec.options.customRender
    ensures spec.Described? ==> d.customRender == spec.options.customRender
  {
    match spec
    case Named(n) => ColumnDescriptor(n, true, true, true, None, None)
    case Described(n, o) =>
      ColumnDescriptor(o.name.GetOr(n), o.display.GetOr(true), o.filter.GetOr(true), o.sort.GetOr(true),
                       o.sortDirection, o.customRender)
  }

  /** The effective value of column `c` in every row, in row order; the
      renderer is given the row index. */
  function ColumnValues(d: ColumnDescriptor, data: seq<Row>, c: nat): (vs: seq<Cell>)
    requires forall i :: 0 <= i < |data| ==> c < |data[i]|
    ensures |vs| == |data|
  {
    seq(|data|, i requires 0 <= i < |data| => EffectiveValue(d.customRender, i, data[i][c]))
  }

  /** `filterData[c]`: the distinct effective values of column `c` in
      first-seen order, sorted with the collator when `sortFilterList`. */
  function FilterValues(d: ColumnDescriptor, data: seq<Row>, c: nat, sortFilterList: bool,
                        collate: (Cell, Cell) -> int): seq<Cell>
    requires forall i :: 0 <= i < |data| ==> c < |data[i]|
  {
    var distinct := FirstOccurrences(ColumnValues(d, data, c));
    if sortFilterList then InsertionSort(distinct, NotAfter(collate, 1)) else distinct
  }

  /** Every effective value of the column occurs exactly once in
      `filterData[c]`, and nothing else does. */
  lemma FilterValuesExactlyOnce(d: ColumnDescriptor, data: seq<Row>, c: nat, sortFilterList: bool,
                                collate: (Cell, Cell) -> int)
    requires forall i :: 0 <= i < |data| ==> c < |data[i]|
    ensures forall v ::
      multiset(FilterValues(d, data, c, sortFilterList, collate))[v] == if v in ColumnValues(d, data, c) then 1 else 0
  {
    var distinct := FirstOccurrences(ColumnValues(d, data, c));
    FirstOccurrencesCounts(ColumnValues(d, data, c));
    SortPermutes(distinct, NotAfter(collate, 1));
  }

  /** Without `sortFilterList` the values keep their first-seen row order;
      with it, and a collator whose sign flips with its arguments, every
      neighbour pair is in collator order. */
  lemma FilterValuesOrder(d: ColumnDescriptor, data: seq<Row>, c: nat, sortFilterList: bool,
                          collate: (Cell, Cell) -> int)
    requires forall i :: 0 <= i < |data| ==> c < |data[i]|
    requires sortFilterList ==> SignAntisymmetric(collate)
    ensures var r := FilterValues(d, data, c, sortFilterList, collate);
      if sortFilterList then forall i :: 0 <= i < |r| - 1 ==> collate(r[i], r[i + 1]) <= 0
      else forall i, j :: 0 <= i < j < |r| ==>
        IndexOf(ColumnValues(d, data, c), r[i]) < IndexOf(ColumnValues(d, data, c), r[j])
  {
    var distinct := FirstOccurrences(ColumnValues(d, data, c));
    if sortFilterList {
      NotAfterTotal(collate, 1);
      assert TotalOn(NotAfter(collate, 1), distinct);
      SortSorted(distinct, NotAfter(collate, 1));
    } else {
      FirstOccurrencesOrder(ColumnValues(d, data, c));
    }
  }

  /** The loop of src/DripTable.js:226-239: walk the rows and push each
      effective value not seen before. */
  method CollectFilterValues(d: ColumnDescriptor, data: seq<Row>, c: nat) returns (values: seq<Cell>)
    requires forall i :: 0 <= i < |data| ==> c < |data[i]|
    ensures values == FirstOccurrences(ColumnValues(d, data, c))
  {
    ghost var all := ColumnValues(d, data, c);
    values := [];
    for rowIndex := 0 to |data|
      invariant values == FirstOccurrences(all[..rowIndex])
    {
      var value := EffectiveValue(d.customRender, rowIndex, data[rowIndex][c]);
      assert value == all[rowIndex];
      FirstOccurrencesStep(all, rowIndex);
      if IndexOf(values, value) < 0 {
        values := values + [value];
      }
    }
    assert all[..|data|] == all;
  }

  /** One descriptor per column, in column order, and each column's
      filter universe. */
  ghost predicate ColumnsBuilt(specs: seq<ColumnSpec>, data: seq<Row>, sortFilterList: bool,
                               collate: (Cell, Cell) -> int,
                               columnData: seq<ColumnDescriptor>, filterData: seq<seq<Cell>>)
    requires Rectangular(data, |specs|)
  {
    |columnData| == |specs| && |filterData| == |specs| &&
    (forall c :: 0 <= c < |specs| ==> columnData[c] == Describe(specs[c])) &&
    (forall c :: 0 <= c < |specs| ==> filterData[c] == FilterValues(columnData[c], data, c, sortFilterList, collate))
  }

  /** Column `c` got its descriptor and its filter universe. */
  ghost predicate ColumnBuilt(specs: seq<ColumnSpec>, data: seq<Row>, sortFilterList: bool,
                              collate: (Cell, Cell) -> int, d: ColumnDescriptor, values: seq<Cell>, c: nat)
    requires Rectangular(data, |specs|) && c < |specs|
  {
    d == Describe(specs[c]) && values == FilterValues(d, data, c, sortFilterList, collate)
  }

  /** The column loop of `setTableData`. */
  method BuildColumns(specs: seq<ColumnSpec>, data: seq<Row>, sortFilterList: bool,
                      collate: (Cell, Cell) -> int)
    returns (columnData: seq<ColumnDescriptor>, filterData: seq<seq<Cell>>)
    requires Rectangular(data, |specs|)
    ensures |columnData| == |specs| && |filterData| == |specs|
    ensures forall c :: 0 <= c < |specs| ==> columnData[c] == Describe(specs[c])
    ensures forall c :: 0 <= c < |specs| ==>
      filterData[c] == FilterValues(columnData[c], data, c, sortFilterList, collate)
  {
    columnData, filterData := [], [];
    for colIndex := 0 to |specs|
      invariant |columnData| == colIndex && |filterData| == colIndex
      invariant forall c :: 0 <= c < colIndex ==>
        ColumnBuilt(specs, data, sortFilterList, collate, columnData[c], filterData[c], c)
    {
      var columnOptions, values := BuildColumn(specs[colIndex], data, colIndex, sortFilterList, collate);
      assert ColumnBuilt(specs, data, sortFilterList, collate, columnOptions, values, colIndex);
      columnData, filterData := columnData + [columnOptions], filterData + [values];
    }
  }

  /** One pass of the column loop: the descriptor of column `c` and its
      filter universe. */
  method BuildColumn(spec: ColumnSpec, data: seq<Row>, c: nat, sortFilterList: bool,
                     collate: (Cell, Cell) -> int)
    returns (columnOptions: ColumnDescriptor, values: seq<Cell>)
    requires forall i :: 0 <= i < |data| ==> c < |data[i]|
    ensures columnOptions == Describe(spec)
    ensures values == FilterValues(columnOptions, data, c, sortFilterList, collate)
  {
    columnOptions := Describe(spec);
    values := CollectFilterValues(columnOptions, data, c);
    if sortFilterList {
      values := InsertionSort(values, NotAfter(collate, 1));
    }
  }
}
