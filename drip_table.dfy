/** The table component's state and its handlers (src/DripTable.js). Each
    handler is one synchronous update of the state record; the callbacks
    the source fires after an update are not part of this model. */
module Table {
  import opened Wrappers
  import opened Lists
  import opened Cells
  import opened Columns
  import opened Display
  import opened TableSort
  import opened Selection
  import opened TableHead

  /** The options a user passes; an absent key is `None`. */
  datatype UserOptions = UserOptions(
    caseSensitive: Option<bool>,
    sortFilterList: Option<bool>,
    rowsPerPage: Option<int>,
    page: Option<int>,
    filterList: Option<seq<seq<Cell>>>,
    rowsPerPageOptions: Option<seq<int>>)

  /** The options the table reads, defaults filled in (`this.options`). */
  datatype TableOptions = TableOptions(
    caseSensitive: bool,
    sortFilterList: bool,
    rowsPerPage: int,
    page: Option<int>,
    filterList: Option<seq<seq<Cell>>>,
    rowsPerPageOptions: seq<int>)

  /** Merging an array into an array replaces it element by element: the
      user's entries, then the defaults beyond their length. */
  function MergeArray(defaults: seq<int>, given: seq<int>): (r: seq<int>)
    ensures |r| == if |given| >= |defaults| then |given| else |defaults|
    ensures forall i :: 0 <= i < |r| ==> r[i] == if i < |given| then given[i] else defaults[i]
  {
    if |given| >= |defaults| then given else given + defaults[|given|..]
  }

  /** `getDefaultOptions`: the defaults (case-insensitive search, sorted
      filter lists, ten rows per page, page sizes 5, 10, 15 and 100)
      overridden by what the user gives. */
  function MergeOptions(user: UserOptions): (o: TableOptions)
    ensures o.caseSensitive <==> user.caseSensitive == Some(true)
    ensures !o.sortFilterList <==> user.sortFilterList == Some(false)
    ensures o.rowsPerPage == 10 <==> user.rowsPerPage.None? || user.rowsPerPage == Some(10)
    ensures user.rowsPerPage.Some? ==> o.rowsPerPage == user.rowsPerPage.value
    ensures o.page == user.page && o.filterList == user.filterList
    ensures user.rowsPerPageOptions.Some? ==> user.rowsPerPageOptions.value <= o.rowsPerPageOptions
    ensures var given := user.rowsPerPageOptions.GetOr([]);
      |o.rowsPerPageOptions| >= 4 && forall i :: |given| <= i < 4 ==> o.rowsPerPageOptions[i] == [5, 10, 15, 100][i]
  {
    TableOptions(
      user.caseSensitive.GetOr(false),
      user.sortFilterList.GetOr(true),
      user.rowsPerPage.GetOr(10),
      user.page,
      user.filterList,
      MergeArray([5, 10, 15, 100], user.rowsPerPageOptions.GetOr([])))
  }

  /** The search text as the row filter reads it: `null` and `""` both
      switch the search off. */
  function QueryOf(searchText: Option<string>): string
  {
    match searchText
    case None => ""
    case Some(t) => t
  }

  /** The three filter edit modes of `filterUpdate`; `MultiselectCleared`
      stands for the empty string passed in multiselect mode, and any
      mode other than checkbox and multiselect acts as a dropdown. */
  datatype FilterEdit = Checkbox(value: Cell) | Dropdown(value: Cell) | Multiselect(values: seq<Cell>)
                      | MultiselectCleared

  /** A column's filter list after an edit. */
  function EditedFilter(list: seq<Cell>, edit: FilterEdit): (r: seq<Cell>)
    ensures edit.Dropdown? ==>
      (r == [edit.value] <==> edit.value !in list && edit.value != Str("")) &&
      (r == [] <==> edit.value in list || edit.value == Str(""))
    ensures edit.Multiselect? ==> r == edit.values
    ensures edit.MultiselectCleared? ==> r == []
    ensures edit.Checkbox? && edit.value !in list ==> r == list + [edit.value]
    ensures edit.Checkbox? && edit.value in list ==>
      |r| == |list| - 1 && multiset(r) + multiset{edit.value} == multiset(list)
  {
    match edit
    case Checkbox(v) => Toggle(list, v)
    case Dropdown(v) => if IndexOf(list, v) >= 0 || v == Str("") then [] else [v]
    case Multiselect(vs) => vs
    case MultiselectCleared => []
  }

  /** A checkbox edit flips the value's membership and keeps the others;
      for a value not yet listed, two edits give back the list. */
  lemma CheckboxEditFlips(list: seq<Cell>, v: Cell)
    requires NoDuplicates(list)
    ensures var r := EditedFilter(list, Checkbox(v));
      NoDuplicates(r) && (v in r <==> v !in list) &&
      (forall w :: w != v ==> (w in r <==> w in list)) &&
      (v !in list ==> EditedFilter(r, Checkbox(v)) == list)
  {
    ToggleFlipsMembership(list, v);
    if v !in list {
      ToggleTwiceRestores(list, v);
    }
  }

  /** `filterData[index].splice(pos, 1, value)`: with `pos == -1` the
      splice starts at the last element. */
  function SpliceOne(list: seq<Cell>, pos: int, value: Cell): (r: seq<Cell>)
    requires -1 <= pos < |list|
    ensures value in r && |r| == if list == [] then 1 else |list|
    ensures 0 <= pos ==> r[pos] == value && forall k :: 0 <= k < |list| && k != pos ==> r[k] == list[k]
    ensures pos == -1 && list != [] ==> r == list[..|list| - 1] + [value]
  {
    if pos >= 0 then
      var r := list[pos := value];
      assert r[pos] == value;
      r
    else if |list| == 0 then [value]
    else
      var r := list[|list| - 1 := value];
      assert r[|list| - 1] == value && r == list[..|list| - 1] + [value];
      r
  }

  /** The selection after `selectRowUpdate`: a "head" update selects all
      (or the displayed) data indices, or nothing; a "cell" update toggles
      one index. */
  function UpdatedSelection(data: seq<Row>, display: seq<seq<Shown>>, filters: seq<seq<Cell>>,
                            selected: seq<int>, update: SelectRequest): seq<int>
  {
    match update
    case Head(v) => HeadSelection(data, display, filters, v)
    case CellToggle(i) => Toggle(selected, i)
  }

  /** A selection update never lists an index twice: a "head" update
      gives increasing indices, and toggling keeps a duplicate-free list
      duplicate-free. */
  lemma UpdatedSelectionNoDuplicates(data: seq<Row>, display: seq<seq<Shown>>, filters: seq<seq<Cell>>,
                                     selected: seq<int>, update: SelectRequest)
    requires NoDuplicates(selected)
    ensures NoDuplicates(UpdatedSelection(data, display, filters, selected, update))
  {
    match update {
      case Head(v) =>
        var r := HeadSelection(data, display, filters, v);
        assert StrictlyIncreasing(r) by {
          if v != Checked(false) && !FilteringActive(filters) {
            assert forall i :: 0 <= i < |data| ==> Range(|data|)[i] == i;
          }
        }
      case CellToggle(i) =>
        ToggleFlipsMembership(selected, i);
    }
  }

  /** The computation of `selectRowUpdate`; a "head" update recomputes
      the displayed rows. */
  method ComputeSelection(cols: seq<ColumnDescriptor>, data: seq<Row>, filters: seq<seq<Cell>>,
                          query: string, caseSensitive: bool, selected: seq<int>, update: SelectRequest)
    returns (newRows: seq<int>)
    requires Rectangular(data, |cols|) && |filters| == |cols|
    ensures newRows == UpdatedSelection(data, DisplayRows(cols, data, filters, query, caseSensitive),
                                        filters, selected, update)
  {
    match update {
      case Head(value) =>
        var displayDataList := GetDisplayData(cols, data, filters, query, caseSensitive);
        newRows := SelectAllRows(data, displayDataList, filters, value);
      case CellToggle(value) =>
        newRows := selected;
        var rowPos := IndexOf(newRows, value);
        if rowPos >= 0 {
          newRows := RemoveAt(newRows, rowPos);
        } else {
          newRows := newRows + [value];
        }
    }
  }

  /** The computation of `toggleSortColumn`: the new directions, the
      announcement, the data sorted with the direction recorded before the
      click, the selection carried along and the new displayed rows. */
  method SortByColumn(cols: seq<ColumnDescriptor>, data: seq<Row>, filters: seq<seq<Cell>>,
                      query: string, caseSensitive: bool, selected: seq<int>, index: nat,
                      cmp: CellComparison)
    returns (newColumns: seq<ColumnDescriptor>, text: string, sortedData: seq<Row>,
             sortedSelection: seq<int>, shown: seq<seq<Shown>>)
    requires Rectangular(data, |cols|) && |filters| == |cols| && index < |cols|
    ensures newColumns == ToggledColumns(cols, index)
    ensures text == AnnounceText(newColumns[index])
    ensures sortedData == SortedData(data, index, selected, cmp, cols[index].sortDirection)
    ensures sortedSelection == SortedSelection(data, index, selected, cmp, cols[index].sortDirection)
    ensures Rectangular(sortedData, |cols|)
    ensures shown == DisplayRows(newColumns, sortedData, filters, query, caseSensitive)
  {
    var order := cols[index].sortDirection;
    newColumns := ToggleDirections(cols, index);
    text := AnnounceText(newColumns[index]);
    sortedData, sortedSelection := SortTable(data, index, order, selected, cmp);
    SortIsPermutation(data, index, selected, cmp, order);
    shown := GetDisplayData(newColumns, sortedData, filters, query, caseSensitive);
  }

  /** How a handler that may throw ended. */
  datatype Status = Done | Thrown(message: string)

  const FilterListMismatch := "Provided options.filterList does not match the column length!!"

  class DripTable {
    var data: seq<Row>
    var displayData: seq<seq<Shown>>
    var columns: seq<ColumnDescriptor>
    var filterData: seq<seq<Cell>>
    var filterList: seq<seq<Cell>>
    var selectedRows: seq<int>
    var page: int
    var rowsPerPage: int
    var rowsPerPageOptions: Option<seq<int>>
    var searchText: Option<string>
    var announceText: Option<string>
    /** `this.options` */
    var options: TableOptions
    /** `this.props.columns` */
    var columnSpecs: seq<ColumnSpec>
    /** The locale string comparison and the collator, from the environment. */
    const cmp: CellComparison
    const collate: (Cell, Cell) -> int

    /** One descriptor, one filter universe and one filter list per
        column, every row with one cell per column, `displayData` the
        rows that pass the filters and the search, and no index selected
        twice. */
    ghost predicate Valid()
      reads this
    {
      |columns| == |columnSpecs| && |filterData| == |columns| && |filterList| == |columns| &&
      Rectangular(data, |columns|) && NoDuplicates(selectedRows) &&
      displayData == DisplayRows(columns, data, filterList, QueryOf(searchText), options.caseSensitive)
    }

    /** The initial state (src/DripTable.js:119-132). */
    constructor(cmp: CellComparison, collate: (Cell, Cell) -> int)
      ensures data == [] && displayData == [] && columns == [] && filterData == [] && filterList == []
      ensures selectedRows == [] && page == 0 && rowsPerPage == 0 && rowsPerPageOptions == None
      ensures searchText == None && announceText == None && columnSpecs == []
      ensures options == MergeOptions(UserOptions(None, None, None, None, None, None))
      ensures this.cmp == cmp && this.collate == collate
      ensures Valid()
    {
      data, displayData, columns, filterData, filterList := [], [], [], [], [];
      selectedRows, page, rowsPerPage, rowsPerPageOptions := [], 0, 0, None;
      searchText, announceText, columnSpecs := None, None, [];
      options := MergeOptions(UserOptions(None, None, None, None, None, None));
      this.cmp, this.collate := cmp, collate;
    }

    /** `setTableOptions`: copy the truthy options among rowsPerPage,
        page (made zero-based), filterList and rowsPerPageOptions. */
    method SetTableOptions()
      modifies this
      ensures rowsPerPage == if options.rowsPerPage != 0 then options.rowsPerPage else old(rowsPerPage)
      ensures page == if options.page.Some? && options.page.value != 0 then options.page.value - 1 else old(page)
      ensures filterList == if options.filterList.Some? then options.filterList.value else old(filterList)
      ensures rowsPerPageOptions == Some(options.rowsPerPageOptions)
      ensures data == old(data) && displayData == old(displayData) && columns == old(columns)
      ensures filterData == old(filterData) && selectedRows == old(selectedRows)
      ensures searchText == old(searchText) && announceText == old(announceText)
      ensures options == old(options) && columnSpecs == old(columnSpecs)
    {
      if options.rowsPerPage != 0 {
        rowsPerPage := options.rowsPerPage;
      }
      if options.page.Some? && options.page.value != 0 {
        page := options.page.value - 1;
      }
      if options.filterList.Some? {
        filterList := options.filterList.value;
      }
      rowsPerPageOptions := Some(options.rowsPerPageOptions);
    }

    /** `setTableData` for the current columns: build the descriptors and
        filter universes, take the given filter lists or empty ones, clear
        the selection and recompute `displayData`. It throws, changing
        nothing, when the given filter lists are not one per column. */
    method SetTableData(newData: seq<Row>, givenFilterList: Option<seq<seq<Cell>>>) returns (status: Status)
      requires Rectangular(newData, |columnSpecs|)
      modifies this
      ensures status == Done <==> givenFilterList.None? || |givenFilterList.value| == |columnSpecs|
      ensures status.Thrown? ==> status.message == FilterListMismatch && unchanged(this)
      ensures status == Done ==>
        Valid() && data == newData && selectedRows == [] &&
        ColumnsBuilt(columnSpecs, newData, options.sortFilterList, collate, columns, filterData) &&
        filterList == (if givenFilterList.Some? then givenFilterList.value
                       else seq(|columnSpecs|, _ => []))
      ensures status == Done ==>
        page == old(page) && rowsPerPage == old(rowsPerPage) && searchText == old(searchText) &&
        announceText == old(announceText) && rowsPerPageOptions == old(rowsPerPageOptions) &&
        options == old(options) && columnSpecs == old(columnSpecs)
    {
      var columnData, newFilterData := BuildColumns(columnSpecs, newData, options.sortFilterList, collate);
      var newFilterList: seq<seq<Cell>> := seq(|columnSpecs|, _ => []);
      if givenFilterList.Some? {
        newFilterList := givenFilterList.value;
      }
      if |newFilterList| != |columnSpecs| {
        return Thrown(FilterListMismatch);
      }
      var shown := GetDisplayData(columnData, newData, newFilterList, QueryOf(searchText), options.caseSensitive);
      Load(newData, columnData, newFilterData, newFilterList, shown, []);
      status := Done;
    }

    /** Replace the rows, the column state, the displayed rows and the
        selection together, keeping the paging, search and options. */
    method Load(newData: seq<Row>, newColumns: seq<ColumnDescriptor>, newFilterData: seq<seq<Cell>>,
                newFilterList: seq<seq<Cell>>, shown: seq<seq<Shown>>, newSelection: seq<int>)
      modifies this
      ensures data == newData && columns == newColumns && filterData == newFilterData
      ensures filterList == newFilterList && displayData == shown && selectedRows == newSelection
      ensures page == old(page) && rowsPerPage == old(rowsPerPage) && searchText == old(searchText)
      ensures announceText == old(announceText) && rowsPerPageOptions == old(rowsPerPageOptions)
      ensures options == old(options) && columnSpecs == old(columnSpecs)
    {
      columns, filterData, filterList, selectedRows, data, displayData :=
        newColumns, newFilterData, newFilterList, newSelection, newData, shown;
    }

    /** `initializeTable`: merge the options, copy some into the state,
        then build the table for the given columns and rows. */
    method InitializeTable(specs: seq<ColumnSpec>, newData: seq<Row>, user: UserOptions) returns (status: Status)
      requires Rectangular(newData, |specs|)
      modifies this
      ensures options == MergeOptions(user) && columnSpecs == specs
      ensures status == Done <==> user.filterList.None? || |user.filterList.value| == |specs|
      ensures status == Done ==>
        Valid() && data == newData && selectedRows == [] &&
        ColumnsBuilt(specs, newData, options.sortFilterList, collate, columns, filterData) &&
        filterList == (if user.filterList.Some? then user.filterList.value else seq(|specs|, _ => []))
      ensures rowsPerPage == if options.rowsPerPage != 0 then options.rowsPerPage else old(rowsPerPage)
      ensures page == if user.page.Some? && user.page.value != 0 then user.page.value - 1 else old(page)
      ensures rowsPerPageOptions == Some(options.rowsPerPageOptions)
      ensures searchText == old(searchText) && announceText == old(announceText)
      ensures status.Thrown? ==>
        status.message == FilterListMismatch && filterList == user.filterList.value &&
        data == old(data) && displayData == old(displayData) && columns == old(columns) &&
        filterData == old(filterData) && selectedRows == old(selectedRows)
    {
      options := MergeOptions(user);
      columnSpecs := specs;
      SetTableOptions();
      status := SetTableData(newData, user.filterList);
    }

    /** `searchTextUpdate`: an empty text switches the search off. */
    method SearchTextUpdate(text: Option<string>)
      requires Valid()
      modifies this
      ensures searchText == if text.Some? && |text.value| > 0 then text else None
      ensures Valid()
      ensures data == old(data) && columns == old(columns) && filterData == old(filterData)
      ensures filterList == old(filterList) && selectedRows == old(selectedRows)
      ensures page == old(page) && rowsPerPage == old(rowsPerPage) && announceText == old(announceText)
      ensures rowsPerPageOptions == old(rowsPerPageOptions) && options == old(options)
      ensures columnSpecs == old(columnSpecs)
    {
      var shown := GetDisplayData(columns, data, filterList, QueryOf(text), options.caseSensitive);
      searchText := if text.Some? && |text.value| > 0 then text else None;
      displayData := shown;
    }

    /** `resetFilters`: every column's filter list becomes empty. */
    method ResetFilters()
      requires Valid()
      modifies this
      ensures filterList == seq(|columns|, _ => [])
      ensures Valid()
      ensures data == old(data) && columns == old(columns) && filterData == old(filterData)
      ensures searchText == old(searchText) && selectedRows == old(selectedRows)
      ensures page == old(page) && rowsPerPage == old(rowsPerPage) && announceText == old(announceText)
      ensures rowsPerPageOptions == old(rowsPerPageOptions) && options == old(options)
      ensures columnSpecs == old(columnSpecs)
    {
      var cleared: seq<seq<Cell>> := seq(|columns|, _ => []);
      displayData := GetDisplayData(columns, data, cleared, QueryOf(searchText), options.caseSensitive);
      filterList := cleared;
    }

    /** `filterUpdate(index, value, type)`: only column `index`'s filter
        list changes. */
    method FilterUpdate(index: nat, edit: FilterEdit)
      requires Valid() && index < |filterList|
      modifies this
      ensures filterList == old(filterList)[index := EditedFilter(old(filterList)[index], edit)]
      ensures Valid()
      ensures data == old(data) && columns == old(columns) && filterData == old(filterData)
      ensures searchText == old(searchText) && selectedRows == old(selectedRows)
      ensures page == old(page) && rowsPerPage == old(rowsPerPage) && announceText == old(announceText)
      ensures rowsPerPageOptions == old(rowsPerPageOptions) && options == old(options)
      ensures columnSpecs == old(columnSpecs)
    {
      var newFilterList := filterList;
      var filterPos := IndexOf(newFilterList[index], if edit.Multiselect? || edit.MultiselectCleared? then Str("") else edit.value);
      match edit {
        case Checkbox(v) =>
          if filterPos >= 0 {
            newFilterList := newFilterList[index := RemoveAt(newFilterList[index], filterPos)];
          } else {
            newFilterList := newFilterList[index := newFilterList[index] + [v]];
          }
        case Multiselect(vs) =>
          newFilterList := newFilterList[index := vs];
        case MultiselectCleared =>
          newFilterList := newFilterList[index := []];
        case Dropdown(v) =>
          newFilterList := newFilterList[index := if filterPos >= 0 || v == Str("") then [] else [v]];
      }
      var shown := GetDisplayData(columns, data, newFilterList, QueryOf(searchText), options.caseSensitive);
      Load(data, columns, filterData, newFilterList, shown, selectedRows);
    }

    /** `toggleViewColumn`: flip one column's visibility. The displayed
        rows do not depend on visibility, so `displayData` stays. */
    method ToggleViewColumn(index: nat)
      requires Valid() && index < |columns|
      modifies this
      ensures columns == old(columns)[index := old(columns)[index].(display := !old(columns)[index].display)]
      ensures Valid() && displayData == old(displayData)
      ensures data == old(data) && filterData == old(filterData) && filterList == old(filterList)
      ensures searchText == old(searchText) && selectedRows == old(selectedRows)
      ensures page == old(page) && rowsPerPage == old(rowsPerPage) && announceText == old(announceText)
      ensures rowsPerPageOptions == old(rowsPerPageOptions) && options == old(options)
      ensures columnSpecs == old(columnSpecs)
    {
      var newColumns := columns[index := columns[index].(display := !columns[index].display)];
      DisplayIgnoresAllButRenderers(columns, newColumns, data, filterList, QueryOf(searchText),
                                    options.caseSensitive, |data|);
      columns := newColumns;
    }

    /** `toggleSortColumn(index)`: record the new direction, announce it,
        sort the data by the column with the direction recorded before
        the click, carry the selection along and recompute `displayData`. */
    method ToggleSortColumn(index: nat)
      requires Valid() && index < |columns|
      modifies this
      ensures columns == ToggledColumns(old(columns), index)
      ensures announceText == Some(AnnounceText(columns[index]))
      ensures data == SortedData(old(data), index, old(selectedRows), cmp, old(columns)[index].sortDirection)
      ensures selectedRows ==
        SortedSelection(old(data), index, old(selectedRows), cmp, old(columns)[index].sortDirection)
      ensures Valid()
      ensures filterData == old(filterData) && filterList == old(filterList) && searchText == old(searchText)
      ensures page == old(page) && rowsPerPage == old(rowsPerPage)
      ensures rowsPerPageOptions == old(rowsPerPageOptions) && options == old(options)
      ensures columnSpecs == old(columnSpecs)
    {
      var newColumns, text, sortedData, sortedSelection, shown :=
        SortByColumn(columns, data, filterList, QueryOf(searchText), options.caseSensitive, selectedRows,
                     index, cmp);
      Load(sortedData, newColumns, filterData, filterList, shown, sortedSelection);
      announceText := Some(text);
    }

    /** `changeRowsPerPage` */
    method ChangeRowsPerPage(rows: int)
      requires Valid()
      modifies this
      ensures rowsPerPage == rows && page == old(page) && Valid()
      ensures data == old(data) && displayData == old(displayData) && columns == old(columns)
      ensures filterData == old(filterData) && filterList == old(filterList) && searchText == old(searchText)
      ensures selectedRows == old(selectedRows) && announceText == old(announceText)
      ensures rowsPerPageOptions == old(rowsPerPageOptions) && options == old(options)
      ensures columnSpecs == old(columnSpecs)
    {
      rowsPerPage := rows;
    }

    /** `changePage` */
    method ChangePage(newPage: int)
      requires Valid()
      modifies this
      ensures page == newPage && rowsPerPage == old(rowsPerPage) && Valid()
      ensures data == old(data) && displayData == old(displayData) && columns == old(columns)
      ensures filterData == old(filterData) && filterList == old(filterList) && searchText == old(searchText)
      ensures selectedRows == old(selectedRows) && announceText == old(announceText)
      ensures rowsPerPageOptions == old(rowsPerPageOptions) && options == old(options)
      ensures columnSpecs == old(columnSpecs)
    {
      page := newPage;
    }

    /** `selectRowUpdate(type, value)` */
    method SelectRowUpdate(update: SelectRequest)
      requires Valid()
      modifies this
      ensures selectedRows == UpdatedSelection(old(data), old(displayData), old(filterList), old(selectedRows), update)
      ensures Valid()
      ensures data == old(data) && displayData == old(displayData) && columns == old(columns)
      ensures filterData == old(filterData) && filterList == old(filterList) && searchText == old(searchText)
      ensures page == old(page) && rowsPerPage == old(rowsPerPage) && announceText == old(announceText)
      ensures rowsPerPageOptions == old(rowsPerPageOptions) && options == old(options)
      ensures columnSpecs == old(columnSpecs)
    {
      var newRows := ComputeSelection(columns, data, filterList, QueryOf(searchText), options.caseSensitive,
                                      selectedRows, update);
      assert newRows == UpdatedSelection(data, displayData, filterList, selectedRows, update);
      UpdatedSelectionNoDuplicates(data, displayData, filterList, selectedRows, update);
      selectedRows := newRows;
    }

    /** `selectRowDelete` without a user delete handler: drop the selected
        rows, untick the header checkbox and rebuild the table with the
        same filter lists. The rebuild resets every column's descriptor
        (visibility and sort direction included) from the column props. */
    method SelectRowDelete(head: DripTableHead)
      requires Valid()
      modifies this, head
      ensures data == RowsAfterDelete(old(data), old(displayData), old(selectedRows), |old(filterList)|)
      ensures Valid()
      ensures filterList == old(filterList) && selectedRows == []
      ensures ColumnsBuilt(columnSpecs, data, options.sortFilterList, collate, columns, filterData)
      ensures forall c :: 0 <= c < |columnSpecs| ==> columns[c] == Describe(columnSpecs[c])
      ensures !head.selectChecked && head.activeColumn == old(head.activeColumn)
      ensures searchText == old(searchText) && page == old(page) && rowsPerPage == old(rowsPerPage)
      ensures announceText == old(announceText) && rowsPerPageOptions == old(rowsPerPageOptions)
      ensures options == old(options) && columnSpecs == old(columnSpecs)
    {
      var cleanRows := DeleteSelected(data, displayData, selectedRows, |filterList|);
      assert Rectangular(cleanRows, |columnSpecs|) by {
        if |filterList| >= 1 {
          KeepRowsOrder(data, MatchFrom(ShownRows(data), PickedRows(displayData, selectedRows, |displayData|), |data|).matched);
        } else {
          KeepRowsOrder(data, selectedRows);
        }
      }
      head.HandleUpdateCheck(false);
      var status := SetTableData(cleanRows, Some(filterList));
    }

    /** `updateDataCol(row, index, value)`: a renderer's edit of one cell.
        Only that cell of `data` changes; the column's filter universe
        gets the splice of src/DripTable.js:311-312 and is re-sorted. */
    method UpdateDataCol(row: nat, index: nat, value: Cell)
      requires Valid() && row < |data| && index < |columns| && columns[index].customRender.Some?
      modifies this
      ensures data == old(data)[row := old(data)[row][index := value]]
      ensures var filterValue := match old(columns)[index].customRender.value(index, value)
          case Element(Some(v)) => if Truthy(v) then v else old(data)[row][index]
          case _ => old(data)[row][index];
        var spliced := SpliceOne(old(filterData)[index], IndexOf(old(filterData)[index], filterValue), filterValue);
        filterData == old(filterData)[index :=
          if options.sortFilterList then InsertionSort(spliced, NotAfter(collate, 1)) else spliced]
      ensures Valid()
      ensures columns == old(columns) && filterList == old(filterList) && searchText == old(searchText)
      ensures selectedRows == old(selectedRows) && page == old(page) && rowsPerPage == old(rowsPerPage)
      ensures announceText == old(announceText) && rowsPerPageOptions == old(rowsPerPageOptions)
      ensures options == old(options) && columnSpecs == old(columnSpecs)
    {
      var funcResult := columns[index].customRender.value(index, value);
      var filterValue := match funcResult
        case Element(Some(v)) => if Truthy(v) then v else data[row][index]
        case _ => data[row][index];
      var prevFilterIndex := IndexOf(filterData[index], filterValue);
      var list := SpliceOne(filterData[index], prevFilterIndex, filterValue);
      var changedData := data[row := data[row][index := value]];
      if options.sortFilterList {
        list := InsertionSort(list, NotAfter(collate, 1));
      }
      var shown := GetDisplayData(columns, changedData, filterList, QueryOf(searchText), options.caseSensitive);
      Load(changedData, columns, filterData[index := list], filterList, shown, selectedRows);
    }
  }
}
