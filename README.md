# mui-drip-table: a verified model of the table state engine

This project models the core of the `DripTable` React component in Dafny:

- **The table state.** `DripTable` keeps the rows (`data`), the rows that pass the filters and the search (`displayData`), one descriptor per column, the per-column filter universe (`filterData`), the active filter lists (`filterList`), the selected rows, paging, the search text and the screen-reader announcement.
- **The handlers.** Each handler is modelled as one synchronous update of that state:
  - building the table (`initializeTable`, `setTableOptions`, `setTableData`);
  - filtering and searching (`isRowDisplayed`, `getDisplayData`, `filterUpdate`, `resetFilters`, `searchTextUpdate`);
  - column visibility and the sort toggle (`toggleViewColumn`, `toggleSortColumn`, `sortTable`, `sortCompare`);
  - selecting and deleting rows (`selectRowUpdate`, `selectRowDelete`);
  - paging (`changePage`, `changeRowsPerPage`) and a renderer's cell edit (`updateDataCol`).
- **The page window of the table body.** This covers `buildRows`, `getRowIndex`, `isRowSelected` and `handleRowSelect`.
- **The header state.** This covers the column clicked last, the select-all checkbox and which columns get a header cell.

How the model is organised:

- **Modules.** They follow the source:
  - `Table` holds the `DripTable` class;
  - `TableBody` and `TableHead` hold the two child components;
  - `Columns`, `Display`, `TableSort` and `Selection` hold the computations that `DripTable.js` performs inside its handlers;
  - `Cells` and `Lists` hold cell values and the JavaScript array operations the code relies on (`indexOf`, `splice`, `push`, `sort`).
- **Loops.** Every loop of the source is a method with a `while` or `for` loop. Each such method is proved equal to a specification function, and the properties the code promises are lemmas about that function.
- **Abstract functions.** The user's `customRender` function, the locale comparison, the subtraction of a string from a number and the `Intl.Collator` are parameters the model leaves uninterpreted. Only the ordering property of the sort assumes anything about them: that the comparison's sign flips when its arguments are swapped.

Quirks of the code that the model keeps as written:

- The scan of `isRowDisplayed` stops at the first column that contains the search text. Filters on later columns are then never consulted.
- The query is always lower-cased, even when the table is case-sensitive.
- `isRowDisplayed` passes the column index to `customRender`, where `setTableData` and `getDisplayData` pass the row index.
- `toggleSortColumn` sorts with the direction recorded before the click.
- `selectRowDelete` takes the content-matching branch whenever the table has a column.
- A "head" select-all looks only at the column filters, not at the search text. With a search but no filter it selects every data row.
- `updateDataCol` splices at `indexOf(...)`, which is `-1` for a value missing from the filter universe. That replaces the last element.

## Model

| member | source | states |
|---|---|---|
| Cells.EffectiveValue | src/DripTable.js:226-236 | Without a renderer the raw cell is used. A string result of the renderer is used as a string cell, and a truthy `props.value` of an element it returned is used as it is. A value other than the raw cell always comes from one of these two, and an element without a truthy `props.value` leaves the raw cell. |
| Cells.ContainsIffOccurs | src/DripTable.js:287-289 | The containment test holds exactly when the query occurs in the text at some position, as `indexOf(q) >= 0` does. |
| Cells.SearchCaseQuirk | src/DripTable.js:287-289 | The query is lower-cased even when the table is case-sensitive: there, the query "A" misses the text "A" and hits the text "a". Without case sensitivity both sides are lower-cased, so "a" hits "A". |
| Lists.IndexOf | src/DripTable.js:475 | `indexOf` is -1 exactly when the value is absent. Otherwise it is a position holding the value with no earlier occurrence. |
| Lists.RemoveAt | src/DripTable.js:636 | `splice(i, 1)` is one shorter and keeps the elements before `i`. The later ones move down by one, and exactly one copy of `s[i]` leaves the multiset. |
| Lists.ToggleFlipsMembership | src/DripTable.js:631-640 | On a list without duplicates, "remove if present, else push" flips the membership of the value, keeps every other value's membership and keeps the list free of duplicates. |
| Lists.ToggleTwiceRestores | src/DripTable.js:631-640 | Toggling an absent value twice gives back exactly the same list. |
| Lists.FirstOccurrences | src/DripTable.js:238 | The de-duplicating push keeps every value of the input, adds nothing and lists no value twice. |
| Lists.FirstOccurrencesCounts | src/DripTable.js:238 | Each value of the input occurs exactly once in the result, and no other value occurs. |
| Lists.FirstOccurrencesOrder | src/DripTable.js:226-239 | The de-duplicated values are in the order of their first occurrence in the input. |
| Lists.SortPermutes | src/DripTable.js:241-244 | The sort only reorders: the result is a permutation of its input. |
| Lists.SortSorted | src/DripTable.js:241-244 | With a comparison that orders every two elements of the list one way or the other, the sorted list has every neighbour pair in order. |
| Columns.Describe | src/DripTable.js:203-219 | The descriptor carries the column's name and has no sort direction, unless an object column's options give a `name` or a `sortDirection`, which win. `display`, `filter` and `sort` are true unless the options set them to false. An object column's `customRender` is taken over. |
| Columns.CollectFilterValues | src/DripTable.js:226-239 | The row loop yields the distinct effective values of the column in first-seen row order. |
| Columns.FilterValuesExactlyOnce | src/DripTable.js:223-244 | `filterData[c]` holds every effective value of column `c` exactly once and nothing else, sorted or not. |
| Columns.FilterValuesOrder | src/DripTable.js:238-244 | Without `sortFilterList` the values keep their first-seen row order. With it, and a sign-antisymmetric collator, every neighbour pair is in collator order. |
| Columns.BuildColumn | src/DripTable.js:204-244 | One pass of the column loop yields the column's descriptor and its filter universe. |
| Columns.BuildColumns | src/DripTable.js:199-245 | The column loop yields exactly one descriptor per column, in column order, and one filter universe per column. |
| Display.ScanFrom | src/DripTable.js:269-293 | The scan from column `k0` keeps the row exactly when every rejecting filter from `k0` on comes after a search hit from `k0` on, and, with a search text, there is such a hit. |
| Display.RowDisplayedIff | src/DripTable.js:265-297 | A row is shown exactly when every column whose non-empty filter excludes its value comes after a column containing the search text, and, when a search text is set, some column contains it. |
| Display.EmptyRowFailsSearch | src/DripTable.js:289-296 | With a search text set, a row without cells is never shown. |
| Display.IsRowDisplayed | src/DripTable.js:265-297 | The flag loop with its two `break`s returns exactly the row predicate. |
| Display.PassingIndices | src/DripTable.js:332-333 | The indices of the passing rows are increasing and in range, and they are exactly the rows the predicate accepts. |
| Display.DisplayIsSubsequence | src/DripTable.js:329-344 | `displayData` is the order-preserving subsequence of passing rows: entry `j` is passing row `p[j]` drawn by the renderers with its row index, one cell per column. |
| Display.UnfilteredShowsAll | src/DripTable.js:329-344 | With every filter list empty and no search text, every row is displayed, at its own index. |
| Display.GetDisplayData | src/DripTable.js:329-344 | The push loop yields exactly the displayed rows. |
| Display.ScanIgnoresAllButRenderers | src/DripTable.js:269-293 | The scan reads the column descriptors only through their renderers. |
| Display.DisplayIgnoresAllButRenderers | src/DripTable.js:329-364 | Columns that differ only outside their renderers, such as in visibility or sort direction, give the same `displayData`. |
| TableSort.ToggledColumnsDirections | src/DripTable.js:377-383 | After a click only the clicked column has a direction. It becomes descending exactly when it was ascending. Nothing but directions changes. |
| TableSort.ToggleDirections | src/DripTable.js:373-383 | The loop over the copied columns yields exactly the toggled columns. |
| TableSort.AnnouncementMatchesDirection | src/DripTable.js:366-368 | The announcement is `Table now sorted by <name> : <label>`. The label is "descending" after an ascending column and "ascending" otherwise, so it matches the new direction. |
| TableSort.CompareCellsAntisymmetric | src/DripTable.js:654-658 | With a locale comparison whose sign flips when its arguments swap, and a number-minus-string that has the opposite sign of the string compared with the number's text, swapping two cells flips the sign of their comparison. |
| TableSort.SortCompareDirection | src/DripTable.js:654-658 | A previous direction of "asc" negates the comparison, and any other previous direction leaves it as it is. Two numbers compare by their difference. |
| TableSort.NumberColumnConsistent | src/DripTable.js:654-658 | On a column of numbers the comparison always flips its sign when two cells swap, since numbers compare by their difference. |
| TableSort.StringColumnConsistent | src/DripTable.js:654-658 | On a column of strings the comparison flips its sign when two cells swap, provided `localeCompare` does. |
| TableSort.ConsistentColumns | src/DripTable.js:654-658 | Comparisons consistent on all cells, mixed number/string pairs included, are consistent on every column. |
| TableSort.EntryOrderTotal | src/DripTable.js:654-658 | When the comparison flips its sign whenever two cells of the clicked column swap, `sortCompare` times either direction factor orders every two entries of that column one way or the other. |
| TableSort.SortedEntriesFaithful | src/DripTable.js:661-667 | Each sorted entry carries a valid position, that row's key cell, and a flag that is set exactly when the position was selected. |
| TableSort.EntriesInPlace | src/DripTable.js:661-665 | Before the sort, entry `i` stands for row `i`. |
| TableSort.SortedEntriesPermute | src/DripTable.js:661-667 | The positions of the sorted entries are a permutation of the row positions, and the rows they stand for a permutation of the data. |
| TableSort.SortIsPermutation | src/DripTable.js:660-684 | The new data is the old data permuted: row `k` is old row `perm[k]`, and `perm` is a permutation of the positions. |
| TableSort.SortIsOrdered | src/DripTable.js:654-667 | When the comparison flips its sign whenever two cells of the clicked column swap (always for numbers, and for strings when `localeCompare` does), the new data is ordered on that column by the comparison times -1 when the previous direction was ascending, and times 1 otherwise. |
| Lists.SortStable | src/DripTable.js:667 | For an input listed by increasing rank, the sort moves an element past a higher-ranked one only when the comparison puts it strictly after it. |
| TableSort.SortIsStable | src/DripTable.js:660-684 | Two rows whose sort keys compare equal keep their relative order. |
| TableSort.SortRemapsSelection | src/DripTable.js:664-678 | The new selection is increasing. Position `k` is in it exactly when the row moved to `k` was selected before. |
| TableSort.SortTable | src/DripTable.js:660-684 | `sortTable` returns the sorted data and the remapped selection. |
| TableSort.Rebuild | src/DripTable.js:669-678 | The rebuild loop yields each entry's row in entry order and the indices of the selected entries in increasing order. |
| Selection.HeadSelectionMeaning | src/DripTable.js:558-619 | A "head" update gives nothing for a literal `false`. With no column filter set it gives every data index in order, whatever the value (0 included). Otherwise it gives the increasing data indices whose content equals a displayed row. |
| Selection.SelectAllRows | src/DripTable.js:563-615 | The filter-flag loop, the nested matching loops and the key de-duplication yield exactly that selection. |
| Selection.MatchFrom | src/DripTable.js:527-535 | The matched data indices are increasing and lie among the rows walked. |
| Selection.MatchAccountsForPicked | src/DripTable.js:527-535 | The matched rows plus the selected rows left unmatched are exactly the selected rows, as multisets. Each selected displayed row removes at most one data row. |
| Selection.MatchedAtMostPicked | src/DripTable.js:527-536 | No more rows are deleted than were selected. |
| Selection.MatchCounts | src/DripTable.js:527-535 | The walk is complete: for every row content, the number of matched rows with that content is the smaller of its number of data rows and its number of selected displayed rows. |
| Selection.MatchTakesFirst | src/DripTable.js:527-535 | The walk matches the first data rows of each content: when a row is matched, so is every earlier row with the same content. |
| Selection.KeepRowsOrder | src/DripTable.js:536-539 | The rows left by the filter are the rows at the non-removed indices, in increasing index order. |
| Selection.CollectPicked | src/DripTable.js:519-524 | The nested loops list each displayed row once per time its position is selected, in display order. |
| Selection.MatchRows | src/DripTable.js:526-535 | The data loop with its inner `splice` and `break` yields the matched indices of the matching walk. |
| Selection.DeleteSelected | src/DripTable.js:512-540 | The delete yields the rows left after content matching when there is a column, or after removing the selected indices otherwise. With `MatchCounts` and `MatchTakesFirst`, each selected displayed row removes the first data row of its content not yet removed. |
| TableBody.StartIndex | src/DripTableBody.js:49 | The first displayed-row position of a page is `page * rowsPerPage`. |
| TableBody.BuildRows | src/DripTableBody.js:39-75 | The range check and the copy loop give exactly the page result of the specification function. |
| TableBody.PageRowsMeaning | src/DripTableBody.js:39-75 | `buildRows` throws exactly when the page exceeds a nonzero `floor(len / rowsPerPage)`. Otherwise it returns `null` exactly when no displayed row lies at or after the page start. A returned page holds at most `rowsPerPage` rows, and row `i` is the displayed row at `getRowIndex(i)`. |
| TableBody.FirstPageAccepted | src/DripTableBody.js:44-64 | Page 0 never throws. |
| TableBody.GetRowIndex | src/DripTableBody.js:81-87 | A page row's displayed-row position is `page * rowsPerPage + index`. |
| TableBody.IsRowSelected | src/DripTableBody.js:93-96 | A page row is selected exactly when its displayed-row position is in `selectedRows`. |
| TableBody.HandleRowSelect | src/DripTableBody.js:102-104 | Checking a page row sends one "cell" update carrying its displayed-row position. |
| TableBody.BodySelectFlipsRow | src/DripTableBody.js:93-104 | Checking page row `index` flips that row's selection and leaves every other page row's selection as it was. |
| TableBody.BlankPageAccepted | src/DripTableBody.js:43-64 | As written, a page past the last full page is accepted and comes back empty. |
| TableBody.CorrectedPageNeverBlank | src/DripTableBody.js:43-64 | With the intended check, an accepted page of non-empty data is never blank, and a page starting at or past the end is refused. Every page that starts before the end behaves as in the written code. |
| TableHead.DripTableHead.constructor | src/DripTableHead.js:20-23 | Initially no column is active and the checkbox is unticked. |
| TableHead.DripTableHead.HandleToggleColumn | src/DripTableHead.js:34-39 | The clicked column becomes active, the checkbox is kept, and its index is handed once to the sort toggle. |
| TableHead.DripTableHead.HandleRowSelect | src/DripTableHead.js:46-53 | The checkbox is negated, so two calls restore it. The new state is sent as a "head" update. |
| TableHead.DripTableHead.HandleUpdateCheck | src/DripTableHead.js:59-63 | The checkbox takes the given state and the active column is kept. |
| TableHead.HeaderColumns | src/DripTableHead.js:78-93 | Header cells are made exactly for the displayed columns, in column order. |
| TableHead.AllHiddenNoHeader | src/DripTableHead.js:78-93 | With every column hidden the header has no column cell. |
| Table.MergeArray | src/DripTable.js:178 | Merging an array keeps the user's entries and fills the positions past their length from the defaults. |
| Table.MergeOptions | src/DripTable.js:158-179 | Every option the user gives wins. Absent ones take the defaults: case-insensitive, sorted filter lists, 10 rows per page, page sizes 5, 10, 15, 100. |
| Table.EditedFilter | src/DripTable.js:474-486 | Checkbox removes a present value or appends an absent one. Dropdown gives `[v]`, or `[]` when `v` is listed or empty. Multiselect replaces the list, and `""` clears it. |
| Table.CheckboxEditFlips | src/DripTable.js:475-479 | A checkbox edit flips the value's membership and keeps the others. For an absent value two edits give back the list. |
| Table.SpliceOne | src/DripTable.js:311-312 | The new value always ends up in the list. The length is kept, except that an empty list becomes `[value]`. At a found position only that element is replaced. With position -1 the last element is replaced instead. |
| Table.UpdatedSelectionNoDuplicates | src/DripTable.js:556-651 | A selection update never lists a row twice: a "head" update gives increasing indices and a "cell" toggle keeps the list duplicate-free. |
| Table.ComputeSelection | src/DripTable.js:556-651 | A "head" update yields the head selection over freshly computed displayed rows. A "cell" update yields the toggled list. |
| Table.SortByColumn | src/DripTable.js:372-395 | It yields the toggled columns, the announcement of the new direction, and the data and selection sorted with the previous direction. It also yields the displayed rows of the sorted data. |
| Table.DripTable.constructor | src/DripTable.js:119-132 | The initial state: empty rows, columns, filters and selection, page 0, no search text, no announcement. |
| Table.DripTable.SetTableOptions | src/DripTable.js:182-193 | Only truthy `rowsPerPage`, `page` (made zero-based) and `filterList` options are copied, and `rowsPerPageOptions` always is. Nothing else changes. |
| Table.DripTable.SetTableData | src/DripTable.js:196-262 | It throws, changing nothing, exactly when a given filter list does not have one entry per column. Otherwise it builds one descriptor and one filter universe per column, takes the given or empty filter lists, clears the selection and makes `displayData` consistent. |
| Table.DripTable.InitializeTable | src/DripTable.js:149-153 | It merges the options and copies the paging fields and `rowsPerPageOptions` as `setTableOptions` does, keeping the search text and the announcement. Then it builds the table as `setTableData` does, or throws with the merged options and the given filter list already stored and the rest of the table unchanged. |
| Table.DripTable.SearchTextUpdate | src/DripTable.js:446-451 | An empty text switches the search off. `displayData` follows, and nothing else changes. |
| Table.DripTable.ResetFilters | src/DripTable.js:453-469 | Every column's filter list becomes empty and `displayData` follows. |
| Table.DripTable.FilterUpdate | src/DripTable.js:471-499 | Only `filterList[index]` changes, by the edit, and `displayData` follows. |
| Table.DripTable.ToggleViewColumn | src/DripTable.js:346-364 | Only the column's `display` flips. `displayData` is unchanged and still consistent with the new columns. |
| Table.DripTable.ToggleSortColumn | src/DripTable.js:370-406 | The directions toggle, the announcement names the new direction, the data is sorted with the previous direction, the selection follows its rows, and `displayData` is recomputed. |
| Table.DripTable.ChangeRowsPerPage | src/DripTable.js:413-425 | Only `rowsPerPage` changes. |
| Table.DripTable.ChangePage | src/DripTable.js:432-444 | Only `page` changes. |
| Table.DripTable.SelectRowUpdate | src/DripTable.js:556-652 | Only `selectedRows` changes, to the head selection or the toggled list. |
| Table.DripTable.SelectRowDelete | src/DripTable.js:505-554 | The rows left are those after deletion by content matching. The header checkbox is unticked. The table is rebuilt with the same filter lists and an empty selection: fresh descriptors and the filter universes of the remaining rows. |
| Table.DripTable.UpdateDataCol | src/DripTable.js:299-327 | Only cell `[row][index]` of `data` changes. Only that column's filter universe changes, by the splice and the re-sort. `displayData` follows. |

## Left out

- React rendering, styling, the toolbar, pagination and popover components, and the `open` and `showResponsive` fields: they draw the state but do not change it.
- The callbacks fired after an update (`onFilterChange`, `onColumnSortChange`, `onRowsSelect`, `onChangePage`, `onChangeRowsPerPage`, `onColumnViewChange`) and the `onRowsDelete` delegation branch of `selectRowDelete`: they are user code. `curSelectedRows` exists only to feed `onRowsSelect` and is not modelled.
- `componentWillReceiveProps` and the batching of `setState`: each handler is one atomic update.
- Locale semantics of `localeCompare` and `Intl.Collator`: both are uninterpreted parameters.
- Number cells are integers, so the floating-point subtraction of `sortCompare` is integer subtraction. A number minus a string, where JavaScript converts the string to a number (or NaN, which the sort reads as 0), is an uninterpreted parameter.
- TableSort.SortTable: `Array.prototype.sort` is modelled by a stable insertion sort. When the comparison does not flip its sign for every two cells of the clicked column, the engine's result may differ and `SortIsOrdered` promises nothing. This can happen with a column that mixes numbers and strings (`9 - "10"` and `"10".localeCompare("9")` are both negative). Columns of only numbers, or of only strings under a sign-flipping `localeCompare`, are covered.
- Row matching by `toString()`: modelled as equality of the cells. The two differ for cells containing commas, for a number and a string with the same text (`[1]` and `["1"]` match in the source, not in the model), and for cells a renderer drew as an element.
- `toLowerCase`: modelled on the ASCII letters only.
- Display.IsRowDisplayed: a renderer result of `null` or `undefined` makes `isRowDisplayed` throw a TypeError (src/DripTable.js:275), and with it `getDisplayData` and every handler that recomputes `displayData`. The model has no nullish renderer result: anything that is neither a string nor an element is `Other` and leaves the raw cell, as the guarded loop of `setTableData` (src/DripTable.js:231) does.
- Column option keys other than `name`, `display`, `filter`, `sort`, `sortDirection` and `customRender`: the modelled code reads no others.
- lodash `merge` on options: only the keys the modelled code reads are kept. An explicit `undefined` is treated like an absent key.
- The `updateValue` callback handed to `customRender` by `getDisplayData`: the model only has the edit it triggers, `updateDataCol`.
- Table.DripTable.SetTableData: requires every row to have one cell per column. The source reads `undefined` for a missing cell.

## Findings

| source | as written | input that shows it | evidently intended | confidence | as-written member | corrected member |
|---|---|---|---|---|---|---|
| src/DripTableBody.js:43-64 | The page count is `Math.floor(len / rowsPerPage)`, although the comment says it is rounded up. The check rejects only a page past that count, and only when the count is nonzero. | Four rows at two per page: page 2 is accepted and `buildRows` returns `null` (the empty-table marker) instead of throwing. One row at ten per page: page 3 is accepted. | A page starting at or past the end of the rows is out of range (page 0 excepted). | not executed | TableBody.BlankPageAccepted | TableBody.CorrectedPageNeverBlank |
