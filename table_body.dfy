/** The table body (src/DripTableBody.js): the window of displayed rows
    shown on the current page, and the translation of a page row to a
    position in the displayed rows. */
module TableBody {
  import opened Wrappers
  import opened Lists
  import opened Selection

  /** The error `buildRows` throws for a page past the end. */
  datatype PageError = PageOutOfRange(page: nat, totalPages: nat)

  function Min(a: nat, b: nat): nat
  {
    if a <= b then a else b
  }

  /** First displayed-row position of a page (`fromIndex`). */
  function StartIndex(page: nat, rowsPerPage: nat): (r: nat)
    ensures r == page * rowsPerPage
  {
    if page == 0 then 0 else page * rowsPerPage
  }

  /** The range check of `buildRows`. The page count is
      `Math.floor(len / rowsPerPage)`; with zero rows per page that is
      Infinity or NaN in JavaScript, and neither makes the check fire. */
  predicate PageRejected(len: nat, page: nat, rowsPerPage: nat)
  {
    rowsPerPage > 0 && page > len / rowsPerPage && len / rowsPerPage != 0
  }

  /** The rows at positions `fromIndex` up to (not including) `toIndex`. */
  function PageSlice<T>(displayData: seq<T>, page: nat, rowsPerPage: nat): seq<T>
  {
    var len := |displayData|;
    var toIndex := Min(len, (page + 1) * rowsPerPage);
    var fromIndex := Min(StartIndex(page, rowsPerPage), toIndex);
    displayData[fromIndex..toIndex]
  }

  /** What `buildRows` does, as written: an error for a rejected page,
      otherwise the page's rows, with `None` (the source's `null`) for an
      empty page. */
  function PageRows<T>(displayData: seq<T>, page: nat, rowsPerPage: nat): Result<Option<seq<T>>, PageError>
  {
    if PageRejected(|displayData|, page, rowsPerPage) then
      Failure(PageOutOfRange(page, |displayData| / rowsPerPage))
    else
      var rows := PageSlice(displayData, page, rowsPerPage);
      if |rows| == 0 then Success(None) else Success(Some(rows))
  }

  /** `buildRows`, with its copying loop. */
  method BuildRows<T>(displayData: seq<T>, page: nat, rowsPerPage: nat)
    returns (result: Result<Option<seq<T>>, PageError>)
    ensures result == PageRows(displayData, page, rowsPerPage)
  {
    var len := |displayData|;
    var fromIndex := if page == 0 then 0 else page * rowsPerPage;
    var toIndex := Min(len, (page + 1) * rowsPerPage);
    if rowsPerPage > 0 {
      var totalPages := len / rowsPerPage;
      if page > totalPages && totalPages != 0 {
        return Failure(PageOutOfRange(page, totalPages));
      }
    }
    var rows: seq<T> := [];
    var rowIndex := fromIndex;
    while rowIndex < len && rowIndex < toIndex
      invariant fromIndex <= rowIndex
      invariant rowIndex > fromIndex ==> rowIndex <= toIndex
      invariant rows == displayData[Min(fromIndex, toIndex)..Min(rowIndex, toIndex)]
      decreases len - rowIndex
    {
      rows := rows + [displayData[rowIndex]];
      rowIndex := rowIndex + 1;
    }
    if |rows| > 0 {
      result := Success(Some(rows));
    } else {
      result := Success(None);
    }
  }

  /** `getRowIndex`: the position in the displayed rows of row `index` of
      the page. */
  function GetRowIndex(page: nat, rowsPerPage: nat, index: nat): (r: nat)
    ensures r == page * rowsPerPage + index
  {
    StartIndex(page, rowsPerPage) + index
  }

  /** `isRowSelected`: the page row is selected when its displayed-row
      position is listed. */
  function IsRowSelected(selectedRows: seq<int>, page: nat, rowsPerPage: nat, index: nat): (r: bool)
    ensures r <==> GetRowIndex(page, rowsPerPage, index) in selectedRows
  {
    IndexOf(selectedRows, GetRowIndex(page, rowsPerPage, index) as int) >= 0
  }

  /** `handleRowSelect`: the single update the body sends when the
      checkbox of page row `index` changes. */
  function HandleRowSelect(page: nat, rowsPerPage: nat, index: nat): (r: SelectRequest)
    ensures r.CellToggle? && r.index == page * rowsPerPage + index
  {
    CellToggle(GetRowIndex(page, rowsPerPage, index))
  }

  /** The first page never fails. */
  lemma FirstPageAccepted<T>(displayData: seq<T>, rowsPerPage: nat)
    ensures PageRows(displayData, 0, rowsPerPage).Success?
  {
  }

  /** `buildRows` fails exactly when the page is past `floor(len / rowsPerPage)`
      and that quotient is not zero; when it succeeds, the page holds at most
      `rowsPerPage` rows, it is empty (`None`) exactly when no displayed row
      lies at or after the page start, and page row `i` is the displayed row
      at `getRowIndex(i)`. */
  lemma PageRowsMeaning<T>(displayData: seq<T>, page: nat, rowsPerPage: nat)
    ensures var r := PageRows(displayData, page, rowsPerPage);
      (r.Failure? <==> rowsPerPage > 0 && page > |displayData| / rowsPerPage &&
                       |displayData| / rowsPerPage != 0) &&
      (r.Success? ==>
        (r.value.None? <==> rowsPerPage == 0 || |displayData| <= page * rowsPerPage) &&
        (r.value.Some? ==>
          0 < |r.value.value| <= rowsPerPage &&
          forall i :: 0 <= i < |r.value.value| ==>
            GetRowIndex(page, rowsPerPage, i) < |displayData| &&
            r.value.value[i] == displayData[GetRowIndex(page, rowsPerPage, i)]))
  {
    var len := |displayData|;
    if rowsPerPage > 0 {
      assert (page + 1) * rowsPerPage == page * rowsPerPage + rowsPerPage;
    }
  }

  /** Checking page row `index` in the body flips exactly that row's
      selection in the body and leaves every other page row as it was. */
  lemma BodySelectFlipsRow(selectedRows: seq<int>, page: nat, rowsPerPage: nat, index: nat, other: nat)
    requires NoDuplicates(selectedRows)
    ensures var after := Toggle(selectedRows, HandleRowSelect(page, rowsPerPage, index).index);
      IsRowSelected(after, page, rowsPerPage, index) == !IsRowSelected(selectedRows, page, rowsPerPage, index) &&
      (other != index ==>
        IsRowSelected(after, page, rowsPerPage, other) == IsRowSelected(selectedRows, page, rowsPerPage, other))
  {
    ToggleFlipsMembership(selectedRows, HandleRowSelect(page, rowsPerPage, index).index);
  }

  /** The range check as evidently intended: a page is out of range when
      it starts at or past the end of the rows; the first page is always
      accepted (it is the empty-state page for empty data). */
  predicate IntendedPageRejected(len: nat, page: nat, rowsPerPage: nat)
  {
    rowsPerPage > 0 && page > 0 && page * rowsPerPage >= len
  }

  /** `buildRows` with the intended range check. */
  function CorrectedPageRows<T>(displayData: seq<T>, page: nat, rowsPerPage: nat): Result<Option<seq<T>>, PageError>
  {
    if IntendedPageRejected(|displayData|, page, rowsPerPage) then
      Failure(PageOutOfRange(page, (|displayData| + rowsPerPage - 1) / rowsPerPage))
    else
      var rows := PageSlice(displayData, page, rowsPerPage);
      if |rows| == 0 then Success(None) else Success(Some(rows))
  }

  /** As written, a page just past the last full page is accepted and
      comes back empty: four rows at two per page have pages 0 and 1, yet
      page 2 gives no error; one row at ten per page accepts page 3. */
  lemma BlankPageAccepted()
    ensures PageRows([1, 2, 3, 4], 2, 2) == Success(None)
    ensures PageRows([1], 3, 10) == Success(None)
  {
    assert PageSlice([1, 2, 3, 4], 2, 2) == [];
    assert PageSlice([1], 3, 10) == [];
  }

  /** With the intended check, an accepted page of non-empty data is never
      blank, an out-of-range page is always refused, and every page that
      holds rows is handled as the written code handles it. */
  lemma CorrectedPageNeverBlank<T>(displayData: seq<T>, page: nat, rowsPerPage: nat)
    requires rowsPerPage > 0
    ensures var r := CorrectedPageRows(displayData, page, rowsPerPage);
      (r.Failure? <==> page > 0 && page * rowsPerPage >= |displayData|) &&
      (r.Success? && |displayData| > 0 ==> r.value.Some?) &&
      (page * rowsPerPage < |displayData| ==> r == PageRows(displayData, page, rowsPerPage))
  {
    var len := |displayData|;
    if page * rowsPerPage < len {
      StartsBeforeEnd(len, page, rowsPerPage);
      assert (page + 1) * rowsPerPage == page * rowsPerPage + rowsPerPage;
    }
  }

  /** A page that starts before the end is not past `floor(len / rowsPerPage)`. */
  lemma StartsBeforeEnd(len: nat, page: nat, rowsPerPage: nat)
    requires rowsPerPage > 0 && page * rowsPerPage < len
    ensures page <= len / rowsPerPage
  {
    var q := len / rowsPerPage;
    assert len < (q + 1) * rowsPerPage;
  }
}
