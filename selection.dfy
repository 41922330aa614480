/** Row selection: the header's select-all and the deletion of selected
    rows (`selectRowUpdate` and `selectRowDelete`, src/DripTable.js:505-651).
    Rows are matched by content, which the source does by comparing
    `toString()` renderings; here it is equality of the rows. */
module Selection {
  import opened Lists
  import opened Cells

  /** The `value` of a "head" update: the header checkbox, or a number. */
  datatype HeadValue = Checked(b: bool) | Number(n: int)

  /** A call `selectRowUpdate(type, value)`. */
  datatype SelectRequest = Head(value: HeadValue) | CellToggle(index: int)

  /** Some column has a non-empty filter list (the `filteringFlg` loop).
      The search text plays no part. */
  predicate FilteringActive(filters: seq<seq<Cell>>)
  {
    exists c :: 0 <= c < |filters| && |filters[c]| >= 1
  }

  /** Data index `i` holds a row with the content of some displayed row. */
  function ShownIn(data: seq<Row>, display: seq<seq<Shown>>): nat -> bool
  {
    (i: nat) => i < |data| && AsShown(data[i]) in display
  }

  /** Index `i` is listed in `xs`. */
  function MemberOf(xs: seq<nat>): nat -> bool
  {
    (i: nat) => i in xs
  }

  /** The data indices whose row has the content of some displayed row,
      increasing and each once. */
  function MatchingIndices(data: seq<Row>, display: seq<seq<Shown>>): seq<nat>
  {
    IndicesWhere(|data|, ShownIn(data, display))
  }

  /** The selection a "head" update produces. */
  function HeadSelection(data: seq<Row>, display: seq<seq<Shown>>, filters: seq<seq<Cell>>,
                         value: HeadValue): seq<int>
  {
    if value == Checked(false) then []
    else if FilteringActive(filters) then MatchingIndices(data, display)
    else Range(|data|)
  }

  /** What a "head" update selects: nothing for a literal `false`; every
      data index when no column filter is set (whatever the value, `0`
      included, and whatever the search text); otherwise exactly the data
      indices whose content is displayed, increasing. */
  lemma HeadSelectionMeaning(data: seq<Row>, display: seq<seq<Shown>>, filters: seq<seq<Cell>>,
                             value: HeadValue)
    ensures var r := HeadSelection(data, display, filters, value);
      (value == Checked(false) ==> r == []) &&
      (value != Checked(false) && !FilteringActive(filters) ==>
        |r| == |data| && forall i :: 0 <= i < |data| ==> r[i] == i) &&
      (value != Checked(false) && FilteringActive(filters) ==>
        StrictlyIncreasing(r) &&
        forall i :: i in r <==> 0 <= i < |data| && AsShown(data[i]) in display)
  {
    var r := HeadSelection(data, display, filters, value);
    if value != Checked(false) && FilteringActive(filters) {
      forall i ensures i in r <==> 0 <= i < |data| && AsShown(data[i]) in display {
        if i in r {
          var j :| 0 <= j < |r| && r[j] == i;
        }
      }
    }
  }

  /** `Object.keys(list.reduce((r, x) => ((r[x] = 1), r), {})).map(x => +x)`:
      the distinct indices, in increasing order (the order in which an
      object lists integer keys). */
  function AscendingKeys(xs: seq<nat>, bound: nat): seq<nat>
  {
    IndicesWhere(bound, MemberOf(xs))
  }

  /** The "head" branch of `selectRowUpdate`, loops as in the source. */
  method SelectAllRows(data: seq<Row>, display: seq<seq<Shown>>, filters: seq<seq<Cell>>,
                       value: HeadValue) returns (newRows: seq<int>)
    ensures newRows == HeadSelection(data, display, filters, value)
  {
    var selectedRows := Range(|data|);
    var filteringFlg := false;
    for c := 0 to |filters|
      invariant filteringFlg <==> exists k :: 0 <= k < c && |filters[k]| >= 1
    {
      if |filters[c]| >= 1 {
        filteringFlg := true;
      }
    }
    var filteredList: seq<nat> := [];
    if filteringFlg {
      for d := 0 to |display|
        invariant forall j :: 0 <= j < |filteredList| ==> filteredList[j] < |data|
        invariant forall i :: 0 <= i < |data| ==> (i in filteredList <==> AsShown(data[i]) in display[..d])
      {
        for i := 0 to |data|
          invariant forall j :: 0 <= j < |filteredList| ==> filteredList[j] < |data|
          invariant forall k :: 0 <= k < |data| ==>
            (k in filteredList <==> AsShown(data[k]) in display[..d] || (k < i && AsShown(data[k]) == display[d]))
        {
          if AsShown(data[i]) == display[d] {
            if i - 1 == -1 {
              filteredList := filteredList + [0];
            } else {
              filteredList := filteredList + [i];
            }
          }
        }
        assert display[..d + 1] == display[..d] + [display[d]];
      }
      assert display[..|display|] == display;
      ghost var old_filteredList := filteredList;
      filteredList := AscendingKeys(filteredList, |data|);
      assert filteredList == MatchingIndices(data, display) by {
        IndicesWhereAgree(|data|, MemberOf(old_filteredList), ShownIn(data, display));
      }
    }
    if value == Checked(false) {
      newRows := [];
    } else if filteringFlg {
      newRows := filteredList;
    } else {
      newRows := selectedRows;
    }
  }

  /** The displayed rows whose position is listed in `selected`, once per
      listing, in display order: `selectedDataList` (src/DripTable.js:519-524). */
  function PickedRows(display: seq<seq<Shown>>, selected: seq<int>, n: nat): seq<seq<Shown>>
    requires n <= |display|
  {
    if n == 0 then []
    else PickedRows(display, selected, n - 1) + Repeat(display[n - 1], multiset(selected)[n - 1])
  }

  /** Where the matching walk over the data stands: the selected rows
      still unmatched, and the data indices matched so far. */
  datatype MatchState<T> = MatchState(pending: seq<T>, matched: seq<nat>)

  /** The walk of src/DripTable.js:527-535 over the first `n` rows:
      each row takes the first unmatched selected row of the same
      content, if there is one. */
  function MatchFrom<T(==)>(rows: seq<T>, picked: seq<T>, n: nat): (st: MatchState<T>)
    requires n <= |rows|
    ensures StrictlyIncreasing(st.matched)
    ensures forall j :: 0 <= j < |st.matched| ==> st.matched[j] < n
  {
    if n == 0 then MatchState(picked, [])
    else
      var st := MatchFrom(rows, picked, n - 1);
      var i := IndexOf(st.pending, rows[n - 1]);
      if i >= 0 then MatchState(RemoveAt(st.pending, i), st.matched + [n - 1]) else st
  }

  /** The rows at the listed indices, in list order. */
  function Gather<T>(rows: seq<T>, idx: seq<nat>): (r: seq<T>)
    requires forall j :: 0 <= j < |idx| ==> idx[j] < |rows|
    ensures |r| == |idx| && forall j :: 0 <= j < |idx| ==> r[j] == rows[idx[j]]
  {
    seq(|idx|, j requires 0 <= j < |idx| => rows[idx[j]])
  }

  /** The data rows as the table shows them. */
  function ShownRows(data: seq<Row>): (r: seq<seq<Shown>>)
    ensures |r| == |data| && forall k :: 0 <= k < |data| ==> r[k] == AsShown(data[k])
  {
    seq(|data|, k requires 0 <= k < |data| => AsShown(data[k]))
  }

  /** Each selected row removes at most one row: the matched rows together
      with the selected rows left unmatched are exactly the selected
      rows. */
  lemma {:induction false} MatchAccountsForPicked<T>(rows: seq<T>, picked: seq<T>, n: nat)
    requires n <= |rows|
    ensures var st := MatchFrom(rows, picked, n);
      multiset(Gather(rows, st.matched)) + multiset(st.pending) == multiset(picked)
  {
    if n > 0 {
      MatchAccountsForPicked(rows, picked, n - 1);
      MatchStep(rows, picked, n);
    }
  }

  /** One step of the walk moves at most one row from pending to matched. */
  lemma MatchStep<T>(rows: seq<T>, picked: seq<T>, n: nat)
    requires 0 < n <= |rows|
    ensures var st := MatchFrom(rows, picked, n - 1);
      var st' := MatchFrom(rows, picked, n);
      multiset(Gather(rows, st'.matched)) + multiset(st'.pending) ==
      multiset(Gather(rows, st.matched)) + multiset(st.pending)
  {
    var st := MatchFrom(rows, picked, n - 1);
    var i := IndexOf(st.pending, rows[n - 1]);
    if i >= 0 {
      var m := st.matched + [n - 1];
      assert Gather(rows, m) == Gather(rows, st.matched) + [rows[n - 1]];
      MoveMatched(multiset(Gather(rows, st.matched)), multiset(Gather(rows, m)),
                  multiset(st.pending), multiset(RemoveAt(st.pending, i)), rows[n - 1]);
    }
  }

  /** Moving one row from the pending rows to the matched rows keeps
      their sum. */
  lemma MoveMatched<T>(matched: multiset<T>, matched': multiset<T>, pending: multiset<T>,
                       pending': multiset<T>, x: T)
    requires matched' == matched + multiset{x}
    requires pending' + multiset{x} == pending
    ensures matched' + pending' == matched + pending
  {
  }

  /** No more rows are removed than were selected. */
  lemma MatchedAtMostPicked<T>(rows: seq<T>, picked: seq<T>)
    ensures |MatchFrom(rows, picked, |rows|).matched| <= |picked|
  {
    var st := MatchFrom(rows, picked, |rows|);
    MatchAccountsForPicked(rows, picked, |rows|);
    var gathered := Gather(rows, st.matched);
    assert |multiset(gathered)| == |st.matched|;
    assert |multiset(picked)| == |multiset(gathered)| + |multiset(st.pending)|;
  }

  function Fewer(a: nat, b: nat): nat
  {
    if a <= b then a else b
  }

  /** The walk is complete: of each row content, as many rows are matched
      as the smaller of its count among the rows walked and its count among
      the selected rows. */
  lemma {:induction false} MatchCounts<T>(rows: seq<T>, picked: seq<T>, n: nat)
    requires n <= |rows|
    ensures var st := MatchFrom(rows, picked, n);
      forall x :: multiset(Gather(rows, st.matched))[x] ==
                  Fewer(multiset(rows[..n])[x], multiset(picked)[x])
  {
    if n == 0 {
      assert rows[..0] == [];
    } else {
      var st := MatchFrom(rows, picked, n - 1);
      var st' := MatchFrom(rows, picked, n);
      var r := rows[n - 1];
      MatchCounts(rows, picked, n - 1);
      MatchAccountsForPicked(rows, picked, n - 1);
      var g, g' := multiset(Gather(rows, st.matched)), multiset(Gather(rows, st'.matched));
      var p, q := multiset(st.pending), multiset(picked);
      PrefixMultiset(rows, n);
      var c, c' := multiset(rows[..n - 1]), multiset(rows[..n]);
      var found := MatchStepFound(rows, picked, n);
      CountStep(g, g', p, q, c, c', r, found);
    }
  }

  /** One step of the walk, by counts: either the row found a pending
      selected row of its content and joined the matched rows, or none was
      pending and nothing changed. */
  lemma MatchStepFound<T>(rows: seq<T>, picked: seq<T>, n: nat) returns (found: bool)
    requires 0 < n <= |rows|
    ensures var st := MatchFrom(rows, picked, n - 1);
      var st' := MatchFrom(rows, picked, n);
      var r := rows[n - 1];
      (found ==> multiset(Gather(rows, st'.matched)) == multiset(Gather(rows, st.matched)) + multiset{r} &&
                 multiset(st.pending)[r] >= 1) &&
      (!found ==> multiset(Gather(rows, st'.matched)) == multiset(Gather(rows, st.matched)) &&
                  multiset(st.pending)[r] == 0)
  {
    var st := MatchFrom(rows, picked, n - 1);
    var i := IndexOf(st.pending, rows[n - 1]);
    found := i >= 0;
    if found {
      assert Gather(rows, st.matched + [n - 1]) == Gather(rows, st.matched) + [rows[n - 1]];
      assert st.pending[i] == rows[n - 1];
    }
  }

  /** One step of the count argument: a row that finds a pending selected
      row raises its matched count by one, a row that finds none leaves
      the counts as they are. */
  lemma CountStep<T>(g: multiset<T>, g': multiset<T>, p: multiset<T>, q: multiset<T>,
                     c: multiset<T>, c': multiset<T>, r: T, found: bool)
    requires g + p == q
    requires forall x :: g[x] == Fewer(c[x], q[x])
    requires c' == c + multiset{r}
    requires found ==> g' == g + multiset{r} && p[r] >= 1
    requires !found ==> g' == g && p[r] == 0
    ensures forall x :: g'[x] == Fewer(c'[x], q[x])
  {
    forall x ensures g'[x] == Fewer(c'[x], q[x]) {
      assert g[x] + p[x] == q[x];
      assert g[x] == Fewer(c[x], q[x]);
    }
  }

  /** One step of the walk, by positions: the row joins the matched rows
      and leaves one selected row of its content fewer pending, or none of
      its content was pending and nothing changed. */
  lemma MatchStepIndices<T>(rows: seq<T>, picked: seq<T>, n: nat) returns (found: bool)
    requires 0 < n <= |rows|
    ensures var st := MatchFrom(rows, picked, n - 1);
      var st' := MatchFrom(rows, picked, n);
      (found ==> st'.matched == st.matched + [n - 1] && rows[n - 1] in st.pending &&
                 multiset(st'.pending) + multiset{rows[n - 1]} == multiset(st.pending)) &&
      (!found ==> st' == st && rows[n - 1] !in st.pending)
  {
    var st := MatchFrom(rows, picked, n - 1);
    found := IndexOf(st.pending, rows[n - 1]) >= 0;
  }

  /** A row the walk passed over without matching it has no selected row
      of its content left unmatched. */
  lemma {:induction false} UnmatchedNotPending<T>(rows: seq<T>, picked: seq<T>, n: nat)
    requires n <= |rows|
    ensures var st := MatchFrom(rows, picked, n);
      forall k :: 0 <= k < n && k !in st.matched ==> rows[k] !in st.pending
  {
    if n > 0 {
      var st := MatchFrom(rows, picked, n - 1);
      var st' := MatchFrom(rows, picked, n);
      UnmatchedNotPending(rows, picked, n - 1);
      var found := MatchStepIndices(rows, picked, n);
      UnmatchedStep(rows, n, st.matched, st.pending, st'.matched, st'.pending, found);
    }
  }

  lemma UnmatchedStep<T>(rows: seq<T>, n: nat, m: seq<nat>, p: seq<T>,
                         m': seq<nat>, p': seq<T>, found: bool)
    requires 0 < n <= |rows|
    requires forall k :: 0 <= k < n - 1 && k !in m ==> rows[k] !in p
    requires found ==> m' == m + [n - 1] && multiset(p') + multiset{rows[n - 1]} == multiset(p)
    requires !found ==> m' == m && p' == p && rows[n - 1] !in p
    ensures forall k :: 0 <= k < n && k !in m' ==> rows[k] !in p'
  {
    forall k | 0 <= k < n && k !in m' ensures rows[k] !in p' {
      if found {
        assert k !in m;
        assert rows[k] !in multiset(p);
      }
    }
  }

  /** The walk matches the first rows of each content: when a row is
      matched, so is every earlier row with the same content. */
  lemma {:induction false} MatchTakesFirst<T>(rows: seq<T>, picked: seq<T>, n: nat)
    requires n <= |rows|
    ensures var m := MatchFrom(rows, picked, n).matched;
      forall i, k :: 0 <= k < i < n && rows[k] == rows[i] && i in m ==> k in m
  {
    if n > 0 {
      var st := MatchFrom(rows, picked, n - 1);
      var st' := MatchFrom(rows, picked, n);
      var m' := st'.matched;
      MatchTakesFirst(rows, picked, n - 1);
      UnmatchedNotPending(rows, picked, n - 1);
      var found := MatchStepIndices(rows, picked, n);
      TakesFirstStep(rows, n, st.matched, st.pending, m', found);
    }
  }

  lemma TakesFirstStep<T>(rows: seq<T>, n: nat, m: seq<nat>, p: seq<T>, m': seq<nat>, found: bool)
    requires 0 < n <= |rows|
    requires forall j :: 0 <= j < |m| ==> m[j] < n - 1
    requires forall i, k :: 0 <= k < i < n - 1 && rows[k] == rows[i] && i in m ==> k in m
    requires forall k :: 0 <= k < n - 1 && k !in m ==> rows[k] !in p
    requires found ==> m' == m + [n - 1] && rows[n - 1] in p
    requires !found ==> m' == m
    ensures forall i, k :: 0 <= k < i < n && rows[k] == rows[i] && i in m' ==> k in m'
  {
    forall i, k | 0 <= k < i < n && rows[k] == rows[i] && i in m' ensures k in m' {
      if i == n - 1 {
        assert found && rows[k] in p;
      } else {
        assert i in m;
      }
    }
  }

  /** `data.filter((_, index) => removed.indexOf(index) === -1)` */
  function KeepRows(data: seq<Row>, removed: seq<int>): seq<Row>
  {
    var kept := IndicesWhere(|data|, i => i !in removed);
    seq(|kept|, j requires 0 <= j < |kept| => data[kept[j]])
  }

  /** The remaining rows keep their relative order: they are the rows at
      the indices not removed, in increasing index order. */
  lemma KeepRowsOrder(data: seq<Row>, removed: seq<int>)
    ensures var kept := IndicesWhere(|data|, i => i !in removed);
      var r := KeepRows(data, removed);
      |r| == |kept| && StrictlyIncreasing(kept) &&
      (forall i :: 0 <= i < |data| ==> (i in kept <==> i !in removed)) &&
      forall j :: 0 <= j < |r| ==> kept[j] < |data| && r[j] == data[kept[j]]
  {
  }

  /** The rows left by `selectRowDelete`: with at least one filter list
      (that is, at least one column) the selected displayed rows are
      matched back to data rows by content; otherwise the selected indices
      are taken as data indices. */
  function RowsAfterDelete(data: seq<Row>, display: seq<seq<Shown>>, selectedRows: seq<int>,
                           filterCount: nat): seq<Row>
  {
    if filterCount >= 1 then
      KeepRows(data, MatchFrom(ShownRows(data), PickedRows(display, selectedRows, |display|), |data|).matched)
    else KeepRows(data, selectedRows)
  }

  /** The deletion loops of `selectRowDelete`. */
  method DeleteSelected(data: seq<Row>, display: seq<seq<Shown>>, selectedRows: seq<int>,
                        filterCount: nat) returns (cleanRows: seq<Row>)
    ensures cleanRows == RowsAfterDelete(data, display, selectedRows, filterCount)
  {
    if filterCount >= 1 {
      var selectedDataList := CollectPicked(display, selectedRows);
      var selectedDataIndexList := MatchRows(data, selectedDataList);
      cleanRows := KeepRows(data, selectedDataIndexList);
    } else {
      cleanRows := KeepRows(data, selectedRows);
    }
  }

  /** The nested loops of src/DripTable.js:519-524: each displayed row
      once for every time its position is listed in the selection. */
  method CollectPicked(display: seq<seq<Shown>>, copySelectedRows: seq<int>)
    returns (selectedDataList: seq<seq<Shown>>)
    ensures selectedDataList == PickedRows(display, copySelectedRows, |display|)
  {
    selectedDataList := [];
    for rowIndex := 0 to |display|
      invariant selectedDataList == PickedRows(display, copySelectedRows, rowIndex)
    {
      for j := 0 to |copySelectedRows|
        invariant selectedDataList == PickedRows(display, copySelectedRows, rowIndex) +
          Repeat(display[rowIndex], multiset(copySelectedRows[..j])[rowIndex])
      {
        assert copySelectedRows[..j + 1] == copySelectedRows[..j] + [copySelectedRows[j]];
        if rowIndex == copySelectedRows[j] {
          selectedDataList := selectedDataList + [display[rowIndex]];
        }
      }
      assert copySelectedRows[..|copySelectedRows|] == copySelectedRows;
    }
  }

  /** The loops of src/DripTable.js:527-535: each data row takes the
      first still unmatched selected row of the same content. */
  method MatchRows(data: seq<Row>, picked: seq<seq<Shown>>) returns (selectedDataIndexList: seq<nat>)
    ensures selectedDataIndexList == MatchFrom(ShownRows(data), picked, |data|).matched
  {
    ghost var rows := ShownRows(data);
    var selectedDataList := picked;
    selectedDataIndexList := [];
    for dataIndex := 0 to |data|
      invariant MatchState(selectedDataList, selectedDataIndexList) == MatchFrom(rows, picked, dataIndex)
    {
      var i := 0;
      while i < |selectedDataList|
        invariant 0 <= i <= |selectedDataList|
        invariant forall k :: 0 <= k < i ==> selectedDataList[k] != AsShown(data[dataIndex])
      {
        if AsShown(data[dataIndex]) == selectedDataList[i] {
          IndexOfIs(selectedDataList, AsShown(data[dataIndex]), i);
          selectedDataIndexList := selectedDataIndexList + [dataIndex];
          selectedDataList := RemoveAt(selectedDataList, i);
          break;
        }
        i := i + 1;
      }
    }
  }
}
