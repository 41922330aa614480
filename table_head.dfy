/** The table header (src/DripTableHead.js): which column was clicked
    last, the state of the select-all checkbox, and which columns get a
    header cell. */
module TableHead {
  import opened Wrappers
  import opened Lists
  import opened Columns
  import opened Selection

  class DripTableHead {
    /** The column clicked last, `null` before any click. */
    var activeColumn: Option<int>
    /** The select-all checkbox. */
    var selectChecked: bool

    constructor()
      ensures activeColumn == None && !selectChecked
    {
      activeColumn := None;
      selectChecked := false;
    }

    /** `handleToggleColumn`: remember the clicked column and hand its
        index, once, to the table's sort toggle. */
    method HandleToggleColumn(index: int) returns (toggleSort: int)
      modifies this
      ensures activeColumn == Some(index) && selectChecked == old(selectChecked)
      ensures toggleSort == index
    {
      activeColumn := Some(index);
      toggleSort := index;
    }

    /** `handleRowSelect`: flip the checkbox and send its new state as a
        "head" selection update. */
    method HandleRowSelect() returns (update: SelectRequest)
      modifies this
      ensures selectChecked == !old(selectChecked) && activeColumn == old(activeColumn)
      ensures update == Head(Checked(selectChecked))
    {
      selectChecked := !selectChecked;
      update := Head(Checked(selectChecked));
    }

    /** `handleUpdateCheck`: set the checkbox (to `false` after a delete). */
    method HandleUpdateCheck(status: bool)
      modifies this
      ensures selectChecked == status && activeColumn == old(activeColumn)
    {
      selectChecked := status;
    }
  }

  /** Column `i` is shown in the header. */
  function Displayed(columns: seq<ColumnDescriptor>): nat -> bool
  {
    (i: nat) => i < |columns| && columns[i].display
  }

  /** The columns that get a header cell, in column order. */
  function HeaderColumns(columns: seq<ColumnDescriptor>): (r: seq<nat>)
    ensures StrictlyIncreasing(r)
    ensures forall j :: 0 <= j < |r| ==> r[j] < |columns|
    ensures forall i :: 0 <= i < |columns| ==> (i in r <==> columns[i].display)
  {
    IndicesWhere(|columns|, Displayed(columns))
  }

  /** With every column hidden the header has no column cells. */
  lemma AllHiddenNoHeader(columns: seq<ColumnDescriptor>)
    requires forall i :: 0 <= i < |columns| ==> !columns[i].display
    ensures HeaderColumns(columns) == []
  {
    IndicesWhereNone(|columns|, Displayed(columns));
  }
}
