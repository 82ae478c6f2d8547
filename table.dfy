/** The loaded spreadsheet: one row per isolate (plus the reserved `root`,
    `MQ` and `annotation` rows), an identifier column, a group column and one
    column of base calls per marker. Also the row subsets the pages analyse and
    the isolate option lists offered for selection. */
module Table {
  import opened Text

  /** One spreadsheet row: the `Unnamed: 0` identifier, the `Group` label and
      the calls of the marker columns, in column order. */
  datatype Row = Row(id: string, group: string, calls: seq<string>)

  /** An empty cell. The pages that convert the sheet's object-dtype
      columns with `astype(str)` read it as the text "nan"; main.py and olderVersions/main.py do not
      convert, so there it stays pandas' NaN, written here as the same text.
      A column pandas fills with NaN is filled with it too. */
  const EmptyCell: string := "nan"

  /** `markers` are the column labels after the first two columns. */
  datatype Table = Table(markers: seq<string>, rows: seq<Row>)

  /** Rectangular, with at least the root row, and with unique column labels. */
  predicate Wellformed(t: Table) {
    && |t.rows| > 0
    && Distinct(t.markers)
    && forall i :: 0 <= i < |t.rows| ==> |t.rows[i].calls| == |t.markers|
  }

  /** `df.iloc[0, 2:]`: the calls of the first row. */
  function Root(t: Table): (root: seq<string>)
    requires Wellformed(t)
    ensures |root| == |t.markers|
  {
    t.rows[0].calls
  }

  /** Identifiers of the metadata rows, which are never isolates. */
  const Reserved: set<string> := {"root", "MQ", "annotation"}

  /** Every call row has one call per marker. */
  predicate Rectangular(calls: seq<seq<string>>, width: nat) {
    forall i :: 0 <= i < |calls| ==> |calls[i]| == width
  }

  /** The marker columns of some rows (`.iloc[:, 2:]`). */
  function Calls(rows: seq<Row>): (calls: seq<seq<string>>)
    ensures |calls| == |rows|
    ensures forall i :: 0 <= i < |rows| ==> calls[i] == rows[i].calls
  {
    seq(|rows|, i requires 0 <= i < |rows| => rows[i].calls)
  }

  lemma CallsRectangular(t: Table, rows: seq<Row>)
    requires Wellformed(t)
    requires forall r :: r in rows ==> r in t.rows
    ensures Rectangular(Calls(rows), |t.markers|)
  {
    forall i | 0 <= i < |rows| ensures |Calls(rows)[i]| == |t.markers| {
      assert rows[i] in rows;
    }
  }

  /** One marker column of a rectangular block of calls. */
  function Column(calls: seq<seq<string>>, j: nat): (col: seq<string>)
    requires forall i :: 0 <= i < |calls| ==> j < |calls[i]|
    ensures |col| == |calls|
    ensures forall i :: 0 <= i < |calls| ==> col[i] == calls[i][j]
  {
    seq(|calls|, i requires 0 <= i < |calls| => calls[i][j])
  }

  /** `df[df['Unnamed: 0'].isin(selection)]`: the rows whose identifier is
      selected, in table order. */
  function SelectRows(rows: seq<Row>, selection: seq<string>): (r: seq<Row>)
    ensures |r| <= |rows|
    ensures forall x :: x in r <==> x in rows && x.id in selection
  {
    if rows == [] then []
    else
      var init := SelectRows(rows[..|rows| - 1], selection);
      var last := rows[|rows| - 1];
      assert forall x :: x in rows <==> x in rows[..|rows| - 1] || x == last;
      if last.id in selection then init + [last] else init
  }

  /** Selection works row by row: the selection of a concatenation is the
      concatenation of the selections, so the selected rows keep their
      table order and their duplicates. */
  lemma {:induction false} SelectRowsAppend(a: seq<Row>, b: seq<Row>, selection: seq<string>)
    ensures SelectRows(a + b, selection) == SelectRows(a, selection) + SelectRows(b, selection)
    decreases |b|
  {
    if b == [] {
      assert a + b == a;
    } else {
      var b' := b[..|b| - 1];
      assert (a + b)[..|a + b| - 1] == a + b';
      assert (a + b)[|a + b| - 1] == b[|b| - 1];
      SelectRowsAppend(a, b', selection);
    }
  }

  /** A single row is kept exactly when its identifier is selected. */
  lemma SelectRowsOne(x: Row, selection: seq<string>)
    ensures SelectRows([x], selection) == if x.id in selection then [x] else []
  {
    assert [x][..0] == [];
  }

  /** The first selected row is the first row of the table whose identifier
      is selected. */
  lemma {:induction false} FirstSelectedRow(rows: seq<Row>, selection: seq<string>, i: nat)
    requires i < |rows| && rows[i].id in selection
    requires forall k :: 0 <= k < i ==> rows[k].id !in selection
    ensures SelectRows(rows, selection) != [] && SelectRows(rows, selection)[0] == rows[i]
  {
    var before, at, after := rows[..i], [rows[i]], rows[i + 1..];
    assert rows == before + (at + after);
    SelectRowsAppend(before, at + after, selection);
    SelectRowsAppend(at, after, selection);
    SelectRowsOne(rows[i], selection);
    NoneSelected(before, selection);
  }

  lemma {:induction false} NoneSelected(rows: seq<Row>, selection: seq<string>)
    requires forall k :: 0 <= k < |rows| ==> rows[k].id !in selection
    ensures SelectRows(rows, selection) == []
  {
    if rows != [] {
      NoneSelected(rows[..|rows| - 1], selection);
    }
  }

  /** `df[df['Group'] == group]`: the rows of one group, in table order. */
  function GroupRows(rows: seq<Row>, group: string): (r: seq<Row>)
    ensures |r| <= |rows|
    ensures forall x :: x in r <==> x in rows && x.group == group
  {
    if rows == [] then []
    else
      var init := GroupRows(rows[..|rows| - 1], group);
      var last := rows[|rows| - 1];
      assert forall x :: x in rows <==> x in rows[..|rows| - 1] || x == last;
      if last.group == group then init + [last] else init
  }

  /** `df.iloc[1:, 2:]`'s rows: everything after the root row. */
  function AllAfterRoot(t: Table): (r: seq<Row>)
    requires Wellformed(t)
    ensures |r| == |t.rows| - 1
  {
    t.rows[1..]
  }

  /** The "all isolates" subset is not filtered by identifier: metadata rows
      after the root (such as `MQ` and `annotation`) belong to it. */
  lemma AllAfterRootKeepsReservedRows(t: Table, k: nat)
    requires Wellformed(t) && 0 < k < |t.rows|
    ensures t.rows[k] in AllAfterRoot(t)
    ensures |AllAfterRoot(t)| == |t.rows| - 1
  {
    assert AllAfterRoot(t)[k - 1] == t.rows[k];
  }

  /** When something is selected and every selected identifier names a row,
      the selected subset is not empty. */
  lemma {:induction false} SelectRowsNonEmpty(rows: seq<Row>, selection: seq<string>)
    requires |selection| > 0
    requires forall s :: s in selection ==> exists r :: r in rows && r.id == s
    ensures |SelectRows(rows, selection)| > 0
  {
    assert selection[0] in selection;
    var r :| r in rows && r.id == selection[0];
    assert r in SelectRows(rows, selection);
  }

  function Ids(rows: seq<Row>): (ids: seq<string>)
    ensures |ids| == |rows|
    ensures forall i :: 0 <= i < |rows| ==> ids[i] == rows[i].id
  {
    seq(|rows|, i requires 0 <= i < |rows| => rows[i].id)
  }

  /** The isolates offered for selection: the distinct identifiers of the
      given rows, in order of first appearance, without the reserved ones. */
  function IsolateOptions(rows: seq<Row>): (options: seq<string>)
    ensures Distinct(options)
    ensures forall x :: x in options <==> x !in Reserved && exists r :: r in rows && r.id == x
  {
    var options := Without(Unique(Ids(rows)), Reserved);
    assert forall x :: x in Ids(rows) <==> exists r :: r in rows && r.id == x by {
      forall x ensures x in Ids(rows) <==> exists r :: r in rows && r.id == x {
        if x in Ids(rows) {
          var i :| 0 <= i < |rows| && Ids(rows)[i] == x;
          assert rows[i] in rows;
        }
        if exists r :: r in rows && r.id == x {
          var r :| r in rows && r.id == x;
          var i :| 0 <= i < |rows| && rows[i] == r;
          assert Ids(rows)[i] == x;
        }
      }
    }
    options
  }

  /** The options of one group: the identifiers of the group's rows, without
      the reserved ones. */
  function GroupOptions(t: Table, group: string): (options: seq<string>)
    ensures Distinct(options)
    ensures forall x :: x in options <==>
      x !in Reserved && exists r :: r in t.rows && r.group == group && r.id == x
  {
    IsolateOptions(GroupRows(t.rows, group))
  }

  /** `sorted(set(filtered + selected))`: the options shown always include the
      current selection. */
  function OptionList(filtered: seq<string>, selected: seq<string>): (all: seq<string>)
    ensures StrictlySorted(all)
    ensures Distinct(all)
    ensures forall x :: x in all <==> x in filtered || x in selected
  {
    var all := SortedUnique(filtered + selected);
    StrictlySortedDistinct(all);
    all
  }

  /** The option list never offers a reserved identifier when the current
      selection holds none. */
  lemma OptionListHasNoReserved(rows: seq<Row>, selected: seq<string>)
    requires forall x :: x in selected ==> x !in Reserved
    ensures forall x :: x in OptionList(IsolateOptions(rows), selected) ==> x !in Reserved
  {
  }

  /** `sorted(set(...))` forgets the order of its input: reordering the
      filtered options does not change the list shown. */
  lemma {:induction false} OptionListOrderIndependent(filtered: seq<string>, filtered': seq<string>, selected: seq<string>)
    requires forall x :: x in filtered' <==> x in filtered
    ensures OptionList(filtered', selected) == OptionList(filtered, selected)
  {
    SortedUniqueness(OptionList(filtered', selected), OptionList(filtered, selected));
  }
}
