/** The per-marker mismatch report of main.py and olderVersions/main.py:
    `(subset != root).sum(axis=0)` followed by a division by the subset's row
    count. One routine serves the selected isolates, a group and all rows
    after the root. */
module Mismatch {
  import opened Text
  import opened Table

  /** pandas divides integers into floats; 0 / 0 gives NaN. */
  datatype Fraction = Value(v: real) | NaN

  datatype MismatchRow = MismatchRow(marker: string, mismatches: nat, total: nat, fraction: Fraction)

  /** `call != root` as main.py evaluates it: NaN is unequal to every value,
      itself included, so an empty root cell differs from every call. */
  predicate Differs(call: string, root: string) {
    call != root || root == EmptyCell
  }

  /** Number of rows (defined from the end) whose call at marker `j`
      differs from the root call. */
  function Mismatches(calls: seq<seq<string>>, root: seq<string>, j: nat): (n: nat)
    requires j < |root| && forall r :: r in calls ==> j < |r|
    ensures n <= |calls|
  {
    if calls == [] then 0
    else
      var last := calls[|calls| - 1];
      assert last in calls;
      assert forall r :: r in calls[..|calls| - 1] ==> r in calls;
      Mismatches(calls[..|calls| - 1], root, j) + (if Differs(last[j], root[j]) then 1 else 0)
  }

  /** The mismatches are exactly the calls of the column that are not the
      root call; every row mismatches where the root cell is empty. */
  lemma {:induction false} MismatchesAreColumnCount(calls: seq<seq<string>>, root: seq<string>, j: nat)
    requires j < |root| && forall r :: r in calls ==> j < |r|
    ensures Mismatches(calls, root, j) ==
      if root[j] == EmptyCell then |calls| else |calls| - Count(Column(calls, j), root[j])
  {
    if calls != [] {
      var init := calls[..|calls| - 1];
      assert forall r :: r in init ==> r in calls;
      MismatchesAreColumnCount(init, root, j);
      assert Column(calls, j)[..|calls| - 1] == Column(init, j);
    }
  }

  /** Splitting the subset splits the count: the report is additive over
      disjoint parts of the table. */
  lemma {:induction false} MismatchesAppend(a: seq<seq<string>>, b: seq<seq<string>>, root: seq<string>, j: nat)
    requires j < |root| && forall r :: r in a + b ==> j < |r|
    ensures forall r :: r in a ==> j < |r|
    ensures forall r :: r in b ==> j < |r|
    ensures Mismatches(a + b, root, j) == Mismatches(a, root, j) + Mismatches(b, root, j)
    decreases |b|
  {
    assert forall r :: r in a ==> r in a + b;
    assert forall r :: r in b ==> r in a + b;
    if b != [] {
      var b' := b[..|b| - 1];
      assert (a + b)[..|a + b| - 1] == a + b';
      assert forall r :: r in a + b' ==> r in a + b;
      assert (a + b)[|a + b| - 1] == b[|b| - 1];
      MismatchesAppend(a, b', root, j);
    } else {
      assert a + b == a;
    }
  }

  /** `mismatches / total`, NaN for an empty subset. */
  function FractionOf(mismatches: nat, total: nat): (f: Fraction)
    ensures f.Value? <==> total > 0
    ensures f.Value? ==> f.v * total as real == mismatches as real
    ensures f.Value? && mismatches <= total ==> 0.0 <= f.v <= 1.0
  {
    if total == 0 then NaN else Value(mismatches as real / total as real)
  }

  /** The report over one subset: one row per marker in column order, with
      the subset size in every row. */
  function Report(markers: seq<string>, calls: seq<seq<string>>, root: seq<string>): (report: seq<MismatchRow>)
    requires |root| == |markers| && Rectangular(calls, |markers|)
    ensures |report| == |markers|
    ensures forall j :: 0 <= j < |markers| ==>
      && report[j].marker == markers[j]
      && report[j].total == |calls|
      && report[j].mismatches ==
           (if root[j] == EmptyCell then |calls| else |calls| - Count(Column(calls, j), root[j]))
      && report[j].fraction == FractionOf(report[j].mismatches, |calls|)
  {
    var report := seq(|markers|, j requires 0 <= j < |markers| =>
      var n := Mismatches(calls, root, j);
      MismatchRow(markers[j], n, |calls|, FractionOf(n, |calls|)));
    forall j | 0 <= j < |markers|
      ensures report[j].mismatches ==
        (if root[j] == EmptyCell then |calls| else |calls| - Count(Column(calls, j), root[j]))
    {
      MismatchesAreColumnCount(calls, root, j);
    }
    report
  }

  /** Every fraction of a non-empty subset lies in [0, 1]. */
  lemma FractionInUnitInterval(markers: seq<string>, calls: seq<seq<string>>, root: seq<string>, j: nat)
    requires |root| == |markers| && Rectangular(calls, |markers|)
    requires j < |markers| && |calls| > 0
    ensures Report(markers, calls, root)[j].fraction.Value?
    ensures 0.0 <= Report(markers, calls, root)[j].fraction.v <= 1.0
    ensures Report(markers, calls, root)[j].mismatches <= |calls|
  {
  }

  /** A marker at which every call of the subset equals the root has no
      mismatch, unless the cells are empty: NaN never equals NaN, so then
      every row counts. */
  lemma NoMismatchWhereAllAgree(markers: seq<string>, calls: seq<seq<string>>, root: seq<string>, j: nat)
    requires |root| == |markers| && Rectangular(calls, |markers|) && j < |markers|
    requires forall r :: r in calls ==> r[j] == root[j]
    ensures Report(markers, calls, root)[j].mismatches == if root[j] == EmptyCell then |calls| else 0
  {
    var col := Column(calls, j);
    assert forall i :: 0 <= i < |col| ==> col[i] == root[j] by {
      forall i | 0 <= i < |col| ensures col[i] == root[j] {
        assert calls[i] in calls;
      }
    }
    CountAll(col, root[j]);
  }

  lemma {:induction false} CountAll(s: seq<string>, x: string)
    requires forall i :: 0 <= i < |s| ==> s[i] == x
    ensures Count(s, x) == |s|
  {
    if s != [] {
      CountAll(s[..|s| - 1], x);
    }
  }

  /** Summed over all markers, the mismatches of a subset never exceed the
      number of calls it holds. */
  function TotalMismatches(report: seq<MismatchRow>): nat {
    if report == [] then 0 else TotalMismatches(report[..|report| - 1]) + report[|report| - 1].mismatches
  }

  lemma {:induction false} TotalMismatchesBound(report: seq<MismatchRow>, total: nat)
    requires forall k :: 0 <= k < |report| ==> report[k].mismatches <= total
    ensures TotalMismatches(report) <= total * |report|
  {
    if report != [] {
      TotalMismatchesBound(report[..|report| - 1], total);
    }
  }

  lemma ReportTotalBound(markers: seq<string>, calls: seq<seq<string>>, root: seq<string>)
    requires |root| == |markers| && Rectangular(calls, |markers|)
    ensures TotalMismatches(Report(markers, calls, root)) <= |calls| * |markers|
  {
    TotalMismatchesBound(Report(markers, calls, root), |calls|);
  }

  // The three subsets the pages report on. They differ only in the rows.

  /** The selected isolates (olderVersions/main.py, individual section). */
  function SelectedReport(t: Table, selection: seq<string>): (report: seq<MismatchRow>)
    requires Wellformed(t)
  {
    CallsRectangular(t, SelectRows(t.rows, selection));
    Report(t.markers, Calls(SelectRows(t.rows, selection)), Root(t))
  }

  /** The rows of one group. */
  function GroupReport(t: Table, group: string): (report: seq<MismatchRow>)
    requires Wellformed(t)
  {
    CallsRectangular(t, GroupRows(t.rows, group));
    Report(t.markers, Calls(GroupRows(t.rows, group)), Root(t))
  }

  /** All rows after the root, reserved rows included. */
  function AllReport(t: Table): (report: seq<MismatchRow>)
    requires Wellformed(t)
  {
    assert forall r :: r in AllAfterRoot(t) ==> r in t.rows;
    CallsRectangular(t, AllAfterRoot(t));
    Report(t.markers, Calls(AllAfterRoot(t)), Root(t))
  }

  /** The selected-isolates report runs only for a non-empty selection of
      identifiers taken from the table, so its fractions are all defined. */
  lemma SelectedReportDefined(t: Table, selection: seq<string>, j: nat)
    requires Wellformed(t) && j < |t.markers|
    requires |selection| > 0
    requires forall s :: s in selection ==> exists r :: r in t.rows && r.id == s
    ensures SelectedReport(t, selection)[j].fraction.Value?
  {
    SelectRowsNonEmpty(t.rows, selection);
  }
}
