/** The variable-marker page of mainV3.py:38-83: the markers at which the
    selected isolates do not all agree, the annotation row appended under
    them with a label column in front, and the percentage of each of A, T,
    C and G among the isolates' calls at every such marker. */
module Variation {
  import opened Text
  import opened Table
  import opened SnpStats

  // ---------------------------------------------------------------------
  // Markers with differences (mainV3.py:47-53).

  /** Some call of the column is not `x`. */
  predicate DiffersFrom(col: seq<string>, x: string) {
    |col| > 0 && (col[|col| - 1] != x || DiffersFrom(col[..|col| - 1], x))
  }

  /** The calls of a column are not all the same: some call differs from
      the first one. */
  predicate Varies(col: seq<string>) {
    |col| > 0 && DiffersFrom(col, col[0])
  }

  lemma {:induction false} DiffersFromSomewhere(col: seq<string>, x: string)
    ensures DiffersFrom(col, x) <==> exists i :: 0 <= i < |col| && col[i] != x
  {
    if col != [] {
      var init := col[..|col| - 1];
      DiffersFromSomewhere(init, x);
      if exists i :: 0 <= i < |col| && col[i] != x {
        var i :| 0 <= i < |col| && col[i] != x;
        if i < |init| {
          assert init[i] != x;
        }
      }
      if exists i :: 0 <= i < |init| && init[i] != x {
        var i :| 0 <= i < |init| && init[i] != x;
        assert col[i] != x;
      }
    }
  }

  /** Varying means that two of the calls differ. */
  lemma VariesIffTwoDiffer(col: seq<string>)
    ensures Varies(col) <==> exists i, j :: 0 <= i < |col| && 0 <= j < |col| && col[i] != col[j]
  {
    if col != [] {
      DiffersFromSomewhere(col, col[0]);
      if exists i, j :: 0 <= i < |col| && 0 <= j < |col| && col[i] != col[j] {
        var i, j :| 0 <= i < |col| && 0 <= j < |col| && col[i] != col[j];
        assert col[i] != col[0] || col[j] != col[0];
      }
    }
  }

  /** `len(isolateValues.unique()) > 1` is exactly "not all the same";
      agreement with the root plays no part. */
  lemma {:induction false} VariesIffTwoDistinct(col: seq<string>)
    ensures |Unique(col)| > 1 <==> Varies(col)
  {
    VariesIffTwoDiffer(col);
    var u := Unique(col);
    if |u| > 1 {
      assert u[0] in col && u[1] in col;
      var i :| 0 <= i < |col| && col[i] == u[0];
      var j :| 0 <= j < |col| && col[j] == u[1];
      assert col[i] != col[j];
    }
    if Varies(col) {
      var i, j :| 0 <= i < |col| && 0 <= j < |col| && col[i] != col[j];
      assert col[i] in u && col[j] in u;
      var a :| 0 <= a < |u| && u[a] == col[i];
      var b :| 0 <= b < |u| && u[b] == col[j];
      assert a != b;
    }
  }

  /** A single call never varies. */
  lemma OneCallDoesNotVary(col: seq<string>)
    requires |col| <= 1
    ensures !Varies(col)
  {
    if col != [] {
      assert col[..|col| - 1] == [];
      assert !DiffersFrom(col[..|col| - 1], col[0]);
      assert !DiffersFrom(col, col[0]);
    }
  }

  /** `len(isolateValues.unique()) > 1`, the test the loops apply. */
  function HasDifferences(col: seq<string>): (b: bool)
    ensures b <==> Varies(col)
  {
    VariesIffTwoDistinct(col);
    |Unique(col)| > 1
  }

  /** The positions of the varying columns among the first `k`, in column
      order. */
  function VaryingPositions(calls: seq<seq<string>>, width: nat, k: nat): (ps: seq<nat>)
    requires k <= width && Rectangular(calls, width)
    ensures forall i :: 0 <= i < |ps| ==> ps[i] < k
    ensures forall i, i' :: 0 <= i < i' < |ps| ==> ps[i] < ps[i']
  {
    if k == 0 then []
    else VaryingPositions(calls, width, k - 1) + (if Varies(Column(calls, k - 1)) then [k - 1] else [])
  }

  /** Every listed position varies. */
  lemma {:induction false} PositionVaries(calls: seq<seq<string>>, width: nat, k: nat, i: nat)
    requires k <= width && Rectangular(calls, width)
    requires i < |VaryingPositions(calls, width, k)|
    ensures Varies(Column(calls, VaryingPositions(calls, width, k)[i]))
  {
    if i < |VaryingPositions(calls, width, k - 1)| {
      PositionVaries(calls, width, k - 1, i);
    }
  }

  /** Every varying position is listed. */
  lemma {:induction false} PositionListed(calls: seq<seq<string>>, width: nat, k: nat, j: nat)
    requires k <= width && Rectangular(calls, width)
    requires j < k && Varies(Column(calls, j))
    ensures j in VaryingPositions(calls, width, k)
  {
    var ps := VaryingPositions(calls, width, k - 1);
    PositionsStep(calls, width, k);
    if j < k - 1 {
      PositionListed(calls, width, k - 1, j);
      InPrefix(j, ps, if Varies(Column(calls, k - 1)) then [k - 1] else []);
    } else {
      InPrefix(j, [j], []);
      InSuffix(j, ps, [j]);
    }
  }

  lemma PositionsStep(calls: seq<seq<string>>, width: nat, k: nat)
    requires 0 < k <= width && Rectangular(calls, width)
    ensures VaryingPositions(calls, width, k) ==
      VaryingPositions(calls, width, k - 1) + (if Varies(Column(calls, k - 1)) then [k - 1] else [])
  {
  }

  lemma InPrefix(x: nat, a: seq<nat>, b: seq<nat>)
    requires x in a
    ensures x in a + b
  {
    var i :| 0 <= i < |a| && a[i] == x;
    assert (a + b)[i] == x;
  }

  lemma InSuffix(x: nat, a: seq<nat>, b: seq<nat>)
    requires x in b
    ensures x in a + b
  {
    var i :| 0 <= i < |b| && b[i] == x;
    assert (a + b)[|a| + i] == x;
  }

  /** A frame of marker columns with, once inserted, the `Isolate` label
      column in front (`labels`, empty before the insertion). */
  datatype Grid = Grid(labels: seq<string>, markers: seq<string>, columns: seq<seq<string>>)

  /** The columns at the given positions. */
  function Keep(markers: seq<string>, calls: seq<seq<string>>, ps: seq<nat>): (g: Grid)
    requires forall i :: 0 <= i < |ps| ==> ps[i] < |markers|
    requires Rectangular(calls, |markers|)
    ensures g.labels == [] && |g.markers| == |ps| && |g.columns| == |ps|
    ensures forall i :: 0 <= i < |ps| ==> g.markers[i] == markers[ps[i]] && g.columns[i] == Column(calls, ps[i])
  {
    Grid([],
      seq(|ps|, i requires 0 <= i < |ps| => markers[ps[i]]),
      seq(|ps|, i requires 0 <= i < |ps| => Column(calls, ps[i])))
  }

  lemma KeepAppend(markers: seq<string>, calls: seq<seq<string>>, ps: seq<nat>, j: nat)
    requires forall i :: 0 <= i < |ps| ==> ps[i] < |markers|
    requires j < |markers| && Rectangular(calls, |markers|)
    ensures var g := Keep(markers, calls, ps);
      Keep(markers, calls, ps + [j]) == Grid([], g.markers + [markers[j]], g.columns + [Column(calls, j)])
  {
  }

  /** `differences` after the first `k` markers: the columns of the
      selected rows at which the calls are not all the same, in column
      order. */
  function DifferencesUpTo(markers: seq<string>, calls: seq<seq<string>>, k: nat): Grid
    requires k <= |markers| && Rectangular(calls, |markers|)
  {
    if k == 0 then Grid([], [], [])
    else
      var g := DifferencesUpTo(markers, calls, k - 1);
      if Varies(Column(calls, k - 1)) then Grid([], g.markers + [markers[k - 1]], g.columns + [Column(calls, k - 1)])
      else g
  }

  function Differences(markers: seq<string>, calls: seq<seq<string>>): Grid
    requires Rectangular(calls, |markers|)
  {
    DifferencesUpTo(markers, calls, |markers|)
  }

  /** The loop's frame is the varying columns picked out by position. */
  lemma {:induction false} DifferencesArePositions(markers: seq<string>, calls: seq<seq<string>>, k: nat)
    requires k <= |markers| && Rectangular(calls, |markers|)
    ensures DifferencesUpTo(markers, calls, k) == Keep(markers, calls, VaryingPositions(calls, |markers|, k))
  {
    if k == 0 {
      var g := Keep(markers, calls, []);
      assert g.markers == [] && g.columns == [];
    } else {
      DifferencesArePositions(markers, calls, k - 1);
      var col := Column(calls, k - 1);
      if Varies(col) {
        DifferencesAddColumn(markers, calls, k);
      } else {
        DifferencesSkipColumn(markers, calls, k);
      }
    }
  }

  lemma {:induction false} DifferencesAddColumn(markers: seq<string>, calls: seq<seq<string>>, k: nat)
    requires 0 < k <= |markers| && Rectangular(calls, |markers|)
    requires Varies(Column(calls, k - 1))
    requires DifferencesUpTo(markers, calls, k - 1) == Keep(markers, calls, VaryingPositions(calls, |markers|, k - 1))
    ensures DifferencesUpTo(markers, calls, k) == Keep(markers, calls, VaryingPositions(calls, |markers|, k))
  {
    var ps := VaryingPositions(calls, |markers|, k - 1);
    PositionsAddColumn(calls, |markers|, k);
    DifferencesUpToAddColumn(markers, calls, k);
    KeepAppend(markers, calls, ps, k - 1);
  }

  lemma PositionsAddColumn(calls: seq<seq<string>>, width: nat, k: nat)
    requires 0 < k <= width && Rectangular(calls, width)
    requires Varies(Column(calls, k - 1))
    ensures VaryingPositions(calls, width, k) == VaryingPositions(calls, width, k - 1) + [k - 1]
  {
  }

  lemma DifferencesUpToAddColumn(markers: seq<string>, calls: seq<seq<string>>, k: nat)
    requires 0 < k <= |markers| && Rectangular(calls, |markers|)
    requires Varies(Column(calls, k - 1))
    ensures var g := DifferencesUpTo(markers, calls, k - 1);
      DifferencesUpTo(markers, calls, k) == Grid([], g.markers + [markers[k - 1]], g.columns + [Column(calls, k - 1)])
  {
  }

  lemma {:induction false} DifferencesSkipColumn(markers: seq<string>, calls: seq<seq<string>>, k: nat)
    requires 0 < k <= |markers| && Rectangular(calls, |markers|)
    requires !Varies(Column(calls, k - 1))
    requires DifferencesUpTo(markers, calls, k - 1) == Keep(markers, calls, VaryingPositions(calls, |markers|, k - 1))
    ensures DifferencesUpTo(markers, calls, k) == Keep(markers, calls, VaryingPositions(calls, |markers|, k))
  {
    var ps := VaryingPositions(calls, |markers|, k - 1);
    assert VaryingPositions(calls, |markers|, k) == ps + [];
    assert ps + [] == ps;
    assert DifferencesUpTo(markers, calls, k) == DifferencesUpTo(markers, calls, k - 1);
    assert Keep(markers, calls, VaryingPositions(calls, |markers|, k)) == Keep(markers, calls, ps);
  }

  /** The marker loop: a column is added for every marker whose calls are
      not all the same. */
  method FindDifferences(markers: seq<string>, calls: seq<seq<string>>) returns (differences: Grid)
    requires Rectangular(calls, |markers|)
    ensures differences == Differences(markers, calls)
  {
    differences := Grid([], [], []);
    for j := 0 to |markers|
      invariant differences == DifferencesUpTo(markers, calls, j)
    {
      var isolateValues := Column(calls, j);
      ghost var next := DifferencesUpTo(markers, calls, j + 1);
      if HasDifferences(isolateValues) {
        differences := Grid([], differences.markers + [markers[j]], differences.columns + [isolateValues]);
        assert differences == next;
      } else {
        assert differences == next;
      }
    }
  }

  /** A marker is kept exactly when the selected calls at it differ. */
  lemma {:induction false} DifferencesKeepVaryingMarkers(markers: seq<string>, calls: seq<seq<string>>, j: nat)
    requires Rectangular(calls, |markers|) && Distinct(markers) && j < |markers|
    ensures markers[j] in Differences(markers, calls).markers <==> Varies(Column(calls, j))
  {
    if markers[j] in Differences(markers, calls).markers {
      KeptMarkerVaries(markers, calls, j);
    }
    if Varies(Column(calls, j)) {
      VaryingMarkerKept(markers, calls, j);
    }
  }

  lemma {:induction false} KeptMarkerVaries(markers: seq<string>, calls: seq<seq<string>>, j: nat)
    requires Rectangular(calls, |markers|) && Distinct(markers) && j < |markers|
    requires markers[j] in Differences(markers, calls).markers
    ensures Varies(Column(calls, j))
  {
    var ps := VaryingPositions(calls, |markers|, |markers|);
    var d := Differences(markers, calls);
    DifferencesArePositions(markers, calls, |markers|);
    var i :| 0 <= i < |d.markers| && d.markers[i] == markers[j];
    var p := ps[i];
    DistinctPosition(markers, p, j);
    PositionVaries(calls, |markers|, |markers|, i);
  }

  lemma {:induction false} VaryingMarkerKept(markers: seq<string>, calls: seq<seq<string>>, j: nat)
    requires Rectangular(calls, |markers|) && j < |markers|
    requires Varies(Column(calls, j))
    ensures markers[j] in Differences(markers, calls).markers
  {
    var ps := VaryingPositions(calls, |markers|, |markers|);
    var d := Differences(markers, calls);
    DifferencesArePositions(markers, calls, |markers|);
    PositionListed(calls, |markers|, |markers|, j);
    var i :| 0 <= i < |ps| && ps[i] == j;
    assert d.markers[i] == markers[j];
  }

  /** The kept markers keep the table's column order: of two kept markers,
      the earlier one comes from an earlier column. */
  lemma {:induction false} DifferencesKeepColumnOrder(markers: seq<string>, calls: seq<seq<string>>, i: nat, i': nat)
    requires Rectangular(calls, |markers|)
    requires i < i' < |Differences(markers, calls).markers|
    ensures exists p, p' :: 0 <= p < p' < |markers| && markers[p] == Differences(markers, calls).markers[i]
                                                  && markers[p'] == Differences(markers, calls).markers[i']
  {
    var ps := VaryingPositions(calls, |markers|, |markers|);
    var d := Differences(markers, calls);
    DifferencesArePositions(markers, calls, |markers|);
    assert ps[i] < ps[i'] < |markers|;
    assert markers[ps[i]] == d.markers[i] && markers[ps[i']] == d.markers[i'];
  }

  // ---------------------------------------------------------------------
  // The annotation row and the label column (mainV3.py:58-62).

  /** The cells of one row at the given positions (`.loc[row, columns]`). */
  function Pick(row: seq<string>, ps: seq<nat>): (cells: seq<string>)
    requires forall i :: 0 <= i < |ps| ==> ps[i] < |row|
    ensures |cells| == |ps|
    ensures forall i :: 0 <= i < |ps| ==> cells[i] == row[ps[i]]
  {
    seq(|ps|, i requires 0 <= i < |ps| => row[ps[i]])
  }

  /** Appends one cell to every column and puts the label column in front:
      the selected identifiers, then "Annotation". */
  function Append(differences: Grid, cells: seq<string>, ids: seq<string>): (g: Grid)
    requires |cells| == |differences.columns|
    ensures g.labels == ids + ["Annotation"] && g.markers == differences.markers
    ensures |g.columns| == |differences.columns|
    ensures forall i :: 0 <= i < |g.columns| ==> g.columns[i] == differences.columns[i] + [cells[i]]
  {
    Grid(ids + ["Annotation"], differences.markers,
      seq(|cells|, i requires 0 <= i < |cells| => differences.columns[i] + [cells[i]]))
  }

  /** The outcome of the annotation step: the frame, or the exception. */
  datatype Annotated =
    | Annotated(grid: Grid)
    | MissingRow      // `df.loc[row, ...]` with no such row: KeyError
    | NoColumns       // `.loc[...] = ...` on a frame without columns: ValueError

  /** The annotation step as written: row `annotationRow` of the table
      (position 263 in the file the page reads) is looked up first, and
      setting a row on a frame without columns raises. */
  function AnnotateAsWritten(t: Table, selection: seq<string>, annotationRow: nat): (r: Annotated)
    requires Wellformed(t)
    ensures annotationRow >= |t.rows| ==> r == MissingRow
    ensures annotationRow < |t.rows| ==> (r == NoColumns <==> Differences(t.markers, Calls(SelectRows(t.rows, selection))).markers == [])
  {
    var rows := SelectRows(t.rows, selection);
    CallsRectangular(t, rows);
    var ps := VaryingPositions(Calls(rows), |t.markers|, |t.markers|);
    DifferencesArePositions(t.markers, Calls(rows), |t.markers|);
    if annotationRow >= |t.rows| then MissingRow
    else if ps == [] then NoColumns
    else Annotated(Append(Keep(t.markers, Calls(rows), ps), Pick(t.rows[annotationRow].calls, ps), Ids(rows)))
  }

  /** The annotation step as evidently intended: when nothing varies the
      frame still gets the annotation row and the labels, with no marker
      column. */
  function Annotate(t: Table, selection: seq<string>, annotationRow: nat): (r: Annotated)
    requires Wellformed(t)
    ensures r.NoColumns? == false
    ensures annotationRow >= |t.rows| <==> r == MissingRow
    ensures r.Annotated? ==>
      && r.grid.labels == Ids(SelectRows(t.rows, selection)) + ["Annotation"]
      && r.grid.markers == Differences(t.markers, Calls(SelectRows(t.rows, selection))).markers
      && |r.grid.columns| == |r.grid.markers|
      && (forall i :: 0 <= i < |r.grid.columns| ==> |r.grid.columns[i]| == |r.grid.labels|)
  {
    var rows := SelectRows(t.rows, selection);
    CallsRectangular(t, rows);
    var ps := VaryingPositions(Calls(rows), |t.markers|, |t.markers|);
    DifferencesArePositions(t.markers, Calls(rows), |t.markers|);
    if annotationRow >= |t.rows| then MissingRow
    else Annotated(Append(Keep(t.markers, Calls(rows), ps), Pick(t.rows[annotationRow].calls, ps), Ids(rows)))
  }

  /** Selecting one isolate crashes the page as written: with a single row
      no marker varies, so the frame has no column when the annotation row
      is set. The intended step gives the labels and the annotation row. */
  lemma {:induction false} SingleIsolateHasNoColumns(t: Table, isolate: string, annotationRow: nat)
    requires Wellformed(t) && annotationRow < |t.rows|
    requires |SelectRows(t.rows, [isolate])| == 1
    ensures AnnotateAsWritten(t, [isolate], annotationRow) == NoColumns
    ensures Annotate(t, [isolate], annotationRow).Annotated?
  {
    var calls := Calls(SelectRows(t.rows, [isolate]));
    CallsRectangular(t, SelectRows(t.rows, [isolate]));
    var ps := VaryingPositions(calls, |t.markers|, |t.markers|);
    if ps != [] {
      OneCallDoesNotVary(Column(calls, ps[0]));
      PositionVaries(calls, |t.markers|, |t.markers|, 0);
    }
  }

  /** Where both succeed they agree: the correction only removes the
      exception. */
  lemma AnnotateAgreesWhereDefined(t: Table, selection: seq<string>, annotationRow: nat)
    requires Wellformed(t)
    requires !AnnotateAsWritten(t, selection, annotationRow).NoColumns?
    ensures Annotate(t, selection, annotationRow) == AnnotateAsWritten(t, selection, annotationRow)
  {
  }

  // ---------------------------------------------------------------------
  // The base frequency table (mainV3.py:68-83).

  /** One row of the transposed `freq_df`. */
  datatype BaseShares = BaseShares(marker: string, a: real, t: real, c: real, g: real)

  /** The calls of a column in the rows not labelled "Annotation". */
  function IsolateCalls(labels: seq<string>, column: seq<string>): (calls: seq<string>)
    requires |column| == |labels|
    ensures |calls| <= |column|
    ensures forall x :: x in calls ==> x in column
  {
    if labels == [] then []
    else
      var rest := IsolateCalls(labels[..|labels| - 1], column[..|column| - 1]);
      if labels[|labels| - 1] != "Annotation" then rest + [column[|column| - 1]] else rest
  }

  /** `value_counts(normalize=True) * 100` of one base, 0 for a base that
      does not occur (`reindex(..., fill_value=0)`). */
  function Share(calls: seq<string>, base: string): real {
    if Count(calls, base) == 0 then 0.0 else Percent(Count(calls, base), |calls|)
  }

  function SharesOf(marker: string, calls: seq<string>): BaseShares {
    BaseShares(marker, Share(calls, "A"), Share(calls, "T"), Share(calls, "C"), Share(calls, "G"))
  }

  /** The frequency loop: one row per marker column of the frame. */
  method FrequencyTable(differences: Grid) returns (freq: seq<BaseShares>)
    requires |differences.columns| == |differences.markers|
    requires forall i :: 0 <= i < |differences.columns| ==> |differences.columns[i]| == |differences.labels|
    ensures |freq| == |differences.markers|
    ensures forall k :: 0 <= k < |freq| ==>
      freq[k] == SharesOf(differences.markers[k], IsolateCalls(differences.labels, differences.columns[k]))
  {
    freq := [];
    for k := 0 to |differences.markers|
      invariant |freq| == k
      invariant forall k' :: 0 <= k' < k ==>
        freq[k'] == SharesOf(differences.markers[k'], IsolateCalls(differences.labels, differences.columns[k']))
    {
      var baseCounts := IsolateCalls(differences.labels, differences.columns[k]);
      freq := freq + [SharesOf(differences.markers[k], baseCounts)];
    }
  }

  lemma PercentAdd(x: nat, y: nat, n: nat)
    requires n > 0
    ensures Percent(x, n) + Percent(y, n) == Percent(x + y, n)
  {
  }

  lemma PercentBound(x: nat, n: nat)
    requires n > 0 && x <= n
    ensures 0.0 <= Percent(x, n) <= 100.0
    ensures x == n ==> Percent(x, n) == 100.0
  {
  }

  /** Every share is a percentage, the four together are at most 100 (calls
      that are not bases count in the denominator), and exactly 100 when
      every call is a base. */
  lemma {:induction false} SharesArePercentages(marker: string, calls: seq<string>)
    ensures var s := SharesOf(marker, calls);
      && 0.0 <= s.a <= 100.0 && 0.0 <= s.t <= 100.0 && 0.0 <= s.c <= 100.0 && 0.0 <= s.g <= 100.0
      && s.a + s.t + s.c + s.g <= 100.0
    ensures var s := SharesOf(marker, calls);
      calls != [] && (forall x :: x in calls ==> x in ["A", "T", "C", "G"]) ==> s.a + s.t + s.c + s.g == 100.0
  {
    var n := |calls|;
    if n > 0 {
      var a, t, c, g := Count(calls, "A"), Count(calls, "T"), Count(calls, "C"), Count(calls, "G");
      var bases := ["A", "T", "C", "G"];
      assert CountSum(bases, calls) == a + t + c + g by {
        assert bases[..3] == ["A", "T", "C"] && bases[3] == "G";
        assert ["A", "T", "C"][..2] == ["A", "T"];
        assert ["A", "T"][..1] == ["A"];
        assert ["A"][..0] == [];
        assert CountSum([], calls) == 0;
        assert CountSum(["A"], calls) == a;
        assert CountSum(["A", "T"], calls) == a + t;
        assert CountSum(["A", "T", "C"], calls) == a + t + c;
      }
      assert Distinct(bases);
      CountSumBound(bases, calls);
      PercentBound(a, n);
      PercentBound(t, n);
      PercentBound(c, n);
      PercentBound(g, n);
      PercentAdd(a, t, n);
      PercentAdd(a + t, c, n);
      PercentAdd(a + t + c, g, n);
      PercentBound(a + t + c + g, n);
      if forall x :: x in calls ==> x in bases {
        CountSumAll(bases, calls);
      }
    }
  }

  /** After the annotation step the frequencies see exactly the selected
      isolates' calls (when no isolate is itself named "Annotation"). */
  lemma {:induction false} IsolateCallsSkipAnnotation(ids: seq<string>, column: seq<string>, cell: string)
    requires |column| == |ids| && "Annotation" !in ids
    ensures IsolateCalls(ids + ["Annotation"], column + [cell]) == column
  {
    assert (ids + ["Annotation"])[..|ids|] == ids;
    assert (column + [cell])[..|column|] == column;
    IsolateCallsAll(ids, column);
  }

  lemma {:induction false} IsolateCallsAll(ids: seq<string>, column: seq<string>)
    requires |column| == |ids| && "Annotation" !in ids
    ensures IsolateCalls(ids, column) == column
  {
    if ids != [] {
      assert ids[|ids| - 1] in ids;
      assert forall x :: x in ids[..|ids| - 1] ==> x in ids;
      IsolateCallsAll(ids[..|ids| - 1], column[..|column| - 1]);
    }
  }
}
