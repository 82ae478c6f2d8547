/** The object-oriented page of olderVersions/mainV3oop.py: the same
    variable-marker analysis as mainV3.py, kept in the fields of a
    `NucleotideAnalysisApp` and updated by its methods one pandas operation
    at a time. A raised exception is an `Error` result that leaves the
    fields as they were when it was raised. */
module AnalysisApp {
  import opened Text
  import opened Table
  import opened Summary
  import opened Variation

  // ---------------------------------------------------------------------
  // The `differences` DataFrame and the pandas operations applied to it.

  /** A row label: a position of the default `RangeIndex`, or the
      `"Annotations"` label set by `.loc`. */
  datatype Label = Position(n: nat) | Annotations

  /** Column labels in order, one sequence of cells per column, and the row
      labels. */
  datatype DataFrame = DataFrame(names: seq<string>, columns: seq<seq<string>>, index: seq<Label>)

  /** The exceptions the methods can raise. */
  datatype Error =
    | KeyNotFound        // KeyError: a row or column label that is not there
    | LengthMismatch     // ValueError: values of the wrong length for the index
    | NoDefinedColumns   // ValueError: `.loc` row assignment on a frame without columns
    | AlreadyExists      // ValueError: `insert` of a column label already present

  datatype Result<T> = Done(value: T) | Raised(error: Error)

  /** The frame after a run of operations and the exception, if any, that
      ended it. */
  datatype Step = Step(frame: DataFrame, error: Option<Error>)

  /** `pd.DataFrame()`. */
  function Empty(): DataFrame {
    DataFrame([], [], [])
  }

  /** Unique column labels and one cell per row in every column. */
  predicate FrameValid(f: DataFrame) {
    && |f.names| == |f.columns|
    && Distinct(f.names)
    && forall i :: 0 <= i < |f.columns| ==> |f.columns[i]| == |f.index|
  }

  /** One column per label. */
  predicate Shaped(f: DataFrame) {
    |f.names| == |f.columns|
  }

  function RangeIndex(n: nat): (index: seq<Label>)
    ensures |index| == n
    ensures forall i :: 0 <= i < n ==> index[i] == Position(i)
    ensures Annotations !in index
  {
    seq(n, i requires 0 <= i < n => Position(i))
  }

  /** pandas' `_ensure_valid_index`: a frame without rows that is given a
      non-empty list takes its index from it (a `RangeIndex`), and every
      column it already has is filled with empty cells to that length. */
  predicate TakesIndex(f: DataFrame, values: seq<string>) {
    f.index == [] && values != []
  }

  function Blanks(n: nat): (cells: seq<string>)
    ensures |cells| == n
    ensures forall i :: 0 <= i < n ==> cells[i] == EmptyCell
  {
    seq(n, i requires 0 <= i < n => EmptyCell)
  }

  function Reindexed(f: DataFrame, n: nat): (g: DataFrame)
    ensures g.names == f.names && g.index == RangeIndex(n)
    ensures |g.columns| == |f.columns|
    ensures forall k :: 0 <= k < |f.columns| ==> g.columns[k] == Blanks(n)
    ensures FrameValid(g) <==> |f.names| == |f.columns| && Distinct(f.names)
  {
    DataFrame(f.names, seq(|f.columns|, k requires 0 <= k < |f.columns| => Blanks(n)), RangeIndex(n))
  }

  /** The frame a value is set into: reindexed when it takes its index. */
  function Prepared(f: DataFrame, values: seq<string>): (g: DataFrame)
    ensures g.names == f.names && |g.columns| == |f.columns|
    ensures TakesIndex(f, values) ==> g == Reindexed(f, |values|)
    ensures !TakesIndex(f, values) ==> g == f
  {
    if TakesIndex(f, values) then Reindexed(f, |values|) else f
  }

  /** `frame[name] = values`: replaces the column of that label or appends
      a new one; the values must fit the index, which a frame without rows
      first takes from them. */
  function SetColumn(f: DataFrame, name: string, values: seq<string>): (r: Result<DataFrame>)
    requires Shaped(f)
    ensures r.Done? <==> f.index == [] || |values| == |f.index|
    ensures r.Raised? ==> r.error == LengthMismatch
    ensures r.Done? ==> Shaped(r.value) && f.names <= r.value.names
  {
    var g := Prepared(f, values);
    if |values| != |g.index| then
      Raised(LengthMismatch)
    else if name in g.names then
      Done(DataFrame(g.names, g.columns[PositionOf(g.names, name) := values], g.index))
    else
      Done(DataFrame(g.names + [name], g.columns + [values], g.index))
  }

  /** A frame with a column but no rows accepts a two-cell column: it
      takes the index 0, 1 and its column becomes two empty cells. */
  lemma {:induction false} SetColumnOnRowlessFrame()
    ensures SetColumn(DataFrame(["m"], [[]], []), "n", ["A", "C"]) ==
      Done(DataFrame(["m", "n"], [[EmptyCell, EmptyCell], ["A", "C"]], [Position(0), Position(1)]))
  {
    var f := DataFrame(["m"], [[]], []);
    var g := Prepared(f, ["A", "C"]);
    assert TakesIndex(f, ["A", "C"]);
    assert g.columns[0] == Blanks(2) == [EmptyCell, EmptyCell];
    assert g.index == RangeIndex(2) == [Position(0), Position(1)];
    assert g == DataFrame(["m"], [[EmptyCell, EmptyCell]], [Position(0), Position(1)]);
    assert "n" !in g.names;
    assert g.names + ["n"] == ["m", "n"];
    assert g.columns + [["A", "C"]] == [[EmptyCell, EmptyCell], ["A", "C"]];
  }

  /** `frame[name] = values` keeps the labels unique and the columns as
      long as the index. */
  lemma SetColumnValid(f: DataFrame, name: string, values: seq<string>)
    requires FrameValid(f) && SetColumn(f, name, values).Done?
    ensures FrameValid(SetColumn(f, name, values).value)
  {
    SetColumnContents(f, name, values);
  }

  /** After `frame[name] = values` the label holds exactly the values, a
      new label comes last, and every other column is untouched, or, when
      the frame took its index from the values, filled with empty cells. */
  lemma SetColumnContents(f: DataFrame, name: string, values: seq<string>)
    requires Shaped(f) && SetColumn(f, name, values).Done?
    ensures FrameValid(f) ==> FrameValid(SetColumn(f, name, values).value)
    ensures var g := SetColumn(f, name, values).value;
      && name in g.names
      && g.columns[PositionOf(g.names, name)] == values
      && (forall k :: 0 <= k < |f.names| && f.names[k] != name ==>
            g.columns[k] == if TakesIndex(f, values) then Blanks(|values|) else f.columns[k])
      && (name !in f.names ==> g.names == f.names + [name])
      && (name in f.names ==> g.names == f.names)
      && g.index == if TakesIndex(f, values) then RangeIndex(|values|) else f.index
  {
    var p := Prepared(f, values);
    if name in f.names {
      SetColumnReplaces(p, name, values);
    } else {
      SetColumnAppends(p, name, values);
    }
  }

  lemma SetColumnReplaces(f: DataFrame, name: string, values: seq<string>)
    requires Shaped(f) && !TakesIndex(f, values) && |values| == |f.index| && name in f.names
    ensures var g := DataFrame(f.names, f.columns[PositionOf(f.names, name) := values], f.index);
      && SetColumn(f, name, values) == Done(g)
      && (FrameValid(f) ==> FrameValid(g))
      && g.columns[PositionOf(g.names, name)] == values
      && (forall k :: 0 <= k < |f.names| && f.names[k] != name ==> g.columns[k] == f.columns[k])
  {
  }

  lemma SetColumnAppends(f: DataFrame, name: string, values: seq<string>)
    requires Shaped(f) && !TakesIndex(f, values) && |values| == |f.index| && name !in f.names
    ensures var g := DataFrame(f.names + [name], f.columns + [values], f.index);
      && SetColumn(f, name, values) == Done(g)
      && (FrameValid(f) ==> FrameValid(g))
      && g.columns[PositionOf(g.names, name)] == values
      && (forall k :: 0 <= k < |f.names| ==> g.columns[k] == f.columns[k])
  {
    var g := DataFrame(f.names + [name], f.columns + [values], f.index);
    assert forall i :: 0 <= i < |f.names| ==> g.names[i] == f.names[i];
    assert g.names[|f.names|] == name;
  }

  /** `frame.loc["Annotations"] = cells`: appends a row with that label, or
      overwrites it when the label is already there; a frame without
      columns refuses the assignment. */
  function SetAnnotationsRow(f: DataFrame, cells: seq<string>): (r: Result<DataFrame>)
    requires FrameValid(f) && |cells| == |f.names|
    ensures r.Raised? <==> f.names == []
    ensures r.Raised? ==> r.error == NoDefinedColumns
    ensures r.Done? ==> FrameValid(r.value) && r.value.names == f.names && Annotations in r.value.index
    ensures r.Done? && Annotations !in f.index ==>
      && r.value.index == f.index + [Annotations]
      && forall k :: 0 <= k < |f.columns| ==> r.value.columns[k] == f.columns[k] + [cells[k]]
    ensures r.Done? && Annotations in f.index ==>
      && r.value.index == f.index
      && forall k :: 0 <= k < |f.columns| ==> r.value.columns[k] == f.columns[k][PositionOf(f.index, Annotations) := cells[k]]
  {
    if f.names == [] then Raised(NoDefinedColumns)
    else if Annotations in f.index then
      var p := PositionOf(f.index, Annotations);
      var columns := seq(|f.columns|, k requires 0 <= k < |f.columns| => f.columns[k][p := cells[k]]);
      Done(DataFrame(f.names, columns, f.index))
    else
      var columns := seq(|f.columns|, k requires 0 <= k < |f.columns| => f.columns[k] + [cells[k]]);
      Done(DataFrame(f.names, columns, f.index + [Annotations]))
  }

  /** `frame.insert(0, name, values)`: a new first column; a label already
      present is refused before the index is taken from the values or the
      length is looked at. */
  function InsertFirst(f: DataFrame, name: string, values: seq<string>): (r: Result<DataFrame>)
    requires FrameValid(f)
    ensures r.Done? <==> name !in f.names && (f.index == [] || |values| == |f.index|)
    ensures r.Raised? ==> r.error == (if name in f.names then AlreadyExists else LengthMismatch)
    ensures r.Done? ==> FrameValid(r.value)
    ensures r.Done? ==> r.value.names == [name] + f.names
    ensures r.Done? && !TakesIndex(f, values) ==> r.value.columns == [values] + f.columns && r.value.index == f.index
    ensures r.Done? && TakesIndex(f, values) ==>
      && r.value.index == RangeIndex(|values|)
      && r.value.columns[0] == values
      && forall k :: 1 <= k < |r.value.columns| ==> r.value.columns[k] == Blanks(|values|)
  {
    if name in f.names then Raised(AlreadyExists)
    else
      var g := Prepared(f, values);
      if |values| != |g.index| then Raised(LengthMismatch)
      else
        assert forall i :: 0 < i < |[name] + g.names| ==> ([name] + g.names)[i] == g.names[i - 1];
        Done(DataFrame([name] + g.names, [values] + g.columns, g.index))
  }

  // ---------------------------------------------------------------------
  // filter_isolates (olderVersions/mainV3oop.py:33-46).

  /** The calls of the selected rows, one sequence per row. */
  function SelectedCalls(t: Table, selection: seq<string>): (calls: seq<seq<string>>)
    requires Wellformed(t)
    ensures Rectangular(calls, |t.markers|)
    ensures calls == Calls(SelectRows(t.rows, selection))
  {
    CallsRectangular(t, SelectRows(t.rows, selection));
    Calls(SelectRows(t.rows, selection))
  }

  /** One turn of the marker loop: the column is set when its calls are
      not all the same, unless an earlier turn has raised. */
  function FilterMarker(s: Step, name: string, isolateValues: seq<string>): (s': Step)
    requires Shaped(s.frame)
    ensures Shaped(s'.frame)
    ensures s.frame.names <= s'.frame.names
    ensures s.error.Some? ==> s' == s
  {
    if s.error.Some? || !Varies(isolateValues) then s
    else match SetColumn(s.frame, name, isolateValues)
      case Done(g) => Step(g, None)
      case Raised(e) => Step(s.frame, Some(e))
  }

  /** The three outcomes of a turn taken from a frame without an exception. */
  lemma FilterMarkerOutcome(f: DataFrame, name: string, isolateValues: seq<string>)
    requires Shaped(f)
    ensures !Varies(isolateValues) ==> FilterMarker(Step(f, None), name, isolateValues) == Step(f, None)
    ensures Varies(isolateValues) && SetColumn(f, name, isolateValues).Raised? ==>
      FilterMarker(Step(f, None), name, isolateValues) == Step(f, Some(SetColumn(f, name, isolateValues).error))
    ensures Varies(isolateValues) && SetColumn(f, name, isolateValues).Done? ==>
      FilterMarker(Step(f, None), name, isolateValues) == Step(SetColumn(f, name, isolateValues).value, None)
  {
  }

  /** The marker loop after the first `k` markers, starting from the frame
      `f` the object already holds. */
  function FilterUpTo(f: DataFrame, markers: seq<string>, calls: seq<seq<string>>, k: nat): (s: Step)
    requires Shaped(f) && k <= |markers| && Rectangular(calls, |markers|)
    ensures Shaped(s.frame)
    ensures f.names <= s.frame.names
  {
    if k == 0 then Step(f, None)
    else FilterMarker(FilterUpTo(f, markers, calls, k - 1), markers[k - 1], Column(calls, k - 1))
  }

  /** One more turn of the loop from the frame it has reached. */
  lemma {:induction false} FilterTurn(f: DataFrame, markers: seq<string>, calls: seq<seq<string>>, j: nat, reached: DataFrame)
    requires Shaped(f) && j < |markers| && Rectangular(calls, |markers|)
    requires FilterUpTo(f, markers, calls, j) == Step(reached, None)
    ensures Shaped(reached)
    ensures FilterUpTo(f, markers, calls, j + 1) == FilterMarker(Step(reached, None), markers[j], Column(calls, j))
  {
  }

  /** An exception ends the loop: later markers change nothing. */
  lemma {:induction false} FilterErrorIsFinal(f: DataFrame, markers: seq<string>, calls: seq<seq<string>>, j: nat, k: nat)
    requires Shaped(f) && j <= k <= |markers| && Rectangular(calls, |markers|)
    requires FilterUpTo(f, markers, calls, j).error.Some?
    ensures FilterUpTo(f, markers, calls, k) == FilterUpTo(f, markers, calls, j)
    decreases k
  {
    if j < k {
      FilterErrorIsFinal(f, markers, calls, j, k - 1);
      var s := FilterUpTo(f, markers, calls, k - 1);
      assert FilterUpTo(f, markers, calls, k) == FilterMarker(s, markers[k - 1], Column(calls, k - 1));
    }
  }

  /** The loop keeps column labels unique and every column as long as the
      index. */
  lemma {:induction false} FilterUpToValid(f: DataFrame, markers: seq<string>, calls: seq<seq<string>>, k: nat)
    requires FrameValid(f) && k <= |markers| && Rectangular(calls, |markers|)
    ensures FrameValid(FilterUpTo(f, markers, calls, k).frame)
  {
    if k > 0 {
      FilterUpToValid(f, markers, calls, k - 1);
      var s := FilterUpTo(f, markers, calls, k - 1);
      var isolateValues := Column(calls, k - 1);
      if s.error.None? && Varies(isolateValues) && SetColumn(s.frame, markers[k - 1], isolateValues).Done? {
        SetColumnContents(s.frame, markers[k - 1], isolateValues);
      }
    }
  }

  /** A column label the loop adds is a marker at which the selected calls
      differ. */
  lemma {:induction false} FilterAddsOnlyVaryingMarkers(f: DataFrame, markers: seq<string>, calls: seq<seq<string>>, k: nat, name: string)
    requires Shaped(f) && k <= |markers| && Rectangular(calls, |markers|) && Distinct(markers)
    requires name in FilterUpTo(f, markers, calls, k).frame.names && name !in f.names
    ensures name in markers
    ensures Varies(Column(calls, PositionOf(markers, name)))
  {
    var s := FilterUpTo(f, markers, calls, k - 1);
    if name in s.frame.names {
      FilterAddsOnlyVaryingMarkers(f, markers, calls, k - 1, name);
    } else {
      FilterMarkerNewName(s, markers[k - 1], Column(calls, k - 1), name);
      PositionOfDistinct(markers, k - 1);
    }
  }

  /** A label that one turn adds is that turn's marker, and its calls vary. */
  lemma FilterMarkerNewName(s: Step, m: string, isolateValues: seq<string>, name: string)
    requires Shaped(s.frame)
    requires name in FilterMarker(s, m, isolateValues).frame.names && name !in s.frame.names
    ensures name == m && Varies(isolateValues)
  {
    SetColumnContents(s.frame, m, isolateValues);
  }

  /** The frame the loop builds from the constructor's empty one after the
      first `k` markers. */
  function FreshFrame(markers: seq<string>, calls: seq<seq<string>>, k: nat): (f: DataFrame)
    requires k <= |markers| && Rectangular(calls, |markers|)
  {
    var d := DifferencesUpTo(markers, calls, k);
    DataFrame(d.markers, d.columns, if d.markers == [] then [] else RangeIndex(|calls|))
  }

  /** Starting from the constructor's empty frame the loop builds the
      page's `differences`: the varying markers in column order, with the
      selected rows as the index; no column ever fails to fit. */
  lemma {:induction false} FilterFromEmpty(markers: seq<string>, calls: seq<seq<string>>, k: nat)
    requires k <= |markers| && Rectangular(calls, |markers|) && Distinct(markers)
    ensures FilterUpTo(Empty(), markers, calls, k) == Step(FreshFrame(markers, calls, k), None)
  {
    if k > 0 {
      FilterFromEmpty(markers, calls, k - 1);
      FilterFromEmptyStep(markers, calls, k);
    }
  }

  /** The varying markers are distinct and their columns as long as the
      selection. */
  lemma {:induction false} FreshFrameValid(markers: seq<string>, calls: seq<seq<string>>, k: nat)
    requires k <= |markers| && Rectangular(calls, |markers|) && Distinct(markers)
    ensures FrameValid(FreshFrame(markers, calls, k))
  {
    var d := DifferencesUpTo(markers, calls, k);
    DifferencesArePositions(markers, calls, k);
    var ps := VaryingPositions(calls, |markers|, k);
    forall i, i' | 0 <= i < i' < |d.markers| ensures d.markers[i] != d.markers[i'] {
      assert d.markers[i] == markers[ps[i]] && d.markers[i'] == markers[ps[i']] && ps[i] < ps[i'];
    }
    forall c | c in d.columns ensures |c| == |calls| {
      var i :| 0 <= i < |d.columns| && d.columns[i] == c;
      assert c == Column(calls, ps[i]);
    }
  }

  lemma {:induction false} FilterFromEmptyStep(markers: seq<string>, calls: seq<seq<string>>, k: nat)
    requires 0 < k <= |markers| && Rectangular(calls, |markers|) && Distinct(markers)
    ensures FrameValid(FreshFrame(markers, calls, k - 1))
    ensures FilterMarker(Step(FreshFrame(markers, calls, k - 1), None), markers[k - 1], Column(calls, k - 1))
         == Step(FreshFrame(markers, calls, k), None)
  {
    FreshFrameValid(markers, calls, k - 1);
    if Varies(Column(calls, k - 1)) {
      NextMarkerIsNew(markers, calls, k);
      DifferencesUpToAddColumn(markers, calls, k);
    }
  }

  /** A marker the loop has not reached yet is not among the columns. */
  lemma NextMarkerIsNew(markers: seq<string>, calls: seq<seq<string>>, k: nat)
    requires 0 < k <= |markers| && Rectangular(calls, |markers|) && Distinct(markers)
    ensures markers[k - 1] !in DifferencesUpTo(markers, calls, k - 1).markers
  {
    var d := DifferencesUpTo(markers, calls, k - 1);
    DifferencesArePositions(markers, calls, k - 1);
    var ps := VaryingPositions(calls, |markers|, k - 1);
    forall i | 0 <= i < |d.markers| ensures d.markers[i] != markers[k - 1] {
      assert d.markers[i] == markers[ps[i]] && ps[i] < k - 1;
    }
  }

  // ---------------------------------------------------------------------
  // add_annotations (olderVersions/mainV3oop.py:48-52).

  /** `df.loc[annotationRow, names]`: the annotation row's cells under the
      given column labels; a missing row or column label raises. */
  function AnnotationCells(t: Table, annotationRow: nat, names: seq<string>): (r: Result<seq<string>>)
    requires Wellformed(t)
    ensures r.Done? <==> annotationRow < |t.rows| && forall n :: n in names ==> n in t.markers
    ensures r.Raised? ==> r.error == KeyNotFound
    ensures r.Done? ==> |r.value| == |names|
    ensures r.Done? ==> forall k :: 0 <= k < |names| ==> r.value[k] == t.rows[annotationRow].calls[PositionOf(t.markers, names[k])]
  {
    if annotationRow >= |t.rows| || exists n :: n in names && n !in t.markers then Raised(KeyNotFound)
    else
      var row := t.rows[annotationRow];
      assert row in t.rows;
      Done(seq(|names|, k requires 0 <= k < |names| => row.calls[PositionOf(t.markers, names[k])]))
  }

  /** The three statements of `add_annotations`, each of which may raise;
      `isolateSeq` is `None` while it is still the constructor's empty
      frame, which has no `Unnamed: 0` column. */
  function AnnotateStep(f: DataFrame, isolateSeq: Option<seq<Row>>, t: Table, annotationRow: nat): (s: Step)
    requires FrameValid(f) && Wellformed(t)
    ensures FrameValid(s.frame)
    ensures s.error.None? ==> s.frame.names == ["Isolate"] + f.names
    ensures s.error == Some(NoDefinedColumns) <==> annotationRow < |t.rows| && f.names == []
  {
    match AnnotationCells(t, annotationRow, f.names)
    case Raised(e) => Step(f, Some(e))
    case Done(cells) =>
      match SetAnnotationsRow(f, cells)
      case Raised(e) => Step(f, Some(e))
      case Done(g) =>
        if isolateSeq.None? then Step(g, Some(KeyNotFound))
        else match InsertFirst(g, "Isolate", Ids(isolateSeq.value) + ["Annotation"])
          case Raised(e) => Step(g, Some(e))
          case Done(h) => Step(h, None)
  }

  /** The page's grid read back from the object's frame: the `Isolate`
      column as labels and the other columns as markers. */
  function GridOf(f: DataFrame): (g: Grid)
    requires |f.names| == |f.columns| && |f.names| > 0
    ensures g.markers == f.names[1..] && g.columns == f.columns[1..] && g.labels == f.columns[0]
  {
    Grid(f.columns[0], f.names[1..], f.columns[1..])
  }

  /** A fresh object given one selection by `filter_isolates` and then
      annotated ends exactly where the page of mainV3.py does: the same
      KeyError for a missing annotation row, the same ValueError when no
      marker varies, and otherwise the same frame, with `Isolate` as its
      first column. */
  lemma {:induction false} SessionMatchesPage(t: Table, selection: seq<string>, annotationRow: nat)
    requires Wellformed(t) && "Isolate" !in t.markers
    ensures FilterUpTo(Empty(), t.markers, SelectedCalls(t, selection), |t.markers|)
         == Step(FreshFrame(t.markers, SelectedCalls(t, selection), |t.markers|), None)
    ensures FrameValid(FreshFrame(t.markers, SelectedCalls(t, selection), |t.markers|))
    ensures var s := AnnotateStep(FreshFrame(t.markers, SelectedCalls(t, selection), |t.markers|),
                                  Some(SelectRows(t.rows, selection)), t, annotationRow);
      && (AnnotateAsWritten(t, selection, annotationRow) == MissingRow ==> s.error == Some(KeyNotFound))
      && (AnnotateAsWritten(t, selection, annotationRow) == NoColumns ==> s.error == Some(NoDefinedColumns))
      && (AnnotateAsWritten(t, selection, annotationRow).Annotated? ==>
            s.error.None? && |s.frame.names| > 0 && GridOf(s.frame) == AnnotateAsWritten(t, selection, annotationRow).grid)
  {
    var calls := SelectedCalls(t, selection);
    FilterFromEmpty(t.markers, calls, |t.markers|);
    FreshFrameValid(t.markers, calls, |t.markers|);
    if AnnotateAsWritten(t, selection, annotationRow).Annotated? {
      AnnotatedSessionMatchesPage(t, selection, annotationRow);
    }
  }

  lemma {:induction false} AnnotatedSessionMatchesPage(t: Table, selection: seq<string>, annotationRow: nat)
    requires Wellformed(t) && "Isolate" !in t.markers
    requires AnnotateAsWritten(t, selection, annotationRow).Annotated?
    ensures FrameValid(FreshFrame(t.markers, SelectedCalls(t, selection), |t.markers|))
    ensures var s := AnnotateStep(FreshFrame(t.markers, SelectedCalls(t, selection), |t.markers|),
                                  Some(SelectRows(t.rows, selection)), t, annotationRow);
      s.error.None? && |s.frame.names| > 0 && GridOf(s.frame) == AnnotateAsWritten(t, selection, annotationRow).grid
  {
    var rows := SelectRows(t.rows, selection);
    var calls := SelectedCalls(t, selection);
    FreshFrameValid(t.markers, calls, |t.markers|);
    var f := FreshFrame(t.markers, calls, |t.markers|);
    var ps := VaryingPositions(calls, |t.markers|, |t.markers|);
    DifferencesArePositions(t.markers, calls, |t.markers|);
    var d := DifferencesUpTo(t.markers, calls, |t.markers|);
    assert annotationRow < |t.rows| && ps != [] && d.markers != [];
    var cells := Pick(t.rows[annotationRow].calls, ps);
    CellsUnderMarkers(t, annotationRow, d.markers, ps);
    assert f == DataFrame(d.markers, d.columns, RangeIndex(|rows|));
    AnnotateFrameContents(d, |rows|, cells, Ids(rows));
  }

  /** The annotation row's cells under the kept markers are its calls at
      their positions. */
  lemma CellsUnderMarkers(t: Table, annotationRow: nat, names: seq<string>, ps: seq<nat>)
    requires Wellformed(t) && annotationRow < |t.rows| && |names| == |ps|
    requires forall i :: 0 <= i < |ps| ==> ps[i] < |t.markers| && names[i] == t.markers[ps[i]]
    ensures forall i :: 0 <= i < |ps| ==> ps[i] < |t.rows[annotationRow].calls|
    ensures AnnotationCells(t, annotationRow, names) == Done(Pick(t.rows[annotationRow].calls, ps))
  {
    forall n | n in names ensures n in t.markers {
      var i :| 0 <= i < |names| && names[i] == n;
    }
    var cells := AnnotationCells(t, annotationRow, names).value;
    forall k | 0 <= k < |cells| ensures cells[k] == t.rows[annotationRow].calls[ps[k]] {
      PositionOfDistinct(t.markers, ps[k]);
    }
    assert cells == Pick(t.rows[annotationRow].calls, ps);
  }

  /** On a frame of columns over a default index, setting the annotation
      row and inserting the label column gives the page's grid. */
  lemma AnnotateFrameContents(d: Grid, n: nat, cells: seq<string>, ids: seq<string>)
    requires |d.markers| == |d.columns| && d.markers != [] && Distinct(d.markers) && "Isolate" !in d.markers
    requires forall i :: 0 <= i < |d.columns| ==> |d.columns[i]| == n
    requires |cells| == |d.markers| && |ids| == n
    ensures var f := DataFrame(d.markers, d.columns, RangeIndex(n));
      && FrameValid(f)
      && SetAnnotationsRow(f, cells).Done?
      && InsertFirst(SetAnnotationsRow(f, cells).value, "Isolate", ids + ["Annotation"]).Done?
      && var h := InsertFirst(SetAnnotationsRow(f, cells).value, "Isolate", ids + ["Annotation"]).value;
         |h.names| > 0 && GridOf(h) == Append(d, cells, ids)
  {
    var f := DataFrame(d.markers, d.columns, RangeIndex(n));
    var g := SetAnnotationsRow(f, cells).value;
    assert g.index == RangeIndex(n) + [Annotations];
    var h := InsertFirst(g, "Isolate", ids + ["Annotation"]).value;
    assert GridOf(h).columns == Append(d, cells, ids).columns;
  }

  /** What one turn of the marker loop does to a frame it reached without
      an exception. */
  lemma FilterTurnOutcome(f: DataFrame, markers: seq<string>, calls: seq<seq<string>>, j: nat, frame: DataFrame)
    requires FrameValid(f) && j < |markers| && Rectangular(calls, |markers|)
    requires FrameValid(frame) && FilterUpTo(f, markers, calls, j) == Step(frame, None)
    ensures !Varies(Column(calls, j)) ==> FilterUpTo(f, markers, calls, j + 1) == Step(frame, None)
    ensures Varies(Column(calls, j)) && SetColumn(frame, markers[j], Column(calls, j)).Done? ==>
      FrameValid(SetColumn(frame, markers[j], Column(calls, j)).value) &&
      FilterUpTo(f, markers, calls, j + 1) == Step(SetColumn(frame, markers[j], Column(calls, j)).value, None)
    ensures Varies(Column(calls, j)) && SetColumn(frame, markers[j], Column(calls, j)).Raised? ==>
      FilterUpTo(f, markers, calls, |markers|) == Step(frame, Some(SetColumn(frame, markers[j], Column(calls, j)).error))
  {
    var isolateValues := Column(calls, j);
    FilterTurn(f, markers, calls, j, frame);
    FilterMarkerOutcome(frame, markers[j], isolateValues);
    if Varies(isolateValues) {
      if SetColumn(frame, markers[j], isolateValues).Done? {
        SetColumnValid(frame, markers[j], isolateValues);
      } else {
        FilterErrorIsFinal(f, markers, calls, j + 1, |markers|);
      }
    }
  }

  /** The marker loop of `filter_isolates` on the frame it is given: a
      column is set for every marker whose selected calls are not all the
      same, and the first exception ends the loop. */
  method FilterMarkers(f: DataFrame, markers: seq<string>, calls: seq<seq<string>>) returns (frame: DataFrame, error: Option<Error>)
    requires FrameValid(f) && Rectangular(calls, |markers|)
    ensures FrameValid(frame)
    ensures Step(frame, error) == FilterUpTo(f, markers, calls, |markers|)
  {
    frame := f;
    error := None;
    for j := 0 to |markers|
      invariant FrameValid(frame)
      invariant FilterUpTo(f, markers, calls, j) == Step(frame, None)
    {
      var isolateValues := Column(calls, j);
      FilterTurnOutcome(f, markers, calls, j, frame);
      if HasDifferences(isolateValues) {
        var r := SetColumn(frame, markers[j], isolateValues);
        if r.Raised? {
          error := Some(r.error);
          return;
        }
        frame := r.value;
      }
    }
  }

  // ---------------------------------------------------------------------
  // The object.

  class NucleotideAnalysisApp {
    /** The spreadsheet, with every column as strings. */
    const table: Table
    /** The row label of the annotation row (263 in the file the page reads). */
    const annotationRow: nat
    /** `self.isolateSeq`: `None` for the constructor's empty frame. */
    var isolateSeq: Option<seq<Row>>
    /** `self.differences`. */
    var differences: DataFrame
    /** `self.freq_df` after its transpose: one row per marker. */
    var freq: seq<BaseShares>

    ghost predicate Valid()
      reads this
    {
      && Wellformed(table)
      && FrameValid(differences)
      && (isolateSeq.Some? ==> forall r :: r in isolateSeq.value ==> r in table.rows)
    }

    constructor(t: Table, annotationRow: nat)
      requires Wellformed(t)
      ensures Valid()
      ensures table == t && this.annotationRow == annotationRow
      ensures isolateSeq == None && differences == Empty() && freq == []
    {
      table := t;
      this.annotationRow := annotationRow;
      isolateSeq := None;
      differences := Empty();
      freq := [];
    }

    /** `filter_isolates`: nothing happens for an empty selection; otherwise
        the selected rows are kept and a column is set for every varying
        marker, without clearing the columns already there. */
    method FilterIsolates(selectedIsolates: seq<string>) returns (error: Option<Error>)
      requires Valid()
      modifies this
      ensures Valid()
      ensures freq == old(freq)
      ensures selectedIsolates == [] ==> error == None && isolateSeq == old(isolateSeq) && differences == old(differences)
      ensures selectedIsolates != [] ==>
        && isolateSeq == Some(SelectRows(table.rows, selectedIsolates))
        && Step(differences, error) == FilterUpTo(old(differences), table.markers, SelectedCalls(table, selectedIsolates), |table.markers|)
    {
      error := None;
      if selectedIsolates != [] {
        var rows := SelectRows(table.rows, selectedIsolates);
        isolateSeq := Some(rows);
        var calls := SelectedCalls(table, selectedIsolates);
        differences, error := FilterMarkers(differences, table.markers, calls);
      }
    }

    /** `add_annotations`: the annotation row's cells under the frame's
        columns, set as the row `"Annotations"`, then the `Isolate` column
        inserted in front. */
    method AddAnnotations() returns (error: Option<Error>)
      requires Valid()
      modifies this
      ensures Valid()
      ensures isolateSeq == old(isolateSeq) && freq == old(freq)
      ensures Step(differences, error) == AnnotateStep(old(differences), isolateSeq, table, annotationRow)
    {
      error := None;
      var dfFiltered := AnnotationCells(table, annotationRow, differences.names);
      if dfFiltered.Raised? {
        error := Some(dfFiltered.error);
        return;
      }
      var withRow := SetAnnotationsRow(differences, dfFiltered.value);
      if withRow.Raised? {
        error := Some(withRow.error);
        return;
      }
      differences := withRow.value;
      if isolateSeq.None? {
        error := Some(KeyNotFound);
        return;
      }
      var withLabels := InsertFirst(differences, "Isolate", Ids(isolateSeq.value) + ["Annotation"]);
      if withLabels.Raised? {
        error := Some(withLabels.error);
        return;
      }
      differences := withLabels.value;
    }

    /** `calculate_frequency`: clears the table, then gives every column
        after the first its A, T, C and G percentages over the rows not
        labelled `Annotation`; looking up the `Isolate` column raises when
        there is one. */
    method CalculateFrequency() returns (error: Option<Error>)
      requires Valid()
      modifies this
      ensures Valid()
      ensures isolateSeq == old(isolateSeq) && differences == old(differences)
      ensures |differences.names| <= 1 ==> error == None && freq == []
      ensures |differences.names| > 1 && "Isolate" !in differences.names ==> error == Some(KeyNotFound) && freq == []
      ensures |differences.names| > 1 && "Isolate" in differences.names ==>
        && error == None
        && |freq| == |differences.names| - 1
        && forall k :: 0 <= k < |freq| ==>
             freq[k] == SharesOf(differences.names[k + 1],
                                 IsolateCalls(differences.columns[PositionOf(differences.names, "Isolate")], differences.columns[k + 1]))
    {
      error := None;
      freq := [];
      if |differences.names| > 1 {
        if "Isolate" !in differences.names {
          error := Some(KeyNotFound);
          return;
        }
        var labels := differences.columns[PositionOf(differences.names, "Isolate")];
        var view := Grid(labels, differences.names[1..], differences.columns[1..]);
        forall i | 0 <= i < |view.columns| ensures |view.columns[i]| == |view.labels| {
          assert differences.columns[i + 1] in differences.columns;
          assert labels in differences.columns;
        }
        freq := FrequencyTable(view);
      }
    }
  }
}
