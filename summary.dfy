/** The threshold mutation summary, `getMutationSummary` of mainV5.py:155-201
    (and its older copy mainV4.py:80-122): for every marker, in column order,
    the A/C/G/T calls of the selected isolates are tallied, each base's
    frequency is its count over the number of selected isolates, and the
    marker is reported when some base other than the root's reaches the
    threshold. The two versions differ only in the order of the annotation
    fields, which `Query.order` selects. */
module Summary {
  import opened Text
  import opened Table
  import opened Annotation

  /** The calls that count as bases; every other call is skipped. */
  const Bases: seq<string> := ["A", "C", "T", "G"]

  datatype Option<T> = None | Some(value: T)

  /** One tallied base: `(base, frequency, count)`. */
  datatype BaseStat = BaseStat(base: string, frequency: real, count: nat)

  /** One summary row. The "Mutant Base", "Frequency" and "Count" columns
      are the three projections of `mutants`, so they are parallel by
      construction; "Other Bases Below Threshold" is `others`. */
  datatype SummaryRow = SummaryRow(
    location: string,
    rootBase: string,
    mutants: seq<BaseStat>,
    others: seq<BaseStat>,
    annotation: Annotation)

  /** The exceptions the pages can raise. The summary raises
      `ZeroDivisionError` when no isolate is selected but some base is
      present, `IndexError` when the annotation frame has no row, and
      `ValueError` when a cell does not unpack into four fields. The
      distribution section's `getSNPTypeStats` raises `KeyError` on the
      summary of a group that has no rows (mainV5.py:138). */
  datatype Failure =
    | DivisionByZero(marker: string)
    | NoAnnotationRow(marker: string)
    | BadAnnotation(marker: string, parts: nat)
    | NoSubstitutionColumn(group: string)

  datatype Outcome<T> = Ok(value: T) | Fail(failure: Failure)

  /** The arguments of `getMutationSummary`: the marker columns and the root
      calls (`root.index`, `root`), the calls of the filtered rows, the
      length of `selectedIsolates`, the threshold, the annotation frame, and
      the version's field order. */
  datatype Query = Query(
    markers: seq<string>,
    root: seq<string>,
    calls: seq<seq<string>>,
    isolateCount: nat,
    threshold: real,
    frame: Frame,
    order: FieldOrder)

  predicate ValidQuery(q: Query) {
    && |q.root| == |q.markers|
    && Rectangular(q.calls, |q.markers|)
    && Rectangular(q.frame.rows, |q.markers|)
  }

  /** The query of the selected-isolates page: the rows whose identifier is
      selected, and the number of selected identifiers as denominator. */
  function SelectionQuery(t: Table, selection: seq<string>, threshold: real, order: FieldOrder): (q: Query)
    requires Wellformed(t)
    ensures ValidQuery(q)
    ensures q.isolateCount == |selection| && q.markers == t.markers
  {
    CallsRectangular(t, SelectRows(t.rows, selection));
    Query(t.markers, Root(t), Calls(SelectRows(t.rows, selection)), |selection|,
          threshold, FrameOf(t), order)
  }

  /** `count / len(selectedIsolates)`. */
  function Frequency(count: nat, n: nat): real
    requires n > 0
  {
    count as real / n as real
  }

  /** The tally of base `b` in a column. */
  function StatOf(col: seq<string>, n: nat, b: string): BaseStat
    requires n > 0
  {
    BaseStat(b, Frequency(Count(col, b), n), Count(col, b))
  }

  /** The tallies of the first `k` bases that occur in the column, in the
      order of `Bases`. */
  function Tally(col: seq<string>, n: nat, k: nat): (stats: seq<BaseStat>)
    requires n > 0 && k <= |Bases|
    ensures forall s :: s in stats ==> s.base in Bases[..k] && s == StatOf(col, n, s.base) && s.count > 0
    ensures forall b :: b in Bases[..k] && b in col ==> StatOf(col, n, b) in stats
  {
    if k == 0 then []
    else
      var b := Bases[k - 1];
      assert forall x :: x in Bases[..k] <==> x in Bases[..k - 1] || x == b;
      Tally(col, n, k - 1) + (if Count(col, b) > 0 then [StatOf(col, n, b)] else [])
  }

  /** `frequency >= threshold and base != rootBase`. */
  predicate IsMutant(s: BaseStat, rootBase: string, threshold: real) {
    s.frequency >= threshold && s.base != rootBase
  }

  /** The tallies that are mutations, in order (`baseSummary`). */
  function Mutants(stats: seq<BaseStat>, rootBase: string, threshold: real): (m: seq<BaseStat>)
    ensures forall s :: s in m <==> s in stats && IsMutant(s, rootBase, threshold)
  {
    if stats == [] then []
    else
      var s := stats[|stats| - 1];
      assert forall x :: x in stats <==> x in stats[..|stats| - 1] || x == s;
      Mutants(stats[..|stats| - 1], rootBase, threshold) + (if IsMutant(s, rootBase, threshold) then [s] else [])
  }

  /** The other tallies, in order (`otherBasesSummary`). */
  function Others(stats: seq<BaseStat>, rootBase: string, threshold: real): (o: seq<BaseStat>)
    ensures forall s :: s in o <==> s in stats && !IsMutant(s, rootBase, threshold)
  {
    if stats == [] then []
    else
      var s := stats[|stats| - 1];
      assert forall x :: x in stats <==> x in stats[..|stats| - 1] || x == s;
      Others(stats[..|stats| - 1], rootBase, threshold) + (if IsMutant(s, rootBase, threshold) then [] else [s])
  }

  /** Some base occurs in the column. */
  predicate HasBase(col: seq<string>) {
    exists i :: 0 <= i < |Bases| && Bases[i] in col
  }

  /** The tallies of marker `j`; with no selected isolate there are none to
      divide (and when a base is present the division fails first). */
  function Stats(q: Query, j: nat): seq<BaseStat>
    requires ValidQuery(q) && j < |q.markers|
  {
    if q.isolateCount == 0 then [] else Tally(Column(q.calls, j), q.isolateCount, |Bases|)
  }

  /** What one marker contributes: a failure, nothing, or a row. The base
      loop runs before the annotation is read, so a division by zero is
      raised before an annotation error. The annotation is read for every
      marker, also for those that are not reported. */
  function MarkerOutcome(q: Query, j: nat): Outcome<Option<SummaryRow>>
    requires ValidQuery(q) && j < |q.markers|
  {
    if q.isolateCount == 0 && HasBase(Column(q.calls, j)) then Fail(DivisionByZero(q.markers[j]))
    else
      match Lookup(q.frame, q.markers, j, q.order)
      case NoRow => Fail(NoAnnotationRow(q.markers[j]))
      case Unpackable(parts) => Fail(BadAnnotation(q.markers[j], parts))
      case Parsed(a) =>
        var mutants := Mutants(Stats(q, j), q.root[j], q.threshold);
        if mutants == [] then Ok(None)
        else Ok(Some(SummaryRow(q.markers[j], q.root[j], mutants, Others(Stats(q, j), q.root[j], q.threshold), a)))
  }

  /** What each marker contributes, in column order. */
  function Outcomes(q: Query): (outcomes: seq<Outcome<Option<SummaryRow>>>)
    requires ValidQuery(q)
    ensures |outcomes| == |q.markers|
    ensures forall j :: 0 <= j < |q.markers| ==> outcomes[j] == MarkerOutcome(q, j)
  {
    seq(|q.markers|, j requires 0 <= j < |q.markers| => MarkerOutcome(q, j))
  }

  /** The markers' contributions combined in order: the first failure, or
      the rows of the reported markers. */
  function Collect(outcomes: seq<Outcome<Option<SummaryRow>>>): Outcome<seq<SummaryRow>>
  {
    if outcomes == [] then Ok([])
    else
      match Collect(outcomes[..|outcomes| - 1])
      case Fail(e) => Fail(e)
      case Ok(rows) =>
        match outcomes[|outcomes| - 1]
        case Fail(e) => Fail(e)
        case Ok(None) => Ok(rows)
        case Ok(Some(r)) => Ok(rows + [r])
  }

  function MutationSummary(q: Query): Outcome<seq<SummaryRow>>
    requires ValidQuery(q)
  {
    Collect(Outcomes(q))
  }

  /** A failure ends the summary: once a prefix fails, every longer prefix
      fails with the same exception. */
  lemma {:induction false} FailureIsFinal(outcomes: seq<Outcome<Option<SummaryRow>>>, k: nat, m: nat)
    requires k <= m <= |outcomes|
    requires Collect(outcomes[..k]).Fail?
    ensures Collect(outcomes[..m]) == Collect(outcomes[..k])
    decreases m
  {
    if m > k {
      FailureIsFinal(outcomes, k, m - 1);
      assert outcomes[..m][..m - 1] == outcomes[..m - 1];
    }
  }

  lemma {:induction false} CollectStep(outcomes: seq<Outcome<Option<SummaryRow>>>, k: nat)
    requires k < |outcomes|
    ensures Collect(outcomes[..k + 1]) ==
      match Collect(outcomes[..k])
      case Fail(e) => Fail(e)
      case Ok(rows) =>
        match outcomes[k]
        case Fail(e) => Fail(e)
        case Ok(None) => Ok(rows)
        case Ok(Some(r)) => Ok(rows + [r])
  {
    assert outcomes[..k + 1][..k] == outcomes[..k];
  }

  /** Appending one tally to the tallies appends it to exactly one of the
      two lists. */
  lemma {:induction false} SplitAppend(stats: seq<BaseStat>, s: BaseStat, rootBase: string, threshold: real)
    ensures Mutants(stats + [s], rootBase, threshold) ==
      Mutants(stats, rootBase, threshold) + (if IsMutant(s, rootBase, threshold) then [s] else [])
    ensures Others(stats + [s], rootBase, threshold) ==
      Others(stats, rootBase, threshold) + (if IsMutant(s, rootBase, threshold) then [] else [s])
  {
    assert (stats + [s])[..|stats + [s]| - 1] == stats;
  }

  lemma {:induction false} TallyMarkerStep(col: seq<string>, n: nat, i: nat, rootBase: string, threshold: real,
                                           mutants: seq<BaseStat>, others: seq<BaseStat>)
    requires n > 0 && i < |Bases|
    requires mutants == Mutants(Tally(col, n, i), rootBase, threshold)
    requires others == Others(Tally(col, n, i), rootBase, threshold)
    ensures var s := StatOf(col, n, Bases[i]);
      if Count(col, Bases[i]) == 0 then
        && Mutants(Tally(col, n, i + 1), rootBase, threshold) == mutants
        && Others(Tally(col, n, i + 1), rootBase, threshold) == others
      else if IsMutant(s, rootBase, threshold) then
        && Mutants(Tally(col, n, i + 1), rootBase, threshold) == mutants + [s]
        && Others(Tally(col, n, i + 1), rootBase, threshold) == others
      else
        && Mutants(Tally(col, n, i + 1), rootBase, threshold) == mutants
        && Others(Tally(col, n, i + 1), rootBase, threshold) == others + [s]
  {
    var s := StatOf(col, n, Bases[i]);
    TallyStep(col, n, i);
    if Count(col, Bases[i]) != 0 {
      SplitAppend(Tally(col, n, i), s, rootBase, threshold);
    }
  }

  lemma TallyStep(col: seq<string>, n: nat, i: nat)
    requires n > 0 && i < |Bases|
    ensures Count(col, Bases[i]) == 0 ==> Tally(col, n, i + 1) == Tally(col, n, i)
    ensures Count(col, Bases[i]) != 0 ==> Tally(col, n, i + 1) == Tally(col, n, i) + [StatOf(col, n, Bases[i])]
  {
    assert Tally(col, n, i) + [] == Tally(col, n, i);
  }

  /** The inner loop of `getMutationSummary` over one marker's tallies: it
      fails exactly when a base occurs and no isolate is selected, and
      otherwise splits the tallies into mutations and the rest. */
  method TallyMarker(col: seq<string>, n: nat, rootBase: string, threshold: real)
    returns (divided: bool, baseSummary: seq<BaseStat>, otherBasesSummary: seq<BaseStat>)
    ensures divided <==> !(n == 0 && HasBase(col))
    ensures divided && n > 0 ==> baseSummary == Mutants(Tally(col, n, |Bases|), rootBase, threshold)
    ensures divided && n > 0 ==> otherBasesSummary == Others(Tally(col, n, |Bases|), rootBase, threshold)
    ensures divided && n == 0 ==> baseSummary == [] && otherBasesSummary == []
  {
    baseSummary, otherBasesSummary := [], [];
    for i := 0 to |Bases|
      invariant n > 0 ==> baseSummary == Mutants(Tally(col, n, i), rootBase, threshold)
      invariant n > 0 ==> otherBasesSummary == Others(Tally(col, n, i), rootBase, threshold)
      invariant n == 0 ==> baseSummary == [] && otherBasesSummary == []
      invariant n == 0 ==> forall i' :: 0 <= i' < i ==> Bases[i'] !in col
    {
      var base := Bases[i];
      var count := Count(col, base);
      if count > 0 {
        if n == 0 {
          assert base in col;
          return false, baseSummary, otherBasesSummary;
        }
        TallyMarkerStep(col, n, i, rootBase, threshold, baseSummary, otherBasesSummary);
        var frequency := count as real / n as real;
        if frequency >= threshold && base != rootBase {
          baseSummary := baseSummary + [BaseStat(base, frequency, count)];
        } else {
          otherBasesSummary := otherBasesSummary + [BaseStat(base, frequency, count)];
        }
      } else if n > 0 {
        TallyMarkerStep(col, n, i, rootBase, threshold, baseSummary, otherBasesSummary);
      }
    }
    divided := true;
  }

  /** `getMutationSummary`: the loop over the markers, appending to
      `mutationSummary`. */
  method GetMutationSummary(q: Query) returns (result: Outcome<seq<SummaryRow>>)
    requires ValidQuery(q)
    ensures result == MutationSummary(q)
  {
    ghost var outcomes := Outcomes(q);
    assert outcomes[..|q.markers|] == outcomes;
    var summary: seq<SummaryRow> := [];
    for j := 0 to |q.markers|
      invariant Collect(outcomes[..j]) == Ok(summary)
    {
      CollectStep(outcomes, j);
      assert outcomes[j] == MarkerOutcome(q, j);
      var rootBase := q.root[j];
      var divided, baseSummary, otherBasesSummary :=
        TallyMarker(Column(q.calls, j), q.isolateCount, rootBase, q.threshold);
      if !divided {
        result := Fail(DivisionByZero(q.markers[j]));
        FailureIsFinal(outcomes, j + 1, |q.markers|);
        return;
      }
      var details := Lookup(q.frame, q.markers, j, q.order);
      match details
      case NoRow =>
        result := Fail(NoAnnotationRow(q.markers[j]));
        FailureIsFinal(outcomes, j + 1, |q.markers|);
        return;
      case Unpackable(parts) =>
        result := Fail(BadAnnotation(q.markers[j], parts));
        FailureIsFinal(outcomes, j + 1, |q.markers|);
        return;
      case Parsed(a) =>
        if |baseSummary| > 0 {
          summary := summary + [SummaryRow(q.markers[j], rootBase, baseSummary, otherBasesSummary, a)];
        }
    }
    result := Ok(summary);
  }
}
