/** The SNP type distribution across groups (mainV5.py:237-306): the
    summary of every group's isolates, the substitution counts of each
    summary, a table with one row per substitution and a count and a
    percentage column per group, and the dN/dS ratio of every group. */
module Aggregate {
  import opened Text
  import opened Table
  import opened Annotation
  import opened Summary
  import opened SnpStats

  // ---------------------------------------------------------------------
  // The groups.

  function GroupLabels(rows: seq<Row>): (labels: seq<string>)
    ensures |labels| == |rows|
    ensures forall i :: 0 <= i < |rows| ==> labels[i] == rows[i].group
  {
    seq(|rows|, i requires 0 <= i < |rows| => rows[i].group)
  }

  /** `unique_groups` (mainV5.py:37-38): the distinct `Group` labels in
      order of first appearance, without the "nan" of an empty cell and
      without the default label "All Isolates". */
  function UniqueGroups(t: Table): (groups: seq<string>)
    ensures Distinct(groups)
    ensures forall g :: g in groups <==>
      g != "nan" && g != "All Isolates" && exists r :: r in t.rows && r.group == g
  {
    var labels := GroupLabels(t.rows);
    forall g ensures g in labels <==> exists r :: r in t.rows && r.group == g {
      if g in labels {
        var i :| 0 <= i < |labels| && labels[i] == g;
        assert t.rows[i] in t.rows;
      }
      if exists r :: r in t.rows && r.group == g {
        var r :| r in t.rows && r.group == g;
        var i :| 0 <= i < |t.rows| && t.rows[i] == r;
        assert labels[i] == g;
      }
    }
    Without(Unique(labels), {"nan", "All Isolates"})
  }

  // ---------------------------------------------------------------------
  // The statistics of every group (mainV5.py:241-251).

  /** The query a group is summarised with: its isolates are the
      identifiers of its rows without the reserved ones, the rows are those
      whose identifier is one of them, and the denominator is their number. */
  function GroupQuery(t: Table, group: string, threshold: real, order: FieldOrder): (q: Query)
    requires Wellformed(t)
    ensures ValidQuery(q)
    ensures q.isolateCount == |GroupOptions(t, group)|
  {
    SelectionQuery(t, GroupOptions(t, group), threshold, order)
  }

  /** The statistics of the groups, or the first exception: a group without
      isolates is skipped, any other one maps to the statistics of its
      summary. `getSNPTypeStats` is called as written, so a group whose
      summary has no rows raises `KeyError`. */
  function GroupStatsOf(t: Table, groups: seq<string>, threshold: real, order: FieldOrder): Outcome<map<string, TypeStats>>
    requires Wellformed(t)
  {
    if groups == [] then Ok(map[])
    else
      match GroupStatsOf(t, groups[..|groups| - 1], threshold, order)
      case Fail(e) => Fail(e)
      case Ok(stats) =>
        var g := groups[|groups| - 1];
        if GroupOptions(t, g) == [] then Ok(stats)
        else
          match MutationSummary(GroupQuery(t, g, threshold, order))
          case Fail(e) => Fail(e)
          case Ok(summary) =>
            match TypeStatsAsWritten(summary)
            case KeyError(_) => Fail(NoSubstitutionColumn(g))
            case Stats(groupStats) => Ok(stats[g := groupStats])
  }

  lemma {:induction false} GroupStatsStep(t: Table, groups: seq<string>, k: nat, threshold: real, order: FieldOrder)
    requires Wellformed(t) && k < |groups|
    ensures GroupStatsOf(t, groups[..k + 1], threshold, order) ==
      match GroupStatsOf(t, groups[..k], threshold, order)
      case Fail(e) => Fail(e)
      case Ok(stats) =>
        if GroupOptions(t, groups[k]) == [] then Ok(stats)
        else
          match MutationSummary(GroupQuery(t, groups[k], threshold, order))
          case Fail(e) => Fail(e)
          case Ok(summary) =>
            match TypeStatsAsWritten(summary)
            case KeyError(_) => Fail(NoSubstitutionColumn(groups[k]))
            case Stats(groupStats) => Ok(stats[groups[k] := groupStats])
  {
    assert groups[..k + 1][..k] == groups[..k];
  }

  /** Once a group fails, the whole loop fails with that exception. */
  lemma {:induction false} GroupFailureIsFinal(t: Table, groups: seq<string>, k: nat, m: nat, threshold: real, order: FieldOrder)
    requires Wellformed(t) && k <= m <= |groups|
    requires GroupStatsOf(t, groups[..k], threshold, order).Fail?
    ensures GroupStatsOf(t, groups[..m], threshold, order) == GroupStatsOf(t, groups[..k], threshold, order)
    decreases m
  {
    if m > k {
      GroupFailureIsFinal(t, groups, k, m - 1, threshold, order);
      GroupFailureStep(t, groups, m, threshold, order);
    } else {
      assert groups[..m] == groups[..k];
    }
  }

  lemma {:induction false} GroupFailureStep(t: Table, groups: seq<string>, m: nat, threshold: real, order: FieldOrder)
    requires Wellformed(t) && 0 < m <= |groups|
    requires GroupStatsOf(t, groups[..m - 1], threshold, order).Fail?
    ensures GroupStatsOf(t, groups[..m], threshold, order) == GroupStatsOf(t, groups[..m - 1], threshold, order)
  {
    assert groups[..m][..m - 1] == groups[..m - 1];
  }

  /** When the loop succeeds, the statistics hold exactly the groups that
      have isolates, each with the statistics of its own summary, which has
      rows; so a group's `Total` is the number of its summary rows. */
  lemma GroupStatsEntries(t: Table, groups: seq<string>, threshold: real, order: FieldOrder, g: string)
    requires Wellformed(t)
    requires GroupStatsOf(t, groups, threshold, order).Ok?
    ensures var stats := GroupStatsOf(t, groups, threshold, order).value;
      g in stats <==> g in groups && GroupOptions(t, g) != []
    ensures var stats := GroupStatsOf(t, groups, threshold, order).value;
      var summary := MutationSummary(GroupQuery(t, g, threshold, order));
      g in stats ==>
        && summary.Ok?
        && summary.value != []
        && stats[g] == TypeStatsOf(summary.value)
        && stats[g].counts.at["Total"] == |summary.value|
  {
    GroupStatsHold(t, groups, threshold, order, g);
  }

  lemma {:induction false} GroupStatsHold(t: Table, groups: seq<string>, threshold: real, order: FieldOrder, g: string)
    requires Wellformed(t)
    requires GroupStatsOf(t, groups, threshold, order).Ok?
    ensures var stats := GroupStatsOf(t, groups, threshold, order).value;
      g in stats <==> g in groups && GroupOptions(t, g) != []
    ensures var stats := GroupStatsOf(t, groups, threshold, order).value;
      var summary := MutationSummary(GroupQuery(t, g, threshold, order));
      g in stats ==> summary.Ok? && summary.value != [] && stats[g] == TypeStatsOf(summary.value)
    decreases |groups|
  {
    if groups != [] {
      var init := groups[..|groups| - 1];
      InInitOrLast(groups, g);
      GroupStatsLast(t, groups, threshold, order);
      GroupStatsHold(t, init, threshold, order, g);
      var stats := GroupStatsOf(t, groups, threshold, order).value;
      var before := GroupStatsOf(t, init, threshold, order).value;
      var last := groups[|groups| - 1];
      if GroupOptions(t, last) != [] {
        var summary := MutationSummary(GroupQuery(t, last, threshold, order)).value;
        MapUpdateEntry(before, last, TypeStatsOf(summary), g);
      }
    }
  }

  lemma MapUpdateEntry(m: map<string, TypeStats>, k: string, v: TypeStats, x: string)
    ensures x in m[k := v] <==> x in m || x == k
    ensures x == k ==> m[k := v][x] == v
    ensures x != k && x in m ==> m[k := v][x] == m[x]
  {
  }

  lemma InInitOrLast(s: seq<string>, x: string)
    requires s != []
    ensures x in s <==> x in s[..|s| - 1] || x == s[|s| - 1]
  {
    assert s == s[..|s| - 1] + [s[|s| - 1]];
  }

  /** The statistics of all groups from those of all but the last. */
  lemma GroupStatsLast(t: Table, groups: seq<string>, threshold: real, order: FieldOrder)
    requires Wellformed(t) && groups != []
    requires GroupStatsOf(t, groups, threshold, order).Ok?
    ensures var init := GroupStatsOf(t, groups[..|groups| - 1], threshold, order);
      var last := groups[|groups| - 1];
      var summary := MutationSummary(GroupQuery(t, last, threshold, order));
      && init.Ok?
      && (GroupOptions(t, last) == [] ==> GroupStatsOf(t, groups, threshold, order).value == init.value)
      && (GroupOptions(t, last) != [] ==>
            && summary.Ok? && summary.value != []
            && GroupStatsOf(t, groups, threshold, order).value == init.value[last := TypeStatsOf(summary.value)])
  {
  }

  /** As written, a group with isolates whose summary has no rows, for
      example because no marker reaches the threshold, stops the whole
      section with `KeyError`: no table and no ratio is shown. */
  lemma {:induction false} EmptyGroupSummaryRaises(t: Table, groups: seq<string>, k: nat, threshold: real, order: FieldOrder)
    requires Wellformed(t) && k < |groups|
    requires GroupStatsOf(t, groups[..k], threshold, order).Ok?
    requires GroupOptions(t, groups[k]) != []
    requires MutationSummary(GroupQuery(t, groups[k], threshold, order)) == Ok([])
    ensures GroupStatsOf(t, groups, threshold, order) == Fail(NoSubstitutionColumn(groups[k]))
  {
    GroupStatsStep(t, groups, k, threshold, order);
    GroupFailureIsFinal(t, groups, k + 1, |groups|, threshold, order);
    assert groups[..|groups|] == groups;
  }

  /** The labels of the count index of every group. */
  predicate CoversLabels(types: seq<string>, stats: map<string, TypeStats>) {
    && (forall x :: x in types ==> exists g :: g in stats && x in stats[g].counts.index)
    && (forall g, x :: g in stats && x in stats[g].counts.index ==> x in types)
  }

  lemma CoversLabelsAdd(types: seq<string>, stats: map<string, TypeStats>, group: string, groupStats: TypeStats)
    requires CoversLabels(types, stats)
    requires group in stats ==> stats[group] == groupStats
    ensures CoversLabels(types + groupStats.counts.index, stats[group := groupStats])
  {
    var types', stats' := types + groupStats.counts.index, stats[group := groupStats];
    forall x | x in types' ensures exists g :: g in stats' && x in stats'[g].counts.index {
      if x in groupStats.counts.index {
        assert group in stats' && x in stats'[group].counts.index;
      } else {
        var g :| g in stats && x in stats[g].counts.index;
        assert g != group;
        assert g in stats' && stats'[g] == stats[g];
      }
    }
    forall g, x | g in stats' && x in stats'[g].counts.index ensures x in types' {
      if g != group {
        assert g in stats && x in stats[g].counts.index;
      }
    }
  }

  /** The first loop of the distribution: `group_stats` and
      `all_substitution_types`, kept as a sequence of labels (the order of
      the labels is forgotten by the sort that follows). */
  method CollectGroupStats(t: Table, groups: seq<string>, threshold: real, order: FieldOrder)
    returns (result: Outcome<map<string, TypeStats>>, types: seq<string>)
    requires Wellformed(t)
    ensures result == GroupStatsOf(t, groups, threshold, order)
    ensures result.Ok? ==> CoversLabels(types, result.value)
  {
    var stats: map<string, TypeStats> := map[];
    types := [];
    for k := 0 to |groups|
      invariant GroupStatsOf(t, groups[..k], threshold, order) == Ok(stats)
      invariant CoversLabels(types, stats)
    {
      GroupStatsStep(t, groups, k, threshold, order);
      var group := groups[k];
      var isolates := GroupOptions(t, group);
      if isolates != [] {
        var groupMutations := GetMutationSummary(GroupQuery(t, group, threshold, order));
        if groupMutations.Fail? {
          result := Fail(groupMutations.failure);
          GroupFailureIsFinal(t, groups, k + 1, |groups|, threshold, order);
          assert groups[..|groups|] == groups;
          return;
        }
        var asWritten := TypeStatsAsWritten(groupMutations.value);
        if asWritten.KeyError? {
          result := Fail(NoSubstitutionColumn(group));
          GroupFailureIsFinal(t, groups, k + 1, |groups|, threshold, order);
          assert groups[..|groups|] == groups;
          return;
        }
        var groupStats := asWritten.stats;
        GroupStatsEntries(t, groups[..k], threshold, order, group);
        CoversLabelsAdd(types, stats, group, groupStats);
        stats := stats[group := groupStats];
        types := types + groupStats.counts.index;
      }
    }
    assert groups[..|groups|] == groups;
    result := Ok(stats);
  }

  // ---------------------------------------------------------------------
  // The cross-group table (mainV5.py:253-278).

  predicate IsRegular(x: string) {
    x != NotAnnotated && x != "Total"
  }

  /** `sorted(all_substitution_types - {'Not annotated', 'Total'})`. */
  function RegularTypes(types: seq<string>): (regular: seq<string>)
    ensures StrictlySorted(regular) && Distinct(regular)
    ensures forall x :: x in regular <==> x in types && IsRegular(x)
  {
    var regular := SortedUnique(Without(types, {NotAnnotated, "Total"}));
    StrictlySortedDistinct(regular);
    regular
  }

  /** The rows of the table: the regular types in sorted order, then
      "Not annotated", then "Total", each once. */
  function OrderedTypes(types: seq<string>): (ordered: seq<string>)
    ensures Distinct(ordered)
    ensures forall x :: x in ordered <==> x in types || !IsRegular(x)
    ensures |ordered| >= 2 && ordered[|ordered| - 2] == NotAnnotated && ordered[|ordered| - 1] == "Total"
    ensures StrictlySorted(ordered[..|ordered| - 2])
    ensures forall i :: 0 <= i < |ordered| - 2 ==> IsRegular(ordered[i])
  {
    var regular := RegularTypes(types);
    ReservedLast(regular);
    var ordered := regular + [NotAnnotated, "Total"];
    assert ordered[..|ordered| - 2] == regular;
    ordered
  }

  lemma ReservedLast(regular: seq<string>)
    requires Distinct(regular) && forall x :: x in regular ==> IsRegular(x)
    ensures Distinct(regular + [NotAnnotated, "Total"])
    ensures forall i :: 0 <= i < |regular| ==> IsRegular(regular[i])
  {
    var ordered := regular + [NotAnnotated, "Total"];
    forall i | 0 <= i < |regular| ensures IsRegular(regular[i]) {
      assert regular[i] in regular;
    }
    forall i, j | 0 <= i < j < |ordered| ensures ordered[i] != ordered[j] {
      if j < |regular| {
        assert ordered[i] == regular[i] && ordered[j] == regular[j];
      } else if i < |regular| {
        assert IsRegular(ordered[i]);
      }
    }
  }

  /** The row order depends only on which labels were collected, not on
      the order in which the groups contributed them. */
  lemma {:induction false} OrderedTypesIgnoresOrder(types: seq<string>, types': seq<string>)
    requires forall x :: x in types <==> x in types'
    ensures OrderedTypes(types) == OrderedTypes(types')
  {
    SortedUniqueness(RegularTypes(types), RegularTypes(types'));
  }

  /** The table, transposed to one column per group and kind: `types` are
      the row labels, `labels` the column labels ("<group> Count" for every
      group, then "<group> %" for every group), `counts[k]` the count column
      of group `k` and `percentages[k]` its percentage column. */
  datatype CrossTable = CrossTable(types: seq<string>, labels: seq<string>, counts: seq<seq<nat>>, percentages: seq<seq<real>>)

  /** The table, or the `KeyError` of a group that has no statistics. */
  datatype Built = Built(table: CrossTable) | MissingGroup(group: string)

  function CountLabel(group: string): string {
    group + " Count"
  }

  function PercentLabel(group: string): string {
    group + " %"
  }

  /** `[counts.get(sub_type, 0) for sub_type in ordered_types]`. */
  function CountColumn(stats: TypeStats, types: seq<string>): (col: seq<nat>)
    ensures |col| == |types|
    ensures forall i :: 0 <= i < |types| ==> col[i] == GetOr(stats.counts, types[i], 0)
  {
    seq(|types|, i requires 0 <= i < |types| => GetOr(stats.counts, types[i], 0))
  }

  /** `[percentages.get(sub_type, '0.0%') for sub_type in ordered_types]`. */
  function PercentColumn(stats: TypeStats, types: seq<string>): (col: seq<real>)
    ensures |col| == |types|
    ensures forall i :: 0 <= i < |types| ==> col[i] == GetOr(stats.percentages, types[i], 0.0)
  {
    seq(|types|, i requires 0 <= i < |types| => GetOr(stats.percentages, types[i], 0.0))
  }

  /** The position of the first group without statistics (`|groups|` when
      every group has them). */
  function MissingIndex(groups: seq<string>, stats: map<string, TypeStats>): (i: nat)
    ensures i <= |groups|
    ensures forall k :: 0 <= k < i ==> groups[k] in stats
    ensures i < |groups| ==> groups[i] !in stats
  {
    if groups == [] then 0
    else if groups[0] !in stats then 0
    else
      var i := MissingIndex(groups[1..], stats);
      assert forall k :: 0 < k <= i ==> groups[k] == groups[1..][k - 1];
      1 + i
  }

  function CrossTableOf(groups: seq<string>, stats: map<string, TypeStats>, types: seq<string>): (r: Built)
    ensures r.MissingGroup? <==> exists k :: 0 <= k < |groups| && groups[k] !in stats
    ensures r.MissingGroup? ==> r.group !in stats && r.group in groups
    ensures r.Built? ==> r.table.types == types && |r.table.counts| == |groups|
    ensures r.Built? ==> forall k :: 0 <= k < |groups| ==> |r.table.counts[k]| == |types|
  {
    var i := MissingIndex(groups, stats);
    if i < |groups| then MissingGroup(groups[i])
    else
      Built(CrossTable(
        types,
        seq(|groups|, k requires 0 <= k < |groups| => CountLabel(groups[k]))
          + seq(|groups|, k requires 0 <= k < |groups| => PercentLabel(groups[k])),
        seq(|groups|, k requires 0 <= k < |groups| => CountColumn(stats[groups[k]], types)),
        seq(|groups|, k requires 0 <= k < |groups| => PercentColumn(stats[groups[k]], types))))
  }

  /** The two loops that build `columns` and `data`: first a count column
      per group, then a percentage column per group. A group without
      statistics raises `KeyError` in the first loop. */
  method CrossGroupTable(groups: seq<string>, stats: map<string, TypeStats>, types: seq<string>) returns (r: Built)
    ensures r == CrossTableOf(groups, stats, types)
  {
    var columns: seq<string> := [];
    var counts: seq<seq<nat>> := [];
    for k := 0 to |groups|
      invariant forall k' :: 0 <= k' < k ==> groups[k'] in stats
      invariant |columns| == k && forall k' :: 0 <= k' < k ==> columns[k'] == CountLabel(groups[k'])
      invariant |counts| == k && forall k' :: 0 <= k' < k ==> counts[k'] == CountColumn(stats[groups[k']], types)
    {
      var group := groups[k];
      columns := columns + [CountLabel(group)];
      if group !in stats {
        assert MissingIndex(groups, stats) == k;
        return MissingGroup(group);
      }
      counts := counts + [CountColumn(stats[group], types)];
    }
    var percentages: seq<seq<real>> := [];
    for k := 0 to |groups|
      invariant |columns| == |groups| + k
      invariant forall k' :: 0 <= k' < |groups| ==> columns[k'] == CountLabel(groups[k'])
      invariant forall k' :: 0 <= k' < k ==> columns[|groups| + k'] == PercentLabel(groups[k'])
      invariant |percentages| == k && forall k' :: 0 <= k' < k ==> percentages[k'] == PercentColumn(stats[groups[k']], types)
    {
      var group := groups[k];
      columns := columns + [PercentLabel(group)];
      percentages := percentages + [PercentColumn(stats[group], types)];
    }
    assert MissingIndex(groups, stats) == |groups|;
    r := Built(CrossTable(types, columns, counts, percentages));
  }

  /** Every cell of the distribution table, in terms of the group's own
      summary: the "Total" row holds its number of rows (100 percent), every
      other row the number of its rows carrying that substitution (0 when
      none does) and that number as a percentage. */
  lemma {:induction false} TableCells(t: Table, groups: seq<string>, threshold: real, order: FieldOrder,
                                      types: seq<string>, k: nat, i: nat)
    requires Wellformed(t)
    requires GroupStatsOf(t, groups, threshold, order).Ok?
    requires CrossTableOf(groups, GroupStatsOf(t, groups, threshold, order).value, OrderedTypes(types)).Built?
    requires k < |groups| && i < |OrderedTypes(types)|
    ensures MutationSummary(GroupQuery(t, groups[k], threshold, order)).Ok?
    ensures var summary := MutationSummary(GroupQuery(t, groups[k], threshold, order)).value;
      var table := CrossTableOf(groups, GroupStatsOf(t, groups, threshold, order).value, OrderedTypes(types)).table;
      var x := OrderedTypes(types)[i];
      var n := Count(Substitutions(summary), x);
      && table.counts[k][i] == (if x == "Total" then |summary| else n)
      && table.percentages[k][i] == (if x == "Total" then 100.0 else if n == 0 then 0.0 else Percent(n, |summary|))
  {
    var stats := GroupStatsOf(t, groups, threshold, order).value;
    var ordered := OrderedTypes(types);
    var g := groups[k];
    CrossTableCell(groups, stats, ordered, k, i);
    GroupStatsEntries(t, groups, threshold, order, g);
    var summary := MutationSummary(GroupQuery(t, g, threshold, order)).value;
    assert stats[g] == TypeStatsOf(summary);
    TypeStatsLookup(summary, ordered[i]);
  }

  lemma CrossTableCell(groups: seq<string>, stats: map<string, TypeStats>, types: seq<string>, k: nat, i: nat)
    requires CrossTableOf(groups, stats, types).Built?
    requires k < |groups| && i < |types|
    ensures groups[k] in stats
    ensures var table := CrossTableOf(groups, stats, types).table;
      && table.counts[k][i] == GetOr(stats[groups[k]].counts, types[i], 0)
      && table.percentages[k][i] == GetOr(stats[groups[k]].percentages, types[i], 0.0)
  {
  }

  /** No count is lost: every label in any group's statistics is a row of
      the table when the labels were collected from all groups. */
  lemma {:induction false} TableHasEveryLabel(stats: map<string, TypeStats>, types: seq<string>, g: string, x: string)
    requires CoversLabels(types, stats)
    requires g in stats && x in stats[g].counts.index
    ensures x in OrderedTypes(types)
  {
  }

  // ---------------------------------------------------------------------
  // The dN/dS ratios (mainV5.py:281-306).

  datatype Ratio = Finite(value: real) | Infinite

  /** One row of `ratio_data`. */
  datatype RatioRow = RatioRow(lineage: string, nonsynonymous: nat, synonymous: nat, ratio: Ratio)

  /** `nonsynonymous_count / synonymous_count`, or `float('inf')` when
      there is no synonymous count. */
  function RatioOf(nonsynonymous: nat, synonymous: nat): (r: Ratio)
    ensures r.Infinite? <==> synonymous == 0
    ensures r.Finite? ==> r.value * synonymous as real == nonsynonymous as real
  {
    if synonymous > 0 then Finite(nonsynonymous as real / synonymous as real) else Infinite
  }

  /** The sum of a count column over the regular rows that `classify`
      puts in the given kind ("Not annotated" and "Total" never count). The
      page classifies with `Classify`; `ClassifyIntended` is the correction. */
  function KindTotal(types: seq<string>, col: seq<nat>, kind: MutationType, classify: string -> MutationType): nat
    requires |col| == |types|
  {
    if types == [] then 0
    else
      var x := types[|types| - 1];
      KindTotal(types[..|types| - 1], col[..|col| - 1], kind, classify)
        + (if IsRegular(x) && classify(x) == kind then col[|col| - 1] else 0)
  }

  /** The ratio row of one group from its count column. */
  function RatioRowOf(group: string, types: seq<string>, col: seq<nat>, classify: string -> MutationType): RatioRow
    requires |col| == |types|
  {
    var nonsynonymous := KindTotal(types, col, Nonsynonymous, classify);
    var synonymous := KindTotal(types, col, Synonymous, classify);
    RatioRow(group, nonsynonymous, synonymous, RatioOf(nonsynonymous, synonymous))
  }

  /** The loop that builds `ratio_data`, one row per group. */
  method Ratios(groups: seq<string>, table: CrossTable, classify: string -> MutationType) returns (rows: seq<RatioRow>)
    requires |table.counts| == |groups|
    requires forall k :: 0 <= k < |groups| ==> |table.counts[k]| == |table.types|
    ensures |rows| == |groups|
    ensures forall k :: 0 <= k < |groups| ==> rows[k] == RatioRowOf(groups[k], table.types, table.counts[k], classify)
  {
    rows := [];
    for k := 0 to |groups|
      invariant |rows| == k
      invariant forall k' :: 0 <= k' < k ==> rows[k'] == RatioRowOf(groups[k'], table.types, table.counts[k'], classify)
    {
      var col := table.counts[k];
      var nonsynonymousCount := KindTotal(table.types, col, Nonsynonymous, classify);
      var synonymousCount := KindTotal(table.types, col, Synonymous, classify);
      var ratio := if synonymousCount > 0 then Finite(nonsynonymousCount as real / synonymousCount as real) else Infinite;
      rows := rows + [RatioRow(groups[k], nonsynonymousCount, synonymousCount, ratio)];
    }
  }

  lemma {:induction false} KindTotalsWithinCountSum(types: seq<string>, col: seq<nat>, xs: seq<string>, classify: string -> MutationType)
    requires |col| == |types|
    requires forall i :: 0 <= i < |types| && IsRegular(types[i]) ==> col[i] == Count(xs, types[i])
    ensures KindTotal(types, col, Nonsynonymous, classify) + KindTotal(types, col, Synonymous, classify) <= CountSum(types, xs)
  {
    if types != [] {
      var init, initCol := types[..|types| - 1], col[..|col| - 1];
      forall i | 0 <= i < |init| && IsRegular(init[i]) ensures initCol[i] == Count(xs, init[i]) {
        assert init[i] == types[i] && initCol[i] == col[i];
      }
      KindTotalsWithinCountSum(init, initCol, xs, classify);
    }
  }

  /** In every group the nonsynonymous and synonymous counts together are
      at most the group's "Total", the number of rows of its summary: no
      summary row is counted twice, whichever classifier is used. */
  lemma {:induction false} RatioCountsWithinTotal(t: Table, groups: seq<string>, threshold: real, order: FieldOrder,
                                                  types: seq<string>, k: nat, classify: string -> MutationType)
    requires Wellformed(t)
    requires GroupStatsOf(t, groups, threshold, order).Ok?
    requires CrossTableOf(groups, GroupStatsOf(t, groups, threshold, order).value, OrderedTypes(types)).Built?
    requires k < |groups|
    ensures MutationSummary(GroupQuery(t, groups[k], threshold, order)).Ok?
    ensures var table := CrossTableOf(groups, GroupStatsOf(t, groups, threshold, order).value, OrderedTypes(types)).table;
      var row := RatioRowOf(groups[k], table.types, table.counts[k], classify);
      && table.counts[k][|table.types| - 1] == |MutationSummary(GroupQuery(t, groups[k], threshold, order)).value|
      && row.nonsynonymous + row.synonymous <= table.counts[k][|table.types| - 1]
  {
    var ordered := OrderedTypes(types);
    var table := CrossTableOf(groups, GroupStatsOf(t, groups, threshold, order).value, ordered).table;
    var summary := MutationSummary(GroupQuery(t, groups[k], threshold, order));
    TableCells(t, groups, threshold, order, types, k, |ordered| - 1);
    var subs := Substitutions(summary.value);
    var col := table.counts[k];
    forall i | 0 <= i < |ordered| && IsRegular(ordered[i]) ensures col[i] == Count(subs, ordered[i]) {
      TableCells(t, groups, threshold, order, types, k, i);
    }
    KindTotalsWithinCountSum(ordered, col, subs, classify);
    CountSumBound(ordered, subs);
  }

  /** The ratio of a group whose only summary row carries the substitution
      "synonymous" (its count column over the rows "synonymous",
      "Not annotated" and "Total"). As written, `Classify` counts that row
      as nonsynonymous and the ratio is infinite; the corrected classifier
      counts it as synonymous and the ratio is 0. */
  lemma {:induction false} SynonymousRowRatio(group: string)
    ensures RatioRowOf(group, ["synonymous", NotAnnotated, "Total"], [1, 0, 1], Classify) ==
      RatioRow(group, 1, 0, Infinite)
    ensures RatioRowOf(group, ["synonymous", NotAnnotated, "Total"], [1, 0, 1], ClassifyIntended) ==
      RatioRow(group, 0, 1, Finite(0.0))
  {
    var types: seq<string> := ["synonymous", NotAnnotated, "Total"];
    var col: seq<nat> := [1, 0, 1];
    SynonymousReadsAsNonsynonymous();
    IntendedSynonymous();
    assert IsRegular("synonymous") && !IsRegular(NotAnnotated) && !IsRegular("Total");
    assert types[..2] == ["synonymous", NotAnnotated] && col[..2] == [1, 0];
    assert types[..1] == ["synonymous"] && col[..1] == [1];
    forall kind: MutationType, classify: string -> MutationType
      ensures KindTotal(types, col, kind, classify) == KindTotal(types[..1], col[..1], kind, classify)
    {
      assert types[..2][..1] == types[..1] && col[..2][..1] == col[..1];
    }
    assert KindTotal(types[..1], col[..1], Nonsynonymous, Classify) == 1 by {
      assert types[..1][..0] == [] && col[..1][..0] == [];
    }
    assert KindTotal(types[..1], col[..1], Synonymous, Classify) == 0 by {
      assert types[..1][..0] == [] && col[..1][..0] == [];
    }
    assert KindTotal(types[..1], col[..1], Nonsynonymous, ClassifyIntended) == 0 by {
      assert types[..1][..0] == [] && col[..1][..0] == [];
    }
    assert KindTotal(types[..1], col[..1], Synonymous, ClassifyIntended) == 1 by {
      assert types[..1][..0] == [] && col[..1][..0] == [];
    }
  }

  // ---------------------------------------------------------------------
  // The whole distribution (mainV5.py:237-306).

  /** The labels of the statistics of the listed groups, group by group. */
  function LabelsOf(groups: seq<string>, stats: map<string, TypeStats>): (labels: seq<string>)
    ensures forall x :: x in labels ==> exists g :: g in stats && x in stats[g].counts.index
    ensures forall g, x :: g in groups && g in stats && x in stats[g].counts.index ==> x in labels
  {
    if groups == [] then []
    else
      var g := groups[|groups| - 1];
      var init := LabelsOf(groups[..|groups| - 1], stats);
      assert forall h :: h in groups ==> h in groups[..|groups| - 1] || h == g;
      init + (if g in stats then stats[g].counts.index else [])
  }

  /** What the expander shows: an exception, the "No group statistics"
      message, the `KeyError` of a group without statistics, or the table
      and the ratios. */
  datatype Distribution =
    | Failed(failure: Failure)
    | NoGroupStatistics
    | MissingStatistics(group: string)
    | Report(table: CrossTable, ratios: seq<RatioRow>)

  /** The section with the ratios computed by `classify`: `Classify` gives
      the page as written, `ClassifyIntended` the corrected one. */
  function DistributionOf(t: Table, threshold: real, order: FieldOrder, classify: string -> MutationType): Distribution
    requires Wellformed(t)
  {
    var groups := UniqueGroups(t);
    match GroupStatsOf(t, groups, threshold, order)
    case Fail(e) => Failed(e)
    case Ok(stats) =>
      if stats == map[] then NoGroupStatistics
      else ReportOf(groups, stats, OrderedTypes(LabelsOf(groups, stats)), classify)
  }

  /** The table and the ratios from the statistics and the row order. */
  function ReportOf(groups: seq<string>, stats: map<string, TypeStats>, ordered: seq<string>,
                    classify: string -> MutationType): Distribution {
    match CrossTableOf(groups, stats, ordered)
    case MissingGroup(g) => MissingStatistics(g)
    case Built(table) =>
      Report(table, seq(|groups|, k requires 0 <= k < |groups| => RatioRowOf(groups[k], table.types, table.counts[k], classify)))
  }

  /** The table loops and the ratio loop. */
  method BuildReport(groups: seq<string>, stats: map<string, TypeStats>, ordered: seq<string>,
                     classify: string -> MutationType) returns (d: Distribution)
    ensures d == ReportOf(groups, stats, ordered, classify)
  {
    var built := CrossGroupTable(groups, stats, ordered);
    if built.MissingGroup? {
      return MissingStatistics(built.group);
    }
    var ratios := Ratios(groups, built.table, classify);
    assert ratios == seq(|groups|, k requires 0 <= k < |groups| => RatioRowOf(groups[k], built.table.types, built.table.counts[k], classify));
    d := Report(built.table, ratios);
  }

  /** The distribution section of the page: the statistics loop, the table
      loops and the ratio loop in turn. */
  method SnpTypeDistribution(t: Table, threshold: real, order: FieldOrder, classify: string -> MutationType)
    returns (d: Distribution)
    requires Wellformed(t)
    ensures d == DistributionOf(t, threshold, order, classify)
  {
    var groups := UniqueGroups(t);
    var groupStats, types := CollectGroupStats(t, groups, threshold, order);
    if groupStats.Fail? {
      return Failed(groupStats.failure);
    }
    var stats := groupStats.value;
    if stats == map[] {
      return NoGroupStatistics;
    }
    SameLabels(t, groups, threshold, order, types);
    d := BuildReport(groups, stats, OrderedTypes(types), classify);
  }

  /** A group with isolates whose summary has no rows ends the section
      with that group's `KeyError` when every group before it succeeded. */
  lemma {:induction false} DistributionRaisesOnEmptyGroup(t: Table, k: nat, threshold: real, order: FieldOrder,
                                                          classify: string -> MutationType)
    requires Wellformed(t) && k < |UniqueGroups(t)|
    requires GroupStatsOf(t, UniqueGroups(t)[..k], threshold, order).Ok?
    requires GroupOptions(t, UniqueGroups(t)[k]) != []
    requires MutationSummary(GroupQuery(t, UniqueGroups(t)[k], threshold, order)) == Ok([])
    ensures DistributionOf(t, threshold, order, classify) == Failed(NoSubstitutionColumn(UniqueGroups(t)[k]))
  {
    EmptyGroupSummaryRaises(t, UniqueGroups(t), k, threshold, order);
  }

  /** The classifier changes only the ratio rows: the page as written and
      the corrected one end alike, and when both report, they show the same
      table, the same groups and the same ratio row counts per group. */
  lemma {:induction false} ClassifierOnlyChangesRatios(t: Table, threshold: real, order: FieldOrder)
    requires Wellformed(t)
    ensures var written := DistributionOf(t, threshold, order, Classify);
      var intended := DistributionOf(t, threshold, order, ClassifyIntended);
      && (written.Report? <==> intended.Report?)
      && (!written.Report? ==> written == intended)
      && (written.Report? ==>
            && written.table == intended.table
            && |written.ratios| == |intended.ratios|
            && forall k :: 0 <= k < |written.ratios| ==> written.ratios[k].lineage == intended.ratios[k].lineage)
  {
  }

  /** The labels the loop collected and those of `LabelsOf` give the same
      rows. */
  lemma {:induction false} SameLabels(t: Table, groups: seq<string>, threshold: real, order: FieldOrder, types: seq<string>)
    requires Wellformed(t)
    requires GroupStatsOf(t, groups, threshold, order).Ok?
    requires CoversLabels(types, GroupStatsOf(t, groups, threshold, order).value)
    ensures var stats := GroupStatsOf(t, groups, threshold, order).value;
      OrderedTypes(types) == OrderedTypes(LabelsOf(groups, stats))
  {
    var stats := GroupStatsOf(t, groups, threshold, order).value;
    var labels := LabelsOf(groups, stats);
    forall x ensures x in types <==> x in labels {
      if x in types {
        var g :| g in stats && x in stats[g].counts.index;
        GroupStatsEntries(t, groups, threshold, order, g);
      }
    }
    OrderedTypesIgnoresOrder(types, labels);
  }
}
