/** What the threshold mutation summary promises: which markers are
    reported, what a reported row holds, and how the summary reacts to the
    threshold and to the version's annotation field order. */
module SummaryProperties {
  import opened Text
  import opened Table
  import opened Annotation
  import opened Summary

  /** Marker `j` has a base, other than the root's, whose frequency reaches
      the threshold. */
  predicate Qualifies(q: Query, j: nat)
    requires ValidQuery(q) && j < |q.markers|
  {
    && q.isolateCount > 0
    && exists i :: 0 <= i < |Bases| && Bases[i] != q.root[j] && Count(Column(q.calls, j), Bases[i]) > 0
         && Frequency(Count(Column(q.calls, j), Bases[i]), q.isolateCount) >= q.threshold
  }

  /** A marker whose annotation is read without error is reported exactly
      when it qualifies. */
  lemma {:induction false} MarkerReportedIff(q: Query, j: nat)
    requires ValidQuery(q) && j < |q.markers| && MarkerOutcome(q, j).Ok?
    ensures MarkerOutcome(q, j).value.Some? <==> Qualifies(q, j)
  {
    var col := Column(q.calls, j);
    if q.isolateCount > 0 {
      var stats := Stats(q, j);
      var mutants := Mutants(stats, q.root[j], q.threshold);
      if mutants != [] {
        var s := mutants[0];
        assert s in mutants;
        assert s.base in Bases[..|Bases|];
        var i :| 0 <= i < |Bases| && Bases[i] == s.base;
        assert Count(col, Bases[i]) > 0;
      }
      if Qualifies(q, j) {
        var i :| 0 <= i < |Bases| && Bases[i] != q.root[j] && Count(col, Bases[i]) > 0
          && Frequency(Count(col, Bases[i]), q.isolateCount) >= q.threshold;
        assert Bases[i] in Bases[..|Bases|];
        assert StatOf(col, q.isolateCount, Bases[i]) in stats;
        assert StatOf(col, q.isolateCount, Bases[i]) in mutants;
      }
    }
  }

  /** A reported row: its location and root base are the marker's; its
      mutant bases are bases that occur, differ from the root and reach the
      threshold; its other bases are the remaining bases that occur; both
      carry the count in the subset and that count divided by the number of
      selected isolates, whatever else the column holds. */
  lemma {:induction false} ReportedRow(q: Query, j: nat, r: SummaryRow)
    requires ValidQuery(q) && j < |q.markers| && MarkerOutcome(q, j) == Ok(Some(r))
    ensures q.isolateCount > 0
    ensures r.location == q.markers[j] && r.rootBase == q.root[j] && |r.mutants| > 0
    ensures forall s :: s in r.mutants ==>
      && s.base in Bases && s.base != r.rootBase && s.frequency >= q.threshold
      && s.count == Count(Column(q.calls, j), s.base) > 0
      && s.frequency == Frequency(s.count, q.isolateCount)
    ensures forall s :: s in r.others ==>
      && s.base in Bases && (s.base == r.rootBase || s.frequency < q.threshold)
      && s.count == Count(Column(q.calls, j), s.base) > 0
      && s.frequency == Frequency(s.count, q.isolateCount)
    ensures forall b :: b in Bases && b in Column(q.calls, j) ==>
      StatOf(Column(q.calls, j), q.isolateCount, b) in r.mutants + r.others
  {
    if q.isolateCount == 0 {
      assert false;
    }
    var col := Column(q.calls, j);
    var stats := Stats(q, j);
    assert Bases[..|Bases|] == Bases;
    forall b | b in Bases && b in col
      ensures StatOf(col, q.isolateCount, b) in r.mutants + r.others
    {
      assert StatOf(col, q.isolateCount, b) in stats;
    }
  }

  /** The root base is never a mutant, so a marker where every selected call
      is the root call is never reported, at any threshold. */
  lemma {:induction false} AgreeingMarkerNotReported(q: Query, j: nat)
    requires ValidQuery(q) && j < |q.markers|
    requires forall c :: c in Column(q.calls, j) ==> c == q.root[j]
    ensures !(MarkerOutcome(q, j).Ok? && MarkerOutcome(q, j).value.Some?)
  {
    if MarkerOutcome(q, j).Ok? {
      MarkerReportedIff(q, j);
      forall i | 0 <= i < |Bases| && Count(Column(q.calls, j), Bases[i]) > 0
        ensures Bases[i] == q.root[j]
      {
        assert Bases[i] in Column(q.calls, j);
      }
    }
  }

  /** The "Location" column of the summary. */
  function Locations(rows: seq<SummaryRow>): (locations: seq<string>)
    ensures |locations| == |rows|
    ensures forall i :: 0 <= i < |rows| ==> locations[i] == rows[i].location
  {
    seq(|rows|, i requires 0 <= i < |rows| => rows[i].location)
  }

  /** The qualifying markers among the first `k`, in column order. */
  function QualifyingMarkers(q: Query, k: nat): (markers: seq<string>)
    requires ValidQuery(q) && k <= |q.markers|
    ensures |markers| <= k
  {
    if k == 0 then []
    else
      var init := QualifyingMarkers(q, k - 1);
      if Qualifies(q, k - 1) then init + [q.markers[k - 1]] else init
  }

  /** A marker qualifying under `q'` qualifies under `q` too, so the
      qualifying markers of `q'` are among those of `q`. */
  lemma {:induction false} QualifyingMarkersShrink(q: Query, q': Query, k: nat)
    requires ValidQuery(q) && ValidQuery(q') && q'.markers == q.markers && k <= |q.markers|
    requires forall j :: 0 <= j < k && Qualifies(q', j) ==> Qualifies(q, j)
    ensures forall m :: m in QualifyingMarkers(q', k) ==> m in QualifyingMarkers(q, k)
  {
    if k > 0 {
      QualifyingMarkersShrink(q, q', k - 1);
    }
  }

  /** A successful prefix of the summary has no failing marker and holds,
      in order, the rows of the reported markers. */
  lemma {:induction false} CollectedRows(outcomes: seq<Outcome<Option<SummaryRow>>>, k: nat)
    requires k <= |outcomes| && Collect(outcomes[..k]).Ok?
    ensures forall j :: 0 <= j < k ==> outcomes[j].Ok?
    ensures forall r :: r in Collect(outcomes[..k]).value ==>
      exists j :: 0 <= j < k && outcomes[j] == Ok(Some(r))
  {
    if k > 0 {
      CollectStep(outcomes, k - 1);
      CollectedRows(outcomes, k - 1);
      var rows := Collect(outcomes[..k - 1]).value;
      forall r | r in Collect(outcomes[..k]).value
        ensures exists j :: 0 <= j < k && outcomes[j] == Ok(Some(r))
      {
        if r !in rows {
          assert outcomes[k - 1] == Ok(Some(r));
        }
      }
    }
  }

  /** When the summary succeeds, its locations are exactly the qualifying
      markers, in column order. */
  lemma {:induction false} SummaryLocationsPrefix(q: Query, k: nat)
    requires ValidQuery(q) && k <= |q.markers| && Collect(Outcomes(q)[..k]).Ok?
    ensures Locations(Collect(Outcomes(q)[..k]).value) == QualifyingMarkers(q, k)
  {
    if k > 0 {
      var outcomes := Outcomes(q);
      CollectStep(outcomes, k - 1);
      SummaryLocationsPrefix(q, k - 1);
      var rows := Collect(outcomes[..k - 1]).value;
      MarkerReportedIff(q, k - 1);
      if outcomes[k - 1].value.Some? {
        var r := outcomes[k - 1].value.value;
        ReportedLocation(q, k - 1, r);
        LocationsAppend(rows, r);
      }
    }
  }

  lemma ReportedLocation(q: Query, j: nat, r: SummaryRow)
    requires ValidQuery(q) && j < |q.markers| && MarkerOutcome(q, j) == Ok(Some(r))
    ensures r.location == q.markers[j]
  {
  }

  lemma LocationsAppend(rows: seq<SummaryRow>, r: SummaryRow)
    ensures Locations(rows + [r]) == Locations(rows) + [r.location]
  {
  }

  lemma SummaryLocations(q: Query)
    requires ValidQuery(q) && MutationSummary(q).Ok?
    ensures Locations(MutationSummary(q).value) == QualifyingMarkers(q, |q.markers|)
  {
    assert Outcomes(q)[..|q.markers|] == Outcomes(q);
    SummaryLocationsPrefix(q, |q.markers|);
  }

  /** No row of a successful summary lists its root base as a mutant, and
      every mutant base is one of A, C, T, G at or above the threshold. */
  lemma SummaryMutantsAreMutations(q: Query)
    requires ValidQuery(q) && MutationSummary(q).Ok?
    ensures forall r, s :: r in MutationSummary(q).value && s in r.mutants ==>
      s.base != r.rootBase && s.base in Bases && s.frequency >= q.threshold && s.count > 0
  {
    var outcomes := Outcomes(q);
    assert outcomes[..|q.markers|] == outcomes;
    CollectedRows(outcomes, |q.markers|);
    forall r, s | r in MutationSummary(q).value && s in r.mutants
      ensures s.base != r.rootBase && s.base in Bases && s.frequency >= q.threshold && s.count > 0
    {
      var j :| 0 <= j < |q.markers| && outcomes[j] == Ok(Some(r));
      ReportedRow(q, j, r);
    }
  }

  // ---------------------------------------------------------------------
  // The threshold.

  /** Raising the threshold changes no failure and can only drop a marker's
      row or some of its mutant bases. */
  lemma {:induction false} RaiseThresholdMarker(q: Query, t': real, j: nat)
    requires ValidQuery(q) && j < |q.markers| && q.threshold <= t'
    ensures ValidQuery(q.(threshold := t'))
    ensures MarkerOutcome(q.(threshold := t'), j).Fail? <==> MarkerOutcome(q, j).Fail?
    ensures MarkerOutcome(q, j).Fail? ==> MarkerOutcome(q.(threshold := t'), j) == MarkerOutcome(q, j)
    ensures MarkerOutcome(q.(threshold := t'), j).Ok? && MarkerOutcome(q.(threshold := t'), j).value.Some? ==>
      && MarkerOutcome(q, j).value.Some?
      && forall s :: s in MarkerOutcome(q.(threshold := t'), j).value.value.mutants ==>
           s in MarkerOutcome(q, j).value.value.mutants
  {
    var q' := q.(threshold := t');
    assert Stats(q', j) == Stats(q, j);
    assert Column(q'.calls, j) == Column(q.calls, j);
    if MarkerOutcome(q', j).Ok? && MarkerOutcome(q', j).value.Some? {
      var s := MarkerOutcome(q', j).value.value.mutants[0];
      assert s in Mutants(Stats(q, j), q.root[j], q.threshold);
    }
  }

  /** Two lists of outcomes that fail at the same markers with the same
      exceptions combine into summaries that fail alike. */
  lemma {:induction false} SameFailures(o: seq<Outcome<Option<SummaryRow>>>, o': seq<Outcome<Option<SummaryRow>>>, k: nat)
    requires k <= |o| && k <= |o'|
    requires forall j :: 0 <= j < k ==> (o'[j].Fail? <==> o[j].Fail?) && (o[j].Fail? ==> o'[j] == o[j])
    ensures Collect(o'[..k]).Fail? <==> Collect(o[..k]).Fail?
    ensures Collect(o[..k]).Fail? ==> Collect(o'[..k]) == Collect(o[..k])
  {
    if k > 0 {
      SameFailures(o, o', k - 1);
      CollectStep(o, k - 1);
      CollectStep(o', k - 1);
    }
  }

  /** Whether the summary fails does not depend on the threshold, and a
      higher threshold reports no marker that a lower one does not. */
  lemma RaiseThresholdSummary(q: Query, t': real)
    requires ValidQuery(q) && q.threshold <= t'
    ensures ValidQuery(q.(threshold := t'))
    ensures MutationSummary(q.(threshold := t')).Fail? <==> MutationSummary(q).Fail?
    ensures MutationSummary(q).Fail? ==> MutationSummary(q.(threshold := t')) == MutationSummary(q)
    ensures MutationSummary(q).Ok? ==>
      forall m :: m in Locations(MutationSummary(q.(threshold := t')).value) ==>
        m in Locations(MutationSummary(q).value)
  {
    var q' := q.(threshold := t');
    var k := |q.markers|;
    forall j | 0 <= j < k
      ensures (Outcomes(q')[j].Fail? <==> Outcomes(q)[j].Fail?)
      ensures Outcomes(q)[j].Fail? ==> Outcomes(q')[j] == Outcomes(q)[j]
    {
      RaiseThresholdMarker(q, t', j);
    }
    assert Outcomes(q)[..k] == Outcomes(q);
    assert Outcomes(q')[..k] == Outcomes(q');
    SameFailures(Outcomes(q), Outcomes(q'), k);
    if MutationSummary(q).Ok? {
      SummaryLocations(q);
      SummaryLocations(q');
      forall j | 0 <= j < k && Qualifies(q', j) ensures Qualifies(q, j) {
        QualifiesAtLowerThreshold(q, t', j);
      }
      QualifyingMarkersShrink(q, q', k);
    }
  }

  /** A marker that qualifies at a threshold qualifies at any lower one. */
  lemma QualifiesAtLowerThreshold(q: Query, t': real, j: nat)
    requires ValidQuery(q) && q.threshold <= t' && j < |q.markers|
    requires Qualifies(q.(threshold := t'), j)
    ensures Qualifies(q, j)
  {
    var col := Column(q.calls, j);
    var i :| 0 <= i < |Bases| && Bases[i] != q.root[j] && Count(col, Bases[i]) > 0
      && Frequency(Count(col, Bases[i]), q.isolateCount) >= t';
  }

  // ---------------------------------------------------------------------
  // The two versions.

  /** Two rows that agree on everything the base loop computes and on the
      mutation and gene fields. */
  predicate SameExceptLocusAndSubstitution(r4: SummaryRow, r5: SummaryRow) {
    && r4.location == r5.location && r4.rootBase == r5.rootBase
    && r4.mutants == r5.mutants && r4.others == r5.others
    && r4.annotation.mutation == r5.annotation.mutation
    && r4.annotation.gene == r5.annotation.gene
  }

  lemma {:induction false} VersionsAgreeOnMarker(q: Query, j: nat)
    requires ValidQuery(q) && j < |q.markers|
    ensures ValidQuery(q.(order := GeneSubstitutionLocus)) && ValidQuery(q.(order := GeneLocusSubstitution))
    ensures var v4 := MarkerOutcome(q.(order := GeneSubstitutionLocus), j);
      var v5 := MarkerOutcome(q.(order := GeneLocusSubstitution), j);
      && (v4.Fail? <==> v5.Fail?)
      && (v4.Fail? ==> v4 == v5)
      && (v4.Ok? ==> (v4.value.Some? <==> v5.value.Some?))
      && (v4.Ok? && v4.value.Some? ==> SameExceptLocusAndSubstitution(v4.value.value, v5.value.value))
  {
    var q4 := q.(order := GeneSubstitutionLocus);
    var q5 := q.(order := GeneLocusSubstitution);
    assert Stats(q4, j) == Stats(q5, j);
    assert Column(q4.calls, j) == Column(q5.calls, j);
    LookupOrdersAgree(q.frame, q.markers, j);
  }

  lemma {:induction false} VersionsAgreePrefix(o4: seq<Outcome<Option<SummaryRow>>>, o5: seq<Outcome<Option<SummaryRow>>>, k: nat)
    requires k <= |o4| && k <= |o5|
    requires forall j :: 0 <= j < k ==>
      && (o4[j].Fail? <==> o5[j].Fail?)
      && (o4[j].Fail? ==> o4[j] == o5[j])
      && (o4[j].Ok? ==> (o4[j].value.Some? <==> o5[j].value.Some?))
      && (o4[j].Ok? && o4[j].value.Some? ==> SameExceptLocusAndSubstitution(o4[j].value.value, o5[j].value.value))
    ensures var s4 := Collect(o4[..k]);
      var s5 := Collect(o5[..k]);
      && (s4.Fail? <==> s5.Fail?)
      && (s4.Fail? ==> s4 == s5)
      && (s4.Ok? ==> |s4.value| == |s5.value|)
      && (s4.Ok? ==> forall i :: 0 <= i < |s4.value| ==> SameExceptLocusAndSubstitution(s4.value[i], s5.value[i]))
  {
    if k > 0 {
      VersionsAgreePrefix(o4, o5, k - 1);
      CollectStep(o4, k - 1);
      CollectStep(o5, k - 1);
    }
  }

  /** mainV4.py and mainV5.py produce the same summary (or the same
      exception) except that the locus and substitution fields of a
      comma-separated annotation are read in swapped places. */
  lemma VersionsAgree(q: Query)
    requires ValidQuery(q)
    ensures ValidQuery(q.(order := GeneSubstitutionLocus)) && ValidQuery(q.(order := GeneLocusSubstitution))
    ensures var s4 := MutationSummary(q.(order := GeneSubstitutionLocus));
      var s5 := MutationSummary(q.(order := GeneLocusSubstitution));
      && (s4.Fail? <==> s5.Fail?)
      && (s4.Fail? ==> s4 == s5)
      && (s4.Ok? ==> |s4.value| == |s5.value|)
      && (s4.Ok? ==> forall i :: 0 <= i < |s4.value| ==> SameExceptLocusAndSubstitution(s4.value[i], s5.value[i]))
  {
    var o4 := Outcomes(q.(order := GeneSubstitutionLocus));
    var o5 := Outcomes(q.(order := GeneLocusSubstitution));
    var k := |q.markers|;
    forall j | 0 <= j < k
      ensures && (o4[j].Fail? <==> o5[j].Fail?)
              && (o4[j].Fail? ==> o4[j] == o5[j])
              && (o4[j].Ok? ==> (o4[j].value.Some? <==> o5[j].value.Some?))
              && (o4[j].Ok? && o4[j].value.Some? ==> SameExceptLocusAndSubstitution(o4[j].value.value, o5[j].value.value))
    {
      VersionsAgreeOnMarker(q, j);
    }
    assert o4[..k] == o4;
    assert o5[..k] == o5;
    VersionsAgreePrefix(o4, o5, k);
  }
}
