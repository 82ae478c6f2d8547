/** The substitution classifier `get_mutation_type` (mainV5.py:204-211) and
    the per-group statistics `getSNPTypeStats` (mainV5.py:136-151): how many
    summary rows carry each substitution, plus a `Total` entry. */
module SnpStats {
  import opened Text
  import opened Summary

  // ---------------------------------------------------------------------
  // Classifying substitutions.

  datatype MutationType = Nonsynonymous | Synonymous | OtherType

  /** The name is lower-cased and searched for "non" or "missense" first,
      then for "syn" or "silent". */
  function Classify(name: string): MutationType {
    var lower := Lower(name);
    if Contains(lower, "non") || Contains(lower, "missense") then Nonsynonymous
    else if Contains(lower, "syn") || Contains(lower, "silent") then Synonymous
    else OtherType
  }

  /** The classifier ignores case. */
  lemma ClassifyIgnoresCase(name: string)
    ensures Classify(Lower(name)) == Classify(name)
  {
    LowerIdempotent(name);
  }

  /** The first test wins: "Nonsynonymous SNV" also contains "syn", yet it
      is nonsynonymous. */
  lemma {:induction false} ClassifyNonsynonymous()
    ensures Classify("Nonsynonymous SNV") == Nonsynonymous
  {
    var lower := Lower("Nonsynonymous SNV");
    assert lower[..3] == "non";
    ContainsAt(lower, "non", 0);
    assert lower[3..6] == "syn";
  }

  /** As written, "non" is also found inside "sy-non-ymous": a substitution
      named "synonymous" is counted as nonsynonymous. */
  lemma {:induction false} SynonymousReadsAsNonsynonymous()
    ensures Classify("synonymous") == Nonsynonymous
  {
    var lower := Lower("synonymous");
    assert lower[2..5] == "non";
    ContainsAt(lower, "non", 2);
  }

  predicate IsLetter(c: char) {
    'a' <= c <= 'z' || 'A' <= c <= 'Z'
  }

  /** `sub` occurs in `s` at the start of a word: at the beginning, or after
      a character that is not a letter. */
  predicate ContainsAtWordStart(s: string, sub: string) {
    exists i :: 0 <= i <= |s| && OccursAt(s, sub, i) && (i == 0 || !IsLetter(s[i - 1]))
  }

  predicate OccursAt(s: string, sub: string, i: nat) {
    i + |sub| <= |s| && s[i..i + |sub|] == sub
  }

  /** The classifier as evidently intended: "non" marks a negated word
      ("nonsynonymous", "non-synonymous", "nonsense"), not any three letters
      inside a word. */
  function ClassifyIntended(name: string): MutationType {
    var lower := Lower(name);
    if ContainsAtWordStart(lower, "non") || Contains(lower, "missense") then Nonsynonymous
    else if Contains(lower, "syn") || Contains(lower, "silent") then Synonymous
    else OtherType
  }

  lemma {:induction false} IntendedSynonymous()
    ensures ClassifyIntended("synonymous") == Synonymous
  {
    SynonymousIsLowerCase();
    var lower := "synonymous";
    SynonymousHasNoWordStartNon(lower);
    ContainsNeedsEveryChar(lower, "missense", 'e');
    ContainsAt(lower, "syn", 0);
  }

  lemma {:induction false} SynonymousIsLowerCase()
    ensures Lower("synonymous") == "synonymous"
  {
  }

  lemma {:induction false} SynonymousHasNoWordStartNon(s: string)
    requires s == "synonymous"
    ensures !ContainsAtWordStart(s, "non")
  {
    forall i: nat | OccursAt(s, "non", i)
      ensures i > 0 && IsLetter(s[i - 1])
    {
      assert s[i] == 'n' && s[i + 1] == 'o';
      assert i == 0 || i == 1 || i == 2 || i == 3 || i == 4 || i == 5 || i == 6 || i == 7;
    }
  }

  /** Prefixing any name with "non" makes it nonsynonymous. */
  lemma {:induction false} IntendedNegation(name: string)
    ensures ClassifyIntended("non" + name) == Nonsynonymous
  {
    var lower := Lower("non" + name);
    assert lower[0..3] == "non";
    assert OccursAt(lower, "non", 0);
  }

  /** The two classifiers differ only on names in which "non" occurs inside
      a word. */
  lemma {:induction false} ClassifiersAgree(name: string)
    requires Contains(Lower(name), "non") ==> ContainsAtWordStart(Lower(name), "non")
    ensures Classify(name) == ClassifyIntended(name)
  {
    var lower := Lower(name);
    if ContainsAtWordStart(lower, "non") {
      var i: nat :| i <= |lower| && OccursAt(lower, "non", i) && (i == 0 || !IsLetter(lower[i - 1]));
      ContainsAt(lower, "non", i);
    }
  }

  lemma {:induction false} IntergenicIsLowerCase()
    ensures Lower("intergenic") == "intergenic"
  {
  }

  lemma {:induction false} IntergenicHasNoNon()
    ensures !Contains("intergenic", "non") && !ContainsAtWordStart("intergenic", "non")
  {
    NoNonWithoutO("intergenic");
  }

  lemma {:induction false} NoNonWithoutO(s: string)
    requires 'o' !in s
    ensures !Contains(s, "non") && !ContainsAtWordStart(s, "non")
  {
    ContainsNeedsEveryChar(s, "non", 'o');
    forall i: nat | i + 3 <= |s| ensures !OccursAt(s, "non", i) {
      assert s[i + 1] != 'o';
    }
  }

  /** A name that matches none of the four words is "other". */
  lemma {:induction false} ClassifyIntergenic()
    ensures Classify("intergenic") == OtherType
  {
    IntergenicIsLowerCase();
    IntergenicHasNoNon();
    IntergenicHasNoOtherWord("intergenic");
  }

  /** The intended classifier also calls it "other". */
  lemma {:induction false} ClassifyIntendedIntergenic()
    ensures ClassifyIntended("intergenic") == OtherType
  {
    IntergenicIsLowerCase();
    IntergenicHasNoNon();
    IntergenicHasNoOtherWord("intergenic");
  }

  lemma {:induction false} IntergenicHasNoOtherWord(name: string)
    requires name == "intergenic"
    ensures !Contains(name, "missense") && !Contains(name, "syn") && !Contains(name, "silent")
  {
    ContainsNeedsEveryChar(name, "missense", 'm');
    ContainsNeedsEveryChar(name, "syn", 'y');
    ContainsNeedsEveryChar(name, "silent", 'l');
  }

  // ---------------------------------------------------------------------
  // A pandas Series with string labels.

  /** Labels in order, with the value of each label. */
  datatype Series<V> = Series(index: seq<string>, at: map<string, V>)

  predicate SeriesValid<V>(s: Series<V>) {
    && Distinct(s.index)
    && (forall k :: k in s.at ==> k in s.index)
    && (forall k :: k in s.index ==> k in s.at)
  }

  /** `series.get(key, default)`. */
  function GetOr<V>(s: Series<V>, key: string, default: V): V {
    if key in s.at then s.at[key] else default
  }

  /** `series[key] = value`: replaces the value of an existing label, or
      appends the label. */
  function Set<V>(s: Series<V>, key: string, value: V): (r: Series<V>)
    requires SeriesValid(s)
    ensures SeriesValid(r)
    ensures r.at == s.at[key := value]
    ensures r.index == if key in s.index then s.index else s.index + [key]
  {
    Series(if key in s.at then s.index else s.index + [key], s.at[key := value])
  }

  /** `value_counts()`: the number of occurrences of each value, labels in
      order of first appearance. */
  function ValueCounts(xs: seq<string>): (counts: Series<nat>)
    ensures SeriesValid(counts)
    ensures counts.index == Unique(xs)
    ensures forall x :: x in counts.at ==> counts.at[x] == Count(xs, x)
  {
    if xs == [] then Series([], map[])
    else
      var counts := ValueCounts(xs[..|xs| - 1]);
      var x := xs[|xs| - 1];
      ValueCountsStep(xs, counts);
      Set(counts, x, if x in counts.at then counts.at[x] + 1 else 1)
  }

  lemma {:induction false} ValueCountsStep(xs: seq<string>, counts: Series<nat>)
    requires xs != [] && SeriesValid(counts)
    requires counts.index == Unique(xs[..|xs| - 1])
    requires forall y :: y in counts.at ==> counts.at[y] == Count(xs[..|xs| - 1], y)
    ensures var x := xs[|xs| - 1];
      var r := Set(counts, x, if x in counts.at then counts.at[x] + 1 else 1);
      && r.index == Unique(xs)
      && forall y :: y in r.at ==> r.at[y] == Count(xs, y)
  {
    var init := xs[..|xs| - 1];
    var x := xs[|xs| - 1];
    var r := Set(counts, x, if x in counts.at then counts.at[x] + 1 else 1);
    forall y | y in r.at ensures r.at[y] == Count(xs, y) {
      if y == x {
        assert Count(xs, y) == Count(init, y) + 1;
        if x !in counts.at {
          assert x !in init;
        }
      } else {
        assert Count(xs, y) == Count(init, y);
      }
    }
  }

  /** The sum of the values of the given labels. */
  function SumAt(labels: seq<string>, at: map<string, nat>): nat
    requires forall k :: k in labels ==> k in at
  {
    if labels == [] then 0 else SumAt(labels[..|labels| - 1], at) + at[labels[|labels| - 1]]
  }

  lemma {:induction false} SumAtIgnoresOthers(labels: seq<string>, at: map<string, nat>, key: string, v: nat)
    requires forall k :: k in labels ==> k in at
    requires key !in labels
    ensures SumAt(labels, at[key := v]) == SumAt(labels, at)
  {
    if labels != [] {
      SumAtIgnoresOthers(labels[..|labels| - 1], at, key, v);
    }
  }

  lemma {:induction false} SumAtBump(labels: seq<string>, at: map<string, nat>, key: string)
    requires forall k :: k in labels ==> k in at
    requires Distinct(labels) && key in labels
    ensures SumAt(labels, at[key := at[key] + 1]) == SumAt(labels, at) + 1
  {
    var init := labels[..|labels| - 1];
    var last := labels[|labels| - 1];
    if last == key {
      assert key !in init by {
        forall i | 0 <= i < |init| ensures init[i] != key {
          assert labels[i] != labels[|labels| - 1];
        }
      }
      SumAtIgnoresOthers(init, at, key, at[key] + 1);
    } else {
      assert key in init by {
        var i :| 0 <= i < |labels| && labels[i] == key;
        assert init[i] == key;
      }
      assert Distinct(init);
      SumAtBump(init, at, key);
    }
  }

  lemma {:induction false} SumAtExtend(labels: seq<string>, at: map<string, nat>, key: string, v: nat)
    requires forall k :: k in labels ==> k in at
    requires key !in labels
    ensures SumAt(labels + [key], at[key := v]) == SumAt(labels, at) + v
  {
    assert (labels + [key])[..|labels|] == labels;
    SumAtIgnoresOthers(labels, at, key, v);
  }

  /** The counts add up to the number of values. */
  lemma {:induction false} ValueCountsSum(xs: seq<string>)
    ensures SumAt(ValueCounts(xs).index, ValueCounts(xs).at) == |xs|
  {
    if xs != [] {
      var init := xs[..|xs| - 1];
      var x := xs[|xs| - 1];
      var counts := ValueCounts(init);
      ValueCountsSum(init);
      if x in counts.at {
        SumAtBump(counts.index, counts.at, x);
      } else {
        SumAtExtend(counts.index, counts.at, x, 1);
      }
    }
  }

  // ---------------------------------------------------------------------
  // getSNPTypeStats.

  /** The counts per substitution and their share of the rows in percent
      (the display rounding and "%" suffix are not modelled). */
  datatype TypeStats = TypeStats(counts: Series<nat>, percentages: Series<real>)

  /** The "Substitution" column of the summary. */
  function Substitutions(summary: seq<SummaryRow>): (subs: seq<string>)
    ensures |subs| == |summary|
    ensures forall i :: 0 <= i < |summary| ==> subs[i] == summary[i].annotation.substitution
  {
    seq(|summary|, i requires 0 <= i < |summary| => summary[i].annotation.substitution)
  }

  /** One count as a percentage of `total`. */
  function Percent(count: nat, total: nat): real
    requires total > 0
  {
    count as real * 100.0 / total as real
  }

  /** `counts / total * 100`. */
  function Percentages(counts: Series<nat>, total: nat): (p: Series<real>)
    requires SeriesValid(counts) && (total > 0 || counts.index == [])
    ensures SeriesValid(p) && p.index == counts.index
    ensures forall k :: k in counts.at ==> total > 0 && k in p.at && p.at[k] == Percent(counts.at[k], total)
  {
    Series(counts.index, map k | k in counts.at :: Percent(counts.at[k], total))
  }

  /** `getSNPTypeStats` as it is meant to work, on any summary: the counts
      of each substitution, then `Total` set to the number of rows (its
      percentage fixed at 100). An empty summary gives `Total` 0. */
  function TypeStatsOf(summary: seq<SummaryRow>): (stats: TypeStats)
    ensures SeriesValid(stats.counts) && SeriesValid(stats.percentages)
    ensures stats.counts.index == stats.percentages.index
    ensures stats.counts.index == Unique(Substitutions(summary)) + if "Total" in Substitutions(summary) then [] else ["Total"]
    ensures stats.counts.at["Total"] == |summary| && stats.percentages.at["Total"] == 100.0
  {
    var subs := Substitutions(summary);
    var counts := ValueCounts(subs);
    var percentages := Percentages(counts, |summary|);
    TypeStats(Set(counts, "Total", |summary|), Set(percentages, "Total", 100.0))
  }

  /** Every other label is a substitution of the summary, with the number of
      rows carrying it and that number as a percentage of the rows. */
  lemma {:induction false} TypeStatsCounts(summary: seq<SummaryRow>, x: string)
    requires x in TypeStatsOf(summary).counts.at && x != "Total"
    ensures var stats := TypeStatsOf(summary);
      && x in Substitutions(summary)
      && stats.counts.at[x] == Count(Substitutions(summary), x)
      && |summary| > 0
      && stats.percentages.at[x] == Percent(Count(Substitutions(summary), x), |summary|)
  {
    var subs := Substitutions(summary);
    var counts := ValueCounts(subs);
    var percentages := Percentages(counts, |summary|);
    var stats := TypeStatsOf(summary);
    assert stats.counts == Set(counts, "Total", |summary|);
    assert stats.percentages == Set(percentages, "Total", 100.0);
    assert x in counts.at;
    assert x in Unique(subs);
    assert stats.counts.at[x] == counts.at[x] == Count(subs, x);
    assert stats.percentages.at[x] == percentages.at[x];
  }

  /** Looking any label up with a default of 0: `Total` gives the number
      of rows, every other label the number of rows carrying it (0 for a
      substitution that does not occur), and its percentage likewise. */
  lemma {:induction false} TypeStatsLookup(summary: seq<SummaryRow>, x: string)
    ensures var stats := TypeStatsOf(summary);
      var n := Count(Substitutions(summary), x);
      && GetOr(stats.counts, x, 0) == (if x == "Total" then |summary| else n)
      && GetOr(stats.percentages, x, 0.0) == (if x == "Total" then 100.0 else if n == 0 then 0.0 else Percent(n, |summary|))
  {
    var stats := TypeStatsOf(summary);
    if x != "Total" {
      if x in stats.counts.at {
        TypeStatsCounts(summary, x);
      } else {
        var subs := Substitutions(summary);
        assert x !in Unique(subs);
        assert x !in stats.percentages.index;
      }
    }
  }

  /** When no substitution is literally named "Total", the counts of the
      substitutions add up to `Total`, the number of summary rows. */
  lemma ClassCountsSumToTotal(summary: seq<SummaryRow>)
    requires "Total" !in Substitutions(summary)
    ensures var stats := TypeStatsOf(summary);
      && Unique(Substitutions(summary)) == stats.counts.index[..|stats.counts.index| - 1]
      && SumAt(Unique(Substitutions(summary)), stats.counts.at) == stats.counts.at["Total"]
  {
    var subs := Substitutions(summary);
    var counts := ValueCounts(subs);
    ValueCountsSum(subs);
    SumAtIgnoresOthers(counts.index, counts.at, "Total", |summary|);
  }

  /** The outcome of `getSNPTypeStats` as written. */
  datatype StatsOutcome = Stats(stats: TypeStats) | KeyError(column: string)

  /** `getSNPTypeStats` as written: a summary without rows is built by
      `pd.DataFrame([])`, which has no "Substitution" column, so selecting
      that column raises `KeyError`. */
  function TypeStatsAsWritten(summary: seq<SummaryRow>): (r: StatsOutcome)
    ensures r.KeyError? <==> summary == []
    ensures r.KeyError? ==> r.column == "Substitution"
    ensures r.Stats? ==> r.stats == TypeStatsOf(summary)
  {
    if summary == [] then KeyError("Substitution") else Stats(TypeStatsOf(summary))
  }

  /** A group whose summary is empty makes the code as written raise, where
      the intended statistics hold only `Total` 0. */
  lemma EmptySummaryRaises()
    ensures TypeStatsAsWritten([]) == KeyError("Substitution")
    ensures TypeStatsOf([]).counts == Series(["Total"], map["Total" := 0])
  {
    assert Substitutions([]) == [];
  }
}
