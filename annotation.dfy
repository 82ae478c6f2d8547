/** The reserved `annotation` row: each marker's cell is a comma-separated
    description of the mutation there. mainV5.py and mainV4.py unpack it into
    four fields, in two different orders. */
module Annotation {
  import opened Text
  import opened Table

  /** The order in which the comma-separated fields are unpacked:
      mainV5.py reads mutation, gene, locus, substitution;
      mainV4.py reads mutation, gene, substitution, locus. */
  datatype FieldOrder = GeneLocusSubstitution | GeneSubstitutionLocus

  datatype Annotation = Annotation(mutation: string, gene: string, locus: string, substitution: string)

  const NotAnnotated: string := "Not annotated"

  const Unannotated: Annotation := Annotation(NotAnnotated, NotAnnotated, NotAnnotated, NotAnnotated)

  /** The outcome of reading a marker's annotation: the four fields; the
      number of comma-separated parts when it is not four (Python's unpacking
      raises `ValueError` then); or `NoRow` when the frame has the column but
      no row (`.values[0]` raises `IndexError` then). */
  datatype Parse = Parsed(annotation: Annotation) | Unpackable(parts: nat) | NoRow

  /** Places four stripped parts in the fields, following the version's order. */
  function Assign(p0: string, p1: string, p2: string, p3: string, order: FieldOrder): (a: Annotation)
    ensures a.mutation == Strip(p0) && a.gene == Strip(p1)
    ensures order == GeneLocusSubstitution ==> a.locus == Strip(p2) && a.substitution == Strip(p3)
    ensures order == GeneSubstitutionLocus ==> a.substitution == Strip(p2) && a.locus == Strip(p3)
  {
    match order
    case GeneLocusSubstitution => Annotation(Strip(p0), Strip(p1), Strip(p2), Strip(p3))
    case GeneSubstitutionLocus => Annotation(Strip(p0), Strip(p1), Strip(p3), Strip(p2))
  }

  /** Unpacks one annotation cell (mainV5.py:177-181 and 196-199,
      mainV4.py:102 and 117-120). */
  function ParseCell(cell: string, order: FieldOrder): (r: Parse)
    ensures ',' !in cell ==> r == Parsed(Annotation(Strip(cell), NotAnnotated, NotAnnotated, NotAnnotated))
    ensures r.Unpackable? <==> ',' in cell && Count(cell, ',') != 3
    ensures r.Unpackable? ==> r.parts == Count(cell, ',') + 1 && r.parts != 4
  {
    if ',' in cell then
      var parts := Split(cell, ',');
      SplitLength(cell, ',');
      if |parts| == 4 then Parsed(Assign(parts[0], parts[1], parts[2], parts[3], order))
      else Unpackable(|parts|)
    else
      Parsed(Annotation(Strip(cell), NotAnnotated, NotAnnotated, NotAnnotated))
  }

  /** The `annotationRow` frame handed to the summary: its column labels and
      its rows, each row holding one cell per marker in marker order. */
  datatype Frame = Frame(columns: set<string>, rows: seq<seq<string>>)

  /** The frame `df[df['Unnamed: 0'] == 'annotation']` of a table: every
      column of the table, and the calls of the rows named `annotation`. */
  function FrameOf(t: Table): (frame: Frame)
    ensures forall m :: m in t.markers ==> m in frame.columns
    ensures Wellformed(t) ==> Rectangular(frame.rows, |t.markers|)
    ensures |frame.rows| == |SelectRows(t.rows, ["annotation"])|
  {
    Frame({"Unnamed: 0", "Group"} + (set m | m in t.markers), Calls(SelectRows(t.rows, ["annotation"])))
  }

  /** The annotation of marker `j` (mainV5.py:175-183, mainV4.py:100-104):
      the first row's cell parsed when the frame has the marker's column, every
      field "Not annotated" when it does not. */
  function Lookup(frame: Frame, markers: seq<string>, j: nat, order: FieldOrder): (r: Parse)
    requires j < |markers| && Rectangular(frame.rows, |markers|)
    ensures markers[j] !in frame.columns ==> r == Parsed(Unannotated)
    ensures markers[j] in frame.columns && frame.rows == [] ==> r == NoRow
    ensures r.NoRow? ==> frame.rows == []
  {
    if markers[j] !in frame.columns then Parsed(Unannotated)
    else if frame.rows == [] then NoRow
    else ParseCell(frame.rows[0][j], order)
  }

  /** The two field orders fail alike and agree on the mutation and the
      gene of a marker's annotation. */
  lemma LookupOrdersAgree(frame: Frame, markers: seq<string>, j: nat)
    requires j < |markers| && Rectangular(frame.rows, |markers|)
    ensures var v5 := Lookup(frame, markers, j, GeneLocusSubstitution);
      var v4 := Lookup(frame, markers, j, GeneSubstitutionLocus);
      && (v4.Parsed? <==> v5.Parsed?)
      && (!v4.Parsed? ==> v4 == v5)
      && (v4.Parsed? ==> v4.annotation.mutation == v5.annotation.mutation && v4.annotation.gene == v5.annotation.gene)
  {
    if markers[j] in frame.columns && frame.rows != [] {
      FieldOrdersSwapLocusAndSubstitution(frame.rows[0][j]);
    }
  }

  /** For the frame of the table itself the column is always there, so the
      "Not annotated" fallback for a missing column is never taken: a table
      without an annotation row makes the lookup fail instead. */
  lemma TableFrameHasEveryColumn(t: Table, j: nat, order: FieldOrder)
    requires Wellformed(t) && j < |t.markers|
    ensures Rectangular(FrameOf(t).rows, |t.markers|)
    ensures SelectRows(t.rows, ["annotation"]) == [] ==> Lookup(FrameOf(t), t.markers, j, order) == NoRow
    ensures SelectRows(t.rows, ["annotation"]) != [] ==>
      Lookup(FrameOf(t), t.markers, j, order) == ParseCell(SelectRows(t.rows, ["annotation"])[0].calls[j], order)
  {
    assert t.markers[j] in t.markers;
  }

  /** Writing four comma-free, already stripped fields joined by commas and
      unpacking them gives the fields back, each in the place its version's
      order assigns. */
  lemma ParseJoinedFields(p0: string, p1: string, p2: string, p3: string, order: FieldOrder)
    requires PlainField(p0) && PlainField(p1) && PlainField(p2) && PlainField(p3)
    ensures ParseCell(Join([p0, p1, p2, p3], ','), order) ==
      Parsed(match order
        case GeneLocusSubstitution => Annotation(p0, p1, p2, p3)
        case GeneSubstitutionLocus => Annotation(p0, p1, p3, p2))
  {
    var cell := Join([p0, p1, p2, p3], ',');
    SplitJoin([p0, p1, p2, p3], ',');
    assert ',' in cell;
  }

  /** The two versions agree on which cells unpack and on the mutation and
      gene; they read the third and fourth fields into swapped places. */
  lemma FieldOrdersSwapLocusAndSubstitution(cell: string)
    ensures ParseCell(cell, GeneLocusSubstitution).Parsed? == ParseCell(cell, GeneSubstitutionLocus).Parsed?
    ensures ParseCell(cell, GeneLocusSubstitution).Parsed? ==>
      var v5 := ParseCell(cell, GeneLocusSubstitution).annotation;
      var v4 := ParseCell(cell, GeneSubstitutionLocus).annotation;
      && v4.mutation == v5.mutation && v4.gene == v5.gene
      && (',' in cell ==> v4.substitution == v5.locus && v4.locus == v5.substitution)
      && (',' !in cell ==> v4 == v5)
  {
  }

  /** A parsed field of a comma-separated cell never holds a comma. */
  lemma ParsedFieldsHaveNoComma(cell: string, order: FieldOrder)
    requires ',' in cell && ParseCell(cell, order).Parsed?
    ensures var a := ParseCell(cell, order).annotation;
      ',' !in a.mutation && ',' !in a.gene && ',' !in a.locus && ',' !in a.substitution
  {
    var parts := Split(cell, ',');
    assert |parts| == 4;
    SplitPartsLackSeparator(cell, ',', 0);
    SplitPartsLackSeparator(cell, ',', 1);
    SplitPartsLackSeparator(cell, ',', 2);
    SplitPartsLackSeparator(cell, ',', 3);
    StripKeepsAbsence(parts[0], ',');
    StripKeepsAbsence(parts[1], ',');
    StripKeepsAbsence(parts[2], ',');
    StripKeepsAbsence(parts[3], ',');
  }

  lemma StripKeepsAbsence(s: string, c: char)
    requires c !in s
    ensures c !in Strip(s)
  {
    var r := Strip(s);
    assert forall k :: 0 <= k < |r| ==> r[k] == s[LeadingSpace(s) + k];
  }

  /** Four fields joined by commas, written out. */
  lemma {:induction false} JoinFour(p0: string, p1: string, p2: string, p3: string)
    ensures Join([p0, p1, p2, p3], ',') == p0 + [','] + p1 + [','] + p2 + [','] + p3
  {
    assert [p0, p1, p2, p3][..3] == [p0, p1, p2];
    assert [p0, p1, p2][..2] == [p0, p1];
    assert [p0, p1][..1] == [p0];
    assert Join([p0, p1], ',') == p0 + [','] + p1;
    assert Join([p0, p1, p2], ',') == p0 + [','] + p1 + [','] + p2;
  }

  /** A field with no comma and no surrounding whitespace, like those of the example cells below. */
  predicate PlainField(p: string) {
    && ',' !in p
    && p != [] && !IsSpace(p[0]) && !IsSpace(p[|p| - 1])
  }

  lemma {:induction false} ExampleCellV4Text()
    ensures "p.Leu5Val" + [','] + "rpoB" + [','] + "missense" + [','] + "locus123" == "p.Leu5Val,rpoB,missense,locus123"
  {
  }

  lemma {:induction false} ExampleFieldsPlain()
    ensures PlainField("p.Leu5Val") && PlainField("rpoB") && PlainField("missense") && PlainField("locus123")
  {
  }

  /** The example cell `p.Leu5Val,rpoB,missense,locus123` unpacked by
      mainV4.py's order. */
  lemma {:induction false} ExampleCellV4()
    ensures ParseCell("p.Leu5Val,rpoB,missense,locus123", GeneSubstitutionLocus) ==
      Parsed(Annotation("p.Leu5Val", "rpoB", "locus123", "missense"))
  {
    ExampleFieldsPlain();
    ParseJoinedFields("p.Leu5Val", "rpoB", "missense", "locus123", GeneSubstitutionLocus);
    JoinFour("p.Leu5Val", "rpoB", "missense", "locus123");
    ExampleCellV4Text();
  }

  /** A cell without a comma names the mutation only. */
  lemma {:induction false} ExampleCellWithoutComma(order: FieldOrder)
    ensures ParseCell("unclassified", order) ==
      Parsed(Annotation("unclassified", NotAnnotated, NotAnnotated, NotAnnotated))
  {
    assert PlainField("unclassified");
  }
}
