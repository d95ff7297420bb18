/** The in-memory part of load_segment_data in app.py: keep the quarterly
    statements, convert the amount columns, attach the period sort key and
    order the rows by (segment, sort key). */
module Loader {
  import opened Text
  import opened Seqs
  import opened QuarterKey
  import opened Numeric

  /** The statement types that make a row quarterly. */
  const QUARTERLY: set<string> := {"Q1", "Q2", "Q3", "Q4"}

  /** The amount columns the loader converts: operating revenue, operating
      profit and capital expenditure. */
  datatype NumericField = Revenue | Profit | Capex

  const NUMERIC_FIELDS: seq<NumericField> := [Revenue, Profit, Capex]

  /** A segment cell: a name, or the NaN pandas reads for a blank cell. */
  datatype Segment = Named(name: string) | Blank

  /** The table as read from the CSV file, column by column: statement type,
      fiscal period, segment, and whichever amount columns the file has. */
  datatype Frame = Frame(
    kind: seq<Value>,
    period: seq<Value>,
    segment: seq<Segment>,
    measures: map<NumericField, Column>)
  {
    /** Every column has one entry per row. */
    predicate WellFormed() {
      && |period| == |kind|
      && |segment| == |kind|
      && forall f :: f in measures ==> measures[f].Length() == |kind|
    }

    function Height(): nat {
      |kind|
    }
  }

  /** One loaded row: the frame's columns at one position, the amounts as
      numbers, and the sort key computed from the period. */
  datatype Row = Row(
    kind: Value,
    period: Value,
    segment: Segment,
    amounts: map<NumericField, real>,
    key: SortKey)

  /** `isin(['Q1', 'Q2', 'Q3', 'Q4'])` on one cell: only a str can match. */
  predicate IsQuarterly(v: Value)
    ensures IsQuarterly(v) ==> v.Str? && |v.s| == 2 && v.s[0] == 'Q'
  {
    v.Str? && v.s in QUARTERLY
  }

  function QuarterlyMask(kind: seq<Value>): (mask: seq<bool>)
    ensures |mask| == |kind|
  {
    seq(|kind|, i requires 0 <= i < |kind| => IsQuarterly(kind[i]))
  }

  /** The positions of the quarterly rows, in file order. */
  function QuarterlyIndices(f: Frame): (idx: seq<nat>)
    ensures forall j :: 0 <= j < |idx| ==> idx[j] < f.Height() && IsQuarterly(f.kind[idx[j]])
    ensures forall i :: 0 <= i < f.Height() && IsQuarterly(f.kind[i]) ==> i in idx
    ensures forall j, j' :: 0 <= j < j' < |idx| ==> idx[j] < idx[j']
  {
    KeptIndices(QuarterlyMask(f.kind))
  }

  function PickColumn(c: Column, idx: seq<nat>): (r: Column)
    requires forall j :: 0 <= j < |idx| ==> idx[j] < c.Length()
    ensures r.Length() == |idx| && r.TextCells? == c.TextCells?
  {
    match c
    case TextCells(cells) =>
      assert c.Length() == |cells|;
      TextCells(Pick(cells, idx))
    case Numbers(values) =>
      assert c.Length() == |values|;
      Numbers(Pick(values, idx))
  }

  /** `df[df['決算種別'].isin(...)].reset_index(drop=True)`: the quarterly
      rows of every column, in file order. */
  function Filtered(f: Frame): (r: Frame)
    requires f.WellFormed()
    ensures r.WellFormed() && r.measures.Keys == f.measures.Keys
  {
    var idx := QuarterlyIndices(f);
    Frame(Pick(f.kind, idx), Pick(f.period, idx), Pick(f.segment, idx),
          map g | g in f.measures :: PickColumn(f.measures[g], idx))
  }

  /** Every amount column after convert_to_numeric. */
  function Converted(f: Frame): (r: Frame)
    requires f.WellFormed()
    ensures r.WellFormed() && r.measures.Keys == f.measures.Keys
    ensures forall g :: g in r.measures ==> r.measures[g].Numbers?
  {
    f.(measures := map g | g in f.measures :: Numbers(ConvertToNumeric(f.measures[g])))
  }

  /** The rows of a converted frame, each with its period's sort key. */
  function RowsOf(f: Frame): (rows: seq<Row>)
    requires f.WellFormed()
    requires forall g :: g in f.measures ==> f.measures[g].Numbers?
    ensures |rows| == f.Height()
    ensures forall i :: 0 <= i < |rows| ==> rows[i].key == SortQuarterKey(rows[i].period)
  {
    seq(f.Height(), i requires 0 <= i < f.Height() =>
      Row(f.kind[i], f.period[i], f.segment[i],
          map g | g in f.measures :: f.measures[g].values[i],
          SortQuarterKey(f.period[i])))
  }

  /** Every row of the file, converted and keyed, before any filtering. */
  function AllRows(raw: Frame): seq<Row>
    requires raw.WellFormed()
  {
    RowsOf(Converted(raw))
  }

  /** The quarterly rows, converted and keyed, in file order. */
  function PreparedRows(raw: Frame): seq<Row>
    requires raw.WellFormed()
  {
    RowsOf(Converted(Filtered(raw)))
  }

  /** The segment column's order in `sort_values`: names in code-point
      order, and a blank (NaN) segment after every name
      (na_position='last'). */
  predicate SegmentLe(a: Segment, b: Segment)
    ensures a.Blank? ==> (SegmentLe(a, b) <==> b.Blank?)
    ensures a == b ==> SegmentLe(a, b)
  {
    match (a, b)
    case (Named(x), Named(y)) => StrLe(x, y)
    case (Named(_), Blank) => true
    case (Blank, Named(_)) => false
    case (Blank, Blank) => true
  }

  /** `sort_values(['セグメント', 'ソートキー'])`: by segment, then by
      (year, quarter). */
  predicate RowLe(a: Row, b: Row)
    ensures RowLe(a, b) ==> SegmentLe(a.segment, b.segment)
  {
    if a.segment == b.segment then KeyLe(a.key, b.key) else SegmentLe(a.segment, b.segment)
  }

  /** What load_segment_data returns. */
  function LoadedTable(raw: Frame): (table: seq<Row>)
    requires raw.WellFormed()
    ensures multiset(table) == multiset(PreparedRows(raw))
  {
    SortBy(PreparedRows(raw), RowLe)
  }

  /** load_segment_data after the file is read: filter, convert each amount
      column in turn, attach the keys and sort. */
  method LoadSegmentData(raw: Frame) returns (table: seq<Row>)
    requires raw.WellFormed()
    ensures table == LoadedTable(raw)
    ensures SortedBy(table, RowLe)
    ensures multiset(table) == multiset(PreparedRows(raw))
  {
    var df := Filtered(raw);
    var measures := df.measures;
    for i := 0 to |NUMERIC_FIELDS|
      invariant measures.Keys == df.measures.Keys
      invariant forall g :: g in measures ==>
        measures[g] == if g in NUMERIC_FIELDS[..i]
                       then Numbers(ConvertToNumeric(df.measures[g]))
                       else df.measures[g]
    {
      var col := NUMERIC_FIELDS[i];
      assert NUMERIC_FIELDS[..i + 1] == NUMERIC_FIELDS[..i] + [col];
      if col in measures {
        measures := measures[col := Numbers(ConvertToNumeric(measures[col]))];
      }
    }
    forall g: NumericField ensures g in NUMERIC_FIELDS[..|NUMERIC_FIELDS|] {
      assert NUMERIC_FIELDS[..|NUMERIC_FIELDS|] == NUMERIC_FIELDS;
      match g
      case Revenue => assert NUMERIC_FIELDS[0] == g;
      case Profit => assert NUMERIC_FIELDS[1] == g;
      case Capex => assert NUMERIC_FIELDS[2] == g;
    }
    df := df.(measures := measures);
    assert df == Converted(Filtered(raw));
    table := SortBy(RowsOf(df), RowLe);
    LoadedTableSorted(raw);
  }

  // ------------------------------------------------------------ ordering

  /** The row order compares any two rows and chains. */
  lemma RowLeTotalPreorder()
    ensures TotalPreorder(RowLe)
  {
    forall a: Row, b: Row ensures RowLe(a, b) || RowLe(b, a) {
      if a.segment.Named? && b.segment.Named? {
        StrLeTotal(a.segment.name, b.segment.name);
      }
    }
    forall a: Row, b: Row, c: Row | RowLe(a, b) && RowLe(b, c) ensures RowLe(a, c) {
      RowLeTransitive(a, b, c);
    }
  }

  lemma RowLeTransitive(a: Row, b: Row, c: Row)
    requires RowLe(a, b) && RowLe(b, c)
    ensures RowLe(a, c)
  {
    var x, y, z := a.segment, b.segment, c.segment;
    if x != y && y != z && x.Named? && y.Named? && z.Named? {
      StrLeTransitive(x.name, y.name, z.name);
      if x == z {
        StrLeAntisymmetric(x.name, y.name);
      }
    }
  }

  // ---------------------------------------------------------- properties

  /** The loaded table is ordered by (segment, sort key) and holds exactly
      the quarterly rows. */
  lemma LoadedTableSorted(raw: Frame)
    requires raw.WellFormed()
    ensures SortedBy(LoadedTable(raw), RowLe)
    ensures multiset(LoadedTable(raw)) == multiset(PreparedRows(raw))
  {
    RowLeTotalPreorder();
    SortBySorted(PreparedRows(raw), RowLe);
  }

  /** Rows tied on (segment, sort key) keep their file order. */
  lemma LoadedTableStable(raw: Frame, k: Row)
    requires raw.WellFormed()
    ensures Ties(LoadedTable(raw), k, RowLe) == Ties(PreparedRows(raw), k, RowLe)
  {
    RowLeTotalPreorder();
    SortByStable(PreparedRows(raw), k, RowLe);
  }

  /** Filtering before converting gives the converted rows at the
      quarterly positions: the conversion works cell by cell. */
  lemma PreparedRowsArePicked(raw: Frame)
    requires raw.WellFormed()
    ensures PreparedRows(raw) == Pick(AllRows(raw), QuarterlyIndices(raw))
  {
    var idx := QuarterlyIndices(raw);
    var all := AllRows(raw);
    var prepared := PreparedRows(raw);
    var c, fc := Converted(raw), Converted(Filtered(raw));
    forall j | 0 <= j < |idx| ensures prepared[j] == all[idx[j]] {
      forall g | g in raw.measures
        ensures fc.measures[g].values[j] == c.measures[g].values[idx[j]]
      {
        var col := raw.measures[g];
        match col
        case TextCells(cells) =>
          assert PickColumn(col, idx) == TextCells(Pick(cells, idx));
        case Numbers(values) =>
          assert PickColumn(col, idx) == Numbers(Pick(values, idx));
      }
      assert prepared[j].amounts == all[idx[j]].amounts;
    }
  }

  /** Every row of the loaded table is a quarterly statement, keyed by its
      own period, with an amount for every amount column of the file. */
  lemma LoadedOnlyQuarterly(raw: Frame, r: Row)
    requires raw.WellFormed() && r in LoadedTable(raw)
    ensures IsQuarterly(r.kind)
    ensures r.key == SortQuarterKey(r.period)
    ensures r.amounts.Keys == raw.measures.Keys
  {
    var prepared := PreparedRows(raw);
    LoadedTableSorted(raw);
    assert r in multiset(prepared);
    PreparedRowsArePicked(raw);
    var j :| 0 <= j < |prepared| && prepared[j] == r;
    var idx := QuarterlyIndices(raw);
    assert r == AllRows(raw)[idx[j]];
  }

  /** No quarterly statement of the file is dropped. */
  lemma LoadedKeepsQuarterly(raw: Frame, i: nat)
    requires raw.WellFormed() && i < raw.Height() && IsQuarterly(raw.kind[i])
    ensures AllRows(raw)[i] in LoadedTable(raw)
  {
    var idx := QuarterlyIndices(raw);
    var j :| 0 <= j < |idx| && idx[j] == i;
    PreparedRowsArePicked(raw);
    var prepared := PreparedRows(raw);
    assert prepared[j] == AllRows(raw)[i];
    LoadedTableSorted(raw);
    assert prepared[j] in multiset(LoadedTable(raw));
  }
}
