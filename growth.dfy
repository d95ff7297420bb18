/** The growth-rate tab and the segment-detail tab of app.py: each
    segment's revenue divided by its revenue in its earliest selected
    period, and, in the detail view, the change over the previous period in
    percent. Ratios are exact reals; the rounding of the source is not
    part of this model. */
module Growth {
  import opened Seqs
  import opened QuarterKey
  import opened Loader
  import opened Periods

  /** The catch-all segment, left out of the growth comparison. */
  const OTHER: Segment := Named("その他")

  /** Every row carries an operating-revenue amount. */
  predicate HasRevenue(rows: seq<Row>) {
    forall r :: r in rows ==> Revenue in r.amounts
  }

  /** A file with a revenue column gives revenue to every row of every
      period selection. */
  lemma SelectionHasRevenue(raw: Frame, selected: seq<Value>)
    requires raw.WellFormed() && Revenue in raw.measures
    ensures HasRevenue(RowsInPeriods(LoadedTable(raw), selected))
  {
    forall r | r in RowsInPeriods(LoadedTable(raw), selected) ensures Revenue in r.amounts {
      RowsInPeriodsSpec(LoadedTable(raw), selected);
      LoadedOnlyQuarterly(raw, r);
    }
  }

  function RevenueOf(r: Row): real
    requires Revenue in r.amounts
  {
    r.amounts[Revenue]
  }

  function Segments(rows: seq<Row>): (segs: seq<Segment>)
    ensures |segs| == |rows|
    ensures forall i :: 0 <= i < |rows| ==> segs[i] == rows[i].segment
  {
    seq(|rows|, i requires 0 <= i < |rows| => rows[i].segment)
  }

  /** `df_filtered['セグメント'].unique()` without the catch-all segment. */
  function GrowthSegments(rows: seq<Row>): (segs: seq<Segment>)
    ensures forall i :: 0 <= i < |segs| ==> segs[i] != OTHER
    ensures |segs| <= |rows|
  {
    var segs := Filter(Unique(Segments(rows)), (s: Segment) => s != OTHER);
    assert forall i :: 0 <= i < |segs| ==> segs[i] in segs;
    segs
  }

  /** Each segment once, every segment of the rows but the catch-all. */
  lemma GrowthSegmentsSpec(rows: seq<Row>)
    ensures Distinct(GrowthSegments(rows))
    ensures forall s :: s in GrowthSegments(rows) <==> s != OTHER && s in Segments(rows)
  {
    FilterDistinct(Unique(Segments(rows)), (s: Segment) => s != OTHER);
  }

  /** `sort_values('ソートキー')`: rows compare by their period's key. */
  predicate KeyOrder(a: Row, b: Row) {
    KeyLe(a.key, b.key)
  }

  /** `df['セグメント'] == segment` on one cell: a blank (NaN) segment
      equals nothing, not even itself. */
  predicate SameSegment(cell: Segment, seg: Segment)
    ensures cell.Blank? ==> !SameSegment(cell, seg)
    ensures SameSegment(cell, seg) ==> cell == seg
  {
    seg.Named? && cell == seg
  }

  /** One segment's rows in period order. */
  function SegmentRows(rows: seq<Row>, seg: Segment): (sr: seq<Row>)
    ensures forall r :: r in sr ==> r in rows
  {
    var f := Filter(rows, (r: Row) => SameSegment(r.segment, seg));
    var sr := SortBy(f, KeyOrder);
    assert forall r :: r in sr ==> r in multiset(f);
    sr
  }

  /** The segment's rows are exactly the rows of that segment, in key order. */
  lemma SegmentRowsSpec(rows: seq<Row>, seg: Segment)
    ensures forall r :: r in SegmentRows(rows, seg) <==> r in rows && r.segment == seg && seg.Named?
    ensures forall r :: multiset(SegmentRows(rows, seg))[r]
                        == if r.segment == seg && seg.Named? then multiset(rows)[r] else 0
    ensures SortedBy(SegmentRows(rows, seg), KeyOrder)
    ensures HasRevenue(rows) ==> HasRevenue(SegmentRows(rows, seg))
  {
    var f := Filter(rows, (r: Row) => SameSegment(r.segment, seg));
    forall r ensures r in SegmentRows(rows, seg) <==> r in f {
      assert r in SegmentRows(rows, seg) <==> r in multiset(f);
    }
    forall r ensures multiset(SegmentRows(rows, seg))[r]
                     == if r.segment == seg && seg.Named? then multiset(rows)[r] else 0 {
      FilterCount(rows, (r: Row) => SameSegment(r.segment, seg), r);
    }
    SortBySorted(f, KeyOrder);
  }

  /** On a table already ordered by (segment, key), as the loaded table is,
      sorting one segment's rows by key leaves them in table order. */
  lemma SegmentRowsKeepTableOrder(rows: seq<Row>, seg: Segment)
    requires SortedBy(rows, RowLe)
    ensures SegmentRows(rows, seg) == Filter(rows, (r: Row) => SameSegment(r.segment, seg))
  {
    var f := Filter(rows, (r: Row) => SameSegment(r.segment, seg));
    FilterSorted(rows, (r: Row) => SameSegment(r.segment, seg), RowLe);
    assert SortedBy(f, KeyOrder) by {
      forall i, j | 0 <= i < j < |f| ensures KeyOrder(f[i], f[j]) {
        assert f[i] in f && f[j] in f;
        assert RowLe(f[i], f[j]);
      }
    }
    SortBySortedUnchanged(f, KeyOrder);
  }

  /** The base row is the earliest of the segment: no row of the segment has
      a smaller sort key. */
  lemma BaseRowIsEarliest(rows: seq<Row>, seg: Segment, r: Row)
    requires r in rows && r.segment == seg && seg.Named?
    ensures SegmentRows(rows, seg) != []
    ensures KeyLe(SegmentRows(rows, seg)[0].key, r.key)
  {
    var sr := SegmentRows(rows, seg);
    SegmentRowsSpec(rows, seg);
    var k :| 0 <= k < |sr| && sr[k] == r;
    if 0 < k {
      assert KeyOrder(sr[0], sr[k]);
    }
  }

  // ---------------------------------------------------------- growth table

  /** A row of the growth table: the selected row and its revenue ratio
      against the base period. */
  datatype GrowthRow = GrowthRow(row: Row, ratio: real)

  /** `seg_data['営業収益'] / base_value` as a new column. */
  function WithRatios(seg: seq<Row>, base: real): (gs: seq<GrowthRow>)
    requires base > 0.0 && HasRevenue(seg)
    ensures |gs| == |seg|
    ensures forall i :: 0 <= i < |seg| ==> gs[i].row == seg[i]
  {
    seq(|seg|, i requires 0 <= i < |seg| => GrowthRow(seg[i], RevenueOf(seg[i]) / base))
  }

  /** The base revenue is positive: the segment has rows and the earliest
      one earned more than 0. */
  predicate BasePositive(rows: seq<Row>, seg: Segment)
    requires HasRevenue(rows)
  {
    var sr := SegmentRows(rows, seg);
    sr != [] && RevenueOf(sr[0]) > 0.0
  }

  /** The base revenue of a segment whose rows are not empty. */
  function Base(rows: seq<Row>, seg: Segment): real
    requires HasRevenue(rows) && SegmentRows(rows, seg) != []
  {
    RevenueOf(SegmentRows(rows, seg)[0])
  }

  /** What one pass of the growth loop appends for a segment. */
  function SegmentGrowth(rows: seq<Row>, seg: Segment): (gs: seq<GrowthRow>)
    requires HasRevenue(rows)
    ensures gs == [] || |gs| == |SegmentRows(rows, seg)|
  {
    var sr := SegmentRows(rows, seg);
    if sr != [] && RevenueOf(sr[0]) > 0.0 then WithRatios(sr, RevenueOf(sr[0])) else []
  }

  /** The concatenation of the growth rows of the given segments, in order. */
  function GrowthOver(rows: seq<Row>, segs: seq<Segment>): (gs: seq<GrowthRow>)
    requires HasRevenue(rows)
  {
    if segs == [] then []
    else GrowthOver(rows, segs[..|segs| - 1]) + SegmentGrowth(rows, segs[|segs| - 1])
  }

  /** The growth table: only rows of the selection, in segment order. */
  function GrowthTable(rows: seq<Row>): (gs: seq<GrowthRow>)
    requires HasRevenue(rows)
    ensures forall i :: 0 <= i < |gs| ==> gs[i].row in rows
  {
    var segs := GrowthSegments(rows);
    var gs := GrowthOver(rows, segs);
    assert forall i :: 0 <= i < |gs| ==> gs[i].row in rows by {
      forall i | 0 <= i < |gs| ensures gs[i].row in rows {
        assert RowsIn(gs)[i] == gs[i].row;
        GrowthOverRow(rows, segs, gs[i].row);
      }
    }
    gs
  }

  /** The growth loop: for every segment but the catch-all, its rows in key
      order; when its base revenue is positive they are appended with their
      ratios, otherwise the segment is skipped. */
  method BuildGrowthTable(rows: seq<Row>) returns (growth: seq<GrowthRow>)
    requires HasRevenue(rows)
    ensures growth == GrowthTable(rows)
  {
    var segs := GrowthSegments(rows);
    growth := [];
    for i := 0 to |segs|
      invariant growth == GrowthOver(rows, segs[..i])
    {
      GrowthOverStep(rows, segs, i);
      var segData := SegmentRows(rows, segs[i]);
      if segData != [] {
        var base := RevenueOf(segData[0]);
        if base > 0.0 {
          growth := growth + WithRatios(segData, base);
        }
      }
    }
    assert segs[..|segs|] == segs;
  }

  lemma GrowthOverStep(rows: seq<Row>, segs: seq<Segment>, i: nat)
    requires HasRevenue(rows) && i < |segs|
    ensures GrowthOver(rows, segs[..i + 1]) == GrowthOver(rows, segs[..i]) + SegmentGrowth(rows, segs[i])
  {
    assert segs[..i + 1][..i] == segs[..i];
  }

  /** An entry of the table is well rated: its segment's base revenue is
      positive and its ratio is its revenue over that base. */
  predicate WellRated(rows: seq<Row>, g: GrowthRow)
    requires HasRevenue(rows)
  {
    && BasePositive(rows, g.row.segment)
    && Revenue in g.row.amounts
    && g.ratio == RevenueOf(g.row) / Base(rows, g.row.segment)
  }

  function RowsIn(gs: seq<GrowthRow>): (rs: seq<Row>)
    ensures |rs| == |gs|
    ensures forall i :: 0 <= i < |gs| ==> rs[i] == gs[i].row
  {
    seq(|gs|, i requires 0 <= i < |gs| => gs[i].row)
  }

  lemma RowsInAppend(a: seq<GrowthRow>, b: seq<GrowthRow>, r: Row)
    ensures r in RowsIn(a + b) <==> r in RowsIn(a) || r in RowsIn(b)
  {
    assert RowsIn(a + b) == RowsIn(a) + RowsIn(b);
  }

  lemma LastSplit(segs: seq<Segment>, s: Segment)
    requires segs != []
    ensures s in segs <==> s in segs[..|segs| - 1] || s == segs[|segs| - 1]
  {
    assert segs == segs[..|segs| - 1] + [segs[|segs| - 1]];
  }

  /** A segment contributes nothing exactly when its base revenue is not
      positive, and otherwise every one of its rows. */
  lemma SegmentGrowthRow(rows: seq<Row>, seg: Segment, r: Row)
    requires HasRevenue(rows)
    ensures SegmentGrowth(rows, seg) == [] <==> !BasePositive(rows, seg)
    ensures r in RowsIn(SegmentGrowth(rows, seg))
        <==> r in rows && r.segment == seg && BasePositive(rows, seg)
  {
    if BasePositive(rows, seg) {
      var sr := SegmentRows(rows, seg);
      var gs := WithRatios(sr, Base(rows, seg));
      assert SegmentGrowth(rows, seg) == gs;
      assert RowsIn(gs) == sr;
      SegmentRowsSpec(rows, seg);
      assert seg.Named? by { assert sr[0] in sr; }
    }
  }

  /** Each contributed entry is well rated. */
  lemma SegmentGrowthRated(rows: seq<Row>, seg: Segment, g: GrowthRow)
    requires HasRevenue(rows) && g in SegmentGrowth(rows, seg)
    ensures g.row.segment == seg && WellRated(rows, g)
  {
    assert BasePositive(rows, seg);
    var sr, base := SegmentRows(rows, seg), Base(rows, seg);
    assert g in WithRatios(sr, base);
    WithRatiosEntry(sr, base, g);
    assert g.row.segment == seg by { SegmentRowsSpec(rows, seg); }
  }

  lemma WithRatiosEntry(sr: seq<Row>, base: real, g: GrowthRow)
    requires base > 0.0 && HasRevenue(sr) && g in WithRatios(sr, base)
    ensures g.row in sr && Revenue in g.row.amounts
    ensures g.ratio == RevenueOf(g.row) / base
  {
    var gs := WithRatios(sr, base);
    var k :| 0 <= k < |gs| && gs[k] == g;
    assert g == GrowthRow(sr[k], RevenueOf(sr[k]) / base);
  }

  lemma RatioTimesBase(ratio: real, base: real, revenue: real)
    requires base > 0.0 && ratio == revenue / base
    ensures ratio * base == revenue
  {
  }

  lemma {:induction false} GrowthOverRow(rows: seq<Row>, segs: seq<Segment>, r: Row)
    requires HasRevenue(rows)
    ensures r in RowsIn(GrowthOver(rows, segs))
        <==> r in rows && r.segment in segs && BasePositive(rows, r.segment)
    decreases |segs|
  {
    if segs != [] {
      var init, last := segs[..|segs| - 1], segs[|segs| - 1];
      var a, b := GrowthOver(rows, init), SegmentGrowth(rows, last);
      assert GrowthOver(rows, segs) == a + b;
      LastSplit(segs, r.segment);
      RowsInAppend(a, b, r);
      GrowthOverRow(rows, init, r);
      SegmentGrowthRow(rows, last, r);
    }
  }

  lemma {:induction false} GrowthOverRated(rows: seq<Row>, segs: seq<Segment>, g: GrowthRow)
    requires HasRevenue(rows) && g in GrowthOver(rows, segs)
    ensures g.row.segment in segs && WellRated(rows, g)
    decreases |segs|
  {
    var init, last := segs[..|segs| - 1], segs[|segs| - 1];
    var a, b := GrowthOver(rows, init), SegmentGrowth(rows, last);
    assert GrowthOver(rows, segs) == a + b;
    LastSplit(segs, g.row.segment);
    if g in a {
      GrowthOverRated(rows, init, g);
    } else {
      SegmentGrowthRated(rows, last, g);
    }
  }

  /** The table holds exactly the rows of the segments other than the
      catch-all whose base revenue is positive. */
  lemma GrowthTableRows(rows: seq<Row>, r: Row)
    requires HasRevenue(rows)
    ensures r in RowsIn(GrowthTable(rows))
        <==> r in rows && r.segment != OTHER && BasePositive(rows, r.segment)
  {
    GrowthOverRow(rows, GrowthSegments(rows), r);
    GrowthSegmentsSpec(rows);
    if r in rows {
      var k :| 0 <= k < |rows| && rows[k] == r;
      assert Segments(rows)[k] == r.segment;
    }
  }

  /** The catch-all segment never appears in the growth table. */
  lemma GrowthExcludesOther(rows: seq<Row>, g: GrowthRow)
    requires HasRevenue(rows) && g in GrowthTable(rows)
    ensures g.row.segment != OTHER
  {
    GrowthOverRated(rows, GrowthSegments(rows), g);
    GrowthSegmentsSpec(rows);
  }

  /** Every ratio of the table is the row's revenue over its segment's
      base revenue, and the base row itself has ratio 1. */
  lemma GrowthRatios(rows: seq<Row>, g: GrowthRow)
    requires HasRevenue(rows) && g in GrowthTable(rows)
    ensures BasePositive(rows, g.row.segment) && Revenue in g.row.amounts
    ensures g.ratio * Base(rows, g.row.segment) == RevenueOf(g.row)
    ensures g.row == SegmentRows(rows, g.row.segment)[0] ==> g.ratio == 1.0
  {
    GrowthOverRated(rows, GrowthSegments(rows), g);
    RatedRatio(rows, g);
  }

  /** A well-rated ratio times the base is the revenue, and the ratio of
      the base row itself is 1. */
  lemma RatedRatio(rows: seq<Row>, g: GrowthRow)
    requires HasRevenue(rows) && WellRated(rows, g)
    ensures g.ratio * Base(rows, g.row.segment) == RevenueOf(g.row)
    ensures g.row == SegmentRows(rows, g.row.segment)[0] ==> g.ratio == 1.0
  {
    var base := Base(rows, g.row.segment);
    RatioTimesBase(g.ratio, base, RevenueOf(g.row));
    if g.row == SegmentRows(rows, g.row.segment)[0] {
      RatioOfBase(g.ratio, base, RevenueOf(g.row));
    }
  }

  lemma RatioOfBase(ratio: real, base: real, revenue: real)
    requires base > 0.0 && ratio == revenue / base && revenue == base
    ensures ratio == 1.0
  {
  }

  // ----------------------------------------------------------- detail view

  /** A float64 value as pandas can produce it here. */
  datatype Float = Finite(v: real) | PosInf | NegInf | NaN

  /** `(cur / prev - 1) * 100` in floating point: a zero previous value
      gives an infinity of the current value's sign, or NaN for 0 / 0; a
      missing previous value (NaN) gives NaN. */
  function Change(cur: real, prev: Float): (c: Float)
    ensures prev.NaN? ==> c.NaN?
    ensures prev == Finite(0.0) ==> !c.Finite? && (c.NaN? <==> cur == 0.0)
  {
    match prev
    case NaN => NaN
    case PosInf => Finite(-100.0)
    case NegInf => Finite(-100.0)
    case Finite(p) =>
      if p != 0.0 then Finite((cur / p - 1.0) * 100.0)
      else if cur > 0.0 then PosInf
      else if cur < 0.0 then NegInf
      else NaN
  }

  /** `shift(1)`: the previous row's value, missing (NaN) for the first. */
  function Shifted(values: seq<real>, i: nat): (prev: Float)
    requires i < |values|
    ensures prev == NaN <==> i == 0
    ensures 0 < i ==> prev == Finite(values[i - 1])
  {
    if i == 0 then NaN else Finite(values[i - 1])
  }

  function Revenues(seg: seq<Row>): (revs: seq<real>)
    requires HasRevenue(seg)
    ensures |revs| == |seg|
    ensures forall i :: 0 <= i < |seg| ==> revs[i] == RevenueOf(seg[i])
  {
    seq(|seg|, i requires 0 <= i < |seg| => RevenueOf(seg[i]))
  }

  /** The growth ratio column of the detail view: revenue over the first
      revenue when that is positive, 0 throughout otherwise. */
  function DetailRatios(revs: seq<real>): (ratios: seq<real>)
    requires revs != []
    ensures |ratios| == |revs|
    ensures revs[0] > 0.0 ==> ratios[0] == 1.0
    ensures revs[0] > 0.0 ==> forall i :: 0 <= i < |revs| ==> ratios[i] * revs[0] == revs[i]
    ensures revs[0] <= 0.0 ==> forall i :: 0 <= i < |revs| ==> ratios[i] == 0.0
  {
    var base := revs[0];
    var ratios := seq(|revs|, i requires 0 <= i < |revs| => if base > 0.0 then revs[i] / base else 0.0);
    assert base > 0.0 ==> forall i :: 0 <= i < |revs| ==> ratios[i] * base == revs[i] by {
      if base > 0.0 {
        forall i | 0 <= i < |revs| ensures ratios[i] * base == revs[i] {
          RatioTimesBase(ratios[i], base, revs[i]);
        }
      }
    }
    ratios
  }

  /** `(revenue / revenue.shift(1) - 1) * 100` over the whole column. */
  function ShiftedChanges(revs: seq<real>): (changes: seq<Float>)
    ensures |changes| == |revs|
    ensures revs != [] ==> changes[0] == NaN
  {
    seq(|revs|, i requires 0 <= i < |revs| => Change(revs[i], Shifted(revs, i)))
  }

  /** The period-over-period column: the shifted changes with the first
      row set to NaN. */
  function DetailChanges(revs: seq<real>): (changes: seq<Float>)
    requires revs != []
    ensures |changes| == |revs| && changes[0] == NaN
  {
    ShiftedChanges(revs)[0 := NaN]
  }

  /** A row of the detail table. */
  datatype DetailRow = DetailRow(row: Row, ratio: real, change: Float)

  function Zip(seg: seq<Row>, ratios: seq<real>, changes: seq<Float>): (d: seq<DetailRow>)
    requires |ratios| == |seg| && |changes| == |seg|
    ensures |d| == |seg|
  {
    seq(|seg|, i requires 0 <= i < |seg| => DetailRow(seg[i], ratios[i], changes[i]))
  }

  /** The detail table of the selected segment. */
  function DetailView(rows: seq<Row>, seg: Segment): (d: seq<DetailRow>)
    requires HasRevenue(rows)
    ensures |d| == |SegmentRows(rows, seg)|
  {
    var sr := SegmentRows(rows, seg);
    if sr == [] then []
    else
      var revs := Revenues(sr);
      Zip(sr, DetailRatios(revs), DetailChanges(revs))
  }

  /** The ratio column of the detail tab: revenue over the base revenue,
      or the scalar 0 in every row when the base is not positive. */
  method RatioColumn(revs: seq<real>) returns (ratios: seq<real>)
    requires revs != []
    ensures ratios == DetailRatios(revs)
  {
    var n := |revs|;
    var ratio := new real[n];
    var baseRevenue := revs[0];
    if baseRevenue > 0.0 {
      for i := 0 to n
        invariant forall j :: 0 <= j < i ==> ratio[j] == revs[j] / baseRevenue
      {
        ratio[i] := revs[i] / baseRevenue;
      }
    } else {
      for i := 0 to n
        invariant forall j :: 0 <= j < i ==> ratio[j] == 0.0
      {
        ratio[i] := 0.0;
      }
    }
    ratios := ratio[..];
  }

  /** The change column of the detail tab: computed from the shifted
      revenues, then the first row overwritten with NaN. */
  method ChangeColumn(revs: seq<real>) returns (changes: seq<Float>)
    requires revs != []
    ensures changes == DetailChanges(revs)
  {
    var n := |revs|;
    var change := new Float[n];
    for i := 0 to n
      invariant forall j :: 0 <= j < i ==> change[j] == ShiftedChanges(revs)[j]
    {
      change[i] := Change(revs[i], Shifted(revs, i));
    }
    change[0] := NaN;
    changes := change[..];
  }

  /** The detail tab: the selected segment's rows in key order with the two
      computed columns. */
  method SegmentDetail(rows: seq<Row>, seg: Segment) returns (detail: seq<DetailRow>)
    requires HasRevenue(rows)
    ensures detail == DetailView(rows, seg)
  {
    var segDetail := SegmentRows(rows, seg);
    if segDetail == [] {
      return [];
    }
    var revs := Revenues(segDetail);
    var ratios := RatioColumn(revs);
    var changes := ChangeColumn(revs);
    detail := Zip(segDetail, ratios, changes);
  }

  /** The first change is undefined; each later one, from a non-zero
      previous revenue, is the percentage that takes the previous revenue
      to the current one; from a zero one it is infinite or undefined. */
  lemma DetailChangesSpec(revs: seq<real>, i: nat)
    requires 0 < |revs| && i < |revs|
    ensures i == 0 ==> DetailChanges(revs)[i] == NaN
    ensures 0 < i && revs[i - 1] != 0.0 ==>
      DetailChanges(revs)[i].Finite? && revs[i - 1] * (1.0 + DetailChanges(revs)[i].v / 100.0) == revs[i]
    ensures 0 < i && revs[i - 1] == 0.0 ==> !DetailChanges(revs)[i].Finite?
  {
    if 0 < i && revs[i - 1] != 0.0 {
      var p, c := revs[i - 1], revs[i];
      var v := (c / p - 1.0) * 100.0;
      assert 1.0 + v / 100.0 == c / p;
    }
  }

  /** The detail table lists the segment's rows in key order, with the
      ratio and change columns above. */
  lemma DetailViewSpec(rows: seq<Row>, seg: Segment)
    requires HasRevenue(rows)
    ensures |DetailView(rows, seg)| == |SegmentRows(rows, seg)|
    ensures forall i :: 0 <= i < |DetailView(rows, seg)| ==>
      DetailView(rows, seg)[i].row == SegmentRows(rows, seg)[i]
    ensures SegmentRows(rows, seg) != [] ==>
      var d, base := DetailView(rows, seg), Base(rows, seg);
      && d[0].change == NaN
      && (base > 0.0 ==> d[0].ratio == 1.0)
      && (base <= 0.0 ==> forall i :: 0 <= i < |d| ==> d[i].ratio == 0.0)
  {
    var sr := SegmentRows(rows, seg);
    if sr != [] {
      var revs := Revenues(sr);
      assert DetailView(rows, seg) == Zip(sr, DetailRatios(revs), DetailChanges(revs));
      assert Base(rows, seg) == revs[0];
    }
  }

  /** pandas' shift(1) already leaves the first change missing, so the
      explicit overwrite of the first row changes nothing. */
  lemma FirstRowOverwriteRedundant(revs: seq<real>)
    requires revs != []
    ensures DetailChanges(revs) == ShiftedChanges(revs)
  {
    assert ShiftedChanges(revs)[0] == NaN;
  }

  /** A blank (NaN) segment equals no cell, so it has no rows: the growth
      loop skips it, no row of it reaches the growth table, and its detail
      view is empty. */
  lemma BlankSegmentSkipped(rows: seq<Row>, r: Row)
    requires HasRevenue(rows)
    ensures SegmentRows(rows, Blank) == []
    ensures !BasePositive(rows, Blank) && DetailView(rows, Blank) == []
    ensures r.segment == Blank ==> r !in RowsIn(GrowthTable(rows))
  {
    assert SegmentRows(rows, Blank) == [] by { SegmentRowsSpec(rows, Blank); }
    assert r.segment == Blank ==> r !in RowsIn(GrowthTable(rows)) by { GrowthTableRows(rows, r); }
  }

  /** Worked example: revenues 100, 150, 300 give ratios 1, 1.5, 3 and
      changes undefined, +50 %, +100 %. */
  lemma DetailExample()
    ensures DetailRatios([100.0, 150.0, 300.0]) == [1.0, 1.5, 3.0]
    ensures DetailChanges([100.0, 150.0, 300.0]) == [NaN, Finite(50.0), Finite(100.0)]
  {
    var revs := [100.0, 150.0, 300.0];
    assert DetailRatios(revs)[1] == 1.5;
    assert DetailChanges(revs)[1] == Finite(50.0);
    assert DetailChanges(revs)[2] == Finite(100.0);
  }
}
