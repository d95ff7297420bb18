/** The analysis-period selection of app.py: the distinct fiscal periods
    sorted by their sort key, a start and an end chosen among them, the
    inclusive run between the two, and the rows of the loaded table that
    fall in it. */
module Periods {
  import opened Wrappers
  import opened Seqs
  import opened QuarterKey
  import opened Loader

  /** Two periods compare by their sort keys. */
  predicate PeriodLe(a: Value, b: Value)
    ensures SortQuarterKey(a) == SortQuarterKey(b) ==> PeriodLe(a, b)
  {
    KeyLe(SortQuarterKey(a), SortQuarterKey(b))
  }

  /** `key=sort_quarter_key` orders any two periods, transitively. */
  lemma PeriodLeTotalPreorder()
    ensures TotalPreorder(PeriodLe)
  {
  }

  function PeriodColumn(table: seq<Row>): (ps: seq<Value>)
    ensures |ps| == |table|
    ensures forall i :: 0 <= i < |table| ==> ps[i] == table[i].period
  {
    seq(|table|, i requires 0 <= i < |table| => table[i].period)
  }

  /** `sorted(df_raw['決算年度'].unique(), key=sort_quarter_key)`. */
  function RawQuarters(table: seq<Row>): (qs: seq<Value>)
    ensures |qs| <= |table|
    ensures table != [] ==> qs != []
  {
    var u := Unique(PeriodColumn(table));
    assert table != [] ==> PeriodColumn(table)[0] in u;
    SortBy(u, PeriodLe)
  }

  /** The period list holds every period of the table once, in key order. */
  lemma RawQuartersSpec(table: seq<Row>)
    ensures Distinct(RawQuarters(table))
    ensures forall q :: q in RawQuarters(table) <==> exists r :: r in table && r.period == q
    ensures SortedBy(RawQuarters(table), PeriodLe)
    ensures forall k :: Ties(RawQuarters(table), k, PeriodLe) == Ties(Unique(PeriodColumn(table)), k, PeriodLe)
  {
    var u := Unique(PeriodColumn(table));
    SortByDistinct(u, PeriodLe);
    PeriodLeTotalPreorder();
    SortBySorted(u, PeriodLe);
    forall k ensures Ties(RawQuarters(table), k, PeriodLe) == Ties(u, k, PeriodLe) {
      SortByStable(u, k, PeriodLe);
    }
    var qs := RawQuarters(table);
    forall q ensures q in qs <==> exists r :: r in table && r.period == q {
      assert q in qs <==> q in multiset(u);
      if q in u {
        var i :| 0 <= i < |table| && PeriodColumn(table)[i] == q;
        assert table[i] in table;
      }
      if exists r :: r in table && r.period == q {
        var r :| r in table && r.period == q;
        var i :| 0 <= i < |table| && table[i] == r;
        assert PeriodColumn(table)[i] == q;
      }
    }
  }

  /** `list.index`: the position of the first occurrence. */
  function IndexOf(s: seq<Value>, x: Value): (i: nat)
    requires x in s
    ensures i < |s| && s[i] == x && x !in s[..i]
  {
    if s[0] == x then 0
    else
      assert x in s[1..] by {
        var k :| 0 <= k < |s| && s[k] == x;
        assert s[1..][k - 1] == x;
      }
      var i := 1 + IndexOf(s[1..], x);
      assert s[..i] == [s[0]] + s[1..][..i - 1];
      i
  }

  /** Raised by the sidebar when the start comes after the end. */
  datatype RangeError = StartAfterEnd

  /** The chosen run of periods: rejected when the start's position is after
      the end's, otherwise the inclusive slice from start to end. */
  function SelectQuarters(quarters: seq<Value>, start: Value, end: Value): (r: Result<seq<Value>, RangeError>)
    requires start in quarters && end in quarters
    ensures r.Success? ==> r.value != [] && r.value[0] == start && r.value[|r.value| - 1] == end
  {
    var s, e := IndexOf(quarters, start), IndexOf(quarters, end);
    if s > e then Failure(StartAfterEnd) else Success(quarters[s..e + 1])
  }

  /** The selection fails exactly when the start lies after the end;
      otherwise it runs from the start to the end, end - start + 1 long. */
  lemma SelectQuartersSpec(quarters: seq<Value>, start: Value, end: Value)
    requires start in quarters && end in quarters
    ensures SelectQuarters(quarters, start, end).Failure?
        <==> IndexOf(quarters, start) > IndexOf(quarters, end)
    ensures SelectQuarters(quarters, start, end).Success? ==>
      var sel := SelectQuarters(quarters, start, end).value;
      && |sel| == IndexOf(quarters, end) - IndexOf(quarters, start) + 1
      && sel[0] == start && sel[|sel| - 1] == end
      && forall q :: q in sel <==> exists i :: IndexOf(quarters, start) <= i <= IndexOf(quarters, end) && quarters[i] == q
  {
    var s, e := IndexOf(quarters, start), IndexOf(quarters, end);
    if s <= e {
      var sel := quarters[s..e + 1];
      assert SelectQuarters(quarters, start, end).value == sel;
      forall q ensures q in sel <==> exists i :: s <= i <= e && quarters[i] == q {
        SliceMembers(quarters, s, e, q);
      }
    }
  }

  /** In a key-sorted list, every selected period has a key between the
      start's and the end's. */
  lemma SelectedKeysBetween(quarters: seq<Value>, start: Value, end: Value, q: Value)
    requires start in quarters && end in quarters
    requires SortedBy(quarters, PeriodLe)
    requires SelectQuarters(quarters, start, end).Success?
    requires q in SelectQuarters(quarters, start, end).value
    ensures PeriodLe(start, q) && PeriodLe(q, end)
  {
    var s, e := IndexOf(quarters, start), IndexOf(quarters, end);
    assert q in quarters[s..e + 1] by {
      assert SelectQuarters(quarters, start, end).value == quarters[s..e + 1];
    }
    SortedSliceBounds(quarters, PeriodLe, s, e, q);
  }

  /** `df_raw[df_raw['決算年度'].isin(selected_quarters)]`. */
  function RowsInPeriods(table: seq<Row>, selected: seq<Value>): (rs: seq<Row>)
    ensures multiset(rs) <= multiset(table)
  {
    Filter(table, (r: Row) => r.period in selected)
  }

  /** The filtered table holds exactly the rows whose period was selected,
      and keeps the loaded (segment, key) order. */
  lemma RowsInPeriodsSpec(table: seq<Row>, selected: seq<Value>)
    ensures forall r :: r in RowsInPeriods(table, selected) <==> r in table && r.period in selected
    ensures forall r :: multiset(RowsInPeriods(table, selected))[r]
                        == if r.period in selected then multiset(table)[r] else 0
    ensures SortedBy(table, RowLe) ==> SortedBy(RowsInPeriods(table, selected), RowLe)
  {
    forall r ensures multiset(RowsInPeriods(table, selected))[r]
                     == if r.period in selected then multiset(table)[r] else 0 {
      FilterCount(table, (r: Row) => r.period in selected, r);
    }
    if SortedBy(table, RowLe) {
      FilterSorted(table, (r: Row) => r.period in selected, RowLe);
    }
  }

  /** The whole flow of the sidebar on the loaded table: a valid choice
      keeps only rows whose key lies between the start's and the end's. */
  lemma FilteredRowsWithinRange(raw: Frame, start: Value, end: Value, r: Row)
    requires raw.WellFormed()
    requires start in RawQuarters(LoadedTable(raw)) && end in RawQuarters(LoadedTable(raw))
    requires SelectQuarters(RawQuarters(LoadedTable(raw)), start, end).Success?
    requires r in RowsInPeriods(LoadedTable(raw), SelectQuarters(RawQuarters(LoadedTable(raw)), start, end).value)
    ensures KeyLe(SortQuarterKey(start), r.key) && KeyLe(r.key, SortQuarterKey(end))
  {
    var table := LoadedTable(raw);
    var quarters := RawQuarters(table);
    var sel := SelectQuarters(quarters, start, end).value;
    assert SortedBy(quarters, PeriodLe) by { RawQuartersSpec(table); }
    assert r in table && r.period in sel by { RowsInPeriodsSpec(table, sel); }
    assert r.key == SortQuarterKey(r.period) by { LoadedOnlyQuarterly(raw, r); }
    SelectedKeysBetween(quarters, start, end, r.period);
  }
}
