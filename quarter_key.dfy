/** The fiscal-period sort key of app.py (sort_quarter_key): a label such
    as "FY2023-3Q" orders as (2023, 3), an annual label "FY2023" as
    (2023, 0), and anything that does not parse as (0, 0). */
module QuarterKey {
  import opened Wrappers
  import opened Text

  /** A cell of the period column as Python sees it: a str, or any other
      object (a number, or the float NaN pandas reads for a blank cell), on
      which the test `'-' in q` raises TypeError. */
  datatype Value = Str(s: string) | NonStr

  /** The (year, quarter) tuple that orders periods. */
  datatype SortKey = SortKey(year: int, quarter: int)

  /** The key of every label that fails to parse. */
  const FALLBACK := SortKey(0, 0)

  /** Python's `<=` on (year, quarter) tuples. */
  predicate KeyLe(a: SortKey, b: SortKey)
    ensures a == b ==> KeyLe(a, b)
    ensures KeyLe(a, b) ==> a.year <= b.year
  {
    a.year < b.year || (a.year == b.year && a.quarter <= b.quarter)
  }

  /** sort_quarter_key: with a '-', "FY" is removed everywhere, the rest is
      split on '-', the first part is the year and the second, with every
      'Q' removed, the quarter; without a '-', the label with every "FY"
      removed is the year and the quarter is 0. Any exception gives (0, 0). */
  function SortQuarterKey(q: Value): (k: SortKey)
    ensures q.NonStr? ==> k == FALLBACK
  {
    match q
    case NonStr => FALLBACK
    case Str(s) =>
      if '-' in s then
        var parts := Split(RemoveAll(s, "FY"), '-');
        assert |parts| >= 2 by {
          RemoveAllKeeps(s, "FY", '-');
          SplitCount(RemoveAll(s, "FY"), '-');
        }
        var year := ParseInt(parts[0]);
        var quarter := ParseInt(RemoveAll(parts[1], "Q"));
        if year.Some? && quarter.Some? then SortKey(year.value, quarter.value) else FALLBACK
      else
        var year := ParseInt(RemoveAll(s, "FY"));
        if year.Some? then SortKey(year.value, 0) else FALLBACK
  }

  /** The quarterly label the dashboard's data uses, e.g. "FY2023-3Q". */
  function QuarterLabel(year: nat, quarter: nat): string {
    "FY" + ShowNat(year) + "-" + ShowNat(quarter) + "Q"
  }

  /** The annual label, e.g. "FY2023". */
  function AnnualLabel(year: nat): string {
    "FY" + ShowNat(year)
  }

  /** Removing "FY" from a quarterly label leaves "<Y>-<N>Q" and the tail
      with its own "FY"s removed. */
  lemma QuarterLabelWithoutFY(y: string, n: string, rest: string)
    requires AllDigits(y) && AllDigits(n)
    ensures RemoveAll("FY" + y + "-" + n + "Q" + rest, "FY")
         == y + "-" + ((n + "Q") + RemoveAll(rest, "FY"))
  {
    var body := y + "-" + n + "Q";
    DigitsLackChar(y, 'F');
    DigitsLackChar(n, 'F');
    assert 'F' !in body;
    calc {
      RemoveAll("FY" + y + "-" + n + "Q" + rest, "FY");
      { assert "FY" + y + "-" + n + "Q" + rest == "FY" + (body + rest); }
      RemoveAll("FY" + (body + rest), "FY");
      { RemoveAllLeading("FY", body + rest); }
      RemoveAll(body + rest, "FY");
      { RemoveAllKeepsPrefix(body, rest, "FY"); }
      body + RemoveAll(rest, "FY");
    }
  }

  /** The first two '-'-parts of "<Y>-<T>" followed by nothing or by '-'. */
  lemma FirstTwoParts(y: string, tail: string, r: string)
    requires '-' !in y && '-' !in tail && (r == [] || r[0] == '-')
    ensures |Split(y + "-" + (tail + r), '-')| >= 2
    ensures Split(y + "-" + (tail + r), '-')[0] == y
    ensures Split(y + "-" + (tail + r), '-')[1] == tail
  {
    SplitAfter(y, tail + r, '-');
    if r == [] {
      assert tail + r == tail;
      SplitWhole(tail, '-');
    } else {
      assert tail + r == tail + "-" + r[1..];
      SplitAfter(tail, r[1..], '-');
    }
  }

  /** "FY<Y>-<N>Q", followed by nothing or by further '-' parts, has the key
      (Y, N), for digit strings Y and N (leading zeros allowed). */
  lemma QuarterLabelKey(y: string, n: string, rest: string)
    requires y != [] && AllDigits(y) && n != [] && AllDigits(n)
    requires rest == [] || rest[0] == '-'
    ensures SortQuarterKey(Str("FY" + y + "-" + n + "Q" + rest))
         == SortKey(DigitsValue(y), DigitsValue(n))
  {
    var s := "FY" + y + "-" + n + "Q" + rest;
    assert s[2 + |y|] == '-';
    QuarterLabelWithoutFY(y, n, rest);
    var rest' := RemoveAll(rest, "FY");
    if rest != [] {
      assert rest == "-" + rest[1..];
      RemoveAllKeepsPrefix("-", rest[1..], "FY");
    }
    DigitsLackChar(y, '-');
    DigitsLackChar(n, '-');
    FirstTwoParts(y, n + "Q", rest');
    DigitsLackChar(n, 'Q');
    RemoveAllKeepsPrefix(n, "Q", "Q");
    assert RemoveAll("Q", "Q") == [];
    assert n + [] == n;
    ParseIntDigits(y);
    ParseIntDigits(n);
  }

  /** "FY<Y>" has the key (Y, 0). */
  lemma AnnualLabelKey(y: string)
    requires y != [] && AllDigits(y)
    ensures SortQuarterKey(Str("FY" + y)) == SortKey(DigitsValue(y), 0)
  {
    var s := "FY" + y;
    assert '-' !in s by { assert forall i :: 0 <= i < |s| ==> s[i] != '-'; }
    RemoveAllLeading("FY", y);
    assert 'F' !in y by { assert forall i :: 0 <= i < |y| ==> y[i] != 'F'; }
    RemoveAllAbsent(y, "FY");
    ParseIntDigits(y);
  }

  /** Reading back the label of a quarter gives that quarter. */
  lemma QuarterLabelRoundTrip(year: nat, quarter: nat)
    ensures SortQuarterKey(Str(QuarterLabel(year, quarter))) == SortKey(year, quarter)
  {
    var y, n := ShowNat(year), ShowNat(quarter);
    assert QuarterLabel(year, quarter) == "FY" + y + "-" + n + "Q" + "";
    QuarterLabelKey(y, n, "");
  }

  /** Reading back the label of a fiscal year gives (year, 0). */
  lemma AnnualLabelRoundTrip(year: nat)
    ensures SortQuarterKey(Str(AnnualLabel(year))) == SortKey(year, 0)
  {
    AnnualLabelKey(ShowNat(year));
  }

  /** Only the first two '-'-separated parts count: anything after a
      further '-' is ignored. */
  lemma ExtraPartsIgnored(s: string, extra: string)
    requires '-' in s
    ensures SortQuarterKey(Str(s + "-" + extra)) == SortQuarterKey(Str(s))
  {
    var t := s + "-" + extra;
    assert '-' in t by {
      var i :| 0 <= i < |s| && s[i] == '-';
      assert t[i] == '-';
    }
    var rs, re := RemoveAll(s, "FY"), RemoveAll(extra, "FY");
    assert RemoveAll(t, "FY") == rs + "-" + re by {
      assert t == s + ("-" + extra);
      RemoveAllBoundary(s, "-" + extra, "FY");
      RemoveAllKeepsPrefix("-", extra, "FY");
    }
    var ps := Split(rs, '-');
    assert |ps| >= 2 by {
      RemoveAllKeeps(s, "FY", '-');
      SplitCount(rs, '-');
    }
    SamePartsAfterConcat(rs, re, '-');
  }

  /** The first two parts survive appending a further '-' part. */
  lemma SamePartsAfterConcat(a: string, b: string, sep: char)
    requires |Split(a, sep)| >= 2
    ensures |Split(a + [sep] + b, sep)| >= 2
    ensures Split(a + [sep] + b, sep)[0] == Split(a, sep)[0]
    ensures Split(a + [sep] + b, sep)[1] == Split(a, sep)[1]
  {
    SplitConcat(a, b, sep);
    var ps, qs := Split(a, sep), Split(b, sep);
    assert (ps + qs)[0] == ps[0] && (ps + qs)[1] == ps[1];
  }

  /** An empty year part, as in "FY-3Q", falls back to (0, 0). */
  lemma EmptyYearFallsBack(rest: string)
    ensures SortQuarterKey(Str("FY-" + rest)) == FALLBACK
  {
    var s := "FY-" + rest;
    assert s[2] == '-';
    var r := RemoveAll(rest, "FY");
    calc {
      RemoveAll(s, "FY");
      { assert s == "FY" + ("-" + rest); }
      RemoveAll("FY" + ("-" + rest), "FY");
      { RemoveAllLeading("FY", "-" + rest); }
      RemoveAll("-" + rest, "FY");
      { RemoveAllKeepsPrefix("-", rest, "FY"); }
      "-" + r;
    }
    assert "-" + r == [] + "-" + r;
    SplitAfter([], r, '-');
    ParseIntNoDigits([]);
  }

  /** A label without any digit falls back to (0, 0). */
  lemma NoDigitsFallsBack(s: string)
    requires NoDigits(s)
    ensures SortQuarterKey(Str(s)) == FALLBACK
  {
    var t := RemoveAll(s, "FY");
    RemoveAllWithin(s, "FY");
    CharsWithinNoDigits(t, s);
    if '-' in s {
      var parts := Split(t, '-');
      SplitPartsWithin(t, '-', 0);
      CharsWithinNoDigits(parts[0], t);
      ParseIntNoDigits(parts[0]);
    } else {
      ParseIntNoDigits(t);
    }
  }

  /** A quarter part without digits, as in "FY2023-" or "FY2023-Q", falls
      back to (0, 0) whatever the year. */
  lemma QuarterWithoutDigitsFallsBack(y: string, q: string)
    requires AllDigits(y) && NoDigits(q)
    ensures SortQuarterKey(Str("FY" + y + "-" + q)) == FALLBACK
  {
    var s := "FY" + y + "-" + q;
    var q' := RemoveAll(q, "FY");
    assert '-' in s by { assert s[2 + |y|] == '-'; }
    assert RemoveAll(s, "FY") == y + "-" + q' by {
      assert s == "FY" + (y + "-" + q);
      RemoveAllLeading("FY", y + "-" + q);
      var yq := y + "-";
      assert 'F' !in yq by { assert forall i :: 0 <= i < |yq| ==> yq[i] != 'F'; }
      assert y + "-" + q == yq + q;
      RemoveAllKeepsPrefix(yq, q, "FY");
    }
    var parts := Split(RemoveAll(s, "FY"), '-');
    assert parts[1] == Split(q', '-')[0] by {
      assert '-' !in y by { assert forall i :: 0 <= i < |y| ==> y[i] != '-'; }
      SplitAfter(y, q', '-');
    }
    var p := RemoveAll(parts[1], "Q");
    assert NoDigits(p) by {
      SplitPartsWithin(q', '-', 0);
      RemoveAllWithin(q, "FY");
      CharsWithinNoDigits(q', q);
      CharsWithinNoDigits(parts[1], q');
      RemoveAllWithin(parts[1], "Q");
      CharsWithinNoDigits(p, parts[1]);
    }
    ParseIntNoDigits(p);
  }


  /** Labels of quarters order chronologically, an annual label sorts just
      before the quarters of its year, and an unparseable label first of all. */
  lemma LabelsOrderChronologically(y1: nat, q1: nat, y2: nat, q2: nat, bad: string)
    requires NoDigits(bad)
    ensures KeyLe(SortQuarterKey(Str(QuarterLabel(y1, q1))), SortQuarterKey(Str(QuarterLabel(y2, q2))))
        <==> y1 < y2 || (y1 == y2 && q1 <= q2)
    ensures KeyLe(SortQuarterKey(Str(AnnualLabel(y1))), SortQuarterKey(Str(QuarterLabel(y1, q1))))
    ensures KeyLe(SortQuarterKey(Str(bad)), SortQuarterKey(Str(QuarterLabel(y1, q1))))
  {
    QuarterLabelRoundTrip(y1, q1);
    QuarterLabelRoundTrip(y2, q2);
    AnnualLabelRoundTrip(y1);
    NoDigitsFallsBack(bad);
  }
}
