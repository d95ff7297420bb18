/** convert_to_numeric of app.py: a text column has every ',' removed, is
    stripped and is parsed as a number, and a cell that does not parse
    becomes 0; a column that is already numeric is returned as it is. */
module Numeric {
  import opened Wrappers
  import opened Text

  /** A column as pandas holds it: text cells (dtype object, each cell as
      astype(str) renders it) or numbers. */
  datatype Column = TextCells(cells: seq<string>) | Numbers(values: seq<real>)
  {
    function Length(): nat {
      match this
      case TextCells(cells) => |cells|
      case Numbers(values) => |values|
    }
  }

  /** The value of digits `i`, a decimal point and digits `f`. */
  function Decimal(i: string, f: string): real
    requires AllDigits(i) && AllDigits(f)
  {
    DigitsValue(i) as real + DigitsValue(f) as real / Pow10(|f|) as real
  }

  function Signed(negative: bool, x: real): real {
    if negative then -x else x
  }

  /** pandas' to_numeric on one stripped text: an optional sign, then digits
      with at most one decimal point and at least one digit in all ("12",
      "-3.5", "7.", ".25"); anything else is not a number. */
  function ParseNumber(t: string): (r: Option<real>)
    ensures t == [] ==> r == None
  {
    var signed := t != [] && (t[0] == '+' || t[0] == '-');
    var negative := t != [] && t[0] == '-';
    var body := if signed then t[1..] else t;
    var parts := Split(body, '.');
    if |parts| == 1 then
      if parts[0] != [] && AllDigits(parts[0])
      then Some(Signed(negative, DigitsValue(parts[0]) as real))
      else None
    else if |parts| == 2 && AllDigits(parts[0]) && AllDigits(parts[1])
            && |parts[0]| + |parts[1]| >= 1
    then Some(Signed(negative, Decimal(parts[0], parts[1])))
    else None
  }

  /** One text cell through replace(',', ''), strip(), to_numeric with
      errors='coerce' and fillna(0). */
  function CellValue(cell: string): (x: real)
    ensures Strip(RemoveAll(cell, ",")) == [] ==> x == 0.0
  {
    match ParseNumber(Strip(RemoveAll(cell, ",")))
    case Some(x) => x
    case None => 0.0
  }

  /** convert_to_numeric on a whole column. */
  function ConvertToNumeric(c: Column): (r: seq<real>)
    ensures |r| == c.Length()
    ensures c.Numbers? ==> r == c.values
  {
    match c
    case Numbers(values) => values
    case TextCells(cells) => seq(|cells|, i requires 0 <= i < |cells| => CellValue(cells[i]))
  }

  // ------------------------------------------------------------- parsing

  /** A plain digit string parses to its decimal value. */
  lemma ParseNumberDigits(d: string)
    requires d != [] && AllDigits(d)
    ensures ParseNumber(d) == Some(DigitsValue(d) as real)
  {
    assert IsDigit(d[0]);
    DigitsLackChar(d, '.');
    SplitWhole(d, '.');
  }

  /** A sign followed by digits parses to the signed value. */
  lemma ParseNumberSigned(sign: char, d: string)
    requires sign == '+' || sign == '-'
    requires d != [] && AllDigits(d)
    ensures ParseNumber([sign] + d) == Some(Signed(sign == '-', DigitsValue(d) as real))
  {
    var t := [sign] + d;
    assert t[0] == sign && t[1..] == d;
    DigitsLackChar(d, '.');
    SplitWhole(d, '.');
  }

  /** "<i>.<f>" parses to i + f / 10^|f|, however short either side is. */
  lemma ParseNumberDecimal(i: string, f: string)
    requires AllDigits(i) && AllDigits(f) && |i| + |f| >= 1
    ensures ParseNumber(i + "." + f) == Some(Decimal(i, f))
  {
    var t := i + "." + f;
    if i != [] {
      assert t[0] == i[0] && IsDigit(i[0]);
    } else {
      assert t[0] == '.';
    }
    DigitsLackChar(i, '.');
    DigitsLackChar(f, '.');
    SplitAfter(i, f, '.');
    SplitWhole(f, '.');
  }

  /** A text without any digit is not a number. */
  lemma ParseNumberNoDigits(t: string)
    requires NoDigits(t)
    ensures ParseNumber(t) == None
  {
    var signed := t != [] && (t[0] == '+' || t[0] == '-');
    var body := if signed then t[1..] else t;
    assert NoDigits(body) by {
      if signed {
        assert forall k :: 0 <= k < |body| ==> body[k] == t[k + 1];
      }
    }
    var parts := Split(body, '.');
    SplitPartsWithin(body, '.', 0);
    CharsWithinNoDigits(parts[0], body);
    assert parts[0] == [] || !IsDigit(parts[0][0]);
    if |parts| == 2 {
      SplitPartsWithin(body, '.', 1);
      CharsWithinNoDigits(parts[1], body);
      assert parts[1] == [] || !IsDigit(parts[1][0]);
    }
  }

  // --------------------------------------------------------------- cells

  /** A cell without any digit ("", "-", "nan", "N/A") becomes 0. */
  lemma CellValueNoDigits(cell: string)
    requires NoDigits(cell)
    ensures CellValue(cell) == 0.0
  {
    var t := RemoveAll(cell, ",");
    RemoveAllWithin(cell, ",");
    CharsWithinNoDigits(t, cell);
    CharsWithinNoDigits(Strip(t), t);
    ParseNumberNoDigits(Strip(t));
  }

  /** The last three digits of a thousands group, with leading zeros. */
  function Pad3(m: nat): (s: string)
    requires m < 1000
    ensures |s| == 3 && AllDigits(s)
  {
    [DigitChar(m / 100), DigitChar(m / 10 % 10), DigitChar(m % 10)]
  }

  lemma Pad3Value(m: nat)
    requires m < 1000
    ensures DigitsValue(Pad3(m)) == m
  {
    var s := Pad3(m);
    var a, b, c := m / 100, m / 10 % 10, m % 10;
    assert s[..2][..1] == [s[0]];
    assert DigitsValue(s[..1]) == a;
    assert DigitsValue(s[..2]) == 10 * a + b;
    assert DigitsValue(s) == 10 * (10 * a + b) + c;
    ThreeDigits(m);
  }

  lemma ThreeDigits(m: nat)
    ensures 100 * (m / 100) + 10 * (m / 10 % 10) + m % 10 == m
  {
    var q := m / 10;
    assert m == 10 * q + m % 10;
    assert q == 10 * (q / 10) + q % 10;
    assert q / 10 == m / 100;
  }

  /** A non-negative amount written with ',' between thousands, as in the
      published figures: 1234567 as "1,234,567". */
  function Grouped(n: nat): (s: string)
    ensures s != []
  {
    if n < 1000 then ShowNat(n) else Grouped(n / 1000) + ("," + Pad3(n % 1000))
  }

  /** Removing the ','s of a grouped amount leaves its plain digits. */
  lemma {:induction false} UngroupedDigits(n: nat)
    ensures AllDigits(RemoveAll(Grouped(n), ","))
    ensures RemoveAll(Grouped(n), ",") != []
    ensures DigitsValue(RemoveAll(Grouped(n), ",")) == n
    decreases n
  {
    if n < 1000 {
      DigitsLackChar(ShowNat(n), ',');
      RemoveAllAbsent(ShowNat(n), ",");
    } else {
      var g, p := Grouped(n / 1000), Pad3(n % 1000);
      UngroupedDigits(n / 1000);
      RemoveAllBoundary(g, "," + p, ",");
      RemoveAllLeading(",", p);
      DigitsLackChar(p, ',');
      RemoveAllAbsent(p, ",");
      var d := RemoveAll(g, ",");
      assert RemoveAll(Grouped(n), ",") == d + p;
      DigitsValueAppend(d, p);
      Pad3Value(n % 1000);
      assert Pow10(3) == 1000;
    }
  }

  /** A grouped amount, with whitespace around it, converts to that amount. */
  lemma CellValueGrouped(pre: string, n: nat, post: string)
    requires AllDropped(pre, IsSpace) && AllDropped(post, IsSpace)
    ensures CellValue(pre + Grouped(n) + post) == n as real
  {
    UngroupedDigits(n);
    CellValueDigits(pre, Grouped(n), post);
  }

  /** Any text whose ','-free form is plain digits converts, with
      whitespace around it, to the value of those digits. */
  lemma CellValueDigits(pre: string, g: string, post: string)
    requires AllDropped(pre, IsSpace) && AllDropped(post, IsSpace)
    requires RemoveAll(g, ",") != [] && AllDigits(RemoveAll(g, ","))
    ensures CellValue(pre + g + post) == DigitsValue(RemoveAll(g, ",")) as real
  {
    var d := RemoveAll(g, ",");
    assert RemoveAll(pre + g + post, ",") == pre + d + post by {
      assert ',' !in pre by { assert !IsSpace(','); }
      assert ',' !in post by { assert !IsSpace(','); }
      assert pre + g + post == pre + (g + post);
      RemoveAllKeepsPrefix(pre, g + post, ",");
      RemoveAllBoundary(g, post, ",");
      RemoveAllAbsent(post, ",");
    }
    assert IsDigit(d[0]) && IsDigit(d[|d| - 1]);
    StripPadded(pre, d, post);
    ParseNumberDigits(d);
  }

  /** A negative grouped amount, "-1,234", converts to its negative. */
  lemma CellValueNegative(n: nat)
    ensures CellValue("-" + Grouped(n)) == -(n as real)
  {
    UngroupedDigits(n);
    CellValueNegated(Grouped(n));
  }

  lemma CellValueNegated(g: string)
    requires RemoveAll(g, ",") != [] && AllDigits(RemoveAll(g, ","))
    ensures CellValue("-" + g) == -(DigitsValue(RemoveAll(g, ",")) as real)
  {
    var d := RemoveAll(g, ",");
    var t := ['-'] + d;
    var x := DigitsValue(d) as real;
    assert Strip(RemoveAll("-" + g, ",")) == t by {
      RemoveAllKeepsPrefix("-", g, ",");
      StripSignedDigits('-', d);
    }
    assert ParseNumber(t) == Some(Signed(true, x)) by {
      ParseNumberSigned('-', d);
    }
    CellValueFrom("-" + g, t, Signed(true, x));
  }

  lemma CellValueFrom(cell: string, t: string, x: real)
    requires Strip(RemoveAll(cell, ",")) == t && ParseNumber(t) == Some(x)
    ensures CellValue(cell) == x
  {
  }

  /** Worked example: "1,234" converts to 1234. */
  lemma CellValueExampleGrouped()
    ensures CellValue("1,234") == 1234.0
  {
    assert Grouped(1234) == "1,234" by {
      assert ShowNat(1) == "1";
      assert Pad3(234) == "234";
    }
    assert [] + "1,234" + [] == "1,234";
    CellValueGrouped([], 1234, []);
  }

  /** Worked example: " 56 " converts to 56. */
  lemma CellValueExampleSpaced()
    ensures CellValue(" 56 ") == 56.0
  {
    var d, sp := "56", " ";
    assert RemoveAll(d, ",") == d by {
      assert ',' !in d;
      RemoveAllAbsent(d, ",");
    }
    assert DigitsValue(d) == 56 by {
      assert d[..1] == "5";
    }
    assert AllDropped(sp, IsSpace) by {
      assert IsSpace(sp[0]);
    }
    assert sp + d + sp == " 56 ";
    CellValueDigits(sp, d, sp);
  }

  // ------------------------------------------------------------- columns

  /** A column of grouped amounts converts back to those amounts. */
  lemma ConvertGroupedColumn(amounts: seq<nat>)
    ensures ConvertToNumeric(TextCells(seq(|amounts|, i requires 0 <= i < |amounts| => Grouped(amounts[i]))))
         == seq(|amounts|, i requires 0 <= i < |amounts| => amounts[i] as real)
  {
    var cells := seq(|amounts|, i requires 0 <= i < |amounts| => Grouped(amounts[i]));
    forall i | 0 <= i < |amounts|
      ensures ConvertToNumeric(TextCells(cells))[i] == amounts[i] as real
    {
      assert [] + cells[i] + [] == cells[i];
      CellValueGrouped([], amounts[i], []);
    }
  }

  /** In a converted text column, a cell without digits becomes 0. */
  lemma ConvertNoDigitsCell(cells: seq<string>, i: nat)
    requires i < |cells| && NoDigits(cells[i])
    ensures ConvertToNumeric(TextCells(cells))[i] == 0.0
  {
    CellValueNoDigits(cells[i]);
  }
}
