/** The parts of Python's str behaviour that the dashboard's parsers use:
    whitespace, strip(), replace(old, ""), split(sep), int() and the
    code-point ordering of strings. */
module Text {
  import opened Wrappers

  /** Python's str.isspace() on one character. */
  predicate IsSpace(c: char) {
    || c == ' ' || ('\t' <= c <= '\r') || ('\U{1c}' <= c <= '\U{1f}')
    || c == '\U{85}' || c == '\U{a0}' || c == '\U{1680}'
    || ('\U{2000}' <= c <= '\U{200a}') || c == '\U{2028}' || c == '\U{2029}'
    || c == '\U{202f}' || c == '\U{205f}' || c == '\U{3000}'
  }

  predicate IsDigit(c: char) {
    '0' <= c <= '9'
  }

  predicate AllDigits(s: string) {
    forall i :: 0 <= i < |s| ==> IsDigit(s[i])
  }

  /** A digit string holds no character that is not a digit. */
  lemma DigitsLackChar(d: string, c: char)
    requires AllDigits(d) && !IsDigit(c)
    ensures c !in d
  {
  }

  predicate NoDigits(s: string) {
    forall i :: 0 <= i < |s| ==> !IsDigit(s[i])
  }

  /** Every character of `a` occurs in `b`. */
  predicate CharsWithin(a: string, b: string) {
    forall i :: 0 <= i < |a| ==> a[i] in b
  }

  lemma CharsWithinNoDigits(a: string, b: string)
    requires CharsWithin(a, b) && NoDigits(b)
    ensures NoDigits(a)
  {
    forall i | 0 <= i < |a| ensures !IsDigit(a[i]) {
      var j :| 0 <= j < |b| && b[j] == a[i];
    }
  }

  // ---------------------------------------------------------------- strip

  /** Every character of `s` is one that `drop` removes. */
  predicate AllDropped(s: string, drop: char -> bool) {
    forall i :: 0 <= i < |s| ==> drop(s[i])
  }

  /** str.lstrip: the longest prefix of characters `drop` removes goes. */
  function TrimStart(s: string, drop: char -> bool): (r: string)
    ensures |r| <= |s| && r == s[|s| - |r|..]
    ensures r == [] || !drop(r[0])
    ensures AllDropped(s[..|s| - |r|], drop)
  {
    if s != [] && drop(s[0]) then
      var r := TrimStart(s[1..], drop);
      assert s[..|s| - |r|] == [s[0]] + s[1..][..|s| - 1 - |r|];
      assert s[1..][|s| - 1 - |r|..] == s[|s| - |r|..];
      r
    else s
  }

  /** str.rstrip: the longest suffix of characters `drop` removes goes. */
  function TrimEnd(s: string, drop: char -> bool): (r: string)
    ensures |r| <= |s| && r == s[..|r|]
    ensures r == [] || !drop(r[|r| - 1])
    ensures AllDropped(s[|r|..], drop)
  {
    if s != [] && drop(s[|s| - 1]) then TrimEnd(s[..|s| - 1], drop) else s
  }

  /** Python's str.strip() with no argument: the whitespace at both ends is
      removed, and what is left is a slice of `s` that neither starts nor
      ends with whitespace. */
  function Strip(s: string): (r: string)
    ensures r == [] || (!IsSpace(r[0]) && !IsSpace(r[|r| - 1]))
    ensures CharsWithin(r, s)
    ensures |r| <= |s|
  {
    var t := TrimStart(s, IsSpace);
    var r := TrimEnd(t, IsSpace);
    SliceWithin(s, |s| - |t|, |s|);
    SliceWithin(t, 0, |r|);
    WithinTransitive(r, t, s);
    r
  }

  lemma SliceWithin(s: string, i: nat, j: nat)
    requires i <= j <= |s|
    ensures CharsWithin(s[i..j], s)
  {
    forall k | 0 <= k < j - i ensures s[i..j][k] in s {
      assert s[i..j][k] == s[i + k];
    }
  }

  lemma WithinTransitive(a: string, b: string, c: string)
    requires CharsWithin(a, b) && CharsWithin(b, c)
    ensures CharsWithin(a, c)
  {
    forall k | 0 <= k < |a| ensures a[k] in c {
      var j :| 0 <= j < |b| && b[j] == a[k];
    }
  }

  lemma {:induction false} TrimStartPadded(pre: string, rest: string, drop: char -> bool)
    requires AllDropped(pre, drop) && rest != [] && !drop(rest[0])
    ensures TrimStart(pre + rest, drop) == rest
    decreases |pre|
  {
    if pre != [] {
      assert (pre + rest)[0] == pre[0];
      assert (pre + rest)[1..] == pre[1..] + rest;
      TrimStartPadded(pre[1..], rest, drop);
    } else {
      assert pre + rest == rest;
    }
  }

  lemma {:induction false} TrimEndPadded(core: string, post: string, drop: char -> bool)
    requires AllDropped(post, drop) && core != [] && !drop(core[|core| - 1])
    ensures TrimEnd(core + post, drop) == core
    decreases |post|
  {
    if post != [] {
      var p := post[..|post| - 1];
      assert (core + post)[|core + post| - 1] == post[|post| - 1];
      assert (core + post)[..|core + post| - 1] == core + p;
      TrimEndPadded(core, p, drop);
    } else {
      assert core + post == core;
    }
  }

  /** Strip removes exactly the surrounding whitespace. */
  lemma StripPadded(pre: string, core: string, post: string)
    requires AllDropped(pre, IsSpace) && AllDropped(post, IsSpace)
    requires core != [] && !IsSpace(core[0]) && !IsSpace(core[|core| - 1])
    ensures Strip(pre + core + post) == core
  {
    assert pre + core + post == pre + (core + post);
    assert (core + post)[0] == core[0];
    TrimStartPadded(pre, core + post, IsSpace);
    TrimEndPadded(core, post, IsSpace);
  }

  lemma StripDigits(s: string)
    requires AllDigits(s)
    ensures Strip(s) == s
  {
    if s != [] {
      assert s == [] + s + [];
      StripPadded([], s, []);
    }
  }

  // ------------------------------------------------------ replace(pat, "")

  /** Python's s.replace(pat, ""): every non-overlapping occurrence of `pat`,
      found from left to right, is removed. */
  function RemoveAll(s: string, pat: string): (r: string)
    requires pat != []
    ensures |r| <= |s|
    decreases |s|
  {
    if s == [] then []
    else if pat <= s then RemoveAll(s[|pat|..], pat)
    else [s[0]] + RemoveAll(s[1..], pat)
  }

  /** Removal only ever drops characters. */
  lemma {:induction false} RemoveAllWithin(s: string, pat: string)
    requires pat != []
    ensures CharsWithin(RemoveAll(s, pat), s)
    decreases |s|
  {
    if s != [] {
      var t := if pat <= s then s[|pat|..] else s[1..];
      RemoveAllWithin(t, pat);
      SliceWithin(s, |s| - |t|, |s|);
      WithinTransitive(RemoveAll(t, pat), t, s);
      if !(pat <= s) {
        var r := RemoveAll(s, pat);
        assert r == [s[0]] + RemoveAll(t, pat);
        forall i | 0 <= i < |r| ensures r[i] in s {
          if i == 0 {
            assert r[0] == s[0];
          } else {
            assert r[i] == RemoveAll(t, pat)[i - 1];
          }
        }
      }
    }
  }

  /** A character that `pat` does not contain survives the removal. */
  lemma {:induction false} RemoveAllKeeps(s: string, pat: string, c: char)
    requires pat != [] && c !in pat && c in s
    ensures c in RemoveAll(s, pat)
    decreases |s|
  {
    var i :| 0 <= i < |s| && s[i] == c;
    if pat <= s {
      var k := if i < |pat| then i else 0;
      assert pat[k] == s[k];
      assert i >= |pat|;
      assert s[|pat|..][i - |pat|] == c;
      RemoveAllKeeps(s[|pat|..], pat, c);
    } else if i > 0 {
      assert s[1..][i - 1] == c;
      RemoveAllKeeps(s[1..], pat, c);
    }
  }

  /** Removing a one-character pattern leaves none of that character. */
  lemma {:induction false} RemoveCharGone(s: string, c: char)
    ensures c !in RemoveAll(s, [c])
    decreases |s|
  {
    if s != [] {
      RemoveCharGone(s[1..], c);
      if !([c] <= s) {
        assert s[0] != c;
        assert RemoveAll(s, [c]) == [s[0]] + RemoveAll(s[1..], [c]);
      }
    }
  }

  /** A text that cannot start an occurrence of `pat` is kept as it is. */
  lemma {:induction false} RemoveAllKeepsPrefix(a: string, b: string, pat: string)
    requires pat != [] && pat[0] !in a
    ensures RemoveAll(a + b, pat) == a + RemoveAll(b, pat)
    decreases |a|
  {
    if a != [] {
      assert !(pat <= a + b) by { assert (a + b)[0] == a[0]; }
      assert (a + b)[1..] == a[1..] + b;
      RemoveAllKeepsPrefix(a[1..], b, pat);
    } else {
      assert a + b == b;
    }
  }

  lemma RemoveAllAbsent(a: string, pat: string)
    requires pat != [] && pat[0] !in a
    ensures RemoveAll(a, pat) == a
  {
    assert a + [] == a;
    RemoveAllKeepsPrefix(a, [], pat);
  }

  lemma RemoveAllLeading(pat: string, b: string)
    requires pat != []
    ensures RemoveAll(pat + b, pat) == RemoveAll(b, pat)
  {
    assert pat <= pat + b;
    assert (pat + b)[|pat|..] == b;
  }

  /** No occurrence of `pat` can straddle a boundary followed by a
      character that `pat` does not contain, and a one-character pattern
      cannot straddle anything. */
  lemma {:induction false} RemoveAllBoundary(a: string, b: string, pat: string)
    requires pat != [] && (|pat| == 1 || b == [] || b[0] !in pat)
    ensures RemoveAll(a + b, pat) == RemoveAll(a, pat) + RemoveAll(b, pat)
    decreases |a|
  {
    if a == [] {
      assert a + b == b;
    } else if pat <= a + b {
      PrefixBeforeBoundary(a, b, pat);
      assert (a + b)[|pat|..] == a[|pat|..] + b;
      RemoveAllBoundary(a[|pat|..], b, pat);
    } else {
      assert (a + b)[1..] == a[1..] + b;
      RemoveAllBoundary(a[1..], b, pat);
    }
  }

  lemma PrefixBeforeBoundary(a: string, b: string, pat: string)
    requires a != [] && pat != [] && (|pat| == 1 || b == [] || b[0] !in pat)
    requires pat <= a + b
    ensures pat <= a
  {
    // the position just past `a`, had `pat` been longer than `a`
    var k := if |a| < |pat| then |a| else 0;
    assert pat[k] == (a + b)[k];
    assert |a| >= |pat|;
    assert forall i :: 0 <= i < |pat| ==> pat[i] == (a + b)[i] == a[i];
  }

  // ------------------------------------------------------------ split(sep)

  function Join(parts: seq<string>, sep: char): string
    requires |parts| >= 1
  {
    if |parts| == 1 then parts[0] else parts[0] + [sep] + Join(parts[1..], sep)
  }

  /** Python's s.split(sep) for a one-character separator: the pieces
      between separators, in order (SplitJoinInverse, SplitCount and
      SplitPartsLackSep state what they are). */
  function Split(s: string, sep: char): (parts: seq<string>)
    ensures |parts| >= 1
    decreases |s|
  {
    if s == [] then [[]]
    else
      var rest := Split(s[1..], sep);
      if s[0] == sep then [[]] + rest
      else [[s[0]] + rest[0]] + rest[1..]
  }

  /** Joining the parts back with the separator gives the text split. */
  lemma {:induction false} SplitJoinInverse(s: string, sep: char)
    ensures Join(Split(s, sep), sep) == s
    decreases |s|
  {
    if s != [] {
      var rest := Split(s[1..], sep);
      var parts := Split(s, sep);
      assert Join(rest, sep) == s[1..] by { SplitJoinInverse(s[1..], sep); }
      assert Join(parts, sep) == [s[0]] + Join(rest, sep) by {
        if s[0] == sep {
          assert parts[0] == [] && parts[1..] == rest;
        } else if |rest| == 1 {
          assert parts == [[s[0]] + rest[0]];
        } else {
          assert parts[0] == [s[0]] + rest[0] && parts[1..] == rest[1..];
          calc {
            Join(parts, sep);
            parts[0] + [sep] + Join(rest[1..], sep);
            [s[0]] + (rest[0] + [sep] + Join(rest[1..], sep));
          }
        }
      }
      assert [s[0]] + s[1..] == s;
    }
  }


  /** There is more than one part exactly when the separator occurs. */
  lemma {:induction false} SplitCount(s: string, sep: char)
    ensures sep in s <==> |Split(s, sep)| >= 2
    decreases |s|
  {
    if s != [] {
      SplitCount(s[1..], sep);
      assert sep in s <==> s[0] == sep || sep in s[1..] by {
        assert s == [s[0]] + s[1..];
      }
    }
  }

  /** No part contains the separator. */
  lemma {:induction false} SplitPartsLackSep(s: string, sep: char, k: nat)
    requires k < |Split(s, sep)|
    ensures sep !in Split(s, sep)[k]
    decreases |s|
  {
    if s != [] {
      var rest := Split(s[1..], sep);
      var parts := Split(s, sep);
      if s[0] == sep {
        if k > 0 {
          assert parts[k] == rest[k - 1];
          SplitPartsLackSep(s[1..], sep, k - 1);
        }
      } else {
        SplitPartsLackSep(s[1..], sep, k);
        if k == 0 {
          assert parts[0] == [s[0]] + rest[0];
        } else {
          assert parts[k] == rest[k];
        }
      }
    }
  }

  /** Every part of a split is made of characters of the text split. */
  lemma {:induction false} SplitPartsWithin(s: string, sep: char, k: nat)
    requires k < |Split(s, sep)|
    ensures CharsWithin(Split(s, sep)[k], s)
    decreases |s|
  {
    if s != [] {
      var rest := Split(s[1..], sep);
      var parts := Split(s, sep);
      var k' := if s[0] == sep then k - 1 else k;
      if s[0] == sep && k == 0 {
        assert parts[0] == [];
      } else {
        assert 0 <= k' < |rest|;
        SplitPartsWithin(s[1..], sep, k');
        forall i | 0 <= i < |rest[k']| ensures rest[k'][i] in s {
          var j :| 0 <= j < |s[1..]| && s[1..][j] == rest[k'][i];
          assert s[j + 1] == rest[k'][i];
        }
        assert parts[k] == rest[k'] || (k == 0 && parts[0] == [s[0]] + rest[0]);
      }
    }
  }

  /** A piece without the separator, then the separator, splits off as the
      first part. */
  lemma {:induction false} SplitAfter(a: string, b: string, sep: char)
    requires sep !in a
    ensures Split(a + [sep] + b, sep) == [a] + Split(b, sep)
    decreases |a|
  {
    if a == [] {
      assert a + [sep] + b == [sep] + b && ([sep] + b)[1..] == b;
    } else {
      var s := a + [sep] + b;
      assert s[0] == a[0] && s[1..] == a[1..] + [sep] + b;
      SplitAfter(a[1..], b, sep);
      assert [a[0]] + a[1..] == a;
    }
  }

  lemma {:induction false} SplitWhole(a: string, sep: char)
    requires sep !in a
    ensures Split(a, sep) == [a]
    decreases |a|
  {
    if a != [] {
      SplitWhole(a[1..], sep);
      assert [a[0]] + a[1..] == a;
    }
  }

  /** Splitting at a separator concatenates the splits of both sides. */
  lemma {:induction false} SplitConcat(a: string, b: string, sep: char)
    ensures Split(a + [sep] + b, sep) == Split(a, sep) + Split(b, sep)
    decreases |a|
  {
    if a == [] {
      assert a + [sep] + b == [sep] + b;
      SplitCons(sep, b, sep);
    } else {
      var c, t := a[0], a[1..];
      SplitConcat(t, b, sep);
      SplitConcatStep(c, t, t + [sep] + b, b, sep);
      assert a == [c] + t;
      assert a + [sep] + b == [c] + (t + [sep] + b);
    }
  }

  /** The inductive step of SplitConcat: `u` is `t + [sep] + b`, whose
      split is already known to be that of `t` followed by that of `b`. */
  lemma SplitConcatStep(c: char, t: string, u: string, b: string, sep: char)
    requires Split(u, sep) == Split(t, sep) + Split(b, sep)
    ensures Split([c] + u, sep) == Split([c] + t, sep) + Split(b, sep)
  {
    if c == sep {
      SplitConcatStepSep(t, u, b, sep);
    } else {
      SplitConcatStepOther(c, t, u, b, sep);
    }
  }

  lemma SplitConcatStepSep(t: string, u: string, b: string, sep: char)
    requires Split(u, sep) == Split(t, sep) + Split(b, sep)
    ensures Split([sep] + u, sep) == Split([sep] + t, sep) + Split(b, sep)
  {
    var l, r := Split(t, sep), Split(b, sep);
    SplitCons(sep, u, sep);
    SplitCons(sep, t, sep);
    assert [[]] + (l + r) == ([[]] + l) + r;
  }

  lemma SplitConcatStepOther(c: char, t: string, u: string, b: string, sep: char)
    requires c != sep
    requires Split(u, sep) == Split(t, sep) + Split(b, sep)
    ensures Split([c] + u, sep) == Split([c] + t, sep) + Split(b, sep)
  {
    SplitCons(c, u, sep);
    SplitCons(c, t, sep);
    ConsFirstAppend([c], Split(t, sep), Split(b, sep));
  }

  lemma ConsFirstAppend(x: string, l: seq<string>, r: seq<string>)
    requires |l| >= 1
    ensures [x + (l + r)[0]] + (l + r)[1..] == ([x + l[0]] + l[1..]) + r
  {
    assert (l + r)[0] == l[0] && (l + r)[1..] == l[1..] + r;
  }

  /** One step of the split: a leading separator closes an empty part, any
      other character joins the first part. */
  lemma SplitCons(c: char, t: string, sep: char)
    ensures Split([c] + t, sep)
         == if c == sep then [[]] + Split(t, sep)
            else [[c] + Split(t, sep)[0]] + Split(t, sep)[1..]
  {
    assert ([c] + t)[0] == c && ([c] + t)[1..] == t;
  }

  /** Splitting undoes joining pieces that do not contain the separator. */
  lemma {:induction false} SplitJoin(parts: seq<string>, sep: char)
    requires |parts| >= 1
    requires forall p :: p in parts ==> sep !in p
    ensures Split(Join(parts, sep), sep) == parts
    decreases |parts|
  {
    if |parts| == 1 {
      SplitWhole(parts[0], sep);
    } else {
      assert parts[0] in parts;
      assert forall p :: p in parts[1..] ==> p in parts;
      SplitJoin(parts[1..], sep);
      SplitAfter(parts[0], Join(parts[1..], sep), sep);
      assert [parts[0]] + parts[1..] == parts;
    }
  }

  // ---------------------------------------------------------- int(), str()

  function DigitValue(c: char): nat
    requires IsDigit(c)
  {
    c as int - '0' as int
  }

  function DigitChar(d: nat): (c: char)
    requires d < 10
    ensures IsDigit(c) && DigitValue(c) == d
  {
    ('0' as int + d) as char
  }

  /** The value of a string of decimal digits, most significant first. */
  function DigitsValue(s: string): nat
    requires AllDigits(s)
  {
    if s == [] then 0 else 10 * DigitsValue(s[..|s| - 1]) + DigitValue(s[|s| - 1])
  }

  function Pow10(n: nat): (p: nat)
    ensures p >= 1
  {
    if n == 0 then 1 else 10 * Pow10(n - 1)
  }

  lemma {:induction false} DigitsValueAppend(a: string, b: string)
    requires AllDigits(a) && AllDigits(b)
    ensures AllDigits(a + b)
    ensures DigitsValue(a + b) == DigitsValue(a) * Pow10(|b|) + DigitsValue(b)
    decreases |b|
  {
    if b == [] {
      assert a + b == a;
    } else {
      var b' := b[..|b| - 1];
      var d := DigitValue(b[|b| - 1]);
      assert (a + b)[..|a + b| - 1] == a + b';
      assert (a + b)[|a + b| - 1] == b[|b| - 1];
      DigitsValueAppend(a, b');
      var va, vb', p' := DigitsValue(a), DigitsValue(b'), Pow10(|b'|);
      assert DigitsValue(a + b) == 10 * DigitsValue(a + b') + d;
      assert DigitsValue(b) == 10 * vb' + d;
      assert Pow10(|b|) == 10 * p';
      ShiftDecimal(va, p', vb');
    }
  }

  lemma ShiftDecimal(x: int, p: int, y: int)
    ensures 10 * (x * p + y) == x * (10 * p) + 10 * y
  {
  }

  /** Python's str() of a non-negative int: canonical decimal digits. */
  function ShowNat(n: nat): (s: string)
    ensures AllDigits(s) && |s| >= 1
    ensures DigitsValue(s) == n
    ensures s[0] == '0' ==> n == 0
  {
    if n < 10 then [DigitChar(n)]
    else
      var s := ShowNat(n / 10) + [DigitChar(n % 10)];
      assert s[..|s| - 1] == ShowNat(n / 10);
      s
  }

  function ShowInt(n: int): string {
    if n < 0 then "-" + ShowNat(-n) else ShowNat(n)
  }

  /** Python's int() on a str, over ASCII digits: whitespace around the
      number is ignored and one leading sign is allowed; anything else is a
      ValueError, here None. */
  function ParseInt(s: string): (r: Option<int>)
    ensures Strip(s) == [] ==> r == None
  {
    ParseStripped(Strip(s))
  }

  /** int() once the surrounding whitespace is gone: one optional sign,
      then at least one digit and nothing else. */
  function ParseStripped(t: string): Option<int> {
    if t != [] && (t[0] == '+' || t[0] == '-') then
      var d := t[1..];
      if d != [] && AllDigits(d) then
        Some(if t[0] == '-' then -(DigitsValue(d) as int) else DigitsValue(d) as int)
      else None
    else if t != [] && AllDigits(t) then Some(DigitsValue(t) as int)
    else None
  }

  /** int() of a bare digit string is its decimal value. */
  lemma ParseIntDigits(s: string)
    requires s != [] && AllDigits(s)
    ensures ParseInt(s) == Some(DigitsValue(s) as int)
  {
    StripDigits(s);
    assert IsDigit(s[0]);
    assert ParseStripped(s) == Some(DigitsValue(s) as int);
  }

  /** int() of a text without any digit raises. */
  lemma ParseIntNoDigits(s: string)
    requires NoDigits(s)
    ensures ParseInt(s) == None
  {
    var t := Strip(s);
    CharsWithinNoDigits(t, s);
    if t != [] {
      assert !IsDigit(t[0]);
      assert t[1..] == [] || !IsDigit(t[1..][0]);
    }
    assert ParseStripped(t) == None;
  }

  /** int(str(n)) == n. */
  lemma ParseShowInt(n: int)
    ensures ParseInt(ShowInt(n)) == Some(n)
  {
    if n < 0 {
      var digits := ShowNat(-n);
      assert ShowInt(n) == ['-'] + digits;
      StripSignedDigits('-', digits);
      ParseSignedDigits('-', digits);
    } else {
      ParseIntDigits(ShowNat(n));
    }
  }

  lemma ParseSignedDigits(sign: char, digits: string)
    requires sign == '+' || sign == '-'
    requires digits != [] && AllDigits(digits)
    ensures ParseStripped([sign] + digits)
         == Some(if sign == '-' then -(DigitsValue(digits) as int) else DigitsValue(digits) as int)
  {
    var t := [sign] + digits;
    assert t[0] == sign && t[1..] == digits;
  }

  lemma StripSignedDigits(sign: char, digits: string)
    requires sign == '+' || sign == '-'
    requires digits != [] && AllDigits(digits)
    ensures Strip([sign] + digits) == [sign] + digits
  {
    var s := [sign] + digits;
    var last := digits[|digits| - 1];
    assert s[|s| - 1] == last;
    assert IsDigit(last);
    assert !IsSpace(last);
    assert !IsSpace(sign);
    assert s == [] + s + [];
    StripPadded([], s, []);
  }

  // -------------------------------------------------------------- ordering

  /** Python's `a <= b` on str: code-point lexicographic order. */
  predicate StrLe(a: string, b: string)
    ensures a <= b ==> StrLe(a, b)
    decreases |a|
  {
    if a == [] then true
    else if b == [] then false
    else if a[0] != b[0] then a[0] < b[0]
    else StrLe(a[1..], b[1..])
  }

  lemma {:induction false} StrLeTotal(a: string, b: string)
    ensures StrLe(a, b) || StrLe(b, a)
    decreases |a|
  {
    if a != [] && b != [] && a[0] == b[0] {
      StrLeTotal(a[1..], b[1..]);
    }
  }

  lemma {:induction false} StrLeAntisymmetric(a: string, b: string)
    requires StrLe(a, b) && StrLe(b, a)
    ensures a == b
    decreases |a|
  {
    if a != [] && b != [] {
      StrLeAntisymmetric(a[1..], b[1..]);
      assert a == [a[0]] + a[1..] && b == [b[0]] + b[1..];
    }
  }

  lemma {:induction false} StrLeTransitive(a: string, b: string, c: string)
    requires StrLe(a, b) && StrLe(b, c)
    ensures StrLe(a, c)
    decreases |a|
  {
    if a != [] && b != [] && c != [] && a[0] == b[0] && b[0] == c[0] {
      StrLeTransitive(a[1..], b[1..], c[1..]);
    }
  }
}
