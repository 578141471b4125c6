/** The pieces of Python's string handling that the wait-time conversion
    relies on: `string.split(s, sep)`, `int(s)` and `float(s)`, restricted to
    unsigned decimal digit strings. */
module Text {
  import opened Wrappers

  /** Number of occurrences of `d` in `s`. */
  function Occurrences(s: string, d: char): nat
  {
    if |s| == 0 then 0 else (if s[0] == d then 1 else 0) + Occurrences(s[1..], d)
  }

  /** `string.split(s, d)`: the pieces of `s` between occurrences of `d`.
      There is always one more field than there are delimiters, and no field
      contains the delimiter. */
  function Split(s: string, d: char): (r: seq<string>)
    ensures |r| == Occurrences(s, d) + 1
    ensures forall i :: 0 <= i < |r| ==> d !in r[i]
    decreases |s|
  {
    if |s| == 0 then [""]
    else
      var rest := Split(s[1..], d);
      if s[0] == d then [""] + rest
      else [[s[0]] + rest[0]] + rest[1..]
  }

  /** `d.join(fs)`: the inverse of Split. */
  function Join(fs: seq<string>, d: char): string
    requires |fs| >= 1
  {
    if |fs| == 1 then fs[0] else fs[0] + [d] + Join(fs[1..], d)
  }

  /** A leading run without the delimiter stays glued to the first field. */
  lemma {:induction false} SplitPrefix(a: string, t: string, d: char)
    requires d !in a
    ensures Split(a + t, d) == [a + Split(t, d)[0]] + Split(t, d)[1..]
    decreases |a|
  {
    if |a| > 0 {
      assert (a + t)[1..] == a[1..] + t;
      SplitPrefix(a[1..], t, d);
      var r := Split(a[1..] + t, d);
      assert r[0] == a[1..] + Split(t, d)[0];
      assert [a[0]] + r[0] == a + Split(t, d)[0];
      assert r[1..] == Split(t, d)[1..];
    } else {
      assert a + t == t;
      var r := Split(t, d);
      assert a + r[0] == r[0];
      assert [r[0]] + r[1..] == r;
    }
  }

  /** Splitting what was joined gives back the fields. */
  lemma {:induction false} SplitJoin(fs: seq<string>, d: char)
    requires |fs| >= 1
    requires forall i :: 0 <= i < |fs| ==> d !in fs[i]
    ensures Split(Join(fs, d), d) == fs
    decreases |fs|
  {
    if |fs| == 1 {
      SplitPrefix(fs[0], "", d);
      assert fs[0] + "" == fs[0];
    } else {
      var t := Join(fs[1..], d);
      SplitJoin(fs[1..], d);
      assert ([d] + t)[1..] == t;
      assert Split([d] + t, d) == [""] + fs[1..];
      SplitPrefix(fs[0], [d] + t, d);
      assert fs[0] + [d] + t == fs[0] + ([d] + t);
      assert fs[0] + "" == fs[0];
      assert [fs[0]] + fs[1..] == fs;
    }
  }

  /** Prepending a character to the first field prepends it to the join. */
  lemma JoinCons(c: char, fs: seq<string>, d: char)
    requires |fs| >= 1
    ensures Join([[c] + fs[0]] + fs[1..], d) == [c] + Join(fs, d)
  {
    var r := [[c] + fs[0]] + fs[1..];
    if |fs| > 1 {
      assert r[1..] == fs[1..];
      assert [c] + fs[0] + [d] + Join(fs[1..], d) == [c] + (fs[0] + [d] + Join(fs[1..], d));
    }
  }

  /** Joining what was split gives back the string. */
  lemma {:induction false} JoinSplit(s: string, d: char)
    ensures Join(Split(s, d), d) == s
    decreases |s|
  {
    if |s| > 0 {
      var rest := Split(s[1..], d);
      JoinSplit(s[1..], d);
      if s[0] == d {
        assert ([""] + rest)[1..] == rest;
      } else {
        JoinCons(s[0], rest, d);
      }
      assert [s[0]] + s[1..] == s;
    }
  }

  /** Joining concatenated field lists puts one delimiter between the parts. */
  lemma {:induction false} JoinAppend(a: seq<string>, b: seq<string>, d: char)
    requires |a| >= 1 && |b| >= 1
    ensures Join(a + b, d) == Join(a, d) + [d] + Join(b, d)
    decreases |a|
  {
    if |a| == 1 {
      assert (a + b)[1..] == b;
    } else {
      assert (a + b)[1..] == a[1..] + b;
      JoinAppend(a[1..], b, d);
    }
  }

  /** Splitting `t + d + x` gives the fields of `t` followed by those of `x`. */
  lemma SplitAppend(t: string, x: string, d: char)
    ensures Split(t + [d] + x, d) == Split(t, d) + Split(x, d)
  {
    var ft, fx := Split(t, d), Split(x, d);
    JoinSplit(t, d);
    JoinSplit(x, d);
    JoinAppend(ft, fx, d);
    SplitJoin(ft + fx, d);
  }

  predicate IsDigit(c: char) { '0' <= c <= '9' }

  predicate IsDigits(s: string) { forall i :: 0 <= i < |s| ==> IsDigit(s[i]) }

  function DigitValue(c: char): (v: nat)
    requires IsDigit(c)
    ensures v < 10
  {
    (c as int - '0' as int) as nat
  }

  function DigitChar(v: nat): (c: char)
    requires v < 10
    ensures IsDigit(c) && DigitValue(c) == v
  {
    ('0' as int + v) as char
  }

  /** The number a digit string denotes in base 10 (0 for the empty string). */
  function DigitsValue(s: string): nat
    requires IsDigits(s)
    decreases |s|
  {
    if |s| == 0 then 0 else DigitsValue(s[..|s| - 1]) * 10 + DigitValue(s[|s| - 1])
  }

  function Pow10(n: nat): (r: nat)
    ensures r >= 1
  {
    if n == 0 then 1 else 10 * Pow10(n - 1)
  }

  /** A string of n digits denotes a number below 10^n. */
  lemma {:induction false} DigitsValueBound(s: string)
    requires IsDigits(s)
    ensures DigitsValue(s) < Pow10(|s|)
    decreases |s|
  {
    if |s| > 0 {
      var p := s[..|s| - 1];
      DigitsValueBound(p);
      assert DigitsValue(p) + 1 <= Pow10(|p|);
      assert DigitsValue(p) * 10 + 10 <= Pow10(|p|) * 10;
    }
  }

  /** `int(s)` on a string of decimal digits; any other string raises. */
  function ParseInt(s: string): (r: Option<nat>)
    ensures r.Some? <==> |s| > 0 && IsDigits(s)
  {
    if |s| > 0 && IsDigits(s) then Some(DigitsValue(s)) else None
  }

  /** The decimal rendering of a natural number, without leading zeros. */
  function ShowNat(n: nat): (s: string)
    ensures |s| > 0 && IsDigits(s)
    ensures |s| > 1 ==> s[0] != '0'
    decreases n
  {
    if n < 10 then [DigitChar(n)] else ShowNat(n / 10) + [DigitChar(n % 10)]
  }

  /** int() reads back what ShowNat renders. */
  lemma {:induction false} ParseShowNat(n: nat)
    ensures ParseInt(ShowNat(n)) == Some(n)
    decreases n
  {
    var s := ShowNat(n);
    if n < 10 {
      assert s[..0] == "";
    } else {
      ParseShowNat(n / 10);
      assert s[..|s| - 1] == ShowNat(n / 10);
      assert DigitsValue(s) == (n / 10) * 10 + n % 10;
    }
  }

  /** `float(s)` on an unsigned decimal: digits with at most one '.', and at
      least one digit in all. */
  function ParseDecimal(s: string): (r: Option<real>)
    ensures r.Some? ==> r.value >= 0.0
  {
    var parts := Split(s, '.');
    if |parts| == 1 then
      if |s| > 0 && IsDigits(s) then Some(DigitsValue(s) as real) else None
    else if |parts| == 2 && IsDigits(parts[0]) && IsDigits(parts[1]) && |parts[0]| + |parts[1]| > 0 then
      Some(DigitsValue(parts[0]) as real + DigitsValue(parts[1]) as real / Pow10(|parts[1]|) as real)
    else None
  }

  lemma {:induction false} SplitWithout(s: string, d: char)
    requires d !in s
    ensures Split(s, d) == [s]
  {
    SplitPrefix(s, "", d);
    assert s + "" == s;
  }

  lemma NoDelimiterInDigits(s: string, d: char)
    requires IsDigits(s) && !IsDigit(d)
    ensures d !in s
  {
  }

  lemma RatioBelowOne(v: real, p: real)
    requires 0.0 <= v < p
    ensures 0.0 <= v / p < 1.0
  {
    var q := v / p;
    assert q * p == v;
  }

  /** The digits after the point contribute less than one. */
  lemma FractionBelowOne(fp: string)
    requires IsDigits(fp)
    ensures 0.0 <= DigitsValue(fp) as real / Pow10(|fp|) as real < 1.0
  {
    DigitsValueBound(fp);
    RatioBelowOne(DigitsValue(fp) as real, Pow10(|fp|) as real);
  }

  /** float() and int() agree on digit strings. */
  lemma DecimalOfDigits(s: string)
    requires |s| > 0 && IsDigits(s)
    ensures ParseDecimal(s) == Some(ParseInt(s).value as real)
  {
    NoDelimiterInDigits(s, '.');
    SplitWithout(s, '.');
  }

  /** A string with exactly one '.' splits into the digits on either side. */
  lemma SplitAtPoint(ip: string, fp: string)
    requires IsDigits(ip) && IsDigits(fp)
    ensures Split(ip + "." + fp, '.') == [ip, fp]
  {
    NoDelimiterInDigits(ip, '.');
    NoDelimiterInDigits(fp, '.');
    assert Join([ip, fp], '.') == ip + "." + fp by {
      assert [ip, fp][1..] == [fp];
    }
    SplitJoin([ip, fp], '.');
  }

  /** A number written `ip.fp` lies in [ip, ip + 1): the fraction is below one. */
  lemma DecimalFraction(ip: string, fp: string)
    requires IsDigits(ip) && IsDigits(fp) && |ip| + |fp| > 0
    ensures ParseDecimal(ip + "." + fp).Some?
    ensures DigitsValue(ip) as real <= ParseDecimal(ip + "." + fp).value < DigitsValue(ip) as real + 1.0
  {
    SplitAtPoint(ip, fp);
    FractionBelowOne(fp);
  }
}
