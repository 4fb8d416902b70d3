/**
  Decimal numerals: `parseInt(digits, 10)` on a run of ASCII digits, and the
  decimal rendering a template literal gives a non-negative integer. Numbers
  are unbounded naturals here.
 */
module Decimal {

  predicate IsDigit(c: char) {
    '0' <= c <= '9'
  }

  predicate AllDigits(ds: string) {
    forall k :: 0 <= k < |ds| ==> IsDigit(ds[k])
  }

  function DigitValue(c: char): (v: nat)
    requires IsDigit(c)
    ensures v < 10
  {
    c as int - '0' as int
  }

  function DigitChar(d: nat): (c: char)
    requires d < 10
    ensures IsDigit(c) && DigitValue(c) == d
  {
    (d + '0' as int) as char
  }

  /** The value of a digit run, read most significant digit first (`parseInt(ds, 10)`). */
  function Parse(ds: string): nat
    requires AllDigits(ds)
    decreases |ds|
  {
    if ds == [] then 0 else 10 * Parse(ds[..|ds| - 1]) + DigitValue(ds[|ds| - 1])
  }

  /** A canonical numeral: at least one digit and no leading zero unless it is "0" itself. */
  predicate Canonical(ds: string) {
    |ds| >= 1 && AllDigits(ds) && (|ds| > 1 ==> ds[0] != '0')
  }

  /** The decimal rendering of `n`, as `${n}` produces it. */
  function Show(n: nat): (r: string)
    ensures Canonical(r)
  {
    if n < 10 then [DigitChar(n)] else Show(n / 10) + [DigitChar(n % 10)]
  }

  /** Reading back a rendered number gives the number. */
  lemma {:induction false} ParseShow(n: nat)
    ensures Parse(Show(n)) == n
  {
    var r := Show(n);
    if n >= 10 {
      assert r[..|r| - 1] == Show(n / 10);
      ParseShow(n / 10);
    } else {
      assert r[..0] == [];
    }
  }

  /** A numeral whose first digit is not zero has a positive value. */
  lemma {:induction false} ParsePositive(ds: string)
    requires |ds| >= 1 && AllDigits(ds) && ds[0] != '0'
    ensures Parse(ds) >= 1
  {
    if |ds| > 1 {
      var pre := ds[..|ds| - 1];
      assert pre[0] == ds[0];
      ParsePositive(pre);
    }
  }

  /** Rendering the value of a canonical numeral gives the numeral back. */
  lemma {:induction false} ShowParse(ds: string)
    requires Canonical(ds)
    ensures Show(Parse(ds)) == ds
  {
    var n := Parse(ds);
    var last := ds[|ds| - 1];
    if |ds| == 1 {
      assert ds[..0] == [];
      assert DigitChar(DigitValue(last)) == last;
      assert ds == [last];
    } else {
      var pre := ds[..|ds| - 1];
      assert pre[0] == ds[0];
      ParsePositive(pre);
      assert n / 10 == Parse(pre) && n % 10 == DigitValue(last);
      ShowParse(pre);
      assert DigitChar(DigitValue(last)) == last;
      assert ds == pre + [last];
    }
  }

  /** Leading zeros do not change the parsed value. */
  lemma {:induction false} LeadingZeroIgnored(ds: string)
    requires AllDigits(ds)
    ensures AllDigits("0" + ds) && Parse("0" + ds) == Parse(ds)
  {
    var z := "0" + ds;
    if ds == [] {
      assert z[..0] == [];
    } else {
      var pre := ds[..|ds| - 1];
      assert z[..|z| - 1] == "0" + pre;
      assert z[|z| - 1] == ds[|ds| - 1];
      LeadingZeroIgnored(pre);
    }
  }
}
