/** Canonical decimal text, the common ground of the number printers and the number readers. */
module Decimals {
  import opened CText
  import opened Wrappers

  function DigitChar(d: nat): (c: char)
    requires d < 10
    ensures IsDigit(c) && DigitValue(c) == d
  { '0' + d as char }

  /** `n` in decimal without leading zeros. */
  function Decimal(n: nat): (s: string)
    ensures s != "" && AllDigits(s)
    decreases n
  {
    if n < 10 then [DigitChar(n)] else Decimal(n / 10) + [DigitChar(n % 10)]
  }

  /** A signed value in decimal. */
  function SignedDecimal(v: int): string { if v < 0 then "-" + Decimal(0 - v) else Decimal(v) }

  /** Digit text without a superfluous leading zero. */
  predicate Canonical(ds: string) { ds != "" && AllDigits(ds) && (|ds| > 1 ==> ds[0] != '0') }

  lemma {:induction false} DecValueDecimal(n: nat)
    ensures DecValue(Decimal(n)) == n && Canonical(Decimal(n))
    ensures n > 0 ==> Decimal(n)[0] != '0'
    decreases n
  {
    var s := Decimal(n);
    if n < 10 {
      assert DecValue("") == 0;
      assert s[..0] == "";
    } else {
      DecValueDecimal(n / 10);
      assert s[..|s| - 1] == Decimal(n / 10);
    }
  }

  lemma DecimalSnoc(v: nat, d: nat)
    requires v > 0 && d < 10
    ensures Decimal(10 * v + d) == Decimal(v) + [DigitChar(d)]
  {
    assert (10 * v + d) / 10 == v && (10 * v + d) % 10 == d;
  }

  /** Canonical text is determined by its value. */
  lemma {:induction false} CanonicalUnique(ds: string)
    requires Canonical(ds)
    ensures Decimal(DecValue(ds)) == ds
    decreases |ds|
  {
    var front, last := ds[..|ds| - 1], ds[|ds| - 1];
    assert ds == front + [last];
    assert DigitChar(DigitValue(last)) == last;
    if |ds| == 1 {
      assert front == "";
    } else {
      CanonicalUnique(front);
      PositiveValue(front);
      DecimalSnoc(DecValue(front), DigitValue(last));
    }
  }

  lemma {:induction false} PositiveValue(ds: string)
    requires ds != "" && AllDigits(ds) && ds[0] != '0'
    ensures DecValue(ds) > 0
  {
    if |ds| > 1 { PositiveValue(ds[..|ds| - 1]); }
  }

  /** Appending a digit. */
  lemma DecValueSnoc(ds: string, c: char)
    requires AllDigits(ds) && IsDigit(c)
    ensures AllDigits(ds + [c]) && DecValue(ds + [c]) == 10 * DecValue(ds) + DigitValue(c)
  {
    assert (ds + [c])[..|ds|] == ds;
  }

  lemma SignedDecimalNumeral(v: int) returns (sign: string, ds: string)
    ensures IsNumeral(SignedDecimal(v), "", sign, ds) && SignedValue(sign, DecValue(ds)) == v
  {
    sign := if v < 0 then "-" else "";
    ds := if v < 0 then Decimal(0 - v) else Decimal(v);
    DecValueDecimal(if v < 0 then 0 - v else v);
    assert "" + sign + ds == SignedDecimal(v);
  }

  /** Printed integers are read back when they fit in `int`, and refused otherwise. */
  lemma SignedDecimalReadBack(v: int)
    ensures ParseInt(SignedDecimal(v)) == if INT_MIN <= v <= INT_MAX then Some(v) else None
  {
    var sign, ds := SignedDecimalNumeral(v);
    ParseIntNumeral(SignedDecimal(v), "", sign, ds);
  }
}
