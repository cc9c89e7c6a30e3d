/** The digit emission half of `UnityPrintFloat`: from the scaled integer `n` and the decimal exponent to text. */
module UnityFloats {
  import opened CText
  import opened Decimals
  import Seqs

  // ---------------------------------------------------------------- what the text denotes

  /** 10 to an integer power. */
  function Ten(k: int): real
    decreases if k < 0 then -k else k
  { if k == 0 then 1.0 else if k > 0 then 10.0 * Ten(k - 1) else Ten(k + 1) / 10.0 }

  lemma TenNext(k: int)
    ensures Ten(k + 1) == 10.0 * Ten(k)
  {}

  /** `n` times ten to the power `k`. */
  function Scaled(n: nat, k: int): real { n as real * Ten(k) }

  lemma ScaledTenfold(n: nat, k: int)
    ensures Scaled(10 * n, k) == Scaled(n, k + 1)
  {
    TenNext(k);
  }

  /** A decimal floating-point text: integer digits, fraction digits after a point if any, a signed exponent
      after an `e` if any. */
  datatype FloatText = FloatText(whole: string, fraction: string, sign: string, exponent: string) {
    ghost predicate WellFormed() {
      && AllDigits(whole) && AllDigits(fraction) && AllDigits(exponent) && whole != ""
      && (sign == "+" || sign == "-" || (sign == "" && exponent == ""))
    }

    function Text(): string {
      whole + (if fraction == "" then "" else "." + fraction) + (if sign == "" then "" else "e" + sign + exponent)
    }

    ghost function Exponent(): int
      requires WellFormed()
    { SignedValue(sign, DecValue(exponent)) }

    /** The digits as one integer, scaled by the exponent and the number of fraction digits. */
    ghost function Value(): real
      requires WellFormed()
    { Scaled(DecValue(Digits()), Exponent() - |fraction|) }

    ghost function Digits(): (ds: string)
      requires WellFormed()
      ensures AllDigits(ds)
    { whole + fraction }
  }

  lemma CutUnique(a: string, x: string, b: string, y: string, c: char)
    requires a + x == b + y && c !in a && c !in b
    requires (x == "" || x[0] == c) && (y == "" || y[0] == c)
    ensures a == b && x == y
  {
    var s := a + x;
    assert s[..|a|] == a && s[|a|..] == x && s[..|b|] == b && s[|b|..] == y;
    Seqs.IndexOfUnique(s, c, |a|);
    Seqs.IndexOfUnique(s, c, |b|);
  }

  /** A text is read in one way only, so it denotes one value. */
  lemma TextUnique(t: FloatText, u: FloatText)
    requires t.WellFormed() && u.WellFormed() && t.Text() == u.Text()
    ensures t == u
  {
    var tf, uf := if t.fraction == "" then "" else "." + t.fraction, if u.fraction == "" then "" else "." + u.fraction;
    var te := if t.sign == "" then "" else "e" + t.sign + t.exponent;
    var ue := if u.sign == "" then "" else "e" + u.sign + u.exponent;
    CutUnique(t.whole + tf, te, u.whole + uf, ue, 'e');
    CutUnique(t.whole, tf, u.whole, uf, '.');
    assert tf[|tf| - |t.fraction|..] == t.fraction && uf[|uf| - |u.fraction|..] == u.fraction;
    if te != "" { assert te[1..2] == t.sign && te[2..] == t.exponent && ue[1..2] == u.sign && ue[2..] == u.exponent; }
  }

  // ---------------------------------------------------------------- digits through the reverse buffer

  function Reverse(s: string): (r: string)
    ensures |r| == |s|
  { if s == "" then "" else [s[|s| - 1]] + Reverse(s[..|s| - 1]) }

  lemma {:induction false} ReverseAt(s: string, i: nat)
    requires i < |s|
    ensures Reverse(s)[i] == s[|s| - 1 - i]
  {
    if i > 0 { ReverseAt(s[..|s| - 1], i - 1); }
  }

  /** `n` in decimal, padded with zeros to at least `width` digits. */
  function Padded(n: nat, width: nat): (s: string)
    ensures AllDigits(s) && |s| >= width
    decreases n, width
  {
    if n == 0 && width == 0 then ""
    else Padded(n / 10, if width == 0 then 0 else width - 1) + [DigitChar(n % 10)]
  }

  lemma {:induction false} PaddedValue(n: nat, width: nat)
    ensures DecValue(Padded(n, width)) == n
    decreases n, width
  {
    if n != 0 || width != 0 {
      var w := if width == 0 then 0 else width - 1;
      PaddedValue(n / 10, w);
      DecValueSnoc(Padded(n / 10, w), DigitChar(n % 10));
    }
  }

  function Minus(a: nat, b: nat): nat { if a < b then 0 else a - b }

  /** Digits padded to this width and not beyond it: longer text has no leading zero. */
  predicate FillsWidth(s: string, width: nat) { AllDigits(s) && (|s| == width || (|s| > width && s[0] != '0')) }

  lemma {:induction false} PaddedFills(n: nat, width: nat)
    ensures FillsWidth(Padded(n, width), width)
    decreases n, width
  {
    if n != 0 || width != 0 {
      var w := Minus(width, 1);
      PaddedFills(n / 10, w);
      PaddedValue(n / 10, w);
      var front := Padded(n / 10, w);
      assert Padded(n, width) == front + [DigitChar(n % 10)];
    }
  }

  /** Text that fills a width is determined by its value. */
  lemma {:induction false} FillsUnique(s: string, width: nat)
    requires FillsWidth(s, width)
    ensures s == Padded(DecValue(s), width)
    decreases |s|
  {
    if s != "" {
      var front, last := s[..|s| - 1], s[|s| - 1];
      assert s == front + [last] && DigitChar(DigitValue(last)) == last;
      if width == 0 { PositiveValue(s); }
      FillsUnique(front, Minus(width, 1));
    }
  }

  lemma {:induction false} PaddedShort(n: nat, width: nat)
    requires n < PowTen(width)
    ensures |Padded(n, width)| == width
  {
    if width > 0 { PaddedShort(n / 10, width - 1); }
  }

  /** `n` has at most `k` digits. */
  predicate DigitsAtMost(n: nat, k: nat) { if k == 0 then n == 0 else DigitsAtMost(n / 10, k - 1) }

  lemma PushDigit(s: string, c: char)
    ensures Reverse(s + [c]) == [c] + Reverse(s)
  {
    assert (s + [c])[..|s|] == s;
  }

  /** One more digit in the buffer: what is left to print in front shrinks by the digit now at its end. */
  lemma PushNext(rest: nat, width: nat, done: string)
    requires rest != 0 || width != 0
    ensures var c := DigitChar(rest % 10);
            Padded(rest / 10, Minus(width, 1)) + Reverse(done + [c]) == Padded(rest, width) + Reverse(done)
  {
    PushDigit(done, DigitChar(rest % 10));
  }

  /** The two filling loops: the digits of `n`, least significant first, at least `width` of them. */
  method FillReversed(buf: array<char>, n: nat, width: nat) returns (digits: nat)
    requires buf.Length == 16 && width <= 16 && DigitsAtMost(n, 10)
    modifies buf
    ensures digits <= 16 && Reverse(buf[..digits]) == Padded(n, width)
  {
    var rest := n;
    digits := 0;
    while rest != 0 || digits < width
      invariant digits <= 16
      invariant DigitsAtMost(rest, Minus(10, digits))
      invariant Padded(rest, Minus(width, digits)) + Reverse(buf[..digits]) == Padded(n, width)
      decreases rest, Minus(width, digits)
    {
      PushNext(rest, Minus(width, digits), buf[..digits]);
      ghost var done := buf[..digits];
      buf[digits] := DigitChar(rest % 10);
      assert buf[..digits + 1] == done + [buf[digits]];
      rest := rest / 10;
      digits := digits + 1;
    }
  }

  function PowTen(k: nat): nat { if k == 0 then 1 else 10 * PowTen(k - 1) }

  lemma {:induction false} FewDigits(n: nat, k: nat)
    requires n < PowTen(k)
    ensures DigitsAtMost(n, k)
  {
    if k > 0 { FewDigits(n / 10, k - 1); }
  }

  /** Every value of a 32-bit counter, and its magnitude, has at most ten digits. */
  lemma TenDigits(n: nat)
    requires n <= INT_MAX + 1
    ensures DigitsAtMost(n, 10)
  {
    assert PowTen(5) == 100000;
    assert PowTen(10) == 10 * (10 * (10 * (10 * (10 * PowTen(5)))));
    FewDigits(n, 10);
  }

  /** The digits of `s` down to the last `left`, with a point before the last `decimals`. */
  function Pointed(s: string, decimals: nat, left: nat): string
    requires left <= |s| && decimals <= |s|
  {
    if left >= decimals then s[..|s| - left]
    else s[..|s| - decimals] + "." + s[|s| - decimals..|s| - left]
  }

  /** The printing loop of the mantissa. */
  method DrainMantissa(buf: array<char>, count: nat, decimals: nat) returns (out: string)
    requires count <= buf.Length && decimals < count
    ensures out == Pointed(Reverse(buf[..count]), decimals, 0)
  {
    ghost var s := Reverse(buf[..count]);
    var digits := count;
    out := "";
    while digits > 0
      invariant digits <= count && out == Pointed(s, decimals, digits)
    {
      if digits == decimals { out := out + "."; }
      digits := digits - 1;
      ReverseAt(buf[..count], count - 1 - digits);
      assert s[..count - digits] == s[..count - digits - 1] + [buf[digits]];
      out := out + [buf[digits]];
    }
  }

  /** The printing loop of the exponent. */
  method DrainExponent(buf: array<char>, count: nat) returns (out: string)
    requires count <= buf.Length
    ensures out == Reverse(buf[..count])
  {
    ghost var s := Reverse(buf[..count]);
    var digits := count;
    out := "";
    while digits > 0
      invariant digits <= count && out == s[..count - digits]
    {
      digits := digits - 1;
      ReverseAt(buf[..count], count - 1 - digits);
      out := out + [buf[digits]];
    }
  }

  /** The zero-trimming loop: the scaled value does not change and the last fraction digit is not 0. */
  method TrimZeros(n: nat, decimals: nat, ghost e: int) returns (n': nat, decimals': nat)
    ensures Scaled(n', e - decimals') == Scaled(n, e - decimals)
    ensures decimals' <= decimals && n' <= n && (decimals' == 0 || n' % 10 != 0)
    ensures n < PowTen(decimals + 1) ==> n' < PowTen(decimals' + 1)
  {
    n', decimals' := n, decimals;
    while decimals' > 0 && n' % 10 == 0
      invariant decimals' <= decimals && n' <= n
      invariant Scaled(n', e - decimals') == Scaled(n, e - decimals)
      invariant n < PowTen(decimals + 1) ==> n' < PowTen(decimals' + 1)
      decreases decimals'
    {
      ScaledTenfold(n' / 10, e - decimals');
      n', decimals' := n' / 10, decimals' - 1;
    }
  }

  /** A well-formed text spells `out`, has value `v`, and no trailing zero in its fraction. */
  ghost predicate Spells(t: FloatText, out: string, v: real) {
    && t.WellFormed() && t.Text() == out && t.Value() == v
    && (t.fraction == "" || t.fraction[|t.fraction| - 1] != '0')
  }

  /** Significant digits of the single and double precision builds, and the bounds of the scaled integer. */
  predicate Precision(sigDigits: nat) { sigDigits == 7 || sigDigits == 9 }

  function MinScaled(sigDigits: nat): nat { if sigDigits == 9 then 100000000 else 1000000 }

  function MaxScaled(sigDigits: nat): nat { 10 * MinScaled(sigDigits) }

  /** The exponent digits: at least two. */
  method EmitMagnitude(buf: array<char>, magnitude: nat) returns (text: string)
    requires buf.Length == 16 && magnitude <= INT_MAX
    modifies buf
    ensures FillsWidth(text, 2) && DecValue(text) == magnitude
  {
    TenDigits(magnitude);
    PaddedValue(magnitude, 2);
    PaddedFills(magnitude, 2);
    var digits := FillReversed(buf, magnitude, 2);
    text := DrainExponent(buf, digits);
  }

  /** The exponent part: nothing, or `e`, a sign and at least two digits. */
  method EmitExponent(buf: array<char>, exponent: int) returns (out: string, ghost sign: string, ghost ds: string)
    requires buf.Length == 16 && INT_MIN < exponent <= INT_MAX
    modifies buf
    ensures AllDigits(ds) && SignedValue(sign, DecValue(ds)) == exponent
    ensures if exponent == 0 then sign == "" && ds == "" && out == ""
            else sign == (if exponent < 0 then "-" else "+") && FillsWidth(ds, 2) && out == "e" + sign + ds
  {
    if exponent == 0 { return "", "", ""; }
    var mark := if exponent < 0 then "-" else "+";
    var text := EmitMagnitude(buf, if exponent < 0 then -exponent else exponent);
    out, sign, ds := "e" + mark + text, mark, text;
  }

  lemma PaddedLast(n: nat, width: nat)
    requires width > 0
    ensures var s := Padded(n, width); s[|s| - 1] == DigitChar(n % 10)
  {}

  lemma PointedParts(s: string, decimals: nat)
    requires decimals < |s|
    ensures var whole, fraction := s[..|s| - decimals], s[|s| - decimals..];
            && whole != "" && |fraction| == decimals && whole + fraction == s
            && Pointed(s, decimals, 0) == whole + (if fraction == "" then "" else "." + fraction)
  {
    assert s[..|s|] == s;
  }

  /** The text of `n` with a point before its last `decimals` digits, and of this exponent. */
  ghost predicate Shape(t: FloatText, n: nat, decimals: nat, exponent: int) {
    && t.WellFormed() && t.whole + t.fraction == Padded(n, decimals + 1) && |t.fraction| == decimals
    && t.Exponent() == exponent && (t.sign == "" <==> exponent == 0)
    && (t.sign != "" ==> FillsWidth(t.exponent, 2))
  }

  lemma NoTrailingZero(n: nat, decimals: nat, t: FloatText)
    requires t.whole + t.fraction == Padded(n, decimals + 1) && |t.fraction| == decimals
    requires decimals == 0 || n % 10 != 0
    ensures t.fraction == "" || t.fraction[|t.fraction| - 1] != '0'
  {
    PaddedLast(n, decimals + 1);
    var s := Padded(n, decimals + 1);
    if decimals > 0 { assert s[|s| - 1] == t.fraction[decimals - 1]; }
  }

  lemma ShapeSpells(t: FloatText, n: nat, decimals: nat, exponent: int)
    requires Shape(t, n, decimals, exponent) && (decimals == 0 || n % 10 != 0)
    ensures Spells(t, t.Text(), Scaled(n, exponent - decimals))
  {
    PaddedValue(n, decimals + 1);
    assert DecValue(t.Digits()) == n;
    NoTrailingZero(n, decimals, t);
  }

  /** The text the two drained buffers spell. */
  lemma ShapeOf(n: nat, decimals: nat, exponent: int, sign: string, ds: string) returns (t: FloatText)
    requires AllDigits(ds) && SignedValue(sign, DecValue(ds)) == exponent
    requires if exponent == 0 then sign == "" && ds == "" else (sign == "-" || sign == "+") && FillsWidth(ds, 2)
    ensures Shape(t, n, decimals, exponent)
    ensures t.Text() == Pointed(Padded(n, decimals + 1), decimals, 0) + if sign == "" then "" else "e" + sign + ds
  {
    var s := Padded(n, decimals + 1);
    PointedParts(s, decimals);
    t := FloatText(s[..|s| - decimals], s[|s| - decimals..], sign, ds);
  }

  /** The buffer is filled and drained twice: digits with the point, then the exponent. */
  method EmitDigits(n: nat, decimals: nat, exponent: int) returns (out: string, ghost t: FloatText)
    requires n <= INT_MAX && decimals <= 12 && INT_MIN < exponent <= INT_MAX
    ensures out == t.Text() && Shape(t, n, decimals, exponent)
  {
    var buf := new char[16];
    TenDigits(n);
    var digits := FillReversed(buf, n, decimals + 1);
    out := DrainMantissa(buf, digits, decimals);
    var tail, sign, ds := EmitExponent(buf, exponent);
    t := ShapeOf(n, decimals, exponent, sign, ds);
    out := out + tail;
  }

  // ---------------------------------------------------------------- the layout of the text

  /** Where the last digit of the scaled integer stands, after the carry. */
  function Place(sigDigits: nat, scaled: nat, scale: int): int {
    if scaled == MaxScaled(sigDigits) then scale + 1 else scale
  }

  /** The places that are written without exponent. */
  predicate Plain(sigDigits: nat, place: int) { -(sigDigits + 3) <= place <= 0 }

  /** No leading zero before the point but a single one; an exponent exactly outside the plain places, then of at
      least two digits, counted from a single digit before the point. */
  ghost predicate LaidOut(t: FloatText, sigDigits: nat, place: int)
    requires t.WellFormed()
  {
    && Canonical(t.whole)
    && (t.sign == "" <==> Plain(sigDigits, place))
    && (t.sign != "" ==>
          |t.whole| == 1 && t.Exponent() == place + sigDigits - 1
          && (|t.exponent| == 2 || (|t.exponent| > 2 && t.exponent[0] != '0')))
  }

  /** The text the printer is to give: the exact value, no trailing zero, and that layout. */
  ghost predicate IsPrinted(out: string, sigDigits: nat, scaled: nat, scale: int) {
    exists t: FloatText ::
      Spells(t, out, Scaled(scaled, scale)) && LaidOut(t, sigDigits, Place(sigDigits, scaled, scale))
  }

  lemma CanonicalWhole(t: FloatText, n: nat, decimals: nat)
    requires AllDigits(t.whole) && t.whole + t.fraction == Padded(n, decimals + 1) && |t.fraction| == decimals
    ensures Canonical(t.whole)
    ensures n < PowTen(decimals + 1) ==> |t.whole| == 1
  {
    PaddedFills(n, decimals + 1);
    if n < PowTen(decimals + 1) { PaddedShort(n, decimals + 1); }
    assert |t.whole| > 0 ==> (t.whole + t.fraction)[0] == t.whole[0];
  }

  lemma ShapeLaidOut(t: FloatText, n: nat, decimals: nat, exponent: int, sigDigits: nat, place: int)
    requires Shape(t, n, decimals, exponent) && Precision(sigDigits)
    requires if Plain(sigDigits, place) then exponent == 0
             else exponent == place + sigDigits - 1 && n < PowTen(decimals + 1)
    ensures LaidOut(t, sigDigits, place)
  {
    CanonicalWhole(t, n, decimals);
  }

  // Such a text is the only one.

  lemma {:induction false} TenPositive(k: int)
    ensures Ten(k) > 0.0
    decreases if k < 0 then -k else k
  {
    if k > 0 { TenPositive(k - 1); } else if k < 0 { TenPositive(k + 1); }
  }

  lemma {:induction false} ScaledDown(a: nat, k: int, d: nat)
    ensures Scaled(a, k) == Scaled(a * PowTen(d), k - d)
    decreases d
  {
    if d > 0 {
      ScaledTenfold(a, k - 1);
      ScaledDown(10 * a, k - 1, d - 1);
      assert 10 * a * PowTen(d - 1) == a * PowTen(d);
    }
  }

  lemma SameScale(a: nat, b: nat, k: int)
    requires Scaled(a, k) == Scaled(b, k)
    ensures a == b
  {
    TenPositive(k);
  }

  lemma LastDigitOf(t: FloatText)
    requires t.WellFormed() && t.fraction != "" && t.fraction[|t.fraction| - 1] != '0'
    ensures DecValue(t.Digits()) % 10 != 0
  {
    var ds := t.Digits();
    assert ds[|ds| - 1] == t.fraction[|t.fraction| - 1];
  }

  /** Without trailing zeros the value fixes the number of fraction digits. */
  lemma SameFractions(t: FloatText, u: FloatText, out: string, out': string, v: real)
    requires Spells(t, out, v) && Spells(u, out', v) && t.Exponent() == u.Exponent()
    requires |t.fraction| <= |u.fraction|
    ensures |t.fraction| == |u.fraction| && DecValue(t.Digits()) == DecValue(u.Digits())
  {
    var a, b := DecValue(t.Digits()), DecValue(u.Digits());
    var k, d := t.Exponent() - |t.fraction|, |u.fraction| - |t.fraction|;
    ScaledDown(a, k, d);
    SameScale(a * PowTen(d), b, k - d);
    if d > 0 {
      LastDigitOf(u);
      TenthOf(a, d);
    }
  }

  lemma TenthOf(a: nat, d: nat)
    requires d > 0
    ensures a * PowTen(d) % 10 == 0
  {
    assert a * PowTen(d) == 10 * (a * PowTen(d - 1));
  }

  lemma DigitsFill(t: FloatText)
    requires t.WellFormed() && Canonical(t.whole)
    ensures FillsWidth(t.Digits(), |t.fraction| + 1)
  {
    assert t.Digits()[0] == t.whole[0];
  }

  lemma SameMantissa(t: FloatText, u: FloatText)
    requires t.WellFormed() && u.WellFormed() && Canonical(t.whole) && Canonical(u.whole)
    requires |t.fraction| == |u.fraction| && DecValue(t.Digits()) == DecValue(u.Digits())
    ensures t.whole == u.whole && t.fraction == u.fraction
  {
    DigitsFill(t);
    DigitsFill(u);
    FillsUnique(t.Digits(), |t.fraction| + 1);
    FillsUnique(u.Digits(), |u.fraction| + 1);
    var s := t.Digits();
    assert s[..|t.whole|] == t.whole && s[|t.whole|..] == t.fraction;
    assert s[..|u.whole|] == u.whole && s[|u.whole|..] == u.fraction;
  }

  lemma SameExponents(t: FloatText, u: FloatText, sigDigits: nat, place: int)
    requires t.WellFormed() && u.WellFormed() && LaidOut(t, sigDigits, place) && LaidOut(u, sigDigits, place)
    requires Precision(sigDigits)
    ensures t.sign == u.sign && t.exponent == u.exponent && t.Exponent() == u.Exponent()
  {
    if t.sign != "" { SignsUnique(t.sign, t.exponent, u.sign, u.exponent, place + sigDigits - 1); }
  }

  lemma SignsUnique(sign: string, ds: string, sign': string, ds': string, e: int)
    requires (sign == "+" || sign == "-") && (sign' == "+" || sign' == "-") && e != 0
    requires FillsWidth(ds, 2) && FillsWidth(ds', 2)
    requires SignedValue(sign, DecValue(ds)) == e && SignedValue(sign', DecValue(ds')) == e
    ensures sign == sign' && ds == ds'
  {
    FillsUnique(ds, 2);
    FillsUnique(ds', 2);
  }

  /** Value and layout leave no choice: there is only one text that the printer can give. */
  lemma OnlyText(out: string, out': string, sigDigits: nat, scaled: nat, scale: int)
    requires Precision(sigDigits)
    requires IsPrinted(out, sigDigits, scaled, scale) && IsPrinted(out', sigDigits, scaled, scale)
    ensures out == out'
  {
    var place, v := Place(sigDigits, scaled, scale), Scaled(scaled, scale);
    var t :| Spells(t, out, v) && LaidOut(t, sigDigits, place);
    var u :| Spells(u, out', v) && LaidOut(u, sigDigits, place);
    SameExponents(t, u, sigDigits, place);
    if |t.fraction| <= |u.fraction| { SameFractions(t, u, out, out', v); } else { SameFractions(u, t, out', out, v); }
    SameMantissa(t, u);
  }

  /** The carry into a new digit keeps the value. */
  lemma CarryKeepsValue(sigDigits: nat, scale: int)
    requires Precision(sigDigits)
    ensures Scaled(MinScaled(sigDigits), scale + 1) == Scaled(MaxScaled(sigDigits), scale)
  {
    ScaledTenfold(MinScaled(sigDigits), scale);
  }

  lemma ScaledDigits(sigDigits: nat)
    requires Precision(sigDigits)
    ensures PowTen(sigDigits) == MaxScaled(sigDigits)
  {
    assert PowTen(4) == 10000;
    assert PowTen(7) == 10 * (10 * (10 * PowTen(4)));
    assert PowTen(9) == 10 * (10 * PowTen(7));
  }

  /** The carry: the scaled integer below its bound and its place. */
  method Carry(sigDigits: nat, scaled: nat, scale: int) returns (n: nat, place: int)
    requires Precision(sigDigits) && scaled <= MaxScaled(sigDigits)
    ensures n < MaxScaled(sigDigits) && place == Place(sigDigits, scaled, scale)
    ensures Scaled(n, place) == Scaled(scaled, scale)
  {
    n, place := scaled, scale;
    if n >= MaxScaled(sigDigits) {
      CarryKeepsValue(sigDigits, place);
      n := MinScaled(sigDigits);
      place := place + 1;
    }
  }

  /** Placing the point and trimming: what is left to print. */
  method PlacePoint(sigDigits: nat, scaled: nat, place: int) returns (n: nat, decimals: nat, exponent: int)
    requires Precision(sigDigits) && scaled < MaxScaled(sigDigits)
    ensures n <= scaled && decimals <= sigDigits + 3 && (decimals == 0 || n % 10 != 0)
    ensures Scaled(n, exponent - decimals) == Scaled(scaled, place)
    ensures if Plain(sigDigits, place) then exponent == 0
            else exponent == place + sigDigits - 1 && n < PowTen(decimals + 1)
  {
    ScaledDigits(sigDigits);
    n, exponent := scaled, place;
    decimals := if exponent <= 0 && exponent >= -(sigDigits + 3) then -exponent else sigDigits - 1;
    exponent := exponent + decimals;
    assert exponent - decimals == place;
    n, decimals := TrimZeros(n, decimals, exponent);
  }

  /** From `if (n >= max_scaled)` to the end: carry, trimming, the point and the exponent. The text denotes exactly
      `scaled` times ten to `scale`, in the one layout; all digits pass through the 16-byte buffer. */
  method EmitFloat(sigDigits: nat, scaled: nat, scale: int) returns (out: string)
    requires Precision(sigDigits) && MinScaled(sigDigits) <= scaled <= MaxScaled(sigDigits)
    requires INT_MIN <= scale <= INT_MAX - sigDigits
    ensures IsPrinted(out, sigDigits, scaled, scale)
  {
    var n, place := Carry(sigDigits, scaled, scale);
    var decimals, exponent;
    n, decimals, exponent := PlacePoint(sigDigits, n, place);
    ghost var t: FloatText;
    out, t := EmitDigits(n, decimals, exponent);
    ShapeSpells(t, n, decimals, exponent);
    ShapeLaidOut(t, n, decimals, exponent, sigDigits, place);
    assert Spells(t, out, Scaled(scaled, scale));
  }
}
