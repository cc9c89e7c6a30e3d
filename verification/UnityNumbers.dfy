/** The integer printers of unity.c on a 64-bit `UNITY_INT`. */
module UnityNumbers {
  import opened CText
  import opened Decimals
  import Divisions

  const TWO_64: int := 0x1_0000_0000_0000_0000

  /** `UNITY_UINT`: arithmetic on it is checked to stay in range. */
  newtype uint64 = x: int | 0 <= x < 0x1_0000_0000_0000_0000

  /** The conversion from `UNITY_INT`, and negation, wrap around. */
  function Wrap(v: int): uint64 { (v % TWO_64) as uint64 }

  lemma TenfoldSplit(n: nat, d: nat, q: nat, r: nat, x: nat, y: nat)
    requires n == d * q + r && r < d && q == 10 * x + y && y < 10
    ensures n == (10 * d) * x + (d * y + r) && d * y + r < 10 * d
  {
    assert d * q == d * (10 * x) + d * y;
    assert d * (10 * x) == (10 * d) * x;
    Divisions.MulOrder(d, y, 9);
  }

  /** Dividing by ten times as much is dividing once more by ten. */
  lemma DivTenfold(n: nat, d: nat)
    requires d > 0
    ensures n / (10 * d) == n / d / 10
  {
    var q, r := n / d, n % d;
    assert n == d * q + r;
    TenfoldSplit(n, d, q, r, q / 10, q % 10);
    Divisions.DivUnique(n, 10 * d, q / 10, d * (q % 10) + r);
  }

  /** Digits already printed: none while the quotient is 0. */
  function Printed(q: nat): string { if q == 0 then "" else Decimal(q) }

  lemma NextDigit(q: nat)
    ensures q > 0 ==> Decimal(q) == Printed(q / 10) + [DigitChar(q % 10)]
    ensures q == 0 ==> Decimal(q) == Printed(q) + [DigitChar(0)]
  {}

  lemma QuotientGrows(n: nat, d: nat)
    requires d > 0 && n / d > 9
    ensures 10 * d <= n
  {
    assert n == d * (n / d) + n % d;
    assert d * 10 <= d * (n / d);
  }

  /** Before printing the digit for divisor `d`: the digits above it are out. */
  predicate Emitting(n: nat, d: nat, out: string) {
    d > 0 && IsPowerOfTen(d) && (d == 1 || d <= n) && out == Printed(n / d / 10)
  }

  lemma NextDivisor(n: nat, d: nat)
    requires IsPowerOfTen(d) && 10 <= d <= n
    ensures IsPowerOfTen(d / 10) && n / (d / 10) / 10 == n / d > 0
  {
    DivTenfold(n, d / 10);
    if n / d == 0 { QuotientZero(n, d); assert false; }
  }

  lemma LastDigit(n: nat, out: string)
    requires out == Printed(n / 10)
    ensures out + [DigitChar(n % 10)] == Decimal(n)
  {
    NextDigit(n);
  }

  /** One more digit: the number is complete, or ready for the next smaller power of ten. */
  lemma EmitDigit(n: nat, d: nat, out: string)
    requires Emitting(n, d, out)
    ensures var out' := out + [DigitChar(n / d % 10)];
            if d / 10 == 0 then out' == Decimal(n) else Emitting(n, d / 10, out')
  {
    LastDigit(n / d, out);
    if d == 1 {
      assert n / d == n;
    } else {
      NextDivisor(n, d);
    }
  }

  /** `UnityPrintNumberUnsigned`. */
  method PrintNumberUnsigned(number: uint64) returns (out: string)
    ensures out == Decimal(number as int)
    ensures Canonical(out) && DecValue(out) == number as int
  {
    var divisor := FirstDivisor(number);
    out := "";
    while true
      invariant Emitting(number as int, divisor as int, out)
      decreases divisor
    {
      EmitDigit(number as int, divisor as int, out);
      Divisions.DivAtMost(number as int, divisor as int);
      var digit := number / divisor % 10;
      out := out + [DigitChar(digit as int)];
      divisor := divisor / 10;
      if divisor == 0 { break; }
    }
    DecValueDecimal(number as int);
  }

  /** The first loop of the printer: the largest power of ten that does not exceed `number`, or 1; the
      multiplication never leaves 64 bits. */
  method FirstDivisor(number: uint64) returns (divisor: uint64)
    ensures divisor > 0 && IsPowerOfTen(divisor as int) && number / divisor <= 9
    ensures divisor == 1 || divisor <= number
  {
    divisor := 1;
    while number / divisor > 9
      invariant divisor == 1 || 0 < divisor <= number
      invariant IsPowerOfTen(divisor as int)
      decreases number as int - divisor as int
    {
      QuotientGrows(number as int, divisor as int);
      divisor := divisor * 10;
    }
  }

  predicate IsPowerOfTen(d: nat)
    decreases d
  { d == 1 || (d >= 10 && d % 10 == 0 && IsPowerOfTen(d / 10)) }

  lemma QuotientZero(n: nat, d: nat)
    requires d > 0 && n / d == 0
    ensures n < d
  {}

  /** Negating the wrapped value of a negative number gives its magnitude, the least number included. */
  lemma WrapNegative(v: int)
    requires LONG_MIN <= v < 0
    ensures Wrap(0 - Wrap(v) as int) as int == 0 - v
  {
    assert Wrap(v) as int == v + TWO_64;
  }

  /** A minus sign exactly before negative numbers, then the magnitude in decimal without superfluous zeros. */
  predicate IsSignedText(out: string, v: int) {
    && out != "" && (out[0] == '-' <==> v < 0)
    && (v < 0 ==> Canonical(out[1..]) && DecValue(out[1..]) == -v)
    && (v >= 0 ==> Canonical(out) && DecValue(out) == v)
  }

  lemma SignedText(v: int, digits: string)
    requires Canonical(digits) && DecValue(digits) == if v < 0 then -v else v
    ensures IsSignedText(if v < 0 then "-" + digits else digits, v)
    ensures (if v < 0 then "-" + digits else digits) == SignedDecimal(v)
  {
    CanonicalUnique(digits);
    assert ("-" + digits)[1..] == digits;
    assert IsDigit(digits[0]);
  }

  /** The text of a number is determined by that. */
  lemma SignedTextUnique(out: string, out': string, v: int)
    requires IsSignedText(out, v) && IsSignedText(out', v)
    ensures out == out'
  {
    if v < 0 {
      CanonicalUnique(out[1..]);
      CanonicalUnique(out'[1..]);
      assert out == [out[0]] + out[1..] && out' == [out'[0]] + out'[1..];
    } else {
      CanonicalUnique(out);
      CanonicalUnique(out');
    }
  }

  /** `UnityPrintNumber`: every value of `UNITY_INT`, the least one included. */
  method PrintNumber(numberToPrint: int) returns (out: string)
    requires LONG_MIN <= numberToPrint <= LONG_MAX
    ensures IsSignedText(out, numberToPrint) && out == SignedDecimal(numberToPrint)
  {
    var number := Wrap(numberToPrint);
    if numberToPrint < 0 {
      WrapNegative(numberToPrint);
      number := Wrap(0 - number as int);
      var digits := PrintNumberUnsigned(number);
      out := "-" + digits;
      SignedText(numberToPrint, digits);
    } else {
      out := PrintNumberUnsigned(number);
      SignedText(numberToPrint, out);
    }
  }

  /** Printing and reading back: `read_int_from_buffer` takes a printed number exactly when it fits in `int`. */
  method PrintThenRead(v: int, n: int) returns (rc: int, n': int)
    requires LONG_MIN <= v <= LONG_MAX
    ensures rc == 0 <==> INT_MIN <= v <= INT_MAX
    ensures n' == if rc == 0 then v else n
  {
    var text := PrintNumber(v);
    SignedDecimalReadBack(v);
    rc, n' := ReadIntFromBuffer(text, n);
  }

  // ---------------------------------------------------------------- hexadecimal

  function HexChar(d: nat): char
    requires d < 16
  { if d <= 9 then '0' + d as char else 'A' + (d - 10) as char }

  predicate IsHexDigit(c: char) { '0' <= c <= '9' || 'A' <= c <= 'F' }

  function HexDigitValue(c: char): nat
    requires IsHexDigit(c)
  { if c <= '9' then c as int - '0' as int else c as int - 'A' as int + 10 }

  predicate AllHexDigits(s: string) { forall i | 0 <= i < |s| :: IsHexDigit(s[i]) }

  function HexValue(s: string): nat
    requires AllHexDigits(s)
  { if s == "" then 0 else 16 * HexValue(s[..|s| - 1]) + HexDigitValue(s[|s| - 1]) }

  function Pow16(k: nat): (p: nat)
    ensures p > 0
  { if k == 0 then 1 else 16 * Pow16(k - 1) }

  /** The low `k` nibbles of `x`, most significant first. */
  function HexText(x: nat, k: nat): (s: string)
    ensures |s| == k && AllHexDigits(s)
    decreases k
  { if k == 0 then "" else HexText(x / 16, k - 1) + [HexChar(x % 16)] }

  lemma ModStep(x: nat, p: nat)
    requires p > 0
    ensures x % (16 * p) == 16 * (x / 16 % p) + x % 16
  {
    var y := x / 16;
    assert y == p * (y / p) + y % p;
    assert x == 16 * y + x % 16;
    assert x == (16 * p) * (y / p) + (16 * (y % p) + x % 16);
    assert 16 * (y % p) + x % 16 < 16 * p;
    Divisions.DivUnique(x, 16 * p, y / p, 16 * (y % p) + x % 16);
  }

  /** The text denotes the value modulo 16 to the number of digits. */
  lemma {:induction false} HexTextValue(x: nat, k: nat)
    ensures HexValue(HexText(x, k)) == x % Pow16(k)
    decreases k
  {
    if k > 0 {
      HexTextValue(x / 16, k - 1);
      ModStep(x, Pow16(k - 1));
      var s := HexText(x, k);
      assert s[..|s| - 1] == HexText(x / 16, k - 1);
    }
  }

  lemma HexTextNext(x: nat, j: nat)
    ensures HexText(x, j + 1) == HexText(x / 16, j) + [HexChar(x % 16)]
  {}

  /** `n >> (k * 4)`. */
  function Shifted(n: nat, k: nat): nat { if k == 0 then n else Shifted(n, k - 1) / 16 }

  /** The loop of the hexadecimal printer: nibbles from the most significant of those wanted. */
  method EmitNibbles(number: nat, count: nat) returns (out: string)
    ensures out == HexText(number, count)
  {
    var nibbles := count;
    out := "";
    while nibbles > 0
      invariant 0 <= nibbles <= count && out == HexText(Shifted(number, nibbles), count - nibbles)
    {
      nibbles := nibbles - 1;
      HexTextNext(Shifted(number, nibbles), count - nibbles - 1);
      out := out + [HexChar(Shifted(number, nibbles) % 16)];
    }
  }

  /** `UnityPrintNumberHex`; the count is a `char`, so it may be negative and then compares as a large unsigned. */
  method PrintNumberHex(number: uint64, nibblesToPrint: int) returns (out: string)
    requires -128 <= nibblesToPrint < 128
    ensures var k := if 0 <= nibblesToPrint <= 16 then nibblesToPrint else 16;
            |out| == k && AllHexDigits(out) && HexValue(out) == number as int % Pow16(k)
  {
    var nibbles := nibblesToPrint;
    if nibbles < 0 || nibbles > 16 { nibbles := 16; }
    HexTextValue(number as int, nibbles);
    out := EmitNibbles(number as int, nibbles);
  }
}
