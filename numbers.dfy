/**
  Decimal digits and the two number conversions the engine performs on
  text: the exact value `parseFloat` assigns to a matched number token, and
  `parseInt(s, 10)` applied to the winner count.
 */
module Numbers {
  import opened Optional
  import opened Text

  predicate IsDigit(c: char) {
    '0' <= c <= '9'
  }

  predicate AllDigits(s: string) {
    forall i :: 0 <= i < |s| ==> IsDigit(s[i])
  }

  function DigitValue(c: char): (n: nat)
    requires IsDigit(c)
    ensures n < 10
  {
    c as int - '0' as int
  }

  function Pow10(k: nat): (p: nat)
    ensures p >= 1
  {
    if k == 0 then 1 else 10 * Pow10(k - 1)
  }

  /** The value of a string of decimal digits, most significant first. */
  function DigitsValue(s: string): (n: nat)
    requires AllDigits(s)
    ensures n < Pow10(|s|)
  {
    if s == [] then 0
    else
      var m := DigitsValue(s[..|s| - 1]);
      var d := DigitValue(s[|s| - 1]);
      assert m * 10 + d < Pow10(|s| - 1) * 10 by {
        assert m + 1 <= Pow10(|s| - 1);
        assert (m + 1) * 10 <= Pow10(|s| - 1) * 10;
      }
      m * 10 + d
  }

  /** The length of the run of digits that starts at position `q`. */
  function DigitRun(s: string, q: nat): (n: nat)
    requires q <= |s|
    ensures q + n <= |s|
    ensures forall i :: q <= i < q + n ==> IsDigit(s[i])
    ensures q + n < |s| ==> !IsDigit(s[q + n])
    decreases |s| - q
  {
    if q < |s| && IsDigit(s[q]) then 1 + DigitRun(s, q + 1) else 0
  }

  /** A run of digits is no longer than the maximal run at its start. */
  lemma DigitRunIsMaximal(s: string, q: nat, j: nat)
    requires q + j <= |s|
    requires forall i :: q <= i < q + j ==> IsDigit(s[i])
    ensures j <= DigitRun(s, q)
  {
  }

  /** Digits, then optionally `.` and at least one digit; the integer
      part may be empty only when a fraction follows. */
  predicate IsUnsignedDecimal(u: string) {
    var k := IndexOfChar(u, '.');
    && AllDigits(u[..k])
    && (k == |u| ==> k > 0)
    && (k < |u| ==> k + 1 < |u| && AllDigits(u[k + 1..]))
  }

  /** The numeric text `parseFloat` reads exactly: an optional sign, then
      an unsigned decimal. */
  predicate IsDecimalText(t: string) {
    IsUnsignedDecimal(Unsigned(t))
  }

  /** The text after an optional leading sign. */
  function Unsigned(t: string): (u: string)
    ensures u == t || (t != [] && (t[0] == '-' || t[0] == '+') && u == t[1..])
  {
    if t != [] && (t[0] == '-' || t[0] == '+') then t[1..] else t
  }

  /** The exact value of an unsigned decimal: the integer part plus the
      fraction digits over the matching power of ten. */
  function UnsignedValue(u: string): (v: real)
    requires IsUnsignedDecimal(u)
    ensures v >= 0.0
  {
    var k := IndexOfChar(u, '.');
    var whole := DigitsValue(u[..k]) as real;
    var frac := if k < |u| then DigitsValue(u[k + 1..]) as real / Pow10(|u| - k - 1) as real else 0.0;
    whole + frac
  }

  /** The exact value of a decimal text: its unsigned value, negated after
      a leading minus sign. */
  function DecimalValue(t: string): (v: real)
    requires IsDecimalText(t)
  {
    var v := UnsignedValue(Unsigned(t));
    if t != [] && t[0] == '-' then -v else v
  }

  /** A leading minus sign negates the value; a leading plus sign does not
      change it. */
  lemma DecimalValueSign(u: string)
    requires IsDecimalText(u) && u != [] && u[0] != '-' && u[0] != '+'
    ensures IsDecimalText("-" + u) && DecimalValue("-" + u) == -DecimalValue(u)
    ensures IsDecimalText("+" + u) && DecimalValue("+" + u) == DecimalValue(u)
  {
    assert Unsigned(u) == u;
    assert Unsigned("-" + u) == u;
    assert Unsigned("+" + u) == u;
  }

  /** A digit string reads as its integer value. */
  lemma DecimalValueOfDigits(d: string)
    requires d != [] && AllDigits(d)
    ensures IsDecimalText(d) && DecimalValue(d) == DigitsValue(d) as real
  {
    assert Unsigned(d) == d;
    assert IndexOfChar(d, '.') == |d|;
    assert d[..|d|] == d;
  }

  /** Digits (possibly none), a `.` at `k` and at least one more digit
      read as the whole part plus the fraction digits over ten to the
      power of their count. */
  lemma DecimalValueOfFraction(t: string, k: nat)
    requires k < |t| - 1 && t[k] == '.' && AllDigits(t[..k]) && AllDigits(t[k + 1..])
    ensures IsDecimalText(t)
    ensures DecimalValue(t) == DigitsValue(t[..k]) as real + DigitsValue(t[k + 1..]) as real / Pow10(|t| - k - 1) as real
  {
    if k == 0 {
      FractionOnly(t);
      assert DigitsValue(t[..0]) == 0;
    } else {
      WholeThenFraction(t, k);
    }
  }

  /** The value of an unsigned decimal whose `.` is at `k`. */
  lemma UnsignedValueAt(u: string, k: nat)
    requires IsUnsignedDecimal(u) && k < |u| && IndexOfChar(u, '.') == k
    ensures UnsignedValue(u) == DigitsValue(u[..k]) as real + DigitsValue(u[k + 1..]) as real / Pow10(|u| - k - 1) as real
  {
  }

  lemma FractionOnly(t: string)
    requires 1 < |t| && t[0] == '.' && AllDigits(t[1..])
    ensures IsDecimalText(t)
    ensures DecimalValue(t) == DigitsValue(t[1..]) as real / Pow10(|t| - 1) as real
  {
    IndexOfCharIs(t, '.', 0);
    var u := Unsigned(t);
    assert u == t;
    assert IndexOfChar(u, '.') == 0;
    assert AllDigits(u[..0]) && DigitsValue(u[..0]) == 0;
    assert IsUnsignedDecimal(u);
    UnsignedValueAt(u, 0);
  }

  lemma WholeThenFraction(t: string, k: nat)
    requires 0 < k < |t| - 1 && t[k] == '.' && AllDigits(t[..k]) && AllDigits(t[k + 1..])
    ensures IsDecimalText(t)
    ensures DecimalValue(t) == DigitsValue(t[..k]) as real + DigitsValue(t[k + 1..]) as real / Pow10(|t| - k - 1) as real
  {
    assert t[0] == t[..k][0];
    forall j | 0 <= j < k ensures t[j] != '.' {
      assert t[j] == t[..k][j];
    }
    IndexOfCharIs(t, '.', k);
    assert IsDigit(t[0]);
    var u := Unsigned(t);
    assert u == t;
    assert IndexOfChar(u, '.') == k;
    assert AllDigits(u[..k]);
    assert AllDigits(u[k + 1..]);
    assert IsDecimalText(t);
  }

  /** `parseInt(s, 10)`: skip leading whitespace, read one optional sign,
      then the longest run of digits; NaN (`None`) when there is no digit.
      Whatever follows the digits is ignored. */
  function ParseInt(s: string): (r: Option<int>)
  {
    var t := TrimStart(s);
    var u := Unsigned(t);
    var n := DigitRun(u, 0);
    var magnitude: int := DigitsValue(u[..n]);
    if n == 0 then None
    else if t != [] && t[0] == '-' then Some(-magnitude)
    else Some(magnitude)
  }

  /** `parseInt` is NaN exactly when no digit follows the leading
      whitespace and the optional sign. */
  lemma ParseIntNaN(s: string)
    ensures var u := Unsigned(TrimStart(s));
      ParseInt(s).None? <==> (u == [] || !IsDigit(u[0]))
  {
  }

  /** The decimal numeral of a natural number, without leading zeros. */
  function Numeral(n: nat): (s: string)
    ensures s != [] && AllDigits(s)
    ensures |s| > 1 ==> s[0] != '0'
  {
    var d := [('0' as int + n % 10) as char];
    if n < 10 then d else Numeral(n / 10) + d
  }

  lemma {:induction false} NumeralValue(n: nat)
    ensures DigitsValue(Numeral(n)) == n
  {
    var s := Numeral(n);
    if n >= 10 {
      NumeralValue(n / 10);
      assert s[..|s| - 1] == Numeral(n / 10);
    }
  }

  /** `parseInt` reads back the numeral of any natural number, also when
      other text follows it. */
  lemma ParseIntNumeral(n: nat, rest: string)
    requires rest == [] || !IsDigit(rest[0])
    ensures ParseInt(Numeral(n) + rest) == Some(n)
  {
    var s := Numeral(n) + rest;
    var d := Numeral(n);
    assert s[0] == d[0] && IsDigit(s[0]);
    assert TrimStart(s) == s;
    assert Unsigned(s) == s;
    DigitRunIsMaximal(s, 0, |d|);
    assert |d| < |s| ==> s[|d|] == rest[0];
    assert DigitRun(s, 0) == |d|;
    assert s[..|d|] == d;
    NumeralValue(n);
  }
}
