/** Decimal numerals as written and read by Go's strconv. */
module Decimals {
  import Strings

  const MIN_INT64: int := -0x8000_0000_0000_0000
  const MAX_INT64: int := 0x7fff_ffff_ffff_ffff
  const TWO_64: int := 0x1_0000_0000_0000_0000

  predicate IsInt64(v: int) {
    MIN_INT64 <= v <= MAX_INT64
  }

  /** Two's complement wrap-around of a 64-bit integer. */
  function Wrap64(v: int): (w: int)
    ensures IsInt64(w)
    ensures IsInt64(v) ==> w == v
    ensures MAX_INT64 < v <= MAX_INT64 + TWO_64 ==> w == v - TWO_64
    ensures MIN_INT64 - TWO_64 <= v < MIN_INT64 ==> w == v + TWO_64
  {
    (v - MIN_INT64) % TWO_64 + MIN_INT64
  }

  predicate IsDigit(c: char) {
    '0' <= c <= '9'
  }

  predicate AllDigits(s: string) {
    forall i :: 0 <= i < |s| ==> IsDigit(s[i])
  }

  function Digit(d: nat): (c: char)
    requires d < 10
    ensures IsDigit(c) && DigitValue(c) == d
  {
    '0' + d as char
  }

  function DigitValue(c: char): (d: nat)
    requires IsDigit(c)
    ensures d < 10
  {
    (c - '0') as nat
  }

  /** The numeral of a natural number, without leading zeros. */
  function Numeral(n: nat): (s: string)
    ensures s != "" && AllDigits(s)
  {
    if n < 10 then [Digit(n)] else Numeral(n / 10) + [Digit(n % 10)]
  }

  function NumeralValue(s: string): nat
    requires AllDigits(s)
  {
    if s == "" then 0 else 10 * NumeralValue(s[..|s| - 1]) + DigitValue(s[|s| - 1])
  }

  lemma {:induction false} NumeralRoundTrip(n: nat)
    ensures NumeralValue(Numeral(n)) == n
  {
    if n < 10 {
      assert Numeral(n)[..0] == "";
    } else {
      NumeralRoundTrip(n / 10);
      assert Numeral(n)[..|Numeral(n)| - 1] == Numeral(n / 10);
    }
  }

  /** strconv.FormatInt in base 10. */
  function Decimal(v: int): (s: string)
    ensures s != "" && forall i :: 0 <= i < |s| ==> IsDigit(s[i]) || s[i] == '-'
  {
    if v < 0 then "-" + Numeral(-v) else Numeral(v)
  }

  /** strconv.ParseInt in base 10 for 64 bits: an optional sign, then digits, in range. */
  function ParseInt64(s: string): (r: Strings.Option<int>)
    ensures r.Some? ==> IsInt64(r.value)
  {
    var signed := s != "" && (s[0] == '-' || s[0] == '+');
    var digits := if signed then s[1..] else s;
    if digits == "" || !AllDigits(digits) then Strings.None
    else
      var n: int := NumeralValue(digits);
      var v := if signed && s[0] == '-' then -n else n;
      if IsInt64(v) then Strings.Some(v) else Strings.None
  }

  lemma DecimalRoundTrip(v: int)
    requires IsInt64(v)
    ensures ParseInt64(Decimal(v)) == Strings.Some(v)
  {
    if v < 0 {
      NumeralRoundTrip(-v);
      assert Decimal(v)[1..] == Numeral(-v);
    } else {
      NumeralRoundTrip(v);
      assert IsDigit(Decimal(v)[0]);
    }
  }

  lemma DecimalInjective(v: int, w: int)
    requires Decimal(v) == Decimal(w)
    ensures v == w
  {
    if v < 0 {
      NumeralRoundTrip(-v);
      assert Decimal(v)[1..] == Numeral(-v);
    } else {
      NumeralRoundTrip(v);
      assert IsDigit(Decimal(v)[0]);
    }
    if w < 0 {
      NumeralRoundTrip(-w);
      assert Decimal(w)[1..] == Numeral(-w);
    } else {
      NumeralRoundTrip(w);
      assert IsDigit(Decimal(w)[0]);
    }
  }

  // ---- what a numeral means, digit by digit

  /** One more digit at the end counts ten times what was there and the digit. */
  lemma OneMoreDigit(s: string, c: char)
    requires AllDigits(s) && '0' <= c <= '9'
    ensures NumeralValue("") == 0 && NumeralValue(s + [c]) == 10 * NumeralValue(s) + (c as int - '0' as int)
  {
    assert (s + [c])[..|s|] == s;
  }

  /** A text of digits is the number it shows, if that fits; a sign in front counts. */
  lemma ParseDigits(d: string)
    requires d != "" && AllDigits(d)
    ensures ParseInt64(d) == ParseInt64("+" + d)
    ensures ParseInt64(d) == if NumeralValue(d) <= MAX_INT64 then Strings.Some(NumeralValue(d)) else Strings.None
    ensures ParseInt64("-" + d) ==
            if NumeralValue(d) <= MAX_INT64 + 1 then Strings.Some(0 - NumeralValue(d) as int) else Strings.None
  {
    assert IsDigit(d[0]);
    assert ("+" + d)[1..] == d && ("-" + d)[1..] == d;
  }

  /** Everything else is refused. */
  lemma ParseRefuses(s: string, i: nat)
    requires s == "" || s == "+" || s == "-" ||
      (i < |s| && !('0' <= s[i] <= '9') && (i > 0 || (s[0] != '+' && s[0] != '-')))
    ensures ParseInt64(s).None?
  {
    if i < |s| && i > 0 {
      assert s[1..][i - 1] == s[i];
    }
  }
}
