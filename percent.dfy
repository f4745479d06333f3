/**
 * Percentage cells.  The data file holds every metric as text of the form
 * "<integer>%" (for example "12%" or "-5%").  The view strips every '%' and reads
 * what is left as a number, then divides by 100; the table page multiplies the
 * fraction by 100 again and rounds it to two decimals.  Fractions are exact
 * rationals (`real`) here.
 */
module Percent {
  import opened Wrappers

  predicate IsDigit(c: char) { '0' <= c <= '9' }

  predicate AllDigits(s: string) { forall i | 0 <= i < |s| :: IsDigit(s[i]) }

  /** The number written by a run of decimal digits (most significant first). */
  function DigitsValue(s: string): nat
    requires AllDigits(s)
  {
    if s == [] then 0
    else 10 * DigitsValue(s[..|s| - 1]) + (s[|s| - 1] as int - '0' as int)
  }

  /** The decimal digits of a natural number, without leading zeros. */
  function NatDigits(n: nat): (s: string)
    ensures |s| > 0 && AllDigits(s)
  {
    if n < 10 then [('0' as int + n) as char]
    else NatDigits(n / 10) + [('0' as int + n % 10) as char]
  }

  /** Decimal text of an integer, with a leading '-' for negatives. */
  function IntText(n: int): string
  {
    if n < 0 then "-" + NatDigits(-n) else NatDigits(n)
  }

  /** A cell as the generator writes it: the integer followed by '%'. */
  function FormatCell(n: int): (s: string)
    ensures |s| > 0 && s[|s| - 1] == '%'
    ensures forall i | 0 <= i < |s| - 1 :: s[i] != '%'
  {
    IntText(n) + "%"
  }

  /** Removes every '%' character, keeping the others in order. */
  function StripPercent(s: string): (r: string)
    ensures |r| <= |s|
    ensures forall c :: c in r <==> c in s && c != '%'
    ensures '%' !in s ==> r == s
  {
    if s == [] then []
    else (if s[0] == '%' then [] else [s[0]]) + StripPercent(s[1..])
  }

  /**
   * Reads an optionally signed run of decimal digits.  Anything else (an empty
   * string, a lone sign, other characters) is not a number.
   */
  function ParseNumber(s: string): Option<int>
  {
    if |s| > 1 && (s[0] == '-' || s[0] == '+') && AllDigits(s[1..]) then
      var v: int := DigitsValue(s[1..]);
      Some(if s[0] == '-' then -v else v)
    else if |s| > 0 && AllDigits(s) then Some(DigitsValue(s))
    else None
  }

  /** An optionally signed, non-empty run of decimal digits. */
  predicate IsNumeral(s: string)
  {
    || (|s| > 0 && AllDigits(s))
    || (|s| > 1 && (s[0] == '-' || s[0] == '+') && AllDigits(s[1..]))
  }

  /**
   * The percentage number a cell holds, or None when it is malformed: every '%'
   * is dropped wherever it stands, and what is left must be a numeral.
   */
  function ParseCell(s: string): (r: Option<int>)
    ensures r.Some? <==> IsNumeral(StripPercent(s))
    ensures r.Some? && r.value < 0 ==> StripPercent(s)[0] == '-'
    ensures '%' !in s ==> r == ParseNumber(s)
  {
    ParseNumber(StripPercent(s))
  }

  /** Percentage number to fraction: divide by 100. */
  function ToFraction(p: int): (f: real)
    ensures f * 100.0 == p as real
  {
    p as real / 100.0
  }

  /** Round to the nearest integer, ties to the even neighbour. */
  function RoundHalfEven(y: real): (n: int)
    ensures -0.5 <= n as real - y <= 0.5
    ensures y == y.Floor as real ==> n == y.Floor
    ensures y - y.Floor as real == 0.5 ==> n % 2 == 0
  {
    var f := y.Floor;
    var d := y - f as real;
    if d < 0.5 then f
    else if d > 0.5 then f + 1
    else if f % 2 == 0 then f
    else f + 1
  }

  /**
   * Round to two decimal places, ties to even: the result is a whole number of
   * hundredths within half a hundredth of x, and on a tie the even one.
   */
  function Round2(x: real): (r: real)
    ensures -0.005 <= r - x <= 0.005
    ensures (r * 100.0).Floor as real == r * 100.0
    ensures x * 100.0 - (x * 100.0).Floor as real == 0.5 ==> (r * 100.0).Floor % 2 == 0
  {
    RoundHalfEven(x * 100.0) as real / 100.0
  }

  /** Fraction back to a percentage number, as the table page shows it. */
  function DisplayPercent(f: real): real
  {
    Round2(f * 100.0)
  }

  lemma {:induction false} NatDigitsValue(n: nat)
    ensures DigitsValue(NatDigits(n)) == n
  {
    if n >= 10 {
      var s := NatDigits(n);
      var d := ('0' as int + n % 10) as char;
      assert s == NatDigits(n / 10) + [d];
      assert s[..|s| - 1] == NatDigits(n / 10);
      NatDigitsValue(n / 10);
    }
  }

  /** Stripping works piecewise: the '%' of each part go, the rest stays in order. */
  lemma {:induction false} StripPercentConcat(a: string, b: string)
    ensures StripPercent(a + b) == StripPercent(a) + StripPercent(b)
  {
    if a == [] {
      assert a + b == b;
    } else {
      assert (a + b)[0] == a[0] && (a + b)[1..] == a[1..] + b;
      StripPercentConcat(a[1..], b);
    }
  }

  /** A '%' anywhere in a cell is ignored: "1%2" reads like "12". */
  lemma ParseCellIgnoresPercent(a: string, b: string)
    ensures ParseCell(a + "%" + b) == ParseCell(a + b)
  {
    var pa, pb := StripPercent(a), StripPercent(b);
    StripPercentConcat(a + "%", b);
    StripPercentConcat(a, "%");
    assert StripPercent("%") == [];
    assert StripPercent(a + "%") == pa;
    StripPercentConcat(a, b);
    assert StripPercent(a + "%" + b) == pa + pb == StripPercent(a + b);
  }

  lemma {:induction false} StripPercentOfSuffixed(s: string)
    requires '%' !in s
    ensures StripPercent(s + "%") == s
  {
    if s == [] {
      assert s + "%" == "%";
    } else {
      assert (s + "%")[1..] == s[1..] + "%";
      assert s[0] in s;
      assert forall c :: c in s[1..] ==> c in s;
      StripPercentOfSuffixed(s[1..]);
    }
  }

  /** The decimal text of an integer reads back as that integer. */
  lemma IntTextRoundTrip(n: int)
    ensures ParseNumber(IntText(n)) == Some(n)
  {
    var t := IntText(n);
    if n < 0 {
      assert t[1..] == NatDigits(-n);
      NatDigitsValue(-n);
    } else {
      NatDigitsValue(n);
    }
  }

  /** A cell written by the generator reads back as the same number. */
  lemma CellRoundTrip(n: int)
    ensures ParseCell(FormatCell(n)) == Some(n)
  {
    var t := IntText(n);
    assert '%' !in t by {
      if n < 0 {
        assert t == "-" + NatDigits(-n);
        assert forall i | 1 <= i < |t| :: t[i] == NatDigits(-n)[i - 1];
      }
    }
    StripPercentOfSuffixed(t);
    IntTextRoundTrip(n);
  }

  /** Scaling a fraction back by 100 (and rounding) recovers the percentage number. */
  lemma DisplayOfFraction(p: int)
    ensures DisplayPercent(ToFraction(p)) == p as real
  {
    var y := ToFraction(p) * 100.0 * 100.0;
    assert y == (p * 100) as real;
    assert y.Floor == p * 100;
  }

  /** Generator text to view fraction to displayed number is the identity on the number. */
  lemma CellDisplayRoundTrip(n: int)
    ensures ParseCell(FormatCell(n)).Some?
    ensures DisplayPercent(ToFraction(ParseCell(FormatCell(n)).value)) == n as real
  {
    CellRoundTrip(n);
    DisplayOfFraction(n);
  }
}
