/**
 * Decimal rendering of integers, as a JavaScript template literal `${n}`
 * prints a whole number of safe magnitude, and the parser that inverts it.
 */
module Decimal {
  import opened Schema

  predicate IsDigit(ch: char)
  {
    '0' <= ch <= '9'
  }

  function DigitChar(d: int): (ch: char)
    requires 0 <= d < 10
    ensures IsDigit(ch) && ch as int - '0' as int == d
  {
    ('0' as int + d) as char
  }

  /** At least one digit, and no leading zero unless the numeral is "0" itself. */
  predicate Numeral(s: string)
  {
    && |s| >= 1
    && (forall i :: 0 <= i < |s| ==> IsDigit(s[i]))
    && (|s| > 1 ==> s[0] != '0')
  }

  /** The decimal digits of n, most significant first, without leading zeros. */
  function NatToString(n: nat): (r: string)
    ensures |r| >= 1 && forall i :: 0 <= i < |r| ==> IsDigit(r[i])
    ensures |r| > 1 ==> r[0] != '0'
  {
    if n < 10 then [DigitChar(n)]
    else NatToString(n / 10) + [DigitChar(n % 10)]
  }

  /** `${n}`: a minus sign before the digits of a negative number. */
  function IntToString(n: int): (r: string)
    ensures |r| >= 1 && ' ' !in r
    ensures n < 0 <==> r[0] == '-'
  {
    if n < 0 then "-" + NatToString(-n) else NatToString(n)
  }

  /** The value of a string of decimal digits. */
  function ParseNat(s: string): nat
    requires forall i :: 0 <= i < |s| ==> IsDigit(s[i])
  {
    if |s| == 0 then 0
    else
      assert IsDigit(s[|s| - 1]);
      ParseNat(s[..|s| - 1]) * 10 + (s[|s| - 1] as int - '0' as int)
  }

  /**
   * A numeral as `${n}` prints it: the digits without leading zeros, after a
   * minus sign when negative. "-0" and "007" are not numerals.
   */
  function ParseInt(s: string): Option<int>
  {
    if |s| >= 2 && s[0] == '-' && Numeral(s[1..]) && s[1..] != "0" then
      Some(-(ParseNat(s[1..]) as int))
    else if Numeral(s) then
      Some(ParseNat(s))
    else
      None
  }

  /** Reading back the digits of n gives n. */
  lemma {:induction false} ParseNatToString(n: nat)
    ensures ParseNat(NatToString(n)) == n
  {
    if n >= 10 {
      var s := NatToString(n);
      assert s[..|s| - 1] == NatToString(n / 10);
      ParseNatToString(n / 10);
    }
  }

  /** Reading back the rendering of n gives n. */
  lemma ParseIntToString(n: int)
    ensures ParseInt(IntToString(n)) == Some(n)
  {
    var r := IntToString(n);
    if n < 0 {
      var d := NatToString(-n);
      ParseNatToString(-n);
      assert r[1..] == d;
      assert d != "0";
    } else {
      ParseNatToString(n);
      assert IsDigit(r[0]);
    }
  }

  /** A numeral whose first digit is not 0 has a positive value. */
  lemma {:induction false} ParseNatPositive(s: string)
    requires |s| >= 1 && (forall i :: 0 <= i < |s| ==> IsDigit(s[i])) && s[0] != '0'
    ensures ParseNat(s) >= 1
  {
    if |s| > 1 {
      ParseNatPositive(s[..|s| - 1]);
    }
  }

  /** Rendering the value of a numeral gives the numeral back. */
  lemma {:induction false} NatToStringOfParseNat(s: string)
    requires Numeral(s)
    ensures NatToString(ParseNat(s)) == s
  {
    if |s| > 1 {
      var init := s[..|s| - 1];
      assert Numeral(init);
      NatToStringOfParseNat(init);
      ParseNatPositive(init);
      assert s == init + [s[|s| - 1]];
    }
  }

  /**
   * The parser accepts exactly the renderings: whatever it reads, rendering
   * the value gives the same text back.
   */
  lemma IntToStringOfParseInt(s: string)
    requires ParseInt(s).Some?
    ensures IntToString(ParseInt(s).value) == s
  {
    if |s| >= 2 && s[0] == '-' && Numeral(s[1..]) && s[1..] != "0" {
      NatToStringOfParseNat(s[1..]);
      ParseNatToString(0);
      assert s == "-" + s[1..];
    } else {
      NatToStringOfParseNat(s);
    }
  }
}
