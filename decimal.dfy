/** Decimal text of integers: how a JavaScript template literal writes an
    integer, and how `Number(...)` reads a plain decimal string back. */
module Decimal {
  import opened Wrappers

  predicate IsDigit(c: char) {
    '0' <= c <= '9'
  }

  /** A non-empty run of decimal digits. */
  predicate IsNumeral(s: string) {
    |s| > 0 && forall k :: 0 <= k < |s| ==> IsDigit(s[k])
  }

  function DigitValue(c: char): (d: nat)
    requires IsDigit(c)
    ensures d < 10
  {
    c as int - '0' as int
  }

  function DigitChar(d: nat): (c: char)
    requires d < 10
    ensures IsDigit(c) && DigitValue(c) == d
  {
    ('0' as int + d) as char
  }

  /** The decimal text of `n`, most significant digit first, without leading zeros. */
  function NatToString(n: nat): (s: string)
    ensures IsNumeral(s)
    ensures s[0] == '0' ==> n == 0
    ensures |s| == 1 <==> n < 10
    decreases n
  {
    if n < 10 then [DigitChar(n)] else NatToString(n / 10) + [DigitChar(n % 10)]
  }

  /** The number a run of decimal digits denotes (0 for the empty run). */
  function ParseDigits(s: string): (n: nat)
    requires forall k :: 0 <= k < |s| ==> IsDigit(s[k])
    decreases |s|
  {
    if s == [] then 0 else 10 * ParseDigits(s[..|s| - 1]) + DigitValue(s[|s| - 1])
  }

  /** Reading back the text of a natural number gives that number. */
  lemma {:induction false} ParseNatToString(n: nat)
    ensures ParseDigits(NatToString(n)) == n
    decreases n
  {
    if n >= 10 {
      var s := NatToString(n / 10);
      var t := s + [DigitChar(n % 10)];
      assert t[..|t| - 1] == s;
      ParseNatToString(n / 10);
    }
  }

  /** Distinct numbers have distinct texts. */
  lemma NatToStringInjective(a: nat, b: nat)
    ensures NatToString(a) == NatToString(b) ==> a == b
  {
    ParseNatToString(a);
    ParseNatToString(b);
  }

  /** The decimal text of an integer, with a leading `-` when it is negative. */
  function IntToString(i: int): (s: string)
    ensures |s| > 0
    ensures i < 0 <==> s[0] == '-'
  {
    if i < 0 then "-" + NatToString(-i) else NatToString(i)
  }

  /** Reads an optionally signed decimal integer (`12`, `-12`, `+12`);
      None for any other text. */
  function ParseInteger(s: string): (r: Option<int>)
    ensures r.Some? ==> |s| > 0
    ensures IsNumeral(s) ==> r == Some(ParseDigits(s))
    ensures r.Some? && r.value < 0 ==> s[0] == '-'
    ensures |s| > 0 && !IsDigit(s[0]) && s[0] != '-' && s[0] != '+' ==> r.None?
    ensures |s| > 1 && s[0] == '-' && IsNumeral(s[1..]) ==> r == Some(-(ParseDigits(s[1..]) as int))
    ensures |s| > 1 && s[0] == '+' && IsNumeral(s[1..]) ==> r == Some(ParseDigits(s[1..]) as int)
    ensures r.Some? ==> IsNumeral(s) || (|s| > 1 && (s[0] == '-' || s[0] == '+') && IsNumeral(s[1..]))
  {
    if IsNumeral(s) then Some(ParseDigits(s))
    else if |s| > 1 && (s[0] == '-' || s[0] == '+') && IsNumeral(s[1..]) then
      var magnitude: int := ParseDigits(s[1..]);
      Some(if s[0] == '-' then -magnitude else magnitude)
    else None
  }

  /** Reading back the text of an integer gives that integer. */
  lemma IntegerRoundTrip(i: int)
    ensures ParseInteger(IntToString(i)) == Some(i)
  {
    var s := IntToString(i);
    if i < 0 {
      assert s[1..] == NatToString(-i);
      ParseNatToString(-i);
      assert |s| > 1 && s[0] == '-' && IsNumeral(s[1..]);
      assert ParseInteger(s) == Some(-(ParseDigits(s[1..]) as int));
    } else {
      ParseNatToString(i);
      assert IsNumeral(s);
      assert ParseInteger(s) == Some(ParseDigits(s) as int);
    }
  }
}
