/** Positional parameter markers (`$1`, `$2`, ...) inside a SQL clause, as the
    template literal `$${startingParamIndex}` writes them, and how to read the
    index back out of a clause. */
module Placeholders {
  import opened Wrappers
  import opened Decimal

  /** The marker `$i`. */
  function Placeholder(i: nat): (p: string)
    ensures |p| >= 2 && p[0] == '$' && IsNumeral(p[1..])
  {
    "$" + NatToString(i)
  }

  /** The position of the first `$` in `s`, or `|s|` when there is none. */
  function FirstDollar(s: string): (k: nat)
    ensures k <= |s|
    ensures '$' !in s[..k]
    ensures k < |s| ==> s[k] == '$'
  {
    if s == [] || s[0] == '$' then 0 else 1 + FirstDollar(s[1..])
  }

  /** The text of a clause before its first `$` (all of it when there is none). */
  function TextBefore(s: string): (t: string)
    ensures '$' !in t && t <= s
  {
    s[..FirstDollar(s)]
  }

  /** The parameter index a clause refers to: Some(i) when everything after
      the first `$` is a run of decimal digits denoting `i` (leading zeros
      are accepted, so `$007` reads as 7), so that the clause holds exactly
      one marker and it is the last thing in it; None otherwise. */
  function PlaceholderOf(s: string): (r: Option<nat>)
  {
    var k := FirstDollar(s);
    if k < |s| && IsNumeral(s[k + 1..]) then Some(ParseDigits(s[k + 1..])) else None
  }

  lemma FirstDollarAt(prefix: string, rest: string)
    requires '$' !in prefix
    ensures FirstDollar(prefix + ['$'] + rest) == |prefix|
  {
    var s := prefix + ['$'] + rest;
    assert s[|prefix|] == '$';
    assert forall j :: 0 <= j < |prefix| ==> s[j] == prefix[j] && s[j] != '$';
  }

  /** A clause without `$` refers to no parameter. */
  lemma NoDollarNoPlaceholder(s: string)
    requires '$' !in s
    ensures PlaceholderOf(s).None? && TextBefore(s) == s
  {
    assert forall j :: 0 <= j < |s| ==> s[j] != '$';
  }

  /** Appending `$i` to `$`-free text gives a clause whose marker reads
      back as `i` and whose text before the marker is the original text. */
  lemma {:induction false} ClauseShape(condition: string, i: nat)
    requires '$' !in condition
    ensures PlaceholderOf(condition + Placeholder(i)) == Some(i)
    ensures TextBefore(condition + Placeholder(i)) == condition
  {
    var digits := NatToString(i);
    var s := condition + Placeholder(i);
    assert s == condition + ['$'] + digits;
    FirstDollarAt(condition, digits);
    assert s[|condition| + 1..] == digits;
    ParseNatToString(i);
  }

  /** Appending `$i` to `$`-free text gives a clause with exactly one `$`. */
  lemma MarkerCount(condition: string, i: nat)
    requires '$' !in condition
    ensures multiset(condition + Placeholder(i))['$'] == 1
  {
    var digits := NatToString(i);
    assert forall k :: 0 <= k < |digits| ==> digits[k] != '$';
    assert condition + Placeholder(i) == condition + ['$'] + digits;
    assert multiset(condition + ['$'] + digits) == multiset(condition) + multiset(['$']) + multiset(digits);
  }

  /** `condition` followed by the marker `$i`. */
  function Parameterized(condition: string, i: nat): (s: string)
    requires '$' !in condition
    ensures PlaceholderOf(s) == Some(i)
    ensures TextBefore(s) == condition
  {
    ClauseShape(condition, i);
    condition + Placeholder(i)
  }
}
