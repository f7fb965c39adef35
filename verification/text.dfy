/** Decimal rendering of integers, as a template literal `${n}` renders an integral number,
    and the facts about it that make store keys unambiguous. */
module Text {

  predicate IsDigit(c: char) {
    '0' <= c <= '9'
  }

  /** The character of a single decimal digit. */
  function DigitChar(d: int): (c: char)
    requires 0 <= d < 10
    ensures IsDigit(c)
    ensures c as int - '0' as int == d
  {
    (d + '0' as int) as char
  }

  predicate AllDigits(s: string) {
    forall i :: 0 <= i < |s| ==> IsDigit(s[i])
  }

  /** The number a string of decimal digits denotes, most significant digit first. */
  function DecimalValue(s: string): nat
    requires AllDigits(s)
    decreases |s|
  {
    if |s| == 0 then 0 else DecimalValue(s[..|s| - 1]) * 10 + (s[|s| - 1] as int - '0' as int)
  }

  /** Shortest decimal numeral of `n`, most significant digit first: it denotes `n`
      and has no leading zero. */
  function NatToString(n: nat): (s: string)
    ensures |s| >= 1 && AllDigits(s)
    ensures DecimalValue(s) == n
    ensures |s| >= 2 ==> s[0] != '0'
    decreases n
  {
    if n < 10 then [DigitChar(n)]
    else
      var prefix := NatToString(n / 10);
      var s := prefix + [DigitChar(n % 10)];
      assert s[..|s| - 1] == prefix;
      s
  }

  /** A decimal numeral with an optional leading minus sign. */
  predicate IsNumeral(s: string) {
    |s| >= 1 && (s[0] == '-' || IsDigit(s[0])) && AllDigits(s[1..])
  }

  /** The integer a numeral denotes. */
  function IntValue(s: string): int
    requires IsNumeral(s)
  {
    if s[0] == '-' then -(DecimalValue(s[1..]) as int) else DecimalValue(s)
  }

  /** Shortest decimal numeral of `i`, with a leading `-` when negative. It denotes
      `i`, has no leading zero, and holds no colon, so it can end a colon-separated key. */
  function IntToString(i: int): (s: string)
    ensures IsNumeral(s) && IntValue(s) == i
    ensures i < 0 <==> s[0] == '-'
    ensures var digits := if i < 0 then s[1..] else s; |digits| >= 2 ==> digits[0] != '0'
    ensures ':' !in s
  {
    if i < 0 then
      var s := "-" + NatToString(-i);
      assert s[1..] == NatToString(-i);
      s
    else NatToString(i)
  }

  /** Different integers are written differently. */
  lemma IntToStringInjective(a: int, b: int)
    requires IntToString(a) == IntToString(b)
    ensures a == b
  {
  }

  /** A string `p + ":" + s` in which `s` holds no colon splits back into `p` and `s`:
      the last colon is the separator. */
  lemma SplitAtLastColon(p1: string, s1: string, p2: string, s2: string)
    requires p1 + ":" + s1 == p2 + ":" + s2
    requires ':' !in s1 && ':' !in s2
    ensures p1 == p2 && s1 == s2
  {
    var t := p1 + ":" + s1;
    assert |s1| == |s2| by {
      assert t[|t| - |s1| - 1] == ':' && t[|t| - |s2| - 1] == ':';
    }
    assert p1 == t[..|p1|] == p2;
    assert s1 == t[|p1| + 1..] == s2;
  }
}
