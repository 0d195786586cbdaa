/** Decimal numerals as the URL grammar and the port field use them. */
module Decimals {

  predicate IsDigit(c: char) {
    '0' <= c <= '9'
  }

  predicate AllDigits(s: string) {
    forall c | c in s :: IsDigit(c)
  }

  /** The number a string of digits denotes; leading zeros are allowed. */
  function Value(s: string): nat
    requires AllDigits(s)
  {
    if s == "" then 0
    else
      assert s[|s| - 1] in s && forall c | c in s[..|s| - 1] :: c in s;
      10 * Value(s[..|s| - 1]) + (s[|s| - 1] as int - '0' as int)
  }

  function Digit(d: nat): (c: char)
    requires d < 10
    ensures IsDigit(c) && c as int - '0' as int == d
  {
    ('0' as int + d) as char
  }

  /** The shortest numeral. */
  function Numeral(n: nat): (s: string)
    ensures s != "" && AllDigits(s)
  {
    if n < 10 then [Digit(n)] else Numeral(n / 10) + [Digit(n % 10)]
  }

  predicate Shortest(s: string) {
    s != "" && AllDigits(s) && (|s| > 1 ==> s[0] != '0')
  }

  lemma {:induction false} NumeralRoundTrip(n: nat)
    ensures Value(Numeral(n)) == n && Shortest(Numeral(n))
    ensures n > 0 ==> Numeral(n)[0] != '0'
  {
    if n >= 10 {
      NumeralRoundTrip(n / 10);
      var front := Numeral(n / 10);
      assert Numeral(n)[..|front|] == front && Numeral(n)[0] == front[0];
    }
  }

  lemma {:induction false} ShortestIsNumeral(s: string)
    requires Shortest(s)
    ensures Numeral(Value(s)) == s
    ensures s[0] != '0' ==> Value(s) > 0
  {
    var front, last := s[..|s| - 1], s[|s| - 1];
    assert last in s && forall c | c in front :: c in s;
    assert s == front + [last];
    if front == "" {
      assert Value(s) == last as int - '0' as int;
      assert s == [last];
    } else {
      assert front[0] == s[0];
      ShortestIsNumeral(front);
      assert Value(s) / 10 == Value(front) && Value(s) % 10 == last as int - '0' as int;
      assert Digit(Value(s) % 10) == last;
    }
  }
}
