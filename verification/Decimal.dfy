/** Decimal numbers as text. */
module Decimal {

  predicate IsDigit(c: char) {
    '0' <= c <= '9'
  }

  function DigitOf(n: nat): char
    requires n < 10
  {
    '0' + n as char
  }

  function ValueOf(c: char): nat
    requires IsDigit(c)
  {
    c as int - '0' as int
  }

  /** The shortest text of a number. */
  function Text(n: nat): (s: string)
    ensures s != [] && forall i | 0 <= i < |s| :: IsDigit(s[i])
  {
    if n < 10 then [DigitOf(n)] else Text(n / 10) + [DigitOf(n % 10)]
  }

  predicate AllDigits(s: string) {
    forall i | 0 <= i < |s| :: IsDigit(s[i])
  }

  /** The number a text of digits stands for. */
  function Value(s: string): nat
    requires AllDigits(s)
  {
    if s == [] then 0 else 10 * Value(s[..|s| - 1]) + ValueOf(s[|s| - 1])
  }

  /** No superfluous zero in front. */
  predicate Shortest(s: string) {
    s != [] && (|s| > 1 ==> s[0] != '0')
  }

  lemma {:induction false} ValueOfText(n: nat)
    ensures Value(Text(n)) == n && Shortest(Text(n)) && (n > 0 ==> Text(n)[0] != '0')
  {
    if n >= 10 {
      ValueOfText(n / 10);
      assert Text(n)[..|Text(n)| - 1] == Text(n / 10);
    } else {
      assert Text(n)[..0] == [];
    }
  }

  lemma {:induction false} TextOfValue(s: string)
    requires AllDigits(s) && Shortest(s)
    ensures Text(Value(s)) == s
  {
    var n := |s| - 1;
    var init := s[..n];
    if n == 0 {
      assert init == [] && s == [s[0]];
    } else {
      assert init[0] == s[0];
      TextOfValue(init);
      NotZero(init);
      assert s == init + [s[n]];
    }
  }

  lemma {:induction false} NotZero(s: string)
    requires AllDigits(s) && s != [] && s[0] != '0'
    ensures Value(s) > 0
  {
    if |s| > 1 {
      NotZero(s[..|s| - 1]);
    } else {
      assert s[..0] == [];
    }
  }
}
