/** What printf writes for an unsigned number, and reading it back. */
module Decimals {
  function Digit(d: nat): (c: char)
    requires d < 10
    ensures '0' <= c <= '9' && (c as int) - ('0' as int) == d
  {
    '0' + d as char
  }

  /** What "%u" prints. */
  function Decimal(n: nat): (s: string)
    ensures |s| > 0 && forall i :: 0 <= i < |s| ==> '0' <= s[i] <= '9'
  {
    if n < 10 then [Digit(n)] else Decimal(n / 10) + [Digit(n % 10)]
  }

  function DecimalValue(s: string): (r: nat)
    requires forall i :: 0 <= i < |s| ==> '0' <= s[i] <= '9'
  {
    if s == "" then 0 else DecimalValue(s[..|s| - 1]) * 10 + (s[|s| - 1] as int - '0' as int)
  }

  /** Printing loses nothing. */
  lemma {:induction false} DecimalInverts(n: nat)
    ensures DecimalValue(Decimal(n)) == n
  {
    if n >= 10 {
      DecimalInverts(n / 10);
      var s := Decimal(n);
      assert s[..|s| - 1] == Decimal(n / 10);
    } else {
      assert Decimal(n)[..0] == "";
    }
  }

  /** Digits count from the right: what is written in front of a text counts that many powers of ten more. */
  lemma {:induction false} ValueOfConcat(s: string, t: string)
    requires forall i :: 0 <= i < |s| ==> '0' <= s[i] <= '9'
    requires forall i :: 0 <= i < |t| ==> '0' <= t[i] <= '9'
    ensures DecimalValue(s + t) == DecimalValue(s) * Power10(|t|) + DecimalValue(t)
  {
    if t == "" {
      assert s + t == s;
    } else {
      var u, front := s + t, t[..|t| - 1];
      assert u[..|u| - 1] == s + front;
      ValueOfConcat(s, front);
      Tenfold(DecimalValue(s), Power10(|front|), DecimalValue(front), t[|t| - 1] as int - '0' as int);
    }
  }

  lemma ValueOfDigit(c: char)
    requires '0' <= c <= '9'
    ensures DecimalValue([c]) == c as int - '0' as int
  {
    assert [c][..0] == "";
  }

  lemma Tenfold(a: nat, p: nat, b: nat, d: int)
    ensures (a * p + b) * 10 + d == a * (10 * p) + (b * 10 + d)
  {
    assert a * p * 10 == a * (10 * p);
  }

  /** There is no zero in front of another digit. */
  lemma {:induction false} NoZeroInFront(n: nat)
    ensures n > 0 ==> Decimal(n)[0] != '0'
    ensures n == 0 ==> Decimal(n) == "0"
  {
    if n >= 10 {
      NoZeroInFront(n / 10);
    }
  }

  lemma {:induction false} DecimalLength(n: nat, digits: nat)
    requires digits > 0 && n < Power10(digits)
    ensures |Decimal(n)| <= digits
  {
    if n >= 10 {
      DecimalLength(n / 10, digits - 1);
    }
  }

  function Power10(n: nat): (r: nat)
    ensures r > 0
  {
    if n == 0 then 1 else 10 * Power10(n - 1)
  }
}
