/** Decimal text of natural numbers, as Rust's `format!("{n}")` writes an
    unsigned integer: the shortest run of ASCII digits, with no sign and no
    leading zero. `ParseDecimal` reads such a run back, so that the text of
    a label can be shown to determine the label. */
module Format {

  predicate IsDigit(c: char)
  {
    '0' <= c <= '9'
  }

  predicate AllDigits(s: string)
  {
    forall i :: 0 <= i < |s| ==> IsDigit(s[i])
  }

  function DigitChar(d: nat): (c: char)
    requires d < 10
    ensures IsDigit(c) && c as int - '0' as int == d
  {
    ('0' as int + d) as char
  }

  function Decimal(n: nat): (s: string)
    ensures |s| > 0 && AllDigits(s)
    ensures s[0] == '0' ==> n == 0
  {
    if n < 10 then [DigitChar(n)] else Decimal(n / 10) + [DigitChar(n % 10)]
  }

  function ParseDecimal(s: string): nat
    requires |s| > 0 && AllDigits(s)
  {
    var d := s[|s| - 1] as int - '0' as int;
    if |s| == 1 then d else 10 * ParseDecimal(s[..|s| - 1]) + d
  }

  lemma {:induction false} ParseDecimalOfDecimal(n: nat)
    ensures ParseDecimal(Decimal(n)) == n
  {
    if n >= 10 {
      ParseDecimalOfDecimal(n / 10);
      var s := Decimal(n);
      assert s[..|s| - 1] == Decimal(n / 10);
    }
  }

  lemma DecimalInjective(m: nat, n: nat)
    requires Decimal(m) == Decimal(n)
    ensures m == n
  {
    ParseDecimalOfDecimal(m);
    ParseDecimalOfDecimal(n);
  }

  /** Two texts `a + sep + b` and `c + sep + d` whose first parts are
      digits split at the same place when `sep` is not a digit. */
  lemma SplitAtSeparator(a: string, b: string, c: string, d: string, sep: char)
    requires AllDigits(a) && AllDigits(c) && !IsDigit(sep)
    requires a + [sep] + b == c + [sep] + d
    ensures a == c && b == d
  {
    var t := a + [sep] + b;
    assert forall i :: 0 <= i < |a| ==> IsDigit(t[i]);
    assert forall i :: 0 <= i < |c| ==> IsDigit(t[i]);
    assert !IsDigit(t[|a|]) && !IsDigit(t[|c|]);
    assert a == t[..|a|] && c == t[..|c|];
    assert b == t[|a| + 1..] && d == t[|c| + 1..];
  }
}
