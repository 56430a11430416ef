/**
 Decimal numerals as the writers print them, and when two texts that start with numerals can
 only be equal part by part.
 */
module Decimals {
  predicate IsDigit(c: char) {
    '0' <= c <= '9'
  }

  predicate StartsWithDigit(s: string) {
    s != "" && IsDigit(s[0])
  }

  function Digit(d: nat): (c: char)
    requires d < 10
    ensures IsDigit(c)
  {
    '0' + d as char
  }

  function Decimal(n: nat): (s: string)
    ensures s != "" && forall i :: 0 <= i < |s| ==> IsDigit(s[i])
  {
    if n < 10 then [Digit(n)] else Decimal(n / 10) + [Digit(n % 10)]
  }

  function Value(s: string): (v: int)
    ensures (forall i :: 0 <= i < |s| ==> IsDigit(s[i])) ==> v >= 0
  {
    if s == "" then 0 else Value(s[..|s| - 1]) * 10 + (s[|s| - 1] as int - '0' as int)
  }

  lemma {:induction false} ValueOfDecimal(n: nat)
    ensures Value(Decimal(n)) == n
  {
    var s := Decimal(n);
    if n < 10 {
      assert s[..0] == "";
    } else {
      ValueOfDecimal(n / 10);
      assert s[..|s| - 1] == Decimal(n / 10);
    }
  }

  // Two equal texts with first parts of equal length.
  lemma PartsCancel(a: string, b: string, r: string, t: string)
    requires a + r == b + t && |a| == |b|
    ensures a == b && r == t
  {
    assert a == (a + r)[..|a|] && r == (a + r)[|a|..];
    assert b == (b + t)[..|b|] && t == (b + t)[|b|..];
  }

  // How many digits a text starts with.
  function Leading(s: string): (n: nat)
    ensures n <= |s| && forall i :: 0 <= i < n ==> IsDigit(s[i])
  {
    if StartsWithDigit(s) then 1 + Leading(s[1..]) else 0
  }

  lemma {:induction false} LeadingDigits(d: string, r: string)
    requires forall i :: 0 <= i < |d| ==> IsDigit(d[i])
    requires !StartsWithDigit(r)
    ensures Leading(d + r) == |d|
  {
    if d == "" {
      assert d + r == r;
    } else {
      assert (d + r)[1..] == d[1..] + r;
      LeadingDigits(d[1..], r);
    }
  }

  // A numeral is over where the digits are.
  lemma DecimalsCancel(m: nat, n: nat, r: string, t: string)
    requires Decimal(m) + r == Decimal(n) + t
    requires !StartsWithDigit(r) && !StartsWithDigit(t)
    ensures m == n && r == t
  {
    hide Decimal;
    LeadingDigits(Decimal(m), r);
    LeadingDigits(Decimal(n), t);
    PartsCancel(Decimal(m), Decimal(n), r, t);
    ValueOfDecimal(m);
    ValueOfDecimal(n);
  }

  // A signed numeral, '-' in front of a negative one.
  function Signed(v: int): (s: string)
    ensures s != "" && (s[0] == '-' || IsDigit(s[0]))
  {
    if v < 0 then "-" + Decimal(-v) else Decimal(v)
  }

  lemma Assoc(a: string, b: string, c: string)
    ensures a + b + c == a + (b + c)
  {}

  lemma SignedCancel(v: int, w: int, r: string, t: string)
    requires Signed(v) + r == Signed(w) + t
    requires !StartsWithDigit(r) && !StartsWithDigit(t)
    ensures v == w && r == t
  {
    hide Decimal;
    assert (v < 0 <==> (Signed(v) + r)[0] == '-') && (w < 0 <==> (Signed(w) + t)[0] == '-');
    if v < 0 {
      Assoc("-", Decimal(-v), r);
      Assoc("-", Decimal(-w), t);
      PartsCancel("-", "-", Decimal(-v) + r, Decimal(-w) + t);
      DecimalsCancel(-v, -w, r, t);
    } else {
      DecimalsCancel(v, w, r, t);
    }
  }
}
