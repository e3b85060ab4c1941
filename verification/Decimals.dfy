/** Numbers in decimal notation. */
module Decimals {
  predicate IsDigit(c: char)
  {
    '0' <= c <= '9'
  }

  function Decimal(n: nat): (t: string)
    ensures t != "" && forall c :: c in t ==> IsDigit(c)
  {
    var d := [(n % 10) as char + '0'];
    if n < 10 then d else Decimal(n / 10) + d
  }

  function NumberOf(d: string): nat
  {
    if d == "" then 0
    else NumberOf(d[..|d| - 1]) * 10 + if IsDigit(d[|d| - 1]) then d[|d| - 1] as nat - '0' as nat else 0
  }

  lemma {:induction false} NumberOfDecimal(n: nat)
    ensures NumberOf(Decimal(n)) == n
  {
    var t := Decimal(n);
    var d := [(n % 10) as char + '0'];
    if n < 10 {
      assert t[..0] == "" && t == d;
    } else {
      NumberOfDecimal(n / 10);
      assert t[..|t| - 1] == Decimal(n / 10);
    }
  }

  function Pow10(k: nat): (n: nat)
    ensures n > 0
  {
    if k == 0 then 1 else 10 * Pow10(k - 1)
  }

  /** Every digit counts by its place. */
  lemma {:induction false} LeadingDigit(c: char, d: string)
    requires IsDigit(c) && forall x :: x in d ==> IsDigit(x)
    ensures NumberOf([c] + d) == (c as nat - '0' as nat) * Pow10(|d|) + NumberOf(d)
  {
    var t := [c] + d;
    if d == "" {
      assert t[..0] == "" && NumberOf(t[..0]) == 0;
    } else {
      var m := |d| - 1;
      assert t[..|t| - 1] == [c] + d[..m] && t[|t| - 1] == d[m];
      assert d[m] in d && forall x :: x in d[..m] ==> x in d;
      LeadingDigit(c, d[..m]);
      Scaled(c as nat - '0' as nat, Pow10(m));
    }
  }

  lemma Scaled(a: nat, p: nat)
    ensures a * p * 10 == a * (10 * p)
  {
  }
}
