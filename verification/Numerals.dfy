/** Digits and the numbers that they spell. */
module Numerals {
  predicate IsDigit(c: char) {
    '0' <= c <= '9'
  }

  predicate IsHexDigit(c: char) {
    IsDigit(c) || 'a' <= c <= 'f' || 'A' <= c <= 'F'
  }

  function Digit(c: char): nat
    requires IsHexDigit(c)
  {
    if IsDigit(c) then c as int - '0' as int
    else if 'a' <= c <= 'f' then c as int - 'a' as int + 10
    else c as int - 'A' as int + 10
  }

  function Number(s: string, base: nat): nat
    requires forall i :: 0 <= i < |s| ==> IsHexDigit(s[i])
  {
    if s == [] then 0 else base * Number(s[..|s| - 1], base) + Digit(s[|s| - 1])
  }

  lemma HexDigitsAre(c: char)
    ensures IsHexDigit(c) <==> '0' <= c <= '9' || 'a' <= c <= 'f' || 'A' <= c <= 'F'
  {
  }

  lemma DigitIs(d: nat)
    requires d < 16
    ensures d < 10 ==> IsHexDigit("0123456789"[d]) && Digit("0123456789"[d]) == d
    ensures d >= 10 ==> IsHexDigit("abcdef"[d - 10]) && Digit("abcdef"[d - 10]) == d
    ensures d >= 10 ==> IsHexDigit("ABCDEF"[d - 10]) && Digit("ABCDEF"[d - 10]) == d
  {
  }

  function Power(base: nat, n: nat): nat {
    if n == 0 then 1 else base * Power(base, n - 1)
  }

  /** The digits in front count for as many powers of the base as there are digits behind them. */
  lemma {:induction false} NumberConcat(s: string, t: string, base: nat)
    requires forall i :: 0 <= i < |s| ==> IsHexDigit(s[i])
    requires forall i :: 0 <= i < |t| ==> IsHexDigit(t[i])
    ensures Number(s + t, base) == Number(s, base) * Power(base, |t|) + Number(t, base)
    decreases |t|
  {
    if t == "" {
      assert s + t == s;
    } else {
      var n := |t| - 1;
      NumberConcat(s, t[..n], base);
      assert (s + t)[..|s + t| - 1] == s + t[..n];
      Shifted(base, Number(s, base), Power(base, n), Number(t[..n], base), Digit(t[n]));
    }
  }

  lemma Shifted(base: nat, x: nat, p: nat, y: nat, d: nat)
    ensures base * (x * p + y) + d == x * (base * p) + (base * y + d)
  {
    assert base * (x * p) == x * (base * p);
  }
}
