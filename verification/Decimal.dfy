/** Decimal numerals over any kind of character code. */
module Decimal {

  /** A numeral as its digits, most significant first. */
  function DigitsOf(n: nat): (d: seq<nat>)
    ensures |d| >= 1
    ensures forall i :: 0 <= i < |d| ==> d[i] < 10
  {
    if n < 10 then [n] else DigitsOf(n / 10) + [n % 10]
  }

  function ValueOf(d: seq<nat>): nat {
    if d == [] then 0 else ValueOf(d[..|d| - 1]) * 10 + d[|d| - 1]
  }

  lemma {:induction false} DigitsRoundTrip(n: nat)
    ensures ValueOf(DigitsOf(n)) == n
  {
    if n >= 10 {
      DigitsRoundTrip(n / 10);
      var d := DigitsOf(n / 10);
      assert DigitsOf(n)[..|d|] == d;
    } else {
      assert [n][..0] == [];
    }
  }

  function Power10(k: nat): nat { if k == 0 then 1 else 10 * Power10(k - 1) }

  lemma {:induction false} DigitCount(n: nat, k: nat)
    requires k >= 1 && n < Power10(k)
    ensures |DigitsOf(n)| <= k
  {
    if n >= 10 { DigitCount(n / 10, k - 1); }
  }

  /** The digits as text. */
  function Numeral(d: seq<nat>): (s: string)
    requires forall i :: 0 <= i < |d| ==> d[i] < 10
    ensures |s| == |d| && forall i :: 0 <= i < |d| ==> s[i] == (d[i] + '0' as nat) as char
  {
    seq(|d|, i requires 0 <= i < |d| => (d[i] + '0' as nat) as char)
  }
}
