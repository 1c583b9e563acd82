/** Big-endian numerals of a fixed length, in the two bases of the address codec. */
module Positional {
  datatype Radix = R58 | R256

  function Base(b: Radix): (n: nat) { if b.R58? then 58 else 256 }

  function Quotient(b: Radix, v: nat): nat { if b.R58? then v / 58 else v / 256 }

  function Remainder(b: Radix, v: nat): nat { if b.R58? then v % 58 else v % 256 }

  function Scaled(b: Radix, v: int): int { if b.R58? then 58 * v else 256 * v }

  function Val(b: Radix, s: seq<int>): int {
    if s == [] then 0 else Scaled(b, Val(b, s[..|s| - 1])) + s[|s| - 1]
  }

  ghost predicate AreDigits(b: Radix, s: seq<int>) { forall i :: 0 <= i < |s| ==> 0 <= s[i] < Base(b) }

  function Digits(b: Radix, v: nat, n: nat): (s: seq<int>)
    ensures |s| == n && AreDigits(b, s)
  {
    if n == 0 then [] else Digits(b, Quotient(b, v), n - 1) + [Remainder(b, v)]
  }

  function Power(b: Radix, n: nat): (p: nat)
    ensures p > 0
  {
    if n == 0 then 1 else Scaled(b, Power(b, n - 1))
  }

  lemma ValSnoc(b: Radix, s: seq<int>, d: int)
    ensures Val(b, s + [d]) == Scaled(b, Val(b, s)) + d
  {
    assert (s + [d])[..|s|] == s;
  }

  lemma {:induction false} ValDigits(b: Radix, v: nat, n: nat)
    requires v < Power(b, n)
    ensures Val(b, Digits(b, v, n)) == v
  {
    if n > 0 {
      ValDigits(b, Quotient(b, v), n - 1);
      ValSnoc(b, Digits(b, Quotient(b, v), n - 1), Remainder(b, v));
    }
  }

  lemma {:induction false} ValBound(b: Radix, s: seq<int>)
    requires AreDigits(b, s)
    ensures 0 <= Val(b, s) < Power(b, |s|)
  {
    if s != [] {
      ValBound(b, s[..|s| - 1]);
    }
  }

  lemma {:induction false} DigitsVal(b: Radix, s: seq<int>)
    requires AreDigits(b, s)
    ensures Val(b, s) >= 0 && Digits(b, Val(b, s), |s|) == s
  {
    if s != [] {
      var t, d := s[..|s| - 1], s[|s| - 1];
      ValBound(b, t);
      DigitsVal(b, t);
      assert Quotient(b, Val(b, s)) == Val(b, t) && Remainder(b, Val(b, s)) == d;
      assert s == t + [d];
    }
  }

  lemma {:induction false} ScaledProduct(b: Radix, d: int, p: int)
    ensures Scaled(b, d * p) == d * Scaled(b, p)
  {
  }

  /** The value read from the right: a new leading digit adds itself times base^k. */
  lemma {:induction false} ValCons(b: Radix, d: int, s: seq<int>)
    ensures Val(b, [d] + s) == d * Power(b, |s|) + Val(b, s)
  {
    var t := [d] + s;
    if s == [] {
      assert t[..0] == [];
    } else {
      var u := s[..|s| - 1];
      assert t[..|t| - 1] == [d] + u;
      ValCons(b, d, u);
      ScaledProduct(b, d, Power(b, |u|));
    }
  }

  /** Dropping leading digits of a numeral drops the value modulo the power. */
  lemma {:induction false} DigitsDrop(b: Radix, v: nat, n: nat, k: nat)
    requires k <= n
    ensures Digits(b, v, n)[n - k..] == Digits(b, v, k)
  {
    if k > 0 {
      DigitsDrop(b, Quotient(b, v), n - 1, k - 1);
    }
  }

  lemma {:induction false} DigitsZero(b: Radix, n: nat)
    ensures forall i :: 0 <= i < n ==> Digits(b, 0, n)[i] == 0
  {
    if n > 0 {
      DigitsZero(b, n - 1);
    }
  }

  lemma {:induction false} PowerMonotonic(b: Radix, m: nat, n: nat)
    requires m <= n
    ensures Power(b, m) <= Power(b, n)
  {
    if m < n {
      PowerMonotonic(b, m, n - 1);
    }
  }
}
