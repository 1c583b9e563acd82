/** Bitwise operators on non-negative integers, bit by bit, and the arithmetic they
    stand for where the source uses them to join or mask fields. */
module Bits {
  import opened Numbers

  function BitOr(x: nat, y: nat): nat {
    if x == 0 && y == 0 then 0
    else (if x % 2 == 1 || y % 2 == 1 then 1 else 0) + 2 * BitOr(x / 2, y / 2)
  }

  function BitAnd(x: nat, y: nat): nat {
    if x == 0 || y == 0 then 0
    else (if x % 2 == 1 && y % 2 == 1 then 1 else 0) + 2 * BitAnd(x / 2, y / 2)
  }

  lemma {:induction false} OrZero(x: nat)
    ensures BitOr(0, x) == x && BitOr(x, 0) == x
  {
    if x > 0 {
      OrZero(x / 2);
    }
  }

  lemma PowSteps(k: nat)
    ensures Pow(2, k) == if k == 0 then 1 else 2 * Pow(2, k - 1)
  {
  }

  /** Fields that do not overlap: or is addition. */
  lemma {:induction false} OrDisjoint(x: nat, y: nat, k: nat)
    requires x < Pow(2, k)
    ensures BitOr(x, y * Pow(2, k)) == x + y * Pow(2, k) == BitOr(y * Pow(2, k), x)
  {
    hide BitOr, Pow;
    PowSteps(k);
    if k == 0 {
      OrZero(y);
    } else {
      var p, h := Pow(2, k - 1), y * Pow(2, k - 1);
      OrDisjoint(x / 2, y, k - 1);
      OrDoubled(x, h);
      MulAssoc(y, 2, p);
      MulAssoc(2, y, p);
    }
  }

  /** The lowest bit comes from x alone. */
  lemma OrDoubled(x: nat, h: nat)
    requires BitOr(x / 2, h) == x / 2 + h == BitOr(h, x / 2)
    ensures BitOr(x, 2 * h) == x + 2 * h == BitOr(2 * h, x)
  {
    assert 2 * h / 2 == h && 2 * h % 2 == 0;
  }

  lemma ModHalves(x: nat, m: nat)
    requires m > 0
    ensures x % (2 * m) == x % 2 + 2 * (x / 2 % m)
  {
    var q := x / 2 / m;
    assert x / 2 == q * m + x / 2 % m;
    assert q * (2 * m) == 2 * (q * m);
    DivModUnique(x, 2 * m, q, x % 2 + 2 * (x / 2 % m));
  }

  /** Masking with a power of two less one, the power given as a number. */
  lemma {:induction false} AndPower(x: nat, n: nat)
    requires PowerOfTwo(n)
    ensures BitAnd(x, n - 1) == x % n
  {
    if n > 1 {
      AndPower(x / 2, n / 2);
      assert (n - 1) / 2 == n / 2 - 1;
      ModHalves(x, n / 2);
    }
  }
}
