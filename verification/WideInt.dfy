/** The 128-bit helpers of int-util.h on 64-bit words. */
module WideInt {
  import opened Numbers
  import opened Bits

  predicate IsWord(x: int) { 0 <= x < B64 }

  /** What a 64-bit register keeps. */
  function Wrap(x: nat): (r: nat)
    ensures IsWord(r)
  {
    x % B64
  }

  lemma DwordProduct(x: nat, y: nat)
    requires x < B32 && y < B32
    ensures x * y <= (B32 - 1) * (B32 - 1)
  {
    MulMonotonic(x, y, B32 - 1);
    MulMonotonic(B32 - 1, x, B32 - 1);
  }

  /** (a B + b)(c B + d) */
  lemma Schoolbook(a: nat, b: nat, c: nat, d: nat)
    ensures (a * B32 + b) * (c * B32 + d) == a * c * B64 + (a * d + b * c) * B32 + b * d
  {
    MulDistributes(a * B32 + b, c * B32, d);
    assert (a * B32 + b) * (c * B32) == (a * c) * B64 + (b * c) * B32;
    assert (a * B32 + b) * d == (a * d) * B32 + b * d;
  }

  /** Adding the four partial products with their carries. */
  lemma CarriesAddUp(ac: nat, ad: nat, bc: nat, bd: nat, adbc: nat, c1: nat, lo: nat, c2: nat)
    requires ac <= (B32 - 1) * (B32 - 1) && ad <= (B32 - 1) * (B32 - 1)
    requires bc <= (B32 - 1) * (B32 - 1) && bd <= (B32 - 1) * (B32 - 1)
    requires adbc == Wrap(ad + bc) && c1 == (if adbc < ad then 1 else 0)
    requires lo == Wrap(bd + Wrap(adbc * B32)) && c2 == (if lo < bd then 1 else 0)
    ensures (ac + adbc / B32 + c1 * B32 + c2) * B64 + lo == ac * B64 + (ad + bc) * B32 + bd
  {
    assert adbc + c1 * B64 == ad + bc;
    var h, l := adbc / B32, adbc % B32;
    assert Wrap(adbc * B32) == l * B32 by {
      DivModUnique(adbc * B32, B64, h, l * B32);
    }
    assert lo + c2 * B64 == bd + l * B32;
  }

  lemma HalvesProduct(m: nat, n: nat)
    requires IsWord(m) && IsWord(n)
    ensures var a, b, c, d := m / B32, m % B32, n / B32, n % B32;
      && IsWord(a * c) && IsWord(a * d) && IsWord(b * c) && IsWord(b * d)
      && a * c <= (B32 - 1) * (B32 - 1) && a * d <= (B32 - 1) * (B32 - 1)
      && b * c <= (B32 - 1) * (B32 - 1) && b * d <= (B32 - 1) * (B32 - 1)
      && m * n == a * c * B64 + (a * d + b * c) * B32 + b * d
  {
    var a, b, c, d := m / B32, m % B32, n / B32, n % B32;
    DwordProduct(a, c);
    DwordProduct(a, d);
    DwordProduct(b, c);
    DwordProduct(b, d);
    hide Wrap;
    assert m == a * B32 + b && n == c * B32 + d;
    Schoolbook(a, b, c, d);
  }

  lemma WrapWord(x: nat)
    requires IsWord(x)
    ensures Wrap(x) == x
  {
  }

  /** mul128: the exact 128-bit product, despite every wrap on the way. */
  method Mul128(m: nat, n: nat) returns (lo: nat, hi: nat)
    requires IsWord(m) && IsWord(n)
    ensures IsWord(lo) && IsWord(hi) && hi * B64 + lo == m * n
  {
    HalvesProduct(m, n);
    var a, b := m / B32, m % B32;
    var c, d := n / B32, n % B32;
    var ac, ad, bc, bd := a * c, a * d, b * c, b * d;
    hide Wrap;
    WrapWord(ac);
    WrapWord(ad);
    WrapWord(bc);
    WrapWord(bd);
    lo, hi := AddPartials(Wrap(ac), Wrap(ad), Wrap(bc), Wrap(bd));
    ProductBound(m, n, hi, lo);
  }

  lemma ProductBound(m: nat, n: nat, hi: nat, lo: nat)
    requires IsWord(m) && IsWord(n) && hi * B64 + lo == m * n
    ensures hi < B64
  {
    MulMonotonic(m, n, B64 - 1);
    MulMonotonic(B64 - 1, m, B64 - 1);
  }

  /** The second half of mul128. */
  method AddPartials(ac: nat, ad: nat, bc: nat, bd: nat) returns (lo: nat, hi: nat)
    requires ac <= (B32 - 1) * (B32 - 1) && ad <= (B32 - 1) * (B32 - 1)
    requires bc <= (B32 - 1) * (B32 - 1) && bd <= (B32 - 1) * (B32 - 1)
    ensures IsWord(lo) && hi * B64 + lo == ac * B64 + (ad + bc) * B32 + bd
  {
    var adbc := Wrap(ad + bc);
    var adbcCarry := if adbc < ad then 1 else 0;
    lo := Wrap(bd + Wrap(adbc * B32));
    var loCarry := if lo < bd then 1 else 0;
    hi := Wrap(ac + adbc / B32 + adbcCarry * B32 + loCarry);
    CarriesAddUp(ac, ad, bc, bd, adbc, adbcCarry, lo, loCarry);
    assert ac <= hi;
  }

  lemma QuotientFits(d: nat, x: nat, remainder: nat, divisor: nat, q: nat, r: nat)
    requires x < B32 && 0 < divisor && remainder < divisor && d == remainder * B32 + x
    requires q == d / divisor && r == d % divisor
    ensures q < B32 && q * divisor + r == d && r < divisor
  {
    assert d == q * divisor + r;
    if q >= B32 {
      MulMonotonic(divisor, B32, q);
    }
  }

  lemma JoinDwords(lo: nat, hi: nat)
    requires lo < B32
    ensures BitOr(lo, hi * B32) == hi * B32 + lo == BitOr(hi * B32, lo)
  {
    PowersOfTwo();
    OrDisjoint(lo, hi, 32);
  }

  /** div_with_reminder: the remainder is or'ed in above the dividend and the whole divided.
      With a 32-bit dividend and a remainder below the divisor that is one step of long
      division in base 2^32. */
  method DivWithRemainder(dividend: nat, divisor: nat, remainder: nat) returns (q: nat, r: nat)
    requires IsWord(dividend) && 0 < divisor < B32 && remainder < B32
    ensures q * divisor + r == BitOr(dividend, remainder * B32) && r < divisor
    ensures dividend < B32 ==> q * divisor + r == remainder * B32 + dividend
    ensures dividend < B32 && remainder < divisor ==> q < B32
  {
    hide BitOr;
    var d := BitOr(dividend, remainder * B32);
    r := d % divisor;
    q := d / divisor;
    if dividend < B32 {
      JoinDwords(dividend, remainder);
      if remainder < divisor {
        QuotientFits(d, dividend, remainder, divisor, q, r);
      }
    }
  }

  /** div128_32: 128 by 32 bit division, exact. */
  method Div128By32(hi: nat, lo: nat, divisor: nat) returns (remainder: nat, qhi: nat, qlo: nat)
    requires IsWord(hi) && IsWord(lo) && 0 < divisor < B32
    ensures IsWord(qhi) && IsWord(qlo) && remainder < divisor
    ensures (qhi * B64 + qlo) * divisor + remainder == hi * B64 + lo
  {
    var q3, r3 := DivWithRemainder(hi / B32, divisor, 0);
    var q2, r2 := DivWithRemainder(hi % B32, divisor, r3);
    var q1, r1 := DivWithRemainder(lo / B32, divisor, r2);
    var q0, r0 := DivWithRemainder(lo % B32, divisor, r1);
    JoinDwords(q2, q3);
    JoinDwords(q0, q1);
    qhi := BitOr(q3 * B32, q2);
    qlo := BitOr(q1 * B32, q0);
    remainder := r0;
    hide BitOr;
    LongDivision(q3, q2, q1, q0, divisor);
  }

  lemma LongDivision(q3: nat, q2: nat, q1: nat, q0: nat, d: nat)
    ensures ((q3 * B32 + q2) * B64 + (q1 * B32 + q0)) * d
      == (q3 * d) * B32 * B64 + (q2 * d) * B64 + (q1 * d) * B32 + q0 * d
  {
    assert ((q3 * B32 + q2) * B64) * d == (q3 * d) * B32 * B64 + (q2 * d) * B64;
    assert (q1 * B32 + q0) * d == (q1 * d) * B32 + q0 * d;
    MulDistributes(d, (q3 * B32 + q2) * B64, q1 * B32 + q0);
  }

  /** Dividing a product by a nonzero 32-bit factor gives back the other factor: the
      equations both functions ensure leave no other answer. */
  lemma DivisionInverts(m: nat, divisor: nat, hi: nat, lo: nat, remainder: nat, qhi: nat, qlo: nat)
    requires IsWord(m) && 0 < divisor < B32 && hi * B64 + lo == m * divisor
    requires (qhi * B64 + qlo) * divisor + remainder == hi * B64 + lo && remainder < divisor && IsWord(qlo)
    ensures remainder == 0 && qhi == 0 && qlo == m
  {
    DivModUnique(m * divisor, divisor, qhi * B64 + qlo, remainder);
    DivModUnique(m * divisor, divisor, m, 0);
  }
}
