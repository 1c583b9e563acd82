/** Positional numbers: the integer a digit sequence stands for, least
    significant digit first. Digits may be negative, as the recodings need. */
module Numbers {

  const B32 := 0x1_0000_0000
  const B64 := 0x1_0000_0000_0000_0000

  function Pow(b: nat, e: nat): nat {
    if e == 0 then 1 else b * Pow(b, e - 1)
  }

  /** C's `x >> k` on a non-negative x. */
  function Shr(x: nat, k: nat): nat {
    if k == 0 then x else Shr(x / 2, k - 1)
  }

  ghost function Eval(base: int, digits: seq<int>): int {
    if digits == [] then 0 else digits[0] + base * Eval(base, digits[1..])
  }

  predicate IsByte(x: int) { 0 <= x < 256 }

  predicate AllBytes(s: seq<int>) { forall i :: 0 <= i < |s| ==> IsByte(s[i]) }

  lemma PowPositive(b: nat, e: nat)
    requires b > 0
    ensures Pow(b, e) > 0
  {
  }

  lemma {:induction false} PowAdd(b: nat, m: nat, n: nat)
    ensures Pow(b, m + n) == Pow(b, m) * Pow(b, n)
  {
    if m > 0 {
      PowAdd(b, m - 1, n);
      MulAssoc(b, Pow(b, m - 1), Pow(b, n));
    }
  }

  lemma {:induction false} PowBytes(n: nat)
    ensures Pow(256, n) == Pow(2, 8 * n)
  {
    if n > 0 {
      PowBytes(n - 1);
      PowAdd(2, 8, 8 * (n - 1));
      assert Pow(2, 8) == 256;
    }
  }

  /** Powers of two too large for the verifier to unfold. */
  lemma PowersOfTwo()
    ensures Pow(2, 16) == 0x1_0000 && Pow(2, 32) == 0x1_0000_0000
    ensures Pow(2, 56) == 0x100_0000_0000_0000 && Pow(2, 63) == 0x8000_0000_0000_0000
    ensures Pow(2, 64) == 0x1_0000_0000_0000_0000
  {
    assert Pow(2, 7) == 128 && Pow(2, 8) == 256;
    PowAdd(2, 8, 8);
    PowAdd(2, 16, 16);
    PowAdd(2, 16, 8);
    PowAdd(2, 32, 24);
    PowAdd(2, 56, 7);
    PowAdd(2, 56, 8);
  }

  lemma {:induction false} PowMonotonic(b: nat, m: nat, n: nat)
    requires b > 0 && m <= n
    ensures Pow(b, m) <= Pow(b, n)
  {
    if m < n {
      PowMonotonic(b, m, n - 1);
      PowPositive(b, n - 1);
      MulLower(b, Pow(b, n - 1));
    }
  }

  lemma MulLower(x: int, y: int)
    requires x >= 1 && y >= 0
    ensures x * y >= y
  {
  }

  lemma MulAssoc(x: int, y: int, z: int)
    ensures x * (y * z) == (x * y) * z
  {
  }

  lemma MulDistributes(x: int, y: int, z: int)
    ensures x * (y + z) == x * y + x * z
  {
  }

  /** The value of a concatenation: the upper digits weigh base^|lower|. */
  lemma {:induction false} EvalConcat(base: nat, lower: seq<int>, upper: seq<int>)
    ensures Eval(base, lower + upper) == Eval(base, lower) + Pow(base, |lower|) * Eval(base, upper)
  {
    if lower == [] {
      assert lower + upper == upper;
    } else {
      assert (lower + upper)[1..] == lower[1..] + upper;
      EvalConcat(base, lower[1..], upper);
      var p, u := Pow(base, |lower| - 1), Eval(base, upper);
      MulDistributes(base, Eval(base, lower[1..]), p * u);
      MulAssoc(base, p, u);
    }
  }

  /** Splitting a digit sequence at k. */
  lemma EvalSplit(base: nat, s: seq<int>, k: nat)
    requires k <= |s|
    ensures Eval(base, s) == Eval(base, s[..k]) + Pow(base, k) * Eval(base, s[k..])
  {
    assert s == s[..k] + s[k..];
    EvalConcat(base, s[..k], s[k..]);
  }

  /** One digit at a time, seen from inside a longer sequence. */
  lemma EvalStep(base: int, s: seq<int>, k: nat)
    requires k < |s|
    ensures Eval(base, s[k..]) == s[k] + base * Eval(base, s[k + 1..])
  {
    assert s[k..][1..] == s[k + 1..];
  }

  lemma EvalHead(base: int, d: int, t: seq<int>)
    ensures Eval(base, [d] + t) == d + base * Eval(base, t)
  {
    assert ([d] + t)[1..] == t;
  }

  lemma EvalSnoc(base: nat, s: seq<int>, k: nat)
    requires k < |s|
    ensures Eval(base, s[..k + 1]) == Eval(base, s[..k]) + Pow(base, k) * s[k]
  {
    assert s[..k + 1] == s[..k] + [s[k]];
    EvalConcat(base, s[..k], [s[k]]);
    assert Eval(base, [s[k]]) == s[k];
  }

  lemma EvalFour(base: int, s: seq<int>)
    requires |s| == 4
    ensures Eval(base, s) == s[0] + base * (s[1] + base * (s[2] + base * s[3]))
  {
    assert s == s[0..] && Eval(base, s[4..]) == 0;
    EvalStep(base, s, 0);
    EvalStep(base, s, 1);
    EvalStep(base, s, 2);
    EvalStep(base, s, 3);
  }

  lemma {:induction false} EvalZeros(base: int, s: seq<int>)
    requires forall i :: 0 <= i < |s| ==> s[i] == 0
    ensures Eval(base, s) == 0
  {
    if s != [] {
      EvalZeros(base, s[1..]);
    }
  }

  lemma DigitBound(base: nat, d: int, v: int, p: int)
    requires 0 <= d < base && 0 <= v < p
    ensures 0 <= d + base * v < base * p
  {
    MulMonotonic(base, 0, v);
    MulMonotonic(base, v + 1, p);
    MulDistributes(base, v, 1);
  }

  /** Digits in 0..base-1 give a value below base^length. */
  lemma {:induction false} EvalBound(base: nat, s: seq<int>)
    requires forall i :: 0 <= i < |s| ==> 0 <= s[i] < base
    ensures 0 <= Eval(base, s) < Pow(base, |s|)
  {
    if s != [] {
      EvalBound(base, s[1..]);
      DigitBound(base, s[0], Eval(base, s[1..]), Pow(base, |s| - 1));
    }
  }

  lemma MulMonotonic(b: nat, x: int, y: int)
    requires x <= y
    ensures b * x <= b * y
  {
  }

  /** Euclidean division is the only way to split x. */
  lemma DivModUnique(x: int, d: int, q: int, r: int)
    requires d > 0 && x == q * d + r && 0 <= r < d
    ensures x / d == q && x % d == r
  {
    var e := x / d - q;
    assert e * d == r - x % d;
    if e > 0 {
      MulMonotonic(d, 1, e);
    } else if e < 0 {
      MulMonotonic(d, e, -1);
    }
  }

  /** The k low bytes of n, least significant first. */
  function LeBytes(n: nat, k: nat): (s: seq<int>)
    ensures |s| == k && AllBytes(s)
  {
    if k == 0 then [] else [n % 256] + LeBytes(n / 256, k - 1)
  }

  lemma {:induction false} LeBytesValue(n: nat, k: nat)
    requires n < Pow(256, k)
    ensures Eval(256, LeBytes(n, k)) == n
  {
    if k > 0 {
      LeBytesValue(n / 256, k - 1);
    }
  }

  lemma {:induction false} LeBytesTop(n: nat, k: nat)
    requires n < 128 * Pow(256, k)
    ensures LeBytes(n, k + 1)[k] <= 127
  {
    if k > 0 {
      LeBytesTop(n / 256, k - 1);
    }
  }

  lemma LowByteUnique(x: int, u: int, y: int, v: int)
    requires IsByte(x) && IsByte(y) && x + 256 * u == y + 256 * v
    ensures x == y && u == v
  {
  }

  /** Byte strings of one length with one value are the same string. */
  lemma {:induction false} EvalInjective(s: seq<int>, t: seq<int>)
    requires AllBytes(s) && AllBytes(t) && |s| == |t| && Eval(256, s) == Eval(256, t)
    ensures s == t
  {
    if s != [] {
      LowByteUnique(s[0], Eval(256, s[1..]), t[0], Eval(256, t[1..]));
      EvalInjective(s[1..], t[1..]);
      assert s == [s[0]] + s[1..] && t == [t[0]] + t[1..];
    }
  }

  predicate PowerOfTwo(n: nat) {
    n == 1 || (n > 1 && n % 2 == 0 && PowerOfTwo(n / 2))
  }

  lemma {:induction false} PowersApart(p: nat, q: nat)
    requires PowerOfTwo(p) && PowerOfTwo(q) && p < q
    ensures 2 * p <= q
  {
    if p > 1 {
      PowersApart(p / 2, q / 2);
    }
  }

  /** A power of two divides every larger one. */
  lemma {:induction false} PowerDivides(p: nat, q: nat)
    requires PowerOfTwo(p) && PowerOfTwo(q) && p <= q
    ensures q % p == 0
  {
    if p > 1 {
      PowerDivides(p / 2, q / 2);
      var h := p / 2;
      var k := q / 2 / h;
      assert q / 2 == k * h;
      assert q == k * p;
      DivModUnique(q, p, k, 0);
    }
  }

  lemma {:induction false} PowIsPowerOfTwo(e: nat)
    ensures PowerOfTwo(Pow(2, e))
  {
    PowPositive(2, e);
    if e > 0 {
      PowIsPowerOfTwo(e - 1);
      PowPositive(2, e - 1);
    }
  }

  /** A machine word's worth of values splits evenly over a power of two. */
  lemma PowerDividesWord(n: nat)
    requires PowerOfTwo(n) && n <= 0x1_0000_0000_0000_0000
    ensures n > 0 && 0x1_0000_0000_0000_0000 % n == 0
  {
    assert n > 0;
    PowersOfTwo();
    PowIsPowerOfTwo(64);
    PowerDivides(n, Pow(2, 64));
  }
}
