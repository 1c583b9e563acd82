/** fe_tobytes (crypto-ops.c): the canonical 32 bytes of a field element. */
module FieldBytes {
  import opened Numbers
  import opened Bits
  import opened FieldLimbs

  /** The source's stated input bounds, 1.1 times 2^26 and 2^25, rounded down. */
  const TOBYTES_EVEN := 73_819_750
  const TOBYTES_ODD := 36_909_875

  const P255 := PRIME + 19

  /** x >> 26 and x >> 25 on signed 32-bit words. */
  method Floor26(x: int32) returns (q: int32)
    ensures 0 <= x as int - 0x400_0000 * q as int < 0x400_0000
  {
    q := x / 0x400_0000;
  }

  method Floor25(x: int32) returns (q: int32)
    ensures 0 <= x as int - 0x200_0000 * q as int < 0x200_0000
  {
    q := x / 0x200_0000;
  }

  /** The q-estimate: rounding 19 h9 / 2^25 is close enough to the part of v above
      the prime for the carries to find floor(v / PRIME). */
  lemma QEstimate(v: int, h9: int, low: int, q0: int, q: int)
    requires v == low + W9 * h9 && Within(low, 2 * W9) && Within(h9, TOBYTES_ODD)
    requires 0 <= 19 * h9 + 0x100_0000 - 0x200_0000 * q0 < 0x200_0000
    requires 0 <= v + q0 - P255 * q < P255
    ensures 0 <= v - PRIME * q < PRIME && -2 <= q <= 1
  {
    var t, r := v / PRIME, v % PRIME;
    assert v == PRIME * t + r;
    assert -2 <= t <= 1;
    assert 0 <= v + q0 - P255 * t < P255;
  }

  lemma LowLimbs(h: Limbs)
    requires Bounded(h, TOBYTES_EVEN, TOBYTES_ODD)
    ensures Within(Value(h) - W9 * h.l9, 2 * W9)
  {
  }

  /** The five lower limbs, and the five upper ones in units of W5. */
  function Lower(h: Limbs): int { h.l0 + W1 * h.l1 + W2 * h.l2 + W3 * h.l3 + W4 * h.l4 }

  function Upper(h: Limbs): int {
    h.l5 + 0x200_0000 * h.l6 + 0x8_0000_0000_0000 * h.l7 + 0x1000_0000_0000_0000_0000 * h.l8
      + 0x40_0000_0000_0000_0000_0000_0000 * h.l9
  }

  const P127 := 0x8000_0000_0000_0000_0000_0000_0000_0000

  lemma ValueHalves(h: Limbs)
    ensures Value(h) == Lower(h) + W5 * Upper(h) && P255 == W5 * P127
  {
  }

  lemma ChainLow(h: Limbs, q0: int, q1: int, q2: int, q3: int, q4: int, q5: int)
    requires 0 <= h.l0 + q0 - 0x400_0000 * q1 < 0x400_0000 && 0 <= h.l1 + q1 - 0x200_0000 * q2 < 0x200_0000
    requires 0 <= h.l2 + q2 - 0x400_0000 * q3 < 0x400_0000 && 0 <= h.l3 + q3 - 0x200_0000 * q4 < 0x200_0000
    requires 0 <= h.l4 + q4 - 0x400_0000 * q5 < 0x400_0000
    ensures 0 <= Lower(h) + q0 - W5 * q5 < W5
  {
  }

  lemma ChainHigh(h: Limbs, q5: int, q6: int, q7: int, q8: int, q9: int, q: int)
    requires 0 <= h.l5 + q5 - 0x200_0000 * q6 < 0x200_0000 && 0 <= h.l6 + q6 - 0x400_0000 * q7 < 0x400_0000
    requires 0 <= h.l7 + q7 - 0x200_0000 * q8 < 0x200_0000 && 0 <= h.l8 + q8 - 0x400_0000 * q9 < 0x400_0000
    requires 0 <= h.l9 + q9 - 0x200_0000 * q < 0x200_0000
    ensures 0 <= Upper(h) + q5 - P127 * q < P127
  {
  }

  /** Two chains of five floors make one floor division by 2^255. */
  lemma ChainJoin(v: int, lower: int, upper: int, q0: int, q5: int, q: int)
    requires v == lower + W5 * upper
    requires 0 <= lower + q0 - W5 * q5 < W5 && 0 <= upper + q5 - P127 * q < P127
    ensures 0 <= v + q0 - P255 * q < P255
  {
  }

  /** The chain of eleven shifts: q == floor(value / PRIME). */
  method Quotient(h: array<int32>) returns (q: int32)
    requires h.Length == 10 && Bounded(Read(h), TOBYTES_EVEN, TOBYTES_ODD)
    ensures 0 <= Value(Read(h)) - PRIME * q as int < PRIME
    ensures -2 <= q <= 1
  {
    var q0 := Floor25(19 * h[9] + 0x100_0000);
    var q1 := Floor26(h[0] + q0);
    var q2 := Floor25(h[1] + q1);
    var q3 := Floor26(h[2] + q2);
    var q4 := Floor25(h[3] + q3);
    var q5 := Floor26(h[4] + q4);
    var q6 := Floor25(h[5] + q5);
    var q7 := Floor26(h[6] + q6);
    var q8 := Floor25(h[7] + q7);
    var q9 := Floor26(h[8] + q8);
    q := Floor25(h[9] + q9);
    QuotientExact(Read(h), q0 as int, q1 as int, q2 as int, q3 as int, q4 as int, q5 as int,
                  q6 as int, q7 as int, q8 as int, q9 as int, q as int);
  }

  lemma QuotientExact(h: Limbs, q0: int, q1: int, q2: int, q3: int, q4: int, q5: int, q6: int, q7: int, q8: int,
      q9: int, q: int)
    requires Bounded(h, TOBYTES_EVEN, TOBYTES_ODD) && 0 <= 19 * h.l9 + 0x100_0000 - 0x200_0000 * q0 < 0x200_0000
    requires 0 <= h.l0 + q0 - 0x400_0000 * q1 < 0x400_0000 && 0 <= h.l1 + q1 - 0x200_0000 * q2 < 0x200_0000
    requires 0 <= h.l2 + q2 - 0x400_0000 * q3 < 0x400_0000 && 0 <= h.l3 + q3 - 0x200_0000 * q4 < 0x200_0000
    requires 0 <= h.l4 + q4 - 0x400_0000 * q5 < 0x400_0000
    requires 0 <= h.l5 + q5 - 0x200_0000 * q6 < 0x200_0000 && 0 <= h.l6 + q6 - 0x400_0000 * q7 < 0x400_0000
    requires 0 <= h.l7 + q7 - 0x200_0000 * q8 < 0x200_0000 && 0 <= h.l8 + q8 - 0x400_0000 * q9 < 0x400_0000
    requires 0 <= h.l9 + q9 - 0x200_0000 * q < 0x200_0000
    ensures 0 <= Value(h) - PRIME * q < PRIME && -2 <= q <= 1
  {
    ChainLow(h, q0, q1, q2, q3, q4, q5);
    ChainHigh(h, q5, q6, q7, q8, q9, q);
    ValueHalves(h);
    LowLimbs(h);
    assert Within(h.l9, TOBYTES_ODD);
    hide *;
    ChainJoin(Value(h), Lower(h), Upper(h), q0, q5, q);
    QEstimate(Value(h), h.l9, Value(h) - W9 * h.l9, q0, q);
  }

  /** One exact carry: the limb becomes its remainder. */
  method Settle26(x: int32, next: int32) returns (x': int32, next': int32)
    requires Within(x as int, 0x1000_0000) && Within(next as int, 0x800_0000)
    ensures 0 <= x' < 0x400_0000 && x' as int == x as int - 0x400_0000 * (next' as int - next as int)
    ensures Within(next' as int - next as int, 4)
  {
    var carry := x / 0x400_0000;
    next' := next + carry;
    x' := x - carry * 0x400_0000;
  }

  method Settle25(x: int32, next: int32) returns (x': int32, next': int32)
    requires Within(x as int, 0x800_0000) && Within(next as int, 0x800_0000)
    ensures 0 <= x' < 0x200_0000 && x' as int == x as int - 0x200_0000 * (next' as int - next as int)
    ensures Within(next' as int - next as int, 4)
  {
    var carry := x / 0x200_0000;
    next' := next + carry;
    x' := x - carry * 0x200_0000;
  }

  predicate Settled(h: Limbs) {
    && 0 <= h.l0 < 0x400_0000 && 0 <= h.l1 < 0x200_0000 && 0 <= h.l2 < 0x400_0000 && 0 <= h.l3 < 0x200_0000
    && 0 <= h.l4 < 0x400_0000 && 0 <= h.l5 < 0x200_0000 && 0 <= h.l6 < 0x400_0000 && 0 <= h.l7 < 0x200_0000
    && 0 <= h.l8 < 0x400_0000 && 0 <= h.l9 < 0x200_0000
  }

  /** The carries out of h0..h4. */
  method SettleLow(h0: int32, h1: int32, h2: int32, h3: int32, h4: int32, h5: int32)
    returns (t0: int32, t1: int32, t2: int32, t3: int32, t4: int32, t5: int32)
    requires Within(h0 as int, 0x1000_0000) && Within(h1 as int, 0x400_0000) && Within(h2 as int, 0x600_0000)
    requires Within(h3 as int, 0x400_0000) && Within(h4 as int, 0x600_0000) && Within(h5 as int, 0x400_0000)
    ensures 0 <= t0 < 0x400_0000 && 0 <= t1 < 0x200_0000 && 0 <= t2 < 0x400_0000 && 0 <= t3 < 0x200_0000
        && 0 <= t4 < 0x400_0000
    ensures Within(t5 as int - h5 as int, 4)
    ensures t0 as int + W1 * t1 as int + W2 * t2 as int + W3 * t3 as int + W4 * t4 as int + W5 * (t5 as int - h5 as int)
      == h0 as int + W1 * h1 as int + W2 * h2 as int + W3 * h3 as int + W4 * h4 as int
  {
    t0, t1 := Settle26(h0, h1);
    t1, t2 := Settle25(t1, h2);
    t2, t3 := Settle26(t2, h3);
    t3, t4 := Settle25(t3, h4);
    t4, t5 := Settle26(t4, h5);
  }

  /** The carries out of h5..h9; the last one is dropped. */
  method SettleHigh(h5: int32, h6: int32, h7: int32, h8: int32, h9: int32)
    returns (t5: int32, t6: int32, t7: int32, t8: int32, t9: int32, carry: int32)
    requires Within(h5 as int, 0x500_0000) && Within(h6 as int, 0x600_0000) && Within(h7 as int, 0x400_0000)
    requires Within(h8 as int, 0x600_0000) && Within(h9 as int, 0x400_0000)
    ensures 0 <= t5 < 0x200_0000 && 0 <= t6 < 0x400_0000 && 0 <= t7 < 0x200_0000 && 0 <= t8 < 0x400_0000
        && 0 <= t9 < 0x200_0000
    ensures t5 as int + 0x200_0000 * t6 as int + 0x8_0000_0000_0000 * t7 as int + 0x1000_0000_0000_0000_0000 * t8 as int
        + 0x40_0000_0000_0000_0000_0000_0000 * t9 as int + P127 * carry as int
      == h5 as int + 0x200_0000 * h6 as int + 0x8_0000_0000_0000 * h7 as int + 0x1000_0000_0000_0000_0000 * h8 as int
        + 0x40_0000_0000_0000_0000_0000_0000 * h9 as int
  {
    t5, t6 := Settle25(h5, h6);
    t6, t7 := Settle26(t6, h7);
    t7, t8 := Settle25(t7, h8);
    t8, t9 := Settle26(t8, h9);
    carry := t9 / 0x200_0000;
    t9 := t9 - carry * 0x200_0000;
  }

  /** The limbs after adding 19 q and carrying exactly; carry is the one out of h9. */
  method Settle(h: array<int32>, q: int32) returns (t: array<int32>, carry: int32)
    requires h.Length == 10 && Bounded(Read(h), TOBYTES_EVEN, TOBYTES_ODD) && -2 <= q <= 1
    ensures fresh(t) && t.Length == 10 && Settled(Read(t))
    ensures Value(Read(t)) == Value(Read(h)) + 19 * q as int - P255 * carry as int
  {
    var h0, h1, h2, h3, h4, h5 := SettleLow(h[0] + 19 * q, h[1], h[2], h[3], h[4], h[5]);
    var h6, h7, h8, h9;
    h5, h6, h7, h8, h9, carry := SettleHigh(h5, h[6], h[7], h[8], h[9]);
    t := new int32[10] [h0, h1, h2, h3, h4, h5, h6, h7, h8, h9];
  }

  /** Within the stated bounds q is -2, which the source's comment rules out, exactly for
      the values below minus one prime. */
  lemma QuotientMinusTwo(v: int, q: int)
    requires 0 <= v - PRIME * q < PRIME && -2 <= q <= 1
    ensures q == -2 <==> v < -PRIME
  {
  }

  /** There are such limbs: all zero but the last. */
  lemma MinusTwoReached()
    ensures var h := Limbs(0, 0, 0, 0, 0, 0, 0, 0, 0, -36_909_875);
            Bounded(h, TOBYTES_EVEN, TOBYTES_ODD) && -2 * PRIME <= Value(h) < -PRIME
  {
  }

  lemma SettledRange(h: Limbs)
    requires Settled(h)
    ensures 0 <= Value(h) < P255
  {
  }

  /** The dropped carry is q, so what remains is the canonical representative. */
  lemma Canonical(v: int, q: int, c: int, w: int)
    requires 0 <= v - PRIME * q < PRIME && w == v + 19 * q - P255 * c && 0 <= w < P255
    ensures w == v % PRIME
  {
    assert c == q;
    DivModUnique(v, PRIME, q, w);
  }

  /** One output byte: the top bits of one limb or'ed with the next limb shifted up,
      in 32 bits, cut to a byte. */
  function JoinByte(x: nat, y: nat, k: nat): int {
    BitOr(x, y * Pow(2, k) % 0x1_0000_0000) % 256
  }

  /** Neither the or nor the 32-bit shift loses anything of the byte. */
  lemma JoinByteSum(x: nat, y: nat, k: nat)
    requires k <= 8 && x < Pow(2, k)
    ensures JoinByte(x, y, k) == (x + y * Pow(2, k)) % 256
  {
    WordSplit(k);
    hide Pow, BitOr;
    var p, r := Pow(2, k), Pow(2, 32 - k);
    ShiftMod(y, p, r);
    OrDisjoint(x, y % r, k);
    ByteOfSum(x, y, p, r);
  }

  lemma WordSplit(k: nat)
    requires k <= 8
    ensures Pow(2, 32 - k) * Pow(2, k) == 0x1_0000_0000 && Pow(2, k) > 0 && Pow(2, 32 - k) > 0
  {
    PowersOfTwo();
    hide Pow;
    PowAdd(2, 32 - k, k);
    PowPositive(2, k);
    PowPositive(2, 32 - k);
  }

  lemma ByteOfSum(x: nat, y: nat, p: nat, r: nat)
    requires p > 0 && r > 0 && r * p == 0x1_0000_0000
    ensures (x + y % r * p) % 256 == (x + y * p) % 256
  {
    ShiftMod(y, p, r);
    SameByte(x + y % r * p, y / r);
  }

  lemma ShiftMod(y: nat, p: nat, r: nat)
    requires p > 0 && r > 0 && r * p == 0x1_0000_0000
    ensures y * p == y % r * p + y / r * 0x1_0000_0000 && y * p % 0x1_0000_0000 == y % r * p
  {
    var q, z := y / r, y % r;
    assert y == q * r + z;
    assert y * p == (q * r) * p + z * p;
    assert (q * r) * p == q * (r * p);
    MulMonotonic(p, z + 1, r);
    DivModUnique(y * p, 0x1_0000_0000, q, z * p);
  }

  lemma SameByte(x: int, m: int)
    ensures (x + m * 0x1_0000_0000) % 256 == x % 256
  {
    DivModUnique(x + m * 0x1_0000_0000, 256, x / 256 + m * 0x100_0000, x % 256);
  }

  lemma SmallPowers()
    ensures Pow(2, 1) == 2 && Pow(2, 2) == 4 && Pow(2, 3) == 8 && Pow(2, 4) == 16 && Pow(2, 5) == 32 && Pow(2, 6) == 64
  {
  }

  /** Bytes 0..15, from limbs 0..4. */
  function LowBytes(h: Limbs): (s: seq<int>)
    requires Settled(h)
  {
    [h.l0 % 256, h.l0 / 0x100 % 256, h.l0 / 0x1_0000 % 256, JoinByte(h.l0 / 0x100_0000, h.l1, 2),
     h.l1 / 0x40 % 256, h.l1 / 0x4000 % 256, JoinByte(h.l1 / 0x40_0000, h.l2, 3), h.l2 / 0x20 % 256,
     h.l2 / 0x2000 % 256, JoinByte(h.l2 / 0x20_0000, h.l3, 5), h.l3 / 8 % 256, h.l3 / 0x800 % 256,
     JoinByte(h.l3 / 0x8_0000, h.l4, 6), h.l4 / 4 % 256, h.l4 / 0x400 % 256, h.l4 / 0x4_0000 % 256]
  }

  /** Bytes 16..31, from limbs 5..9. */
  function HighBytes(h: Limbs): (s: seq<int>)
    requires Settled(h)
  {
    [h.l5 % 256, h.l5 / 0x100 % 256, h.l5 / 0x1_0000 % 256, JoinByte(h.l5 / 0x100_0000, h.l6, 1),
     h.l6 / 0x80 % 256, h.l6 / 0x8000 % 256, JoinByte(h.l6 / 0x80_0000, h.l7, 3), h.l7 / 0x20 % 256,
     h.l7 / 0x2000 % 256, JoinByte(h.l7 / 0x20_0000, h.l8, 4), h.l8 / 0x10 % 256, h.l8 / 0x1000 % 256,
     JoinByte(h.l8 / 0x10_0000, h.l9, 6), h.l9 / 4 % 256, h.l9 / 0x400 % 256, h.l9 / 0x4_0000 % 256]
  }

  lemma CutByte(x: int, lo: int, mid: int)
    requires x >= 0 && lo > 0 && mid == lo * 0x100
    ensures x % mid == x % lo + lo * (x / lo % 256)
  {
    var a, m := x / lo, x / lo % 256;
    assert x == x % lo + lo * a && a == m + 256 * (a / 256);
    assert lo * a == lo * m + mid * (a / 256) by {
      MulDistributes(lo, m, 256 * (a / 256));
      MulAssoc(lo, 256, a / 256);
    }
    MulMonotonic(lo, m, 255);
    DivModUnique(x, mid, a / 256, x % lo + lo * m);
  }

  /** Cutting a limb into its low part, two bytes and its top part. */
  lemma Cut(x: int, lo: int, mid: int, top: int)
    requires x >= 0 && lo > 0 && mid == lo * 0x100 && top == mid * 0x100
    ensures x == x % lo + lo * (x / lo % 256) + mid * (x / mid % 256) + top * (x / top)
  {
    CutByte(x, lo, mid);
    CutByte(x, mid, top);
    assert x == x % top + top * (x / top);
  }

  lemma JoinArith(x: nat, y: nat, p: nat, lo: nat)
    requires p > 0 && p * lo == 256 && x < p
    ensures (x + y * p) % 256 == x + p * (y % lo)
  {
    var q, r := y / lo, y % lo;
    assert y * p == q * 256 + p * r by {
      assert y == q * lo + r;
      MulDistributes(p, q * lo, r);
      assert p * (q * lo) == q * (p * lo);
    }
    MulMonotonic(p, r + 1, lo);
    MulDistributes(p, r, 1);
    DivModUnique(x + y * p, 256, q, x + p * r);
  }

  lemma Joined(x: nat, y: nat, k: nat, p: nat, lo: nat)
    requires k <= 8 && p == Pow(2, k) && p * lo == 256 && x < p
    ensures JoinByte(x, y, k) == x + p * (y % lo)
  {
    hide Pow, JoinByte;
    JoinByteSum(x, y, k);
    JoinArith(x, y, p, lo);
  }

  /** Sixteen bytes whose groups of limbs overlap: x0 starts at bit 0, x1 at bit 26, ... */
  lemma EvalSixteen(s: seq<int>)
    requires |s| == 16
    ensures Eval(256, s) == Word(s[..4]) + 0x1_0000_0000 * Word(s[4..8])
      + 0x1_0000_0000_0000_0000 * Word(s[8..12]) + 0x1_0000_0000_0000_0000_0000_0000 * Word(s[12..])
  {
    assert Pow(256, 4) == 0x1_0000_0000;
    hide Pow, Eval;
    EvalSplit(256, s, 4);
    EvalSplit(256, s[4..], 4);
    EvalSplit(256, s[4..][4..], 4);
    assert s[4..][..4] == s[4..8] && s[4..][4..] == s[8..] && s[8..][..4] == s[8..12] && s[8..][4..] == s[12..];
    EvalFour(256, s[..4]);
    EvalFour(256, s[4..8]);
    EvalFour(256, s[8..12]);
    EvalFour(256, s[12..]);
  }

  function Word(s: seq<int>): int
    requires |s| == 4
  {
    s[0] + 0x100 * s[1] + 0x1_0000 * s[2] + 0x100_0000 * s[3]
  }

  lemma LowCuts(h: Limbs, s: seq<int>)
    requires Settled(h) && s == LowBytes(h)
    ensures h.l0 == s[0] + 0x100 * s[1] + 0x1_0000 * s[2] + 0x100_0000 * (h.l0 / 0x100_0000)
    ensures h.l1 == h.l1 % 0x40 + 0x40 * s[4] + 0x4000 * s[5] + 0x40_0000 * (h.l1 / 0x40_0000)
    ensures h.l2 == h.l2 % 0x20 + 0x20 * s[7] + 0x2000 * s[8] + 0x20_0000 * (h.l2 / 0x20_0000)
    ensures h.l3 == h.l3 % 8 + 8 * s[10] + 0x800 * s[11] + 0x8_0000 * (h.l3 / 0x8_0000)
    ensures h.l4 == h.l4 % 4 + 4 * s[13] + 0x400 * s[14] + 0x4_0000 * s[15]
  {
    hide JoinByte;
    Cut(h.l0, 0x100, 0x1_0000, 0x100_0000);
    Cut(h.l1, 0x40, 0x4000, 0x40_0000);
    Cut(h.l2, 0x20, 0x2000, 0x20_0000);
    Cut(h.l3, 8, 0x800, 0x8_0000);
    Cut(h.l4, 4, 0x400, 0x4_0000);
  }

  lemma LowJoins(h: Limbs, s: seq<int>)
    requires Settled(h) && s == LowBytes(h)
    ensures |s| == 16 && AllBytes(s)
    ensures s[3] == h.l0 / 0x100_0000 + 4 * (h.l1 % 0x40) && s[6] == h.l1 / 0x40_0000 + 8 * (h.l2 % 0x20)
    ensures s[9] == h.l2 / 0x20_0000 + 32 * (h.l3 % 8) && s[12] == h.l3 / 0x8_0000 + 64 * (h.l4 % 4)
  {
    SmallPowers();
    hide Pow, JoinByte;
    Joined(h.l0 / 0x100_0000, h.l1, 2, 4, 0x40);
    Joined(h.l1 / 0x40_0000, h.l2, 3, 8, 0x20);
    Joined(h.l2 / 0x20_0000, h.l3, 5, 32, 8);
    Joined(h.l3 / 0x8_0000, h.l4, 6, 64, 4);
  }

  lemma LowValue(h: Limbs)
    requires Settled(h)
    ensures |LowBytes(h)| == 16 && AllBytes(LowBytes(h)) && Eval(256, LowBytes(h)) == Lower(h)
  {
    hide LowBytes, Eval, Lower, Word, AllBytes;
    var s := LowBytes(h);
    LowJoins(h, s);
    LowCuts(h, s);
    EvalSixteen(s);
    LowSum(h, s);
  }

  lemma LowSum(h: Limbs, s: seq<int>)
    requires |s| == 16 && Settled(h)
    requires h.l0 == s[0] + 0x100 * s[1] + 0x1_0000 * s[2] + 0x100_0000 * (h.l0 / 0x100_0000)
    requires s[3] == h.l0 / 0x100_0000 + 4 * (h.l1 % 0x40)
    requires h.l1 == h.l1 % 0x40 + 0x40 * s[4] + 0x4000 * s[5] + 0x40_0000 * (h.l1 / 0x40_0000)
    requires s[6] == h.l1 / 0x40_0000 + 8 * (h.l2 % 0x20)
    requires h.l2 == h.l2 % 0x20 + 0x20 * s[7] + 0x2000 * s[8] + 0x20_0000 * (h.l2 / 0x20_0000)
    requires s[9] == h.l2 / 0x20_0000 + 32 * (h.l3 % 8)
    requires h.l3 == h.l3 % 8 + 8 * s[10] + 0x800 * s[11] + 0x8_0000 * (h.l3 / 0x8_0000)
    requires s[12] == h.l3 / 0x8_0000 + 64 * (h.l4 % 4)
    requires h.l4 == h.l4 % 4 + 4 * s[13] + 0x400 * s[14] + 0x4_0000 * s[15]
    ensures Word(s[..4]) + 0x1_0000_0000 * Word(s[4..8]) + 0x1_0000_0000_0000_0000 * Word(s[8..12])
      + 0x1_0000_0000_0000_0000_0000_0000 * Word(s[12..]) == Lower(h)
  {
  }

  lemma HighCuts(h: Limbs, s: seq<int>)
    requires Settled(h) && s == HighBytes(h)
    ensures h.l5 == s[0] + 0x100 * s[1] + 0x1_0000 * s[2] + 0x100_0000 * (h.l5 / 0x100_0000)
    ensures h.l6 == h.l6 % 0x80 + 0x80 * s[4] + 0x8000 * s[5] + 0x80_0000 * (h.l6 / 0x80_0000)
    ensures h.l7 == h.l7 % 0x20 + 0x20 * s[7] + 0x2000 * s[8] + 0x20_0000 * (h.l7 / 0x20_0000)
    ensures h.l8 == h.l8 % 0x10 + 0x10 * s[10] + 0x1000 * s[11] + 0x10_0000 * (h.l8 / 0x10_0000)
    ensures h.l9 == h.l9 % 4 + 4 * s[13] + 0x400 * s[14] + 0x4_0000 * s[15]
  {
    hide JoinByte;
    Cut(h.l5, 0x100, 0x1_0000, 0x100_0000);
    Cut(h.l6, 0x80, 0x8000, 0x80_0000);
    Cut(h.l7, 0x20, 0x2000, 0x20_0000);
    Cut(h.l8, 0x10, 0x1000, 0x10_0000);
    Cut(h.l9, 4, 0x400, 0x4_0000);
  }

  lemma HighJoins(h: Limbs, s: seq<int>)
    requires Settled(h) && s == HighBytes(h)
    ensures |s| == 16 && AllBytes(s)
    ensures s[3] == h.l5 / 0x100_0000 + 2 * (h.l6 % 0x80) && s[6] == h.l6 / 0x80_0000 + 8 * (h.l7 % 0x20)
    ensures s[9] == h.l7 / 0x20_0000 + 16 * (h.l8 % 0x10) && s[12] == h.l8 / 0x10_0000 + 64 * (h.l9 % 4)
  {
    SmallPowers();
    hide Pow, JoinByte;
    Joined(h.l5 / 0x100_0000, h.l6, 1, 2, 0x80);
    Joined(h.l6 / 0x80_0000, h.l7, 3, 8, 0x20);
    Joined(h.l7 / 0x20_0000, h.l8, 4, 16, 0x10);
    Joined(h.l8 / 0x10_0000, h.l9, 6, 64, 4);
  }

  lemma HighSum(h: Limbs, s: seq<int>)
    requires |s| == 16 && Settled(h)
    requires h.l5 == s[0] + 0x100 * s[1] + 0x1_0000 * s[2] + 0x100_0000 * (h.l5 / 0x100_0000)
    requires s[3] == h.l5 / 0x100_0000 + 2 * (h.l6 % 0x80)
    requires h.l6 == h.l6 % 0x80 + 0x80 * s[4] + 0x8000 * s[5] + 0x80_0000 * (h.l6 / 0x80_0000)
    requires s[6] == h.l6 / 0x80_0000 + 8 * (h.l7 % 0x20)
    requires h.l7 == h.l7 % 0x20 + 0x20 * s[7] + 0x2000 * s[8] + 0x20_0000 * (h.l7 / 0x20_0000)
    requires s[9] == h.l7 / 0x20_0000 + 16 * (h.l8 % 0x10)
    requires h.l8 == h.l8 % 0x10 + 0x10 * s[10] + 0x1000 * s[11] + 0x10_0000 * (h.l8 / 0x10_0000)
    requires s[12] == h.l8 / 0x10_0000 + 64 * (h.l9 % 4)
    requires h.l9 == h.l9 % 4 + 4 * s[13] + 0x400 * s[14] + 0x4_0000 * s[15]
    ensures Word(s[..4]) + 0x1_0000_0000 * Word(s[4..8]) + 0x1_0000_0000_0000_0000 * Word(s[8..12])
      + 0x1_0000_0000_0000_0000_0000_0000 * Word(s[12..]) == Upper(h)
  {
  }

  lemma HighValue(h: Limbs)
    requires Settled(h)
    ensures |HighBytes(h)| == 16 && AllBytes(HighBytes(h)) && Eval(256, HighBytes(h)) == Upper(h)
  {
    hide HighBytes, Eval, Upper, Word, AllBytes;
    var s := HighBytes(h);
    HighJoins(h, s);
    HighCuts(h, s);
    EvalSixteen(s);
    HighSum(h, s);
  }

  /** All the joining shifts but one stay inside 32 bits. */
  lemma JoinsFit(h: Limbs)
    requires Settled(h)
    ensures h.l1 * 4 < 0x8000_0000 && h.l2 * 8 < 0x8000_0000 && h.l3 * 32 < 0x8000_0000
    ensures h.l6 * 2 < 0x8000_0000 && h.l7 * 8 < 0x8000_0000 && h.l8 * 16 < 0x8000_0000 && h.l9 * 64 < 0x8000_0000
  {
  }

  lemma LowerTop(h: Limbs)
    requires Settled(h)
    ensures 0 <= Lower(h) - W4 * h.l4 < W4
  {
  }

  /** Bit 127 of the value is the top bit of the fourth limb. */
  lemma FourthLimbBit(l4: int, rest: int, upper: int)
    requires 0 <= l4 < 0x400_0000 && 0 <= rest < W4
    ensures (rest + W4 * l4 + W5 * upper) / P127 % 2 == 1 <==> l4 >= 0x200_0000
  {
    var top := if l4 >= 0x200_0000 then 1 else 0;
    DivModUnique(rest + W4 * l4 + W5 * upper, P127, 2 * upper + top, rest + W4 * l4 - P127 * top);
  }

  /** The one that need not is h4 << 6: it leaves the 32-bit range exactly when bit 127
      of the canonical value is set. */
  lemma FourthLimbOverflows(h: Limbs)
    requires Settled(h)
    ensures h.l4 * 64 >= 0x8000_0000 <==> Value(h) / P127 % 2 == 1
  {
    LowerTop(h);
    ValueHalves(h);
    hide Lower, Upper, Value;
    FourthLimbBit(h.l4, Lower(h) - W4 * h.l4, Upper(h));
  }

  /** An input within the bounds whose canonical value has that bit: all limbs zero but h4. */
  lemma FourthLimbReached()
    ensures var h := Limbs(0, 0, 0, 0, 0x200_0000, 0, 0, 0, 0, 0);
            Bounded(h, TOBYTES_EVEN, TOBYTES_ODD) && Value(h) % PRIME / P127 % 2 == 1
  {
  }

  /** `(x | (y << k))` cut to a byte. */
  method Join(x: nat, y: nat, k: nat) returns (b: int)
    ensures b == JoinByte(x, y, k)
  {
    var shifted := y * Pow(2, k) % 0x1_0000_0000;
    b := BitOr(x, shifted) % 256;
  }

  /** Four output assignments in a row. */
  method Store4(s: array<int>, at: nat, b0: int, b1: int, b2: int, b3: int)
    requires at + 4 <= s.Length
    modifies s
    ensures s[..at + 4] == old(s[..at]) + [b0, b1, b2, b3]
  {
    s[at], s[at + 1], s[at + 2], s[at + 3] := b0, b1, b2, b3;
  }

  /** The output assignments from limbs 0 to 4. */
  method StoreLow(s: array<int>, h: Limbs)
    requires s.Length == 32 && Settled(h)
    modifies s
    ensures s[..16] == LowBytes(h)
  {
    hide JoinByte;
    var b3 := Join(h.l0 / 0x100_0000, h.l1, 2);
    var b6 := Join(h.l1 / 0x40_0000, h.l2, 3);
    var b9 := Join(h.l2 / 0x20_0000, h.l3, 5);
    var b12 := Join(h.l3 / 0x8_0000, h.l4, 6);
    Store4(s, 0, h.l0 % 256, h.l0 / 0x100 % 256, h.l0 / 0x1_0000 % 256, b3);
    Store4(s, 4, h.l1 / 0x40 % 256, h.l1 / 0x4000 % 256, b6, h.l2 / 0x20 % 256);
    Store4(s, 8, h.l2 / 0x2000 % 256, b9, h.l3 / 8 % 256, h.l3 / 0x800 % 256);
    Store4(s, 12, b12, h.l4 / 4 % 256, h.l4 / 0x400 % 256, h.l4 / 0x4_0000 % 256);
  }

  /** The output assignments from limbs 5 to 9. */
  method StoreHigh(s: array<int>, h: Limbs)
    requires s.Length == 32 && Settled(h)
    modifies s
    ensures s[..] == old(s[..16]) + HighBytes(h)
  {
    hide JoinByte;
    var b19 := Join(h.l5 / 0x100_0000, h.l6, 1);
    var b22 := Join(h.l6 / 0x80_0000, h.l7, 3);
    var b25 := Join(h.l7 / 0x20_0000, h.l8, 4);
    var b28 := Join(h.l8 / 0x10_0000, h.l9, 6);
    Store4(s, 16, h.l5 % 256, h.l5 / 0x100 % 256, h.l5 / 0x1_0000 % 256, b19);
    Store4(s, 20, h.l6 / 0x80 % 256, h.l6 / 0x8000 % 256, b22, h.l7 / 0x20 % 256);
    Store4(s, 24, h.l7 / 0x2000 % 256, b25, h.l8 / 0x10 % 256, h.l8 / 0x1000 % 256);
    Store4(s, 28, b28, h.l9 / 4 % 256, h.l9 / 0x400 % 256, h.l9 / 0x4_0000 % 256);
    assert s[..] == s[..32];
  }

  /** The 32 output assignments: the little-endian bytes of the settled value. */
  method StoreBytes(s: array<int>, t: array<int32>)
    requires s.Length == 32 && t.Length == 10 && Settled(Read(t))
    modifies s
    ensures s[..] == LowBytes(Read(t)) + HighBytes(Read(t))
  {
    var h := Read(t);
    hide Settled, LowBytes, HighBytes;
    StoreLow(s, h);
    StoreHigh(s, h);
  }

  lemma BytesValue(h: Limbs)
    requires Settled(h)
    ensures |LowBytes(h) + HighBytes(h)| == 32 && AllBytes(LowBytes(h) + HighBytes(h))
    ensures Eval(256, LowBytes(h) + HighBytes(h)) == Value(h)
  {
    PowersOfTwo();
    PowBytes(16);
    PowAdd(2, 64, 64);
    hide LowBytes, HighBytes, Eval, Lower, Upper, Pow, Value;
    LowValue(h);
    HighValue(h);
    EvalConcat(256, LowBytes(h), HighBytes(h));
    ValueHalves(h);
  }

  /** The quotient and the carries: the limbs of the representative. Of these h4 << 6 is the
      one shift of the assignments that can leave the 32-bit range. */
  method Reduce(h: array<int32>) returns (t: array<int32>)
    requires h.Length == 10 && Bounded(Read(h), TOBYTES_EVEN, TOBYTES_ODD)
    ensures fresh(t) && t.Length == 10 && Settled(Read(t)) && Value(Read(t)) == Value(Read(h)) % PRIME
    ensures t[4] as int * 64 >= 0x8000_0000 <==> Value(Read(h)) % PRIME / P127 % 2 == 1
  {
    var q := Quotient(h);
    var carry;
    t, carry := Settle(h, q);
    assert Read(t).l4 == t[4] as int;
    hide Bounded, Settled, Value;
    SettledRange(Read(t));
    Canonical(Value(Read(h)), q as int, carry as int, Value(Read(t)));
    FourthLimbOverflows(Read(t));
  }

  /** fe_tobytes: the bytes of the representative in 0 .. PRIME - 1. */
  method FeToBytes(s: array<int>, h: array<int32>)
    requires s.Length == 32 && h.Length == 10 && Bounded(Read(h), TOBYTES_EVEN, TOBYTES_ODD)
    modifies s
    ensures AllBytes(s[..]) && Eval(256, s[..]) == Value(Read(h)) % PRIME
  {
    var t := Reduce(h);
    hide Settled, Value, LowBytes, HighBytes, Eval;
    BytesValue(Read(t));
    StoreBytes(s, t);
  }

  lemma CongruentRemainder(x: int, y: int)
    ensures Congruent(x, y) <==> x % PRIME == y % PRIME
  {
    var d := x / PRIME - y / PRIME;
    assert x == y + PRIME * d + (x % PRIME - y % PRIME);
    if Congruent(x, y) {
      var q: int :| x == y + PRIME * q;
      DivModUnique(x, PRIME, y / PRIME + q, y % PRIME);
    }
  }

  /** The encoding decides equality in the field: equal bytes exactly for congruent values. */
  lemma EncodingDecides(x: int, y: int, s: seq<int>, t: seq<int>)
    requires AllBytes(s) && AllBytes(t) && |s| == |t|
    requires Eval(256, s) == x % PRIME && Eval(256, t) == y % PRIME
    ensures s == t <==> Congruent(x, y)
  {
    hide Eval;
    CongruentRemainder(x, y);
    if x % PRIME == y % PRIME {
      EvalInjective(s, t);
    }
  }
}
