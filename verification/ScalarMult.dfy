/** The scalar multiplications of crypto-ops.c over any abelian group: point
    formats (p1p1, p2, p3, cached, precomp) are all the one group element. */
module ScalarMult {
  import opened Numbers
  import opened Group
  import Slide
  import Radix16

  /** P, 3P, 5P, ..., 15P. */
  ghost predicate OddMultiples<P>(g: Group<P>, p: P, t: seq<P>) {
    |t| == 8 && forall j :: 0 <= j < 8 ==> t[j] == Mul(g, 2 * j + 1, p)
  }

  /** P, 2P, ..., 8P. */
  ghost predicate Multiples<P>(g: Group<P>, p: P, t: seq<P>) {
    |t| == 8 && forall j :: 0 <= j < 8 ==> t[j] == Mul(g, j + 1, p)
  }

  /** ge_base: row k holds 1..8 times 256^k times the base point. */
  ghost predicate BaseTable<P>(g: Group<P>, b: P, t: seq<seq<P>>) {
    |t| == 32 && forall k :: 0 <= k < 32 ==> Multiples(g, Mul(g, Pow(256, k), b), t[k])
  }

  /** A scalar as the callers pass it: 32 bytes below 2^255. */
  predicate Scalar(a: seq<int>) {
    |a| == 32 && AllBytes(a) && a[31] <= 127
  }

  method Doubled<P(!new)>(g: Group<P>, r: P, ghost n: int, ghost p: P) returns (d: P)
    requires Abelian(g) && r == Mul(g, n, p)
    ensures d == Mul(g, 2 * n, p)
  {
    d := g.add(r, r);
    MulAdd(g, n, n, p);
  }

  /** ge_dsm_precomp. */
  method DsmPrecomp<P(!new)>(g: Group<P>, s: P) returns (r: array<P>)
    requires Abelian(g)
    ensures fresh(r) && OddMultiples(g, s, r[..])
  {
    hide Abelian, Mul;
    r := new P[8](_ => g.zero);
    r[0] := s;
    MulOne(g, s);
    var s2 := g.add(s, s);
    for i := 0 to 7
      invariant forall j :: 0 <= j <= i ==> r[j] == Mul(g, 2 * j + 1, s)
    {
      r[i + 1] := g.add(s2, r[i]);
      MulAdd(g, 2, 2 * i + 1, s);
    }
  }

  lemma CommutativeHere<P(!new)>(g: Group<P>, x: P, y: P)
    requires Abelian(g)
    ensures g.add(x, y) == g.add(y, x)
  {
    assert Commutative(g, x, y);
  }

  /** One digit's contribution in the double-scalar loop. */
  method AddDigit<P(!new)>(g: Group<P>, t: P, d: int, table: seq<P>, ghost p: P) returns (u: P)
    requires Abelian(g) && OddMultiples(g, p, table)
    requires d != 0 ==> d % 2 == 1 && -15 <= d <= 15
    ensures u == g.add(t, Mul(g, d, p))
  {
    u := t;
    if d > 0 {
      assert table[d / 2] == Mul(g, d, p);
      u := g.add(t, table[d / 2]);
    } else if d < 0 {
      assert table[-d / 2] == Mul(g, -d, p);
      MulNeg(g, -d, p);
      u := g.add(t, g.neg(table[-d / 2]));
    } else {
      assert Neutral(g, t);
    }
  }

  /** n A + m B */
  ghost function Combo<P>(g: Group<P>, n: int, a: P, m: int, b: P): P {
    g.add(Mul(g, n, a), Mul(g, m, b))
  }

  lemma ComboDouble<P(!new)>(g: Group<P>, n: int, a: P, m: int, b: P)
    requires Abelian(g)
    ensures g.add(Combo(g, n, a, m, b), Combo(g, n, a, m, b)) == Combo(g, 2 * n, a, 2 * m, b)
  {
    Interchange(g, Mul(g, n, a), Mul(g, m, b), Mul(g, n, a), Mul(g, m, b));
    MulAdd(g, n, n, a);
    MulAdd(g, m, m, b);
  }

  lemma ComboAdd<P(!new)>(g: Group<P>, n: int, a: P, m: int, b: P, d: int, e: int)
    requires Abelian(g)
    ensures g.add(g.add(Combo(g, n, a, m, b), Mul(g, d, a)), Mul(g, e, b)) == Combo(g, n + d, a, m + e, b)
  {
    var x := Combo(g, n, a, m, b);
    assert Associative(g, x, Mul(g, d, a), Mul(g, e, b));
    Interchange(g, Mul(g, n, a), Mul(g, m, b), Mul(g, d, a), Mul(g, e, b));
    MulAdd(g, n, d, a);
    MulAdd(g, m, e, b);
  }

  /** One iteration of the double-scalar loop. */
  method DoubleStep<P(!new)>(g: Group<P>, r: P, d: int, e: int, ta: seq<P>, tb: seq<P>, ghost n: int, ghost m: int,
      ghost a: P, ghost b: P)
      returns (u: P)
    requires Abelian(g) && OddMultiples(g, a, ta) && OddMultiples(g, b, tb)
    requires d != 0 ==> d % 2 == 1 && -15 <= d <= 15
    requires e != 0 ==> e % 2 == 1 && -15 <= e <= 15
    requires r == Combo(g, n, a, m, b)
    ensures u == Combo(g, d + 2 * n, a, e + 2 * m, b)
  {
    hide Abelian, OddMultiples, Mul, Combo;
    ComboDouble(g, n, a, m, b);
    u := g.add(r, r);
    u := AddDigit(g, u, d, ta, a);
    u := AddDigit(g, u, e, tb, b);
    ComboAdd(g, 2 * n, a, 2 * m, b, d, e);
  }

  /** The position of the top digit that is not zero in both, or -1. */
  method TopDigit(x: array<int>, y: array<int>) returns (i: int)
    requires x.Length == 256 && y.Length == 256
    ensures -1 <= i < 256
    ensures Slide.AllZero(x[i + 1..]) && Slide.AllZero(y[i + 1..])
  {
    i := 255;
    while i >= 0 && x[i] == 0 && y[i] == 0
      invariant -1 <= i < 256
      invariant Slide.AllZero(x[i + 1..]) && Slide.AllZero(y[i + 1..])
    {
      assert x[i..] == [0] + x[i + 1..] && y[i..] == [0] + y[i + 1..];
      i := i - 1;
    }
  }

  lemma ComboStarts<P(!new)>(g: Group<P>, x: seq<int>, a: P, y: seq<int>, b: P)
    requires Abelian(g) && Slide.AllZero(x) && Slide.AllZero(y)
    ensures Combo(g, Eval(2, x), a, Eval(2, y), b) == g.zero
  {
    EvalZeros(2, x);
    EvalZeros(2, y);
    assert Neutral(g, g.zero);
  }

  lemma SlidDigit(t: seq<int>, i: nat)
    requires i < |t| && Slide.Slid(t)
    ensures t[i] != 0 ==> t[i] % 2 == 1 && -15 <= t[i] <= 15
  {
  }

  /** The iteration at digit i, on top of the digits above it. */
  method DoubleAt<P(!new)>(g: Group<P>, r: P, d: int, e: int, ghost x: seq<int>, ghost y: seq<int>, ghost i: nat,
      ta: seq<P>, tb: seq<P>, ghost a: P, ghost b: P)
      returns (u: P)
    requires Abelian(g) && OddMultiples(g, a, ta) && OddMultiples(g, b, tb)
    requires i < |x| && i < |y| && d == x[i] && e == y[i] && Slide.Slid(x) && Slide.Slid(y)
    requires r == Combo(g, Eval(2, x[i + 1..]), a, Eval(2, y[i + 1..]), b)
    ensures u == Combo(g, Eval(2, x[i..]), a, Eval(2, y[i..]), b)
  {
    hide *;
    SlidDigit(x, i);
    SlidDigit(y, i);
    EvalStep(2, x, i);
    EvalStep(2, y, i);
    u := DoubleStep(g, r, d, e, ta, tb, Eval(2, x[i + 1..]), Eval(2, y[i + 1..]), a, b);
  }

  /** The double-scalar loop over two digit arrays, from the top digit that is not zero. */
  method DoubleLoop<P(!new)>(g: Group<P>, x: array<int>, y: array<int>, ta: seq<P>, tb: seq<P>, ghost a: P,
      ghost b: P)
      returns (r: P)
    requires Abelian(g) && OddMultiples(g, a, ta) && OddMultiples(g, b, tb)
    requires x.Length == 256 && y.Length == 256 && Slide.Slid(x[..]) && Slide.Slid(y[..])
    ensures r == Combo(g, Eval(2, x[..]), a, Eval(2, y[..]), b)
  {
    hide *;
    var i := TopDigit(x, y);
    r := g.zero;
    ComboStarts(g, x[i + 1..], a, y[i + 1..], b);
    while i >= 0
      invariant -1 <= i < 256
      invariant r == Combo(g, Eval(2, x[i + 1..]), a, Eval(2, y[i + 1..]), b)
    {
      r := DoubleAt(g, r, x[i], y[i], x[..], y[..], i, ta, tb, a, b);
      i := i - 1;
    }
  }

  /** What the digits of slide are worth: the scalar, less 2^256 if it loses its top carry. */
  ghost function SlidValue(a: seq<int>): int
    requires |a| == 32 && AllBytes(a)
  {
    Eval(256, a) - Pow(2, 256) * Slide.CarryOut(Slide.BitsOf(a), 0)
  }

  lemma SlidDigits(a: seq<int>)
    requires |a| == 32 && AllBytes(a)
    ensures var t := Slide.Recode(Slide.BitsOf(a)); Slide.Slid(t) && Eval(2, t) == SlidValue(a)
  {
    hide *;
    Slide.SlideExact(a);
    Slide.RecodeSlid(Slide.BitsOf(a));
    SlidValueIs(a);
  }

  lemma SlidValueIs(a: seq<int>)
    requires |a| == 32 && AllBytes(a)
    ensures Slide.CarryOut(Slide.BitsOf(a), 0) == 0 ==> SlidValue(a) == Eval(256, a)
    ensures Slide.CarryOut(Slide.BitsOf(a), 0) == 1 ==> SlidValue(a) == Eval(256, a) - Pow(2, 8 * |a|)
  {
    hide Eval, Pow, Slide.CarryOut, Slide.BitsOf;
  }

  /** Below 2^255 nothing is lost. */
  lemma ScalarSlides(a: seq<int>)
    requires Scalar(a)
    ensures SlidValue(a) == Eval(256, a)
  {
    hide Eval, SlidValue, Slide.CarryOut, Slide.BitsOf, Slide.Recode;
    Slide.SlideExact(a);
    Slide.SlideCorrect(a);
    SlidValueIs(a);
  }

  /** ge_double_scalarmult_precomp_vartime: a A + b B for any bytes, up to the carries slide
      loses, and exactly for scalars below 2^255; B is given by its odd multiples. */
  method DoubleScalarMultPrecomp<P(!new)>(g: Group<P>, a: seq<int>, A: P, b: seq<int>, Bi: seq<P>, ghost B: P)
      returns (r: P)
    requires Abelian(g) && |a| == |b| == 32 && AllBytes(a) && AllBytes(b) && OddMultiples(g, B, Bi)
    ensures r == Combo(g, SlidValue(a), A, SlidValue(b), B)
    ensures Scalar(a) && Scalar(b) ==> r == Combo(g, Eval(256, a), A, Eval(256, b), B)
  {
    hide Abelian, OddMultiples, Combo, SlidValue, Slide.Slid, Slide.Recode, Slide.BitsOf, Eval;
    var aslide := Slide.Slide(a);
    var bslide := Slide.Slide(b);
    SlidDigits(a);
    SlidDigits(b);
    var Ai := DsmPrecomp(g, A);
    r := DoubleLoop(g, aslide, bslide, Ai[..], Bi, A, B);
    if Scalar(a) && Scalar(b) {
      ScalarSlides(a);
      ScalarSlides(b);
    }
  }

  /** The multiple of the tabulated point that a digit in -8..8 asks for: the chain
      of conditional moves over the eight entries, then the conditional negation. */
  method Select<P(!new)>(g: Group<P>, table: seq<P>, d: int, ghost p: P) returns (t: P)
    requires Abelian(g) && Multiples(g, p, table) && -8 <= d <= 8
    ensures t == Mul(g, d, p)
  {
    var babs := if d < 0 then -d else d;
    t := g.zero;
    for j := 0 to 8
      invariant t == if 1 <= babs <= j then Mul(g, babs, p) else g.zero
    {
      if babs == j + 1 {
        t := table[j];
      }
    }
    if d < 0 {
      MulNeg(g, -d, p);
      t := g.neg(t);
    }
  }

  method SmallMultiples<P(!new)>(g: Group<P>, A: P) returns (t: array<P>)
    requires Abelian(g)
    ensures fresh(t) && Multiples(g, A, t[..])
  {
    hide Abelian, Mul;
    t := new P[8](_ => g.zero);
    t[0] := A;
    MulOne(g, A);
    for i := 0 to 7
      invariant forall j :: 0 <= j <= i ==> t[j] == Mul(g, j + 1, A)
    {
      t[i + 1] := g.add(A, t[i]);
      CommutativeHere(g, A, t[i]);
      MulSucc(g, i + 1, A);
    }
  }

  /** Four doublings in a row. */
  method Times16<P(!new)>(g: Group<P>, p0: P, ghost n: int, ghost p: P) returns (r: P)
    requires Abelian(g) && p0 == Mul(g, n, p)
    ensures r == Mul(g, 16 * n, p)
  {
    hide Abelian, Mul;
    r := Doubled(g, p0, n, p);
    r := Doubled(g, r, 2 * n, p);
    r := Doubled(g, r, 4 * n, p);
    r := Doubled(g, r, 8 * n, p);
  }

  /** Four doublings and an addition: the body of the radix-16 Horner loop. */
  method HornerStep<P(!new)>(g: Group<P>, r0: P, d: int, table: seq<P>, ghost n: int, ghost p: P) returns (r: P)
    requires Abelian(g) && Multiples(g, p, table) && -8 <= d <= 8 && r0 == Mul(g, n, p)
    ensures r == Mul(g, d + 16 * n, p)
  {
    hide Abelian, Mul, Multiples;
    r := Times16(g, r0, n, p);
    var cur := Select(g, table, d, p);
    r := g.add(r, cur);
    MulAdd(g, 16 * n, d, p);
  }

  /** The recoding loop of ge_scalarmult: balanced digits of the scalar. */
  method DigitsByByte(a: seq<int>) returns (e: array<int>)
    requires Scalar(a)
    ensures fresh(e) && e.Length == 64
    ensures Eval(16, e[..]) == Eval(256, a) && Radix16.Balanced(e[..])
  {
    e := Radix16.RecodeBytes(a);
    Radix16.FromBytesCorrect(a, 0);
  }

  /** The recoding loops of ge_scalarmult_base. */
  method DigitsByNibble(a: seq<int>) returns (e: array<int>)
    requires Scalar(a)
    ensures fresh(e) && e.Length == 64
    ensures Eval(16, e[..]) == Eval(256, a) && Radix16.Balanced(e[..])
  {
    e := Radix16.RecodeNibbles(a);
    Radix16.FromBytesCorrect(a, 0);
  }

  /** ge_scalarmult: a A for every a below 2^255. */
  method GeScalarMult<P(!new)>(g: Group<P>, a: seq<int>, A: P) returns (r: P)
    requires Abelian(g) && Scalar(a)
    ensures r == Mul(g, Eval(256, a), A)
  {
    var e := DigitsByByte(a);
    var multiples := SmallMultiples(g, A);
    var Ai := multiples[..];
    ghost var digits := e[..];
    r := g.zero;
    var i := 63;
    assert digits[64..] == [];
    while i >= 0
      invariant -1 <= i < 64 && e[..] == digits
      invariant r == Mul(g, Eval(16, digits[i + 1..]), A)
    {
      r := HornerStep(g, r, e[i], Ai, Eval(16, digits[i + 1..]), A);
      EvalStep(16, digits, i);
      i := i - 1;
    }
    assert digits[0..] == digits;
  }

  /** Every second digit of e, from position k. */
  ghost function Every2(e: seq<int>, k: nat): (s: seq<int>)
    requires k <= 1 && |e| % 2 == 0
    ensures |s| == |e| / 2
  {
    seq(|e| / 2, i requires 0 <= i < |e| / 2 => e[2 * i + k])
  }

  lemma {:induction false} EvenOdd(e: seq<int>)
    requires |e| % 2 == 0
    ensures Eval(16, e) == Eval(256, Every2(e, 0)) + 16 * Eval(256, Every2(e, 1))
  {
    if e != [] {
      var s := e[2..];
      EvenOdd(s);
      assert e == [e[0], e[1]] + s;
      Radix16.EvalPair(e[0], e[1], s);
      assert Every2(e, 0)[1..] == Every2(s, 0) && Every2(e, 1)[1..] == Every2(s, 1);
    }
  }

  /** Adding digit d of weight 256^k to a partial sum. */
  method AddBase<P(!new)>(g: Group<P>, h: P, d: int, row: seq<P>, ghost n: int, ghost w: int, ghost B: P) returns (r: P)
    requires Abelian(g) && -8 <= d <= 8 && h == Mul(g, n, B) && Multiples(g, Mul(g, w, B), row)
    ensures r == Mul(g, n + w * d, B)
  {
    var t := Select(g, row, d, Mul(g, w, B));
    r := g.add(h, t);
    MulMul(g, d, w, B);
    assert d * w == w * d;
    MulAdd(g, n, w * d, B);
  }

  /** One of the two table passes of ge_scalarmult_base. */
  method BasePass<P(!new)>(g: Group<P>, h0: P, e: seq<int>, k: nat, base: seq<seq<P>>, ghost n: int, ghost B: P)
      returns (h: P)
    requires Abelian(g) && BaseTable(g, B, base) && k <= 1 && |e| == 64
    requires Radix16.Balanced(e) && h0 == Mul(g, n, B)
    ensures h == Mul(g, n + Eval(256, Every2(e, k)), B)
  {
    hide Abelian, Mul, Multiples, Pow;
    ghost var s := Every2(e, k);
    h := h0;
    var i := k;
    ghost var j, v := 0, 0;
    while i < 64
      invariant 0 <= j <= 32 && i == 2 * j + k && v == Eval(256, s[..j])
      invariant h == Mul(g, n + v, B)
    {
      assert i / 2 == j && e[i] == s[j];
      h := AddBase(g, h, e[i], base[i / 2], n + v, Pow(256, j), B);
      EvalSnoc(256, s, j);
      v := v + Pow(256, j) * s[j];
      i, j := i + 2, j + 1;
    }
    assert s[..32] == s;
  }

  /** ge_scalarmult_base: a B for every a below 2^255, from the table of B. */
  method GeScalarMultBase<P(!new)>(g: Group<P>, a: seq<int>, base: seq<seq<P>>, ghost B: P) returns (h: P)
    requires Abelian(g) && Scalar(a) && BaseTable(g, B, base)
    ensures h == Mul(g, Eval(256, a), B)
  {
    hide Abelian, Eval, Every2, BaseTable, Scalar, Radix16.Balanced;
    var digits := DigitsByNibble(a);
    var e := digits[..];
    ghost var odds, evens := Eval(256, Every2(e, 1)), Eval(256, Every2(e, 0));
    EvenOdd(e);
    ghost var value := 16 * odds + evens;
    assert Eval(256, a) == value;
    h := BasePass(g, g.zero, e, 1, base, 0, B);
    h := Times16(g, h, odds, B);
    h := BasePass(g, h, e, 0, base, 16 * odds, B);
    assert h == Mul(g, value, B);
  }

  /** ge_mul8. */
  method Mul8<P(!new)>(g: Group<P>, p: P) returns (r: P)
    requires Abelian(g)
    ensures r == Mul(g, 8, p)
  {
    MulOne(g, p);
    r := Doubled(g, p, 1, p);
    r := Doubled(g, r, 2, p);
    r := Doubled(g, r, 4, p);
  }
}
