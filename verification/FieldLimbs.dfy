/** Field arithmetic modulo 2^255 - 19 on ten signed limbs of alternating 26 and 25
    bits (crypto-ops.c). The 32-bit and 64-bit types make every intermediate of the
    source a proof obligation: nothing overflows. */
module FieldLimbs {
  import opened Numbers

  newtype int32 = x: int | -0x8000_0000 <= x < 0x8000_0000
  newtype int64 = x: int | -0x8000_0000_0000_0000 <= x < 0x8000_0000_0000_0000

  /** 2^255 - 19 */
  const PRIME := 0x7fffffff_ffffffff_ffffffff_ffffffff_ffffffff_ffffffff_ffffffff_ffffffed

  const W1 := 0x4000000
  const W2 := 0x8000000000000
  const W3 := 0x20000000000000000000
  const W4 := 0x40000000000000000000000000
  const W5 := 0x100000000000000000000000000000000
  const W6 := 0x200000000000000000000000000000000000000
  const W7 := 0x800000000000000000000000000000000000000000000
  const W8 := 0x1000000000000000000000000000000000000000000000000000
  const W9 := 0x4000000000000000000000000000000000000000000000000000000000

  datatype Limbs = Limbs(l0: int, l1: int, l2: int, l3: int, l4: int, l5: int, l6: int, l7: int, l8: int, l9: int)

  /** The integer the limbs stand for: weights 2^ceil(25.5 i). */
  function Value(h: Limbs): int {
    h.l0 + W1 * h.l1 + W2 * h.l2 + W3 * h.l3 + W4 * h.l4 + W5 * h.l5 + W6 * h.l6 + W7 * h.l7 + W8 * h.l8 + W9 * h.l9
  }

  predicate Within(x: int, bound: int) { -bound <= x <= bound }

  /** Even limbs within `even`, odd limbs within `odd`. */
  predicate Bounded(h: Limbs, even: int, odd: int) {
    && Within(h.l0, even) && Within(h.l1, odd) && Within(h.l2, even) && Within(h.l3, odd) && Within(h.l4, even)
    && Within(h.l5, odd) && Within(h.l6, even) && Within(h.l7, odd) && Within(h.l8, even) && Within(h.l9, odd)
  }

  /** The source's stated bounds, rounded down: 1.65 and 1.01 times 2^26, 2^25, 2^24. */
  const IN_EVEN := 110_729_625
  const IN_ODD := 55_364_812
  const OUT_EVEN := 33_889_976
  const OUT_ODD := 16_944_988

  /** What a column of products can reach. */
  const COLUMN_EVEN := 77 * IN_EVEN * IN_EVEN + 190 * IN_ODD * IN_ODD
  const COLUMN_ODD := 154 * IN_EVEN * IN_ODD

  function Read(h: array<int32>): Limbs
    requires h.Length == 10
    reads h
  {
    Limbs(h[0] as int, h[1] as int, h[2] as int, h[3] as int, h[4] as int,
          h[5] as int, h[6] as int, h[7] as int, h[8] as int, h[9] as int)
  }

  /** x times every limb. */
  function Scale(x: int, g: Limbs): Limbs {
    Limbs(x * g.l0, x * g.l1, x * g.l2, x * g.l3, x * g.l4, x * g.l5, x * g.l6, x * g.l7, x * g.l8, x * g.l9)
  }

  function Add(f: Limbs, g: Limbs): Limbs {
    Limbs(f.l0 + g.l0, f.l1 + g.l1, f.l2 + g.l2, f.l3 + g.l3, f.l4 + g.l4,
          f.l5 + g.l5, f.l6 + g.l6, f.l7 + g.l7, f.l8 + g.l8, f.l9 + g.l9)
  }

  function Limb(h: Limbs, i: nat): int
    requires i < 10
  {
    if i == 0 then h.l0 else if i == 1 then h.l1 else if i == 2 then h.l2 else if i == 3 then h.l3
    else if i == 4 then h.l4 else if i == 5 then h.l5 else if i == 6 then h.l6 else if i == 7 then h.l7
    else if i == 8 then h.l8 else h.l9
  }

  function Weight(i: nat): int
    requires i < 10
  {
    if i == 0 then 1 else if i == 1 then W1 else if i == 2 then W2 else if i == 3 then W3
    else if i == 4 then W4 else if i == 5 then W5 else if i == 6 then W6 else if i == 7 then W7
    else if i == 8 then W8 else W9
  }

  /** Multiplication by the weight of limb i: limbs move up i places, those past the
      top come back 19 times, and odd meeting odd doubles. */
  function Place(i: nat, t: Limbs): Limbs
    requires i < 10
  {
    if i == 0 then Limbs(t.l0, t.l1, t.l2, t.l3, t.l4, t.l5, t.l6, t.l7, t.l8, t.l9)
    else if i == 1 then Limbs(38 * t.l9, t.l0, 2 * t.l1, t.l2, 2 * t.l3, t.l4, 2 * t.l5, t.l6, 2 * t.l7, t.l8)
    else if i == 2 then Limbs(19 * t.l8, 19 * t.l9, t.l0, t.l1, t.l2, t.l3, t.l4, t.l5, t.l6, t.l7)
    else if i == 3 then Limbs(38 * t.l7, 19 * t.l8, 38 * t.l9, t.l0, 2 * t.l1, t.l2, 2 * t.l3, t.l4, 2 * t.l5, t.l6)
    else if i == 4 then Limbs(19 * t.l6, 19 * t.l7, 19 * t.l8, 19 * t.l9, t.l0, t.l1, t.l2, t.l3, t.l4, t.l5)
    else if i == 5 then Limbs(38 * t.l5, 19 * t.l6, 38 * t.l7, 19 * t.l8, 38 * t.l9, t.l0, 2 * t.l1, t.l2, 2 * t.l3,
        t.l4)
    else if i == 6 then Limbs(19 * t.l4, 19 * t.l5, 19 * t.l6, 19 * t.l7, 19 * t.l8, 19 * t.l9, t.l0, t.l1, t.l2, t.l3)
    else if i == 7 then Limbs(38 * t.l3, 19 * t.l4, 38 * t.l5, 19 * t.l6, 38 * t.l7, 19 * t.l8, 38 * t.l9, t.l0,
        2 * t.l1, t.l2)
    else if i == 8 then Limbs(19 * t.l2, 19 * t.l3, 19 * t.l4, 19 * t.l5, 19 * t.l6, 19 * t.l7, 19 * t.l8, 19 * t.l9,
        t.l0, t.l1)
    else Limbs(38 * t.l1, 19 * t.l2, 38 * t.l3, 19 * t.l4, 38 * t.l5, 19 * t.l6, 38 * t.l7, 19 * t.l8, 38 * t.l9, t.l0)
  }

  /** How many times the prime is dropped by Place. */
  function Dropped(i: nat, t: Limbs): int
    requires i < 10
  {
    if i == 0 then 0
    else if i == 1 then 2 * t.l9
    else if i == 2 then t.l8 + W1 * t.l9
    else if i == 3 then 2 * t.l7 + W1 * t.l8 + 2 * W2 * t.l9
    else if i == 4 then t.l6 + W1 * t.l7 + W2 * t.l8 + W3 * t.l9
    else if i == 5 then 2 * t.l5 + W1 * t.l6 + 2 * W2 * t.l7 + W3 * t.l8 + 2 * W4 * t.l9
    else if i == 6 then t.l4 + W1 * t.l5 + W2 * t.l6 + W3 * t.l7 + W4 * t.l8 + W5 * t.l9
    else if i == 7 then 2 * t.l3 + W1 * t.l4 + 2 * W2 * t.l5 + W3 * t.l6 + 2 * W4 * t.l7 + W5 * t.l8 + 2 * W6 * t.l9
    else if i == 8 then t.l2 + W1 * t.l3 + W2 * t.l4 + W3 * t.l5 + W4 * t.l6 + W5 * t.l7 + W6 * t.l8 + W7 * t.l9
    else
      2 * t.l1 + W1 * t.l2 + 2 * W2 * t.l3 + W3 * t.l4 + 2 * W4 * t.l5
      + W5 * t.l6 + 2 * W6 * t.l7 + W7 * t.l8 + 2 * W8 * t.l9
  }

  lemma PlaceValue(i: nat, t: Limbs)
    requires i < 10
    ensures Value(Place(i, t)) == Weight(i) * Value(t) - PRIME * Dropped(i, t)
  {
    if i < 5 {
      PlaceValueLow(i, t);
    } else {
      PlaceValueHigh(i, t);
    }
  }

  lemma PlaceValueLow(i: nat, t: Limbs)
    requires i < 5
    ensures Value(Place(i, t)) == Weight(i) * Value(t) - PRIME * Dropped(i, t)
  {
    assert i == 0 || i == 1 || i == 2 || i == 3 || i == 4;
  }

  lemma PlaceValueHigh(i: nat, t: Limbs)
    requires 5 <= i < 10
    ensures Value(Place(i, t)) == Weight(i) * Value(t) - PRIME * Dropped(i, t)
  {
    assert i == 5 || i == 6 || i == 7 || i == 8 || i == 9;
  }

  lemma ScaleValue(x: int, g: Limbs)
    ensures Value(Scale(x, g)) == x * Value(g)
  {
  }

  /** Limb i of f times all of g. */
  function Row(f: Limbs, g: Limbs, i: nat): Limbs
    requires i < 10
  {
    Place(i, Scale(Limb(f, i), g))
  }

  /** The first n rows of the schoolbook product. */
  function Rows(f: Limbs, g: Limbs, n: nat): Limbs
    requires n <= 10
  {
    if n == 0 then Limbs(0, 0, 0, 0, 0, 0, 0, 0, 0, 0)
    else Add(Rows(f, g, n - 1), Row(f, g, n - 1))
  }

  ghost predicate Congruent(x: int, y: int) { exists q: int :: x == y + PRIME * q }

  /** The ten sums of products, column by column as the source writes them. */
  function Columns(f: Limbs, g: Limbs): Limbs {
    Limbs(
      (f.l0 * g.l0) + 38 * (f.l1 * g.l9) + 19 * (f.l2 * g.l8) + 38 * (f.l3 * g.l7) + 19 * (f.l4 * g.l6)
          + 38 * (f.l5 * g.l5) + 19 * (f.l6 * g.l4) + 38 * (f.l7 * g.l3) + 19 * (f.l8 * g.l2) + 38 * (f.l9 * g.l1),
      (f.l0 * g.l1) + (f.l1 * g.l0) + 19 * (f.l2 * g.l9) + 19 * (f.l3 * g.l8) + 19 * (f.l4 * g.l7)
          + 19 * (f.l5 * g.l6) + 19 * (f.l6 * g.l5) + 19 * (f.l7 * g.l4) + 19 * (f.l8 * g.l3) + 19 * (f.l9 * g.l2),
      (f.l0 * g.l2) + 2 * (f.l1 * g.l1) + (f.l2 * g.l0) + 38 * (f.l3 * g.l9) + 19 * (f.l4 * g.l8) + 38 * (f.l5 * g.l7)
          + 19 * (f.l6 * g.l6) + 38 * (f.l7 * g.l5) + 19 * (f.l8 * g.l4) + 38 * (f.l9 * g.l3),
      (f.l0 * g.l3) + (f.l1 * g.l2) + (f.l2 * g.l1) + (f.l3 * g.l0) + 19 * (f.l4 * g.l9) + 19 * (f.l5 * g.l8)
          + 19 * (f.l6 * g.l7) + 19 * (f.l7 * g.l6) + 19 * (f.l8 * g.l5) + 19 * (f.l9 * g.l4),
      (f.l0 * g.l4) + 2 * (f.l1 * g.l3) + (f.l2 * g.l2) + 2 * (f.l3 * g.l1) + (f.l4 * g.l0) + 38 * (f.l5 * g.l9)
          + 19 * (f.l6 * g.l8) + 38 * (f.l7 * g.l7) + 19 * (f.l8 * g.l6) + 38 * (f.l9 * g.l5),
      (f.l0 * g.l5) + (f.l1 * g.l4) + (f.l2 * g.l3) + (f.l3 * g.l2) + (f.l4 * g.l1) + (f.l5 * g.l0)
          + 19 * (f.l6 * g.l9) + 19 * (f.l7 * g.l8) + 19 * (f.l8 * g.l7) + 19 * (f.l9 * g.l6),
      (f.l0 * g.l6) + 2 * (f.l1 * g.l5) + (f.l2 * g.l4) + 2 * (f.l3 * g.l3) + (f.l4 * g.l2) + 2 * (f.l5 * g.l1)
          + (f.l6 * g.l0) + 38 * (f.l7 * g.l9) + 19 * (f.l8 * g.l8) + 38 * (f.l9 * g.l7),
      (f.l0 * g.l7) + (f.l1 * g.l6) + (f.l2 * g.l5) + (f.l3 * g.l4) + (f.l4 * g.l3) + (f.l5 * g.l2) + (f.l6 * g.l1)
          + (f.l7 * g.l0) + 19 * (f.l8 * g.l9) + 19 * (f.l9 * g.l8),
      (f.l0 * g.l8) + 2 * (f.l1 * g.l7) + (f.l2 * g.l6) + 2 * (f.l3 * g.l5) + (f.l4 * g.l4) + 2 * (f.l5 * g.l3)
          + (f.l6 * g.l2) + 2 * (f.l7 * g.l1) + (f.l8 * g.l0) + 38 * (f.l9 * g.l9),
      (f.l0 * g.l9) + (f.l1 * g.l8) + (f.l2 * g.l7) + (f.l3 * g.l6) + (f.l4 * g.l5) + (f.l5 * g.l4) + (f.l6 * g.l3)
          + (f.l7 * g.l2) + (f.l8 * g.l1) + (f.l9 * g.l0))
  }

  /** By columns or by rows, the same ten sums. */
  lemma ColumnsAreRows(f: Limbs, g: Limbs)
    ensures Columns(f, g) == Rows(f, g, 10)
  {
    assert Rows(f, g, 2) == Add(Add(Rows(f, g, 0), Row(f, g, 0)), Row(f, g, 1));
    assert Rows(f, g, 4) == Add(Add(Rows(f, g, 2), Row(f, g, 2)), Row(f, g, 3));
    assert Rows(f, g, 6) == Add(Add(Rows(f, g, 4), Row(f, g, 4)), Row(f, g, 5));
    assert Rows(f, g, 8) == Add(Add(Rows(f, g, 6), Row(f, g, 6)), Row(f, g, 7));
    assert Rows(f, g, 10) == Add(Add(Rows(f, g, 8), Row(f, g, 8)), Row(f, g, 9));
  }

  /** The value of the lower n limbs. */
  function Partial(f: Limbs, n: nat): int
    requires n <= 10
  {
    if n == 0 then 0 else Partial(f, n - 1) + Weight(n - 1) * Limb(f, n - 1)
  }

  function DroppedBy(f: Limbs, g: Limbs, n: nat): int
    requires n <= 10
  {
    if n == 0 then 0 else DroppedBy(f, g, n - 1) + Dropped(n - 1, Scale(Limb(f, n - 1), g))
  }

  lemma RowValue(f: Limbs, g: Limbs, i: nat)
    requires i < 10
    ensures Value(Row(f, g, i)) == Weight(i) * Limb(f, i) * Value(g) - PRIME * Dropped(i, Scale(Limb(f, i), g))
  {
    var x := Limb(f, i);
    ScaleValue(x, g);
    PlaceValue(i, Scale(x, g));
    hide Value, Place, Scale, Limb, Dropped, Weight;
    MulAssoc(Weight(i), x, Value(g));
  }

  lemma ValueAdd(a: Limbs, b: Limbs)
    ensures Value(Add(a, b)) == Value(a) + Value(b)
  {
  }

  lemma {:induction false} RowsValue(f: Limbs, g: Limbs, n: nat)
    requires n <= 10
    ensures Value(Rows(f, g, n)) == Partial(f, n) * Value(g) - PRIME * DroppedBy(f, g, n)
  {
    if n > 0 {
      RowsValue(f, g, n - 1);
      var rows, row := Rows(f, g, n - 1), Row(f, g, n - 1);
      var p, x, v := Partial(f, n - 1), Weight(n - 1) * Limb(f, n - 1), Value(g);
      var d, e := DroppedBy(f, g, n - 1), Dropped(n - 1, Scale(Limb(f, n - 1), g));
      RowValue(f, g, n - 1);
      ValueAdd(rows, row);
      assert Rows(f, g, n) == Add(rows, row) && Partial(f, n) == p + x && DroppedBy(f, g, n) == d + e;
      hide *;
      DistributeRight(p, x, v);
    }
  }

  lemma DistributeRight(x: int, y: int, v: int)
    ensures (x + y) * v == x * v + y * v
  {
  }

  lemma PartialAll(f: Limbs)
    ensures Partial(f, 10) == Value(f)
  {
    assert Partial(f, 1) == f.l0;
    assert Partial(f, 2) == Partial(f, 1) + W1 * f.l1;
    assert Partial(f, 3) == Partial(f, 2) + W2 * f.l2;
    assert Partial(f, 4) == Partial(f, 3) + W3 * f.l3;
    assert Partial(f, 5) == Partial(f, 4) + W4 * f.l4;
    assert Partial(f, 6) == Partial(f, 5) + W5 * f.l5;
    assert Partial(f, 7) == Partial(f, 6) + W6 * f.l6;
    assert Partial(f, 8) == Partial(f, 7) + W7 * f.l7;
    assert Partial(f, 9) == Partial(f, 8) + W8 * f.l8;
    assert Partial(f, 10) == Partial(f, 9) + W9 * f.l9;
  }

  /** The columns have the value of the product, modulo the prime. */
  lemma ColumnsValue(f: Limbs, g: Limbs)
    ensures Congruent(Value(Columns(f, g)), Value(f) * Value(g))
  {
    hide Value, Columns, Rows, Partial, DroppedBy;
    ColumnsAreRows(f, g);
    RowsValue(f, g, 10);
    PartialAll(f);
    var q := -DroppedBy(f, g, 10);
    assert Value(Columns(f, g)) == Value(f) * Value(g) + PRIME * q;
  }

  lemma SizesMultiply(a: nat, b: nat, X: nat, Y: nat)
    requires a <= X && b <= Y
    ensures a * b <= X * Y
  {
    MulMonotonic(a, b, Y);
    MulMonotonic(Y, a, X);
  }

  lemma Signs(x: int, y: int, a: int, b: int)
    requires (x == a || x == -a) && (y == b || y == -b)
    ensures x * y == a * b || x * y == -(a * b)
  {
  }

  lemma MulBound(x: int, y: int, X: nat, Y: nat)
    requires Within(x, X) && Within(y, Y)
    ensures Within(x * y, X * Y)
  {
    var a, b := if x < 0 then -x else x, if y < 0 then -y else y;
    SizesMultiply(a, b, X, Y);
    Signs(x, y, a, b);
  }

  /** A 32 by 32 bit product in 64 bits, of c1 a and c2 b. */
  method Product(x: int32, y: int32, ghost c1: nat, ghost a: int, ghost X: nat, ghost c2: nat, ghost b: int,
      ghost Y: nat)
      returns (p: int64)
    requires x as int == c1 * a && y as int == c2 * b
    requires Within(x as int, X) && Within(y as int, Y) && X * Y < 0x8000_0000_0000_0000
    ensures p as int == c1 * c2 * (a * b) && Within(p as int, X * Y)
  {
    MulBound(x as int, y as int, X, Y);
    Regroup(c1, a, c2, b);
    p := x as int64 * y as int64;
  }

  lemma Regroup(c1: int, a: int, c2: int, b: int)
    ensures (c1 * a) * (c2 * b) == c1 * c2 * (a * b)
  {
    MulAssoc(c1 * a, c2, b);
    MulAssoc(c1, a, c2);
    MulAssoc(c1, c2, a);
    assert a * c2 == c2 * a;
    MulAssoc(c1 * c2, a, b);
  }

  ghost predicate Operands(f: array<int32>, g: array<int32>, F: Limbs, G: Limbs)
    reads f, g
  {
    && f.Length == 10 && g.Length == 10 && F == Read(f) && G == Read(g)
    && Bounded(F, IN_EVEN, IN_ODD) && Bounded(G, IN_EVEN, IN_ODD)
  }

  method Column0(f: array<int32>, g: array<int32>, ghost F: Limbs, ghost G: Limbs) returns (h: int64)
    requires Operands(f, g, F, G)
    ensures h as int == Columns(F, G).l0 && Within(h as int, COLUMN_EVEN)
  {
    var p0 := Product(f[0], g[0], 1, F.l0, IN_EVEN, 1, G.l0, IN_EVEN);
    var p1 := Product(2 * f[1], 19 * g[9], 2, F.l1, 2 * IN_ODD, 19, G.l9, 19 * IN_ODD);
    var p2 := Product(f[2], 19 * g[8], 1, F.l2, IN_EVEN, 19, G.l8, 19 * IN_EVEN);
    var p3 := Product(2 * f[3], 19 * g[7], 2, F.l3, 2 * IN_ODD, 19, G.l7, 19 * IN_ODD);
    var p4 := Product(f[4], 19 * g[6], 1, F.l4, IN_EVEN, 19, G.l6, 19 * IN_EVEN);
    var p5 := Product(2 * f[5], 19 * g[5], 2, F.l5, 2 * IN_ODD, 19, G.l5, 19 * IN_ODD);
    var p6 := Product(f[6], 19 * g[4], 1, F.l6, IN_EVEN, 19, G.l4, 19 * IN_EVEN);
    var p7 := Product(2 * f[7], 19 * g[3], 2, F.l7, 2 * IN_ODD, 19, G.l3, 19 * IN_ODD);
    var p8 := Product(f[8], 19 * g[2], 1, F.l8, IN_EVEN, 19, G.l2, 19 * IN_EVEN);
    var p9 := Product(2 * f[9], 19 * g[1], 2, F.l9, 2 * IN_ODD, 19, G.l1, 19 * IN_ODD);
    h := p0 + p1 + p2 + p3 + p4 + p5 + p6 + p7 + p8 + p9;
  }

  method Column1(f: array<int32>, g: array<int32>, ghost F: Limbs, ghost G: Limbs) returns (h: int64)
    requires Operands(f, g, F, G)
    ensures h as int == Columns(F, G).l1 && Within(h as int, COLUMN_ODD)
  {
    var p0 := Product(f[0], g[1], 1, F.l0, IN_EVEN, 1, G.l1, IN_ODD);
    var p1 := Product(f[1], g[0], 1, F.l1, IN_ODD, 1, G.l0, IN_EVEN);
    var p2 := Product(f[2], 19 * g[9], 1, F.l2, IN_EVEN, 19, G.l9, 19 * IN_ODD);
    var p3 := Product(f[3], 19 * g[8], 1, F.l3, IN_ODD, 19, G.l8, 19 * IN_EVEN);
    var p4 := Product(f[4], 19 * g[7], 1, F.l4, IN_EVEN, 19, G.l7, 19 * IN_ODD);
    var p5 := Product(f[5], 19 * g[6], 1, F.l5, IN_ODD, 19, G.l6, 19 * IN_EVEN);
    var p6 := Product(f[6], 19 * g[5], 1, F.l6, IN_EVEN, 19, G.l5, 19 * IN_ODD);
    var p7 := Product(f[7], 19 * g[4], 1, F.l7, IN_ODD, 19, G.l4, 19 * IN_EVEN);
    var p8 := Product(f[8], 19 * g[3], 1, F.l8, IN_EVEN, 19, G.l3, 19 * IN_ODD);
    var p9 := Product(f[9], 19 * g[2], 1, F.l9, IN_ODD, 19, G.l2, 19 * IN_EVEN);
    h := p0 + p1 + p2 + p3 + p4 + p5 + p6 + p7 + p8 + p9;
  }

  method Column2(f: array<int32>, g: array<int32>, ghost F: Limbs, ghost G: Limbs) returns (h: int64)
    requires Operands(f, g, F, G)
    ensures h as int == Columns(F, G).l2 && Within(h as int, COLUMN_EVEN)
  {
    var p0 := Product(f[0], g[2], 1, F.l0, IN_EVEN, 1, G.l2, IN_EVEN);
    var p1 := Product(2 * f[1], g[1], 2, F.l1, 2 * IN_ODD, 1, G.l1, IN_ODD);
    var p2 := Product(f[2], g[0], 1, F.l2, IN_EVEN, 1, G.l0, IN_EVEN);
    var p3 := Product(2 * f[3], 19 * g[9], 2, F.l3, 2 * IN_ODD, 19, G.l9, 19 * IN_ODD);
    var p4 := Product(f[4], 19 * g[8], 1, F.l4, IN_EVEN, 19, G.l8, 19 * IN_EVEN);
    var p5 := Product(2 * f[5], 19 * g[7], 2, F.l5, 2 * IN_ODD, 19, G.l7, 19 * IN_ODD);
    var p6 := Product(f[6], 19 * g[6], 1, F.l6, IN_EVEN, 19, G.l6, 19 * IN_EVEN);
    var p7 := Product(2 * f[7], 19 * g[5], 2, F.l7, 2 * IN_ODD, 19, G.l5, 19 * IN_ODD);
    var p8 := Product(f[8], 19 * g[4], 1, F.l8, IN_EVEN, 19, G.l4, 19 * IN_EVEN);
    var p9 := Product(2 * f[9], 19 * g[3], 2, F.l9, 2 * IN_ODD, 19, G.l3, 19 * IN_ODD);
    h := p0 + p1 + p2 + p3 + p4 + p5 + p6 + p7 + p8 + p9;
  }

  method Column3(f: array<int32>, g: array<int32>, ghost F: Limbs, ghost G: Limbs) returns (h: int64)
    requires Operands(f, g, F, G)
    ensures h as int == Columns(F, G).l3 && Within(h as int, COLUMN_ODD)
  {
    var p0 := Product(f[0], g[3], 1, F.l0, IN_EVEN, 1, G.l3, IN_ODD);
    var p1 := Product(f[1], g[2], 1, F.l1, IN_ODD, 1, G.l2, IN_EVEN);
    var p2 := Product(f[2], g[1], 1, F.l2, IN_EVEN, 1, G.l1, IN_ODD);
    var p3 := Product(f[3], g[0], 1, F.l3, IN_ODD, 1, G.l0, IN_EVEN);
    var p4 := Product(f[4], 19 * g[9], 1, F.l4, IN_EVEN, 19, G.l9, 19 * IN_ODD);
    var p5 := Product(f[5], 19 * g[8], 1, F.l5, IN_ODD, 19, G.l8, 19 * IN_EVEN);
    var p6 := Product(f[6], 19 * g[7], 1, F.l6, IN_EVEN, 19, G.l7, 19 * IN_ODD);
    var p7 := Product(f[7], 19 * g[6], 1, F.l7, IN_ODD, 19, G.l6, 19 * IN_EVEN);
    var p8 := Product(f[8], 19 * g[5], 1, F.l8, IN_EVEN, 19, G.l5, 19 * IN_ODD);
    var p9 := Product(f[9], 19 * g[4], 1, F.l9, IN_ODD, 19, G.l4, 19 * IN_EVEN);
    h := p0 + p1 + p2 + p3 + p4 + p5 + p6 + p7 + p8 + p9;
  }

  method Column4(f: array<int32>, g: array<int32>, ghost F: Limbs, ghost G: Limbs) returns (h: int64)
    requires Operands(f, g, F, G)
    ensures h as int == Columns(F, G).l4 && Within(h as int, COLUMN_EVEN)
  {
    var p0 := Product(f[0], g[4], 1, F.l0, IN_EVEN, 1, G.l4, IN_EVEN);
    var p1 := Product(2 * f[1], g[3], 2, F.l1, 2 * IN_ODD, 1, G.l3, IN_ODD);
    var p2 := Product(f[2], g[2], 1, F.l2, IN_EVEN, 1, G.l2, IN_EVEN);
    var p3 := Product(2 * f[3], g[1], 2, F.l3, 2 * IN_ODD, 1, G.l1, IN_ODD);
    var p4 := Product(f[4], g[0], 1, F.l4, IN_EVEN, 1, G.l0, IN_EVEN);
    var p5 := Product(2 * f[5], 19 * g[9], 2, F.l5, 2 * IN_ODD, 19, G.l9, 19 * IN_ODD);
    var p6 := Product(f[6], 19 * g[8], 1, F.l6, IN_EVEN, 19, G.l8, 19 * IN_EVEN);
    var p7 := Product(2 * f[7], 19 * g[7], 2, F.l7, 2 * IN_ODD, 19, G.l7, 19 * IN_ODD);
    var p8 := Product(f[8], 19 * g[6], 1, F.l8, IN_EVEN, 19, G.l6, 19 * IN_EVEN);
    var p9 := Product(2 * f[9], 19 * g[5], 2, F.l9, 2 * IN_ODD, 19, G.l5, 19 * IN_ODD);
    h := p0 + p1 + p2 + p3 + p4 + p5 + p6 + p7 + p8 + p9;
  }

  method Column5(f: array<int32>, g: array<int32>, ghost F: Limbs, ghost G: Limbs) returns (h: int64)
    requires Operands(f, g, F, G)
    ensures h as int == Columns(F, G).l5 && Within(h as int, COLUMN_ODD)
  {
    var p0 := Product(f[0], g[5], 1, F.l0, IN_EVEN, 1, G.l5, IN_ODD);
    var p1 := Product(f[1], g[4], 1, F.l1, IN_ODD, 1, G.l4, IN_EVEN);
    var p2 := Product(f[2], g[3], 1, F.l2, IN_EVEN, 1, G.l3, IN_ODD);
    var p3 := Product(f[3], g[2], 1, F.l3, IN_ODD, 1, G.l2, IN_EVEN);
    var p4 := Product(f[4], g[1], 1, F.l4, IN_EVEN, 1, G.l1, IN_ODD);
    var p5 := Product(f[5], g[0], 1, F.l5, IN_ODD, 1, G.l0, IN_EVEN);
    var p6 := Product(f[6], 19 * g[9], 1, F.l6, IN_EVEN, 19, G.l9, 19 * IN_ODD);
    var p7 := Product(f[7], 19 * g[8], 1, F.l7, IN_ODD, 19, G.l8, 19 * IN_EVEN);
    var p8 := Product(f[8], 19 * g[7], 1, F.l8, IN_EVEN, 19, G.l7, 19 * IN_ODD);
    var p9 := Product(f[9], 19 * g[6], 1, F.l9, IN_ODD, 19, G.l6, 19 * IN_EVEN);
    h := p0 + p1 + p2 + p3 + p4 + p5 + p6 + p7 + p8 + p9;
  }

  method Column6(f: array<int32>, g: array<int32>, ghost F: Limbs, ghost G: Limbs) returns (h: int64)
    requires Operands(f, g, F, G)
    ensures h as int == Columns(F, G).l6 && Within(h as int, COLUMN_EVEN)
  {
    var p0 := Product(f[0], g[6], 1, F.l0, IN_EVEN, 1, G.l6, IN_EVEN);
    var p1 := Product(2 * f[1], g[5], 2, F.l1, 2 * IN_ODD, 1, G.l5, IN_ODD);
    var p2 := Product(f[2], g[4], 1, F.l2, IN_EVEN, 1, G.l4, IN_EVEN);
    var p3 := Product(2 * f[3], g[3], 2, F.l3, 2 * IN_ODD, 1, G.l3, IN_ODD);
    var p4 := Product(f[4], g[2], 1, F.l4, IN_EVEN, 1, G.l2, IN_EVEN);
    var p5 := Product(2 * f[5], g[1], 2, F.l5, 2 * IN_ODD, 1, G.l1, IN_ODD);
    var p6 := Product(f[6], g[0], 1, F.l6, IN_EVEN, 1, G.l0, IN_EVEN);
    var p7 := Product(2 * f[7], 19 * g[9], 2, F.l7, 2 * IN_ODD, 19, G.l9, 19 * IN_ODD);
    var p8 := Product(f[8], 19 * g[8], 1, F.l8, IN_EVEN, 19, G.l8, 19 * IN_EVEN);
    var p9 := Product(2 * f[9], 19 * g[7], 2, F.l9, 2 * IN_ODD, 19, G.l7, 19 * IN_ODD);
    h := p0 + p1 + p2 + p3 + p4 + p5 + p6 + p7 + p8 + p9;
  }

  method Column7(f: array<int32>, g: array<int32>, ghost F: Limbs, ghost G: Limbs) returns (h: int64)
    requires Operands(f, g, F, G)
    ensures h as int == Columns(F, G).l7 && Within(h as int, COLUMN_ODD)
  {
    var p0 := Product(f[0], g[7], 1, F.l0, IN_EVEN, 1, G.l7, IN_ODD);
    var p1 := Product(f[1], g[6], 1, F.l1, IN_ODD, 1, G.l6, IN_EVEN);
    var p2 := Product(f[2], g[5], 1, F.l2, IN_EVEN, 1, G.l5, IN_ODD);
    var p3 := Product(f[3], g[4], 1, F.l3, IN_ODD, 1, G.l4, IN_EVEN);
    var p4 := Product(f[4], g[3], 1, F.l4, IN_EVEN, 1, G.l3, IN_ODD);
    var p5 := Product(f[5], g[2], 1, F.l5, IN_ODD, 1, G.l2, IN_EVEN);
    var p6 := Product(f[6], g[1], 1, F.l6, IN_EVEN, 1, G.l1, IN_ODD);
    var p7 := Product(f[7], g[0], 1, F.l7, IN_ODD, 1, G.l0, IN_EVEN);
    var p8 := Product(f[8], 19 * g[9], 1, F.l8, IN_EVEN, 19, G.l9, 19 * IN_ODD);
    var p9 := Product(f[9], 19 * g[8], 1, F.l9, IN_ODD, 19, G.l8, 19 * IN_EVEN);
    h := p0 + p1 + p2 + p3 + p4 + p5 + p6 + p7 + p8 + p9;
  }

  method Column8(f: array<int32>, g: array<int32>, ghost F: Limbs, ghost G: Limbs) returns (h: int64)
    requires Operands(f, g, F, G)
    ensures h as int == Columns(F, G).l8 && Within(h as int, COLUMN_EVEN)
  {
    var p0 := Product(f[0], g[8], 1, F.l0, IN_EVEN, 1, G.l8, IN_EVEN);
    var p1 := Product(2 * f[1], g[7], 2, F.l1, 2 * IN_ODD, 1, G.l7, IN_ODD);
    var p2 := Product(f[2], g[6], 1, F.l2, IN_EVEN, 1, G.l6, IN_EVEN);
    var p3 := Product(2 * f[3], g[5], 2, F.l3, 2 * IN_ODD, 1, G.l5, IN_ODD);
    var p4 := Product(f[4], g[4], 1, F.l4, IN_EVEN, 1, G.l4, IN_EVEN);
    var p5 := Product(2 * f[5], g[3], 2, F.l5, 2 * IN_ODD, 1, G.l3, IN_ODD);
    var p6 := Product(f[6], g[2], 1, F.l6, IN_EVEN, 1, G.l2, IN_EVEN);
    var p7 := Product(2 * f[7], g[1], 2, F.l7, 2 * IN_ODD, 1, G.l1, IN_ODD);
    var p8 := Product(f[8], g[0], 1, F.l8, IN_EVEN, 1, G.l0, IN_EVEN);
    var p9 := Product(2 * f[9], 19 * g[9], 2, F.l9, 2 * IN_ODD, 19, G.l9, 19 * IN_ODD);
    h := p0 + p1 + p2 + p3 + p4 + p5 + p6 + p7 + p8 + p9;
  }

  method Column9(f: array<int32>, g: array<int32>, ghost F: Limbs, ghost G: Limbs) returns (h: int64)
    requires Operands(f, g, F, G)
    ensures h as int == Columns(F, G).l9 && Within(h as int, COLUMN_ODD)
  {
    var p0 := Product(f[0], g[9], 1, F.l0, IN_EVEN, 1, G.l9, IN_ODD);
    var p1 := Product(f[1], g[8], 1, F.l1, IN_ODD, 1, G.l8, IN_EVEN);
    var p2 := Product(f[2], g[7], 1, F.l2, IN_EVEN, 1, G.l7, IN_ODD);
    var p3 := Product(f[3], g[6], 1, F.l3, IN_ODD, 1, G.l6, IN_EVEN);
    var p4 := Product(f[4], g[5], 1, F.l4, IN_EVEN, 1, G.l5, IN_ODD);
    var p5 := Product(f[5], g[4], 1, F.l5, IN_ODD, 1, G.l4, IN_EVEN);
    var p6 := Product(f[6], g[3], 1, F.l6, IN_EVEN, 1, G.l3, IN_ODD);
    var p7 := Product(f[7], g[2], 1, F.l7, IN_ODD, 1, G.l2, IN_EVEN);
    var p8 := Product(f[8], g[1], 1, F.l8, IN_EVEN, 1, G.l1, IN_ODD);
    var p9 := Product(f[9], g[0], 1, F.l9, IN_ODD, 1, G.l0, IN_EVEN);
    h := p0 + p1 + p2 + p3 + p4 + p5 + p6 + p7 + p8 + p9;
  }

  /** One carry out of a 26-bit limb, rounding to nearest. */
  method Carry26(h: int64, next: int64, ghost H: nat, ghost N: nat) returns (h': int64, next': int64)
    requires Within(h as int, H) && Within(next as int, N) && H < 0x4000_0000_0000_0000
        && N + H / 0x400_0000 + 1 < 0x4000_0000_0000_0000
    ensures h' as int == h as int - 0x400_0000 * (next' as int - next as int)
    ensures Within(h' as int, 0x200_0000) && Within(next' as int, N + H / 0x400_0000 + 1)
  {
    var carry := (h + 0x200_0000) / 0x400_0000;
    next' := next + carry;
    h' := h - carry * 0x400_0000;
  }

  /** One carry out of a 25-bit limb. */
  method Carry25(h: int64, next: int64, ghost H: nat, ghost N: nat) returns (h': int64, next': int64)
    requires Within(h as int, H) && Within(next as int, N) && H < 0x4000_0000_0000_0000
        && N + H / 0x200_0000 + 1 < 0x4000_0000_0000_0000
    ensures h' as int == h as int - 0x200_0000 * (next' as int - next as int)
    ensures Within(h' as int, 0x100_0000) && Within(next' as int, N + H / 0x200_0000 + 1)
  {
    var carry := (h + 0x100_0000) / 0x200_0000;
    next' := next + carry;
    h' := h - carry * 0x200_0000;
  }

  /** The carry out of the top limb, times 19 into the bottom one. */
  method CarryTop(h9: int64, h0: int64, ghost H: nat, ghost N: nat) returns (h9': int64, h0': int64, carry: int64)
    requires Within(h9 as int, H) && Within(h0 as int, N) && H < 0x4000_0000_0000_0000
        && N + 19 * (H / 0x200_0000 + 1) < 0x4000_0000_0000_0000
    ensures h9' as int == h9 as int - 0x200_0000 * carry as int && h0' as int == h0 as int + 19 * carry as int
    ensures Within(h9' as int, 0x100_0000) && Within(h0' as int, N + 19 * (H / 0x200_0000 + 1))
  {
    carry := (h9 + 0x100_0000) / 0x200_0000;
    h0' := h0 + carry * 19;
    h9' := h9 - carry * 0x200_0000;
  }

  /** The first eight carries of fe_mul. */
  method CarriesLow(h0: int64, h1: int64, h2: int64, h3: int64, h4: int64, h5: int64, h6: int64, h7: int64,
      h8: int64, ghost h9: int)
      returns (k0: int64, k1: int64, k2: int64, k3: int64, k4: int64, k5: int64, k6: int64, k7: int64, k8: int64)
    requires Within(h0 as int, COLUMN_EVEN) && Within(h1 as int, COLUMN_ODD) && Within(h2 as int, COLUMN_EVEN)
    requires Within(h3 as int, COLUMN_ODD) && Within(h4 as int, COLUMN_EVEN) && Within(h5 as int, COLUMN_ODD)
    requires Within(h6 as int, COLUMN_EVEN) && Within(h7 as int, COLUMN_ODD) && Within(h8 as int, COLUMN_EVEN)
    ensures Within(k0 as int, 0x200_0000) && Within(k1 as int, 0x100_0000) && Within(k2 as int, 0x200_0000)
    ensures Within(k3 as int, 0x100_0000) && Within(k4 as int, 0x200_0000 + COLUMN_ODD / 0x100_0000)
        && Within(k5 as int, 0x100_0000)
    ensures Within(k6 as int, 0x200_0000) && Within(k7 as int, 0x100_0000)
        && Within(k8 as int, COLUMN_EVEN + COLUMN_ODD / 0x100_0000)
    ensures Value(Limbs(k0 as int, k1 as int, k2 as int, k3 as int, k4 as int, k5 as int, k6 as int, k7 as int,
        k8 as int, h9))
      == Value(Limbs(h0 as int, h1 as int, h2 as int, h3 as int, h4 as int, h5 as int, h6 as int, h7 as int, h8 as int,
          h9))
  {
    ghost var E, O := COLUMN_EVEN, COLUMN_ODD;
    ghost var O1 := O + E / 0x400_0000 + 1;
    ghost var E1 := E + O1 / 0x200_0000 + 1;
    ghost var O2 := O + E1 / 0x400_0000 + 1;
    k0, k1 := Carry26(h0, h1, E, O);
    k4, k5 := Carry26(h4, h5, E, O);
    k1, k2 := Carry25(k1, h2, O1, E);
    k5, k6 := Carry25(k5, h6, O1, E);
    k2, k3 := Carry26(k2, h3, E1, O);
    k6, k7 := Carry26(k6, h7, E1, O);
    k3, k4 := Carry25(k3, k4, O2, 0x200_0000);
    k7, k8 := Carry25(k7, h8, O2, E);
  }

  /** The last four carries of fe_mul. */
  method CarriesHigh(h0: int64, h1: int64, h4: int64, h5: int64, h8: int64, h9: int64, ghost h2: int, ghost h3: int,
      ghost h6: int, ghost h7: int)
      returns (k0: int64, k1: int64, k4: int64, k5: int64, k8: int64, k9: int64)
    requires Within(h0 as int, 0x200_0000) && Within(h1 as int, 0x100_0000)
        && Within(h4 as int, 0x200_0000 + COLUMN_ODD / 0x100_0000)
    requires Within(h5 as int, 0x100_0000) && Within(h8 as int, COLUMN_EVEN + COLUMN_ODD / 0x100_0000)
        && Within(h9 as int, COLUMN_ODD)
    ensures Within(k0 as int, OUT_EVEN) && Within(k1 as int, OUT_ODD) && Within(k4 as int, OUT_EVEN)
    ensures Within(k5 as int, OUT_ODD) && Within(k8 as int, OUT_EVEN) && Within(k9 as int, OUT_ODD)
    ensures Congruent(Value(Limbs(k0 as int, k1 as int, h2, h3, k4 as int, k5 as int, h6, h7, k8 as int, k9 as int)),
                      Value(Limbs(h0 as int, h1 as int, h2, h3, h4 as int, h5 as int, h6, h7, h8 as int, h9 as int)))
  {
    ghost var E4, E8 := 0x200_0000 + COLUMN_ODD / 0x100_0000, COLUMN_EVEN + COLUMN_ODD / 0x100_0000;
    ghost var O9 := COLUMN_ODD + E8 / 0x400_0000 + 1;
    ghost var E0 := 0x200_0000 + 19 * (O9 / 0x200_0000 + 1);
    var carry;
    k4, k5 := Carry26(h4, h5, E4, 0x100_0000);
    k8, k9 := Carry26(h8, h9, E8, COLUMN_ODD);
    k9, k0, carry := CarryTop(k9, h0, O9, 0x200_0000);
    k0, k1 := Carry26(k0, h1, E0, 0x100_0000);
    ghost var q := -(carry as int);
    assert Value(Limbs(k0 as int, k1 as int, h2, h3, k4 as int, k5 as int, h6, h7, k8 as int, k9 as int))
      == Value(Limbs(h0 as int, h1 as int, h2, h3, h4 as int, h5 as int, h6, h7, h8 as int, h9 as int)) + PRIME * q;
  }

  lemma CongruentTrans(x: int, y: int, z: int)
    requires Congruent(x, y) && Congruent(y, z)
    ensures Congruent(x, z)
  {
    var p: int :| x == y + PRIME * p;
    var q: int :| y == z + PRIME * q;
    assert x == z + PRIME * (p + q);
  }

  /** fe_mul: h = f g. The output may be one of the inputs. */
  method FeMul(h: array<int32>, f: array<int32>, g: array<int32>)
    requires h.Length == 10 && f.Length == 10 && g.Length == 10
    requires Bounded(Read(f), IN_EVEN, IN_ODD) && Bounded(Read(g), IN_EVEN, IN_ODD)
    modifies h
    ensures Bounded(Read(h), OUT_EVEN, OUT_ODD)
    ensures Congruent(Value(Read(h)), old(Value(Read(f)) * Value(Read(g))))
  {
    ghost var F, G := Read(f), Read(g);
    ghost var product := Columns(F, G);
    ColumnsValue(F, G);
    assert Operands(f, g, F, G);
    hide Columns, Value, Operands, Bounded, Congruent;
    var h0 := Column0(f, g, F, G);
    var h1 := Column1(f, g, F, G);
    var h2 := Column2(f, g, F, G);
    var h3 := Column3(f, g, F, G);
    var h4 := Column4(f, g, F, G);
    var h5 := Column5(f, g, F, G);
    var h6 := Column6(f, g, F, G);
    var h7 := Column7(f, g, F, G);
    var h8 := Column8(f, g, F, G);
    var h9 := Column9(f, g, F, G);
    ghost var k := h9 as int;
    h0, h1, h2, h3, h4, h5, h6, h7, h8 := CarriesLow(h0, h1, h2, h3, h4, h5, h6, h7, h8, k);
    ghost var v := Value(Limbs(h0 as int, h1 as int, h2 as int, h3 as int, h4 as int, h5 as int, h6 as int, h7 as int,
        h8 as int, k));
    assert v == Value(product);
    h0, h1, h4, h5, h8, h9 := CarriesHigh(h0, h1, h4, h5, h8, h9, h2 as int, h3 as int, h6 as int, h7 as int);
    ghost var w := Limbs(h0 as int, h1 as int, h2 as int, h3 as int, h4 as int, h5 as int, h6 as int, h7 as int,
        h8 as int, h9 as int);
    CongruentTrans(Value(w), v, Value(F) * Value(G));
    Store(h, h0, h1, h2, h3, h4, h5, h6, h7, h8, h9);
  }

  /** The ten assignments that end fe_mul, each narrowing to 32 bits. */
  method Store(h: array<int32>, h0: int64, h1: int64, h2: int64, h3: int64, h4: int64, h5: int64, h6: int64,
      h7: int64, h8: int64, h9: int64)
    requires h.Length == 10
    requires Within(h0 as int, OUT_EVEN) && Within(h1 as int, OUT_ODD) && Within(h2 as int, OUT_EVEN)
        && Within(h3 as int, OUT_ODD)
    requires Within(h4 as int, OUT_EVEN) && Within(h5 as int, OUT_ODD) && Within(h6 as int, OUT_EVEN)
        && Within(h7 as int, OUT_ODD)
    requires Within(h8 as int, OUT_EVEN) && Within(h9 as int, OUT_ODD)
    modifies h
    ensures Read(h) == Limbs(h0 as int, h1 as int, h2 as int, h3 as int, h4 as int, h5 as int, h6 as int, h7 as int,
        h8 as int, h9 as int)
    ensures Bounded(Read(h), OUT_EVEN, OUT_ODD)
  {
    h[0], h[1], h[2], h[3], h[4] := h0 as int32, h1 as int32, h2 as int32, h3 as int32, h4 as int32;
    h[5], h[6], h[7], h[8], h[9] := h5 as int32, h6 as int32, h7 as int32, h8 as int32, h9 as int32;
  }
}
