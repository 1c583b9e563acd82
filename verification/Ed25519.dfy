/** What the CryptoNote layer knows of Ed25519: a group with its tables, the order
    of its base point, and the byte encoding of points. */
module Ed25519 {
  import opened Wrappers
  import opened Numbers
  import opened Group
  import ScalarMult

  /** The order of the base point, section 5.1 of RFC 8032. */
  const ORDER: nat := 0x10000000_00000000_00000000_00000000_14def9de_a2f79cd6_5812631a_5cf5d3ed

  lemma OrderIs()
    ensures ORDER == Pow(2, 252) + 27742317777372353535851937790883648493
  {
    PowersOfTwo();
    PowAdd(2, 64, 64);
    PowAdd(2, 64, 56);
    PowAdd(2, 4, 120);
    PowAdd(2, 128, 124);
    assert Pow(2, 4) == 16;
  }

  /** base and baseOdd are the tables of G; encode and decode are ge_tobytes and
      ge_frombytes_vartime; hash is cn_fast_hash read as a number; fromHash is the
      map to the curve inside hash_to_ec. */
  datatype Curve<!P> = Curve(
    group: Group<P>, G: P, base: seq<seq<P>>, baseOdd: seq<P>,
    encode: P -> seq<int>, decode: seq<int> -> Option<P>,
    hash: seq<int> -> nat, fromHash: seq<int> -> P)

  /** The curve has cofactor 8, and a point is determined by its encoding of 32 bytes. */
  ghost predicate Point<P>(c: Curve<P>, p: P) {
    && Mul(c.group, 8 * ORDER, p) == c.group.zero
    && c.decode(c.encode(p)) == Some(p) && |c.encode(p)| == 32
  }

  ghost predicate InSubgroup<P>(c: Curve<P>, p: P) {
    Mul(c.group, ORDER, p) == c.group.zero
  }

  ghost predicate Valid<P(!new)>(c: Curve<P>) {
    && Abelian(c.group)
    && ScalarMult.BaseTable(c.group, c.G, c.base)
    && ScalarMult.OddMultiples(c.group, c.G, c.baseOdd)
    && InSubgroup(c, c.G)
    && (forall p :: Point(c, p))
  }

  lemma ScalarRange(n: nat)
    requires n < ORDER
    ensures n < 128 * Pow(256, 31) && n < Pow(256, 32)
  {
    PowersOfTwo();
    PowBytes(31);
    PowAdd(2, 64, 64);
    PowAdd(2, 64, 56);
    PowAdd(2, 128, 120);
    assert Pow(256, 32) == 256 * Pow(256, 31);
  }

  /** Reduced scalars are what the scalar multiplications accept. */
  function Bytes(n: nat): (s: seq<int>)
    requires n < ORDER
    ensures ScalarMult.Scalar(s) && Eval(256, s) == n
  {
    ScalarRange(n);
    LeBytesValue(n, 32);
    LeBytesTop(n, 31);
    LeBytes(n, 32)
  }

  lemma MulOrder<P(!new)>(c: Curve<P>, n: int, p: P)
    requires Valid(c) && InSubgroup(c, p)
    ensures Mul(c.group, n % ORDER, p) == Mul(c.group, n, p)
  {
    MulModOrder(c.group, ORDER, n, p);
  }

  /** hash_to_ec: clearing the cofactor lands in the subgroup of prime order. */
  function HashToEc<P>(c: Curve<P>, key: seq<int>): P {
    var q := c.fromHash(key);
    var q2 := c.group.add(q, q);
    var q4 := c.group.add(q2, q2);
    c.group.add(q4, q4)
  }

  lemma HashToEcInSubgroup<P(!new)>(c: Curve<P>, key: seq<int>)
    requires Valid(c)
    ensures HashToEc(c, key) == Mul(c.group, 8, c.fromHash(key))
    ensures InSubgroup(c, HashToEc(c, key))
  {
    var g, q := c.group, c.fromHash(key);
    MulOne(g, q);
    MulAdd(g, 2, 2, q);
    MulAdd(g, 4, 4, q);
    assert Point(c, q);
    MulMul(g, ORDER, 8, q);
  }

  /** n x by repeated addition: a product the verifier does not take apart beside the
      order's many digits. */
  function Product(n: int, x: int): int
    decreases if n < 0 then -n else n, x
  {
    if n == 0 then 0 else if n > 0 then Product(n - 1, x) + x else Product(n + 1, x) - x
  }

  lemma {:induction false} ProductIs(n: int, x: int)
    ensures Product(n, x) == n * x
    decreases if n < 0 then -n else n
  {
    if n > 0 {
      ProductIs(n - 1, x);
    } else if n < 0 {
      ProductIs(n + 1, x);
    }
  }

  /** sc_mulsub: k - n x modulo the order. */
  function MulSub(n: int, x: int, k: int): (s: nat)
    ensures s < ORDER
  {
    (k - Product(n, x)) % ORDER
  }

  lemma MulSubIs(n: int, x: int, k: int)
    ensures MulSub(n, x, k) == (k - n * x) % ORDER
  {
    ProductIs(n, x);
  }

  lemma SplitMul<P(!new)>(g: Group<P>, m: int, k: int, q: P)
    requires Abelian(g)
    ensures g.add(Mul(g, m, q), Mul(g, k - m, q)) == Mul(g, k, q)
    ensures g.add(Mul(g, k - m, q), Mul(g, m, q)) == Mul(g, k, q)
  {
    MulAdd(g, m, k - m, q);
    assert Commutative(g, Mul(g, m, q), Mul(g, k - m, q));
  }

  /** The response s = k - n x mod l closes the equation: n (x Q) + s Q == k Q. */
  lemma Response<P(!new)>(c: Curve<P>, n: int, x: int, k: int, s: int, q: P)
    requires Valid(c) && InSubgroup(c, q) && s == MulSub(n, x, k)
    ensures ScalarMult.Combo(c.group, n, Mul(c.group, x, q), s, q) == Mul(c.group, k, q)
    ensures ScalarMult.Combo(c.group, s, q, n, Mul(c.group, x, q)) == Mul(c.group, k, q)
  {
    hide Abelian, Point, Mul, MulSub;
    var g, m, xq := c.group, n * x, Mul(c.group, x, q);
    MulMul(g, n, x, q);
    MulSubIs(n, x, k);
    MulOrder(c, k - m, q);
    SplitMul(g, m, k, q);
  }
}
