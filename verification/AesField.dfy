/** The byte products and the column mixing of AES (oaes_lib.c), sections 4.2 and 5.1.3 of
    FIPS 197: the inverse mixing undoes the mixing. Nothing but xor and a doubling that
    respects it is needed, so the proofs hold over any such type; bytes are one. */
module AesField {
  import opened Group

  /** Elements with an xor and a doubling. */
  datatype Field<!T> = Field(g: Group<T>, double: T -> T)

  ghost predicate Linear<T>(f: Field<T>, x: T, y: T) {
    f.double(f.g.add(x, y)) == f.g.add(f.double(x), f.double(y))
  }

  ghost predicate OwnInverse<T>(f: Field<T>, x: T) {
    f.g.neg(x) == x
  }

  ghost predicate Laws<T(!new)>(f: Field<T>) {
    && Abelian(f.g)
    && (forall x, y :: Linear(f, x, y))
    && (forall x :: OwnInverse(f, x))
  }

  function Sum3<T>(f: Field<T>, x: T, y: T, z: T): T { f.g.add(f.g.add(x, y), z) }
  function Sum4<T>(f: Field<T>, x: T, y: T, z: T, w: T): T { f.g.add(f.g.add(x, y), f.g.add(z, w)) }

  function By4<T>(f: Field<T>, x: T): T { f.double(f.double(x)) }
  function By8<T>(f: Field<T>, x: T): T { f.double(By4(f, x)) }
  function By16<T>(f: Field<T>, x: T): T { f.double(By8(f, x)) }

  /** oaes_gf_mul: a product table for each factor the mixing uses, and any other factor
      gives the element itself. */
  function GfMul<T>(f: Field<T>, x: T, k: nat): T {
    if k == 2 then f.double(x)
    else if k == 3 then f.g.add(f.double(x), x)
    else if k == 9 then f.g.add(By8(f, x), x)
    else if k == 11 then Sum3(f, By8(f, x), f.double(x), x)
    else if k == 13 then Sum3(f, By8(f, x), By4(f, x), x)
    else if k == 14 then Sum3(f, By8(f, x), By4(f, x), f.double(x))
    else x
  }

  function Dot<T>(f: Field<T>, a: T, b: T, c: T, d: T, k0: nat, k1: nat, k2: nat, k3: nat): T {
    Sum4(f, GfMul(f, a, k0), GfMul(f, b, k1), GfMul(f, c, k2), GfMul(f, d, k3))
  }

  /** oaes_mix_cols. */
  function MixColumn<T>(f: Field<T>, w: seq<T>): (w': seq<T>)
    requires |w| == 4
    ensures |w'| == 4
  {
    [Dot(f, w[0], w[1], w[2], w[3], 2, 3, 1, 1), Dot(f, w[0], w[1], w[2], w[3], 1, 2, 3, 1),
     Dot(f, w[0], w[1], w[2], w[3], 1, 1, 2, 3), Dot(f, w[0], w[1], w[2], w[3], 3, 1, 1, 2)]
  }

  /** oaes_inv_mix_cols. */
  function UnmixColumn<T>(f: Field<T>, w: seq<T>): (w': seq<T>)
    requires |w| == 4
    ensures |w'| == 4
  {
    [Dot(f, w[0], w[1], w[2], w[3], 14, 11, 13, 9), Dot(f, w[0], w[1], w[2], w[3], 9, 14, 11, 13),
     Dot(f, w[0], w[1], w[2], w[3], 13, 9, 14, 11), Dot(f, w[0], w[1], w[2], w[3], 11, 13, 9, 14)]
  }

  // ---------------------------------------------------------------- bytes

  /** Shifted left, the bit that falls out coming back as 0x1b. */
  function Double(x: bv8): bv8 {
    (x << 1) ^ (x >> 7) ^ ((x >> 7) << 1) ^ ((x >> 7) << 3) ^ ((x >> 7) << 4)
  }

  lemma DoubleIsXtime(x: bv8)
    ensures Double(x) == (x << 1) ^ (if x & 0x80 == 0 then 0 else 0x1b)
  {
  }

  lemma DoubleXor(x: bv8, y: bv8)
    ensures Double(x ^ y) == Double(x) ^ Double(y)
  {
  }

  function Bytes(): Field<bv8> {
    Field(Group(0, (x: bv8, y: bv8) => x ^ y, (x: bv8) => x), Double)
  }

  lemma ByteAssociates(x: bv8, y: bv8, z: bv8)
    ensures Associative(Bytes().g, x, y, z)
  {
    assert (x ^ y) ^ z == x ^ (y ^ z);
  }

  lemma ByteCommutes(x: bv8, y: bv8)
    ensures Commutative(Bytes().g, x, y) && Neutral(Bytes().g, x) && OwnInverse(Bytes(), x)
  {
  }

  lemma ByteDoubles(x: bv8, y: bv8)
    ensures Linear(Bytes(), x, y)
  {
    hide Double;
    DoubleXor(x, y);
  }

  lemma ByteLaws()
    ensures Laws(Bytes())
  {
    hide Bytes, Associative, Commutative, Neutral, Linear, OwnInverse;
    forall x, y, z ensures Associative(Bytes().g, x, y, z) {
      ByteAssociates(x, y, z);
    }
    forall x, y ensures Commutative(Bytes().g, x, y) && Neutral(Bytes().g, x) && OwnInverse(Bytes(), x) {
      ByteCommutes(x, y);
    }
    forall x ensures Neutral(Bytes().g, x) && OwnInverse(Bytes(), x) {
      ByteCommutes(x, 0);
    }
    forall x, y ensures Linear(Bytes(), x, y) {
      ByteDoubles(x, y);
    }
  }

  // ---------------------------------------------------------------- sums

  lemma Twice<T(!new)>(f: Field<T>, x: T)
    requires Laws(f)
    ensures f.g.add(x, x) == f.g.zero && f.g.add(x, f.g.zero) == x && f.g.add(f.g.zero, x) == x
  {
    assert Neutral(f.g, x) && OwnInverse(f, x) && Commutative(f.g, x, f.g.zero);
  }

  lemma Rotate<T(!new)>(f: Field<T>, a: T, b: T, c: T, d: T)
    requires Laws(f)
    ensures Sum4(f, a, b, c, d) == Sum4(f, b, c, d, a)
  {
    var g := f.g;
    Interchange(g, a, b, c, d);
    assert Commutative(g, g.add(a, c), g.add(b, d)) && Commutative(g, a, c);
    Interchange(g, b, d, c, a);
  }

  lemma OnlyFirst<T(!new)>(f: Field<T>, a: T)
    requires Laws(f)
    ensures Sum4(f, a, f.g.zero, f.g.zero, f.g.zero) == a
  {
    Twice(f, a);
    Twice(f, f.g.zero);
  }

  lemma Interchange3<T(!new)>(f: Field<T>, a: T, b: T, c: T, a': T, b': T, c': T)
    requires Laws(f)
    ensures f.g.add(Sum3(f, a, b, c), Sum3(f, a', b', c')) == Sum3(f, f.g.add(a, a'), f.g.add(b, b'), f.g.add(c, c'))
  {
    Interchange(f.g, f.g.add(a, b), c, f.g.add(a', b'), c');
    Interchange(f.g, a, b, a', b');
  }

  lemma Interchange4<T(!new)>(f: Field<T>, a: T, b: T, c: T, d: T, a': T, b': T, c': T, d': T)
    requires Laws(f)
    ensures f.g.add(Sum4(f, a, b, c, d), Sum4(f, a', b', c', d'))
            == Sum4(f, f.g.add(a, a'), f.g.add(b, b'), f.g.add(c, c'), f.g.add(d, d'))
  {
    var g := f.g;
    Interchange(g, g.add(a, b), g.add(c, d), g.add(a', b'), g.add(c', d'));
    Interchange(g, a, b, a', b');
    Interchange(g, c, d, c', d');
  }

  /** Sixteen elements summed by rows and by columns. */
  lemma Transpose<T(!new)>(f: Field<T>, a0: T, b0: T, c0: T, d0: T, a1: T, b1: T, c1: T, d1: T, a2: T, b2: T, c2: T,
      d2: T, a3: T, b3: T, c3: T, d3: T)
    requires Laws(f)
    ensures Sum4(f, Sum4(f, a0, b0, c0, d0), Sum4(f, a1, b1, c1, d1), Sum4(f, a2, b2, c2, d2), Sum4(f, a3, b3, c3, d3))
            == Sum4(f, Sum4(f, a0, a1, a2, a3), Sum4(f, b0, b1, b2, b3), Sum4(f, c0, c1, c2, c3),
                Sum4(f, d0, d1, d2, d3))
  {
    hide Laws;
    var g := f.g;
    Interchange4(f, a0, b0, c0, d0, a1, b1, c1, d1);
    Interchange4(f, a2, b2, c2, d2, a3, b3, c3, d3);
    Interchange4(f, g.add(a0, a1), g.add(b0, b1), g.add(c0, c1), g.add(d0, d1),
                 g.add(a2, a3), g.add(b2, b3), g.add(c2, c3), g.add(d2, d3));
  }

  // ---------------------------------------------------------------- linearity

  lemma Doubles<T(!new)>(f: Field<T>, x: T, y: T)
    requires Laws(f)
    ensures f.double(f.g.add(x, y)) == f.g.add(f.double(x), f.double(y))
    ensures By4(f, f.g.add(x, y)) == f.g.add(By4(f, x), By4(f, y))
    ensures By8(f, f.g.add(x, y)) == f.g.add(By8(f, x), By8(f, y))
  {
    assert Linear(f, x, y) && Linear(f, f.double(x), f.double(y)) && Linear(f, By4(f, x), By4(f, y));
  }

  lemma GfMulSum<T(!new)>(f: Field<T>, x: T, y: T, k: nat)
    requires Laws(f)
    ensures GfMul(f, f.g.add(x, y), k) == f.g.add(GfMul(f, x, k), GfMul(f, y, k))
  {
    hide Laws, By4, By8, Sum3;
    Doubles(f, x, y);
    if k == 3 {
      Interchange2(f, f.double(x), x, f.double(y), y);
    } else if k == 9 {
      Interchange2(f, By8(f, x), x, By8(f, y), y);
    } else if k == 11 {
      Interchange3(f, By8(f, x), f.double(x), x, By8(f, y), f.double(y), y);
    } else if k == 13 {
      Interchange3(f, By8(f, x), By4(f, x), x, By8(f, y), By4(f, y), y);
    } else if k == 14 {
      Interchange3(f, By8(f, x), By4(f, x), f.double(x), By8(f, y), By4(f, y), f.double(y));
    }
  }

  lemma Interchange2<T(!new)>(f: Field<T>, a: T, b: T, c: T, d: T)
    requires Laws(f)
    ensures f.g.add(f.g.add(a, b), f.g.add(c, d)) == f.g.add(f.g.add(a, c), f.g.add(b, d))
  {
    Interchange(f.g, a, b, c, d);
  }

  lemma GfMulSum4<T(!new)>(f: Field<T>, a: T, b: T, c: T, d: T, k: nat)
    requires Laws(f)
    ensures GfMul(f, Sum4(f, a, b, c, d), k)
            == Sum4(f, GfMul(f, a, k), GfMul(f, b, k), GfMul(f, c, k), GfMul(f, d, k))
  {
    hide Laws, GfMul;
    GfMulSum(f, a, b, k);
    GfMulSum(f, c, d, k);
    GfMulSum(f, f.g.add(a, b), f.g.add(c, d), k);
  }

  // ---------------------------------------------------------------- coefficients

  /** Which of x, 2x, 4x, 8x and 16x a sum takes. */
  datatype Mask = Mask(a: bool, b: bool, c: bool, d: bool, e: bool)

  function Pick<T>(f: Field<T>, p: bool, v: T): T { if p then v else f.g.zero }

  /** From the highest multiple down. */
  function Sum5<T>(f: Field<T>, e: T, d: T, c: T, b: T, a: T): T {
    f.g.add(f.g.add(f.g.add(f.g.add(e, d), c), b), a)
  }

  function Comb<T>(f: Field<T>, m: Mask, x: T): T {
    Sum5(f, Pick(f, m.e, By16(f, x)), Pick(f, m.d, By8(f, x)), Pick(f, m.c, By4(f, x)), Pick(f, m.b, f.double(x)),
        Pick(f, m.a, x))
  }

  function Plus(m: Mask, n: Mask): Mask {
    Mask(m.a != n.a, m.b != n.b, m.c != n.c, m.d != n.d, m.e != n.e)
  }

  lemma PickSum<T(!new)>(f: Field<T>, p: bool, q: bool, v: T)
    requires Laws(f)
    ensures f.g.add(Pick(f, p, v), Pick(f, q, v)) == Pick(f, p != q, v)
  {
    Twice(f, v);
    Twice(f, f.g.zero);
  }

  lemma Interchange5<T(!new)>(f: Field<T>, e: T, d: T, c: T, b: T, a: T, e': T, d': T, c': T, b': T, a': T)
    requires Laws(f)
    ensures f.g.add(Sum5(f, e, d, c, b, a), Sum5(f, e', d', c', b', a'))
            == Sum5(f, f.g.add(e, e'), f.g.add(d, d'), f.g.add(c, c'), f.g.add(b, b'), f.g.add(a, a'))
  {
    hide Laws;
    var g := f.g;
    var s2, s2' := g.add(e, d), g.add(e', d');
    var s3, s3' := g.add(s2, c), g.add(s2', c');
    Interchange2(f, g.add(s3, b), a, g.add(s3', b'), a');
    Interchange2(f, s3, b, s3', b');
    Interchange2(f, s2, c, s2', c');
    Interchange2(f, e, d, e', d');
  }

  lemma CombSum<T(!new)>(f: Field<T>, m: Mask, n: Mask, x: T)
    requires Laws(f)
    ensures f.g.add(Comb(f, m, x), Comb(f, n, x)) == Comb(f, Plus(m, n), x)
  {
    hide Laws, Sum5, Pick, By4, By8, By16;
    var b, c, d, e := f.double(x), By4(f, x), By8(f, x), By16(f, x);
    Interchange5(f, Pick(f, m.e, e), Pick(f, m.d, d), Pick(f, m.c, c), Pick(f, m.b, b), Pick(f, m.a, x),
                 Pick(f, n.e, e), Pick(f, n.d, d), Pick(f, n.c, c), Pick(f, n.b, b), Pick(f, n.a, x));
    PickSum(f, m.a, n.a, x);
    PickSum(f, m.b, n.b, b);
    PickSum(f, m.c, n.c, c);
    PickSum(f, m.d, n.d, d);
    PickSum(f, m.e, n.e, e);
  }

  lemma CombSum4<T(!new)>(f: Field<T>, m0: Mask, m1: Mask, m2: Mask, m3: Mask, x: T)
    requires Laws(f)
    ensures Sum4(f, Comb(f, m0, x), Comb(f, m1, x), Comb(f, m2, x), Comb(f, m3, x))
            == Comb(f, Plus(Plus(m0, m1), Plus(m2, m3)), x)
  {
    hide Laws, Comb;
    CombSum(f, m0, m1, x);
    CombSum(f, m2, m3, x);
    CombSum(f, Plus(m0, m1), Plus(m2, m3), x);
  }

  /** The binary digits of a factor below 16. */
  function Digits(k: nat): Mask {
    Mask(k % 2 == 1, k / 2 % 2 == 1, k / 4 % 2 == 1, k / 8 % 2 == 1, false)
  }

  function Doubled(m: Mask): Mask { Mask(false, m.a, m.b, m.c, m.d) }

  predicate Factor(k: nat) { k == 1 || k == 2 || k == 3 || k == 9 || k == 11 || k == 13 || k == 14 }

  /** Zeros drop out of a sum. */
  lemma Drops<T(!new)>(f: Field<T>, x: T, y: T, z: T)
    requires Laws(f)
    ensures var o := f.g.zero;
            && Sum5(f, o, o, o, o, x) == Sum5(f, o, o, o, x, o) == Sum5(f, o, o, x, o, o) == x
            && Sum5(f, o, o, o, x, y) == Sum5(f, o, x, o, o, y) == Sum5(f, o, o, x, y, o) == Sum5(f, x, o, o, y, o)
                == f.g.add(x, y)
            && Sum5(f, o, x, o, y, z) == Sum5(f, o, x, y, o, z) == Sum5(f, o, x, y, z, o) == Sum3(f, x, y, z)
            && Sum5(f, x, o, y, z, o) == Sum5(f, x, y, o, z, o) == Sum5(f, x, y, z, o, o) == Sum3(f, x, y, z)
  {
    Twice(f, x);
    Twice(f, y);
    Twice(f, f.g.zero);
    Twice(f, f.g.add(x, y));
    Twice(f, Sum3(f, x, y, z));
    hide Laws;
  }

  /** The product is the sum that the binary digits of the factor pick. */
  lemma GfMulComb<T(!new)>(f: Field<T>, x: T, k: nat)
    requires Laws(f) && Factor(k)
    ensures GfMul(f, x, k) == Comb(f, Digits(k), x)
    ensures GfMul(f, f.double(x), k) == Comb(f, Doubled(Digits(k)), x)
  {
    hide Laws, Sum5, Sum3;
    var b, c, d, e := f.double(x), By4(f, x), By8(f, x), By16(f, x);
    if k == 1 {
      Drops(f, x, x, x);
      Drops(f, b, b, b);
    } else if k == 2 {
      Drops(f, b, b, b);
      Drops(f, c, c, c);
    } else if k == 3 {
      Drops(f, b, x, x);
      Drops(f, c, b, x);
    } else if k == 9 {
      Drops(f, d, x, x);
      Drops(f, e, b, b);
    } else if k == 11 {
      Drops(f, d, b, x);
      Drops(f, e, c, b);
    } else if k == 13 {
      Drops(f, d, c, x);
      Drops(f, e, d, b);
    } else {
      Drops(f, d, c, b);
      Drops(f, e, d, c);
    }
  }

  // ---------------------------------------------------------------- the inverse

  /** One element through one column of the mixing and one row of its inverse: the factors
      multiply as polynomials, and the four products sum to one or to nothing. */
  lemma Meet<T(!new)>(f: Field<T>, x: T)
    requires Laws(f)
    ensures Sum4(f, GfMul(f, GfMul(f, x, 2), 14), GfMul(f, x, 11), GfMul(f, x, 13), GfMul(f, GfMul(f, x, 3), 9)) == x
    ensures Sum4(f, GfMul(f, GfMul(f, x, 3), 14), GfMul(f, GfMul(f, x, 2), 11), GfMul(f, x, 13), GfMul(f, x, 9))
        == f.g.zero
    ensures Sum4(f, GfMul(f, x, 14), GfMul(f, GfMul(f, x, 3), 11), GfMul(f, GfMul(f, x, 2), 13), GfMul(f, x, 9))
        == f.g.zero
    ensures Sum4(f, GfMul(f, x, 14), GfMul(f, x, 11), GfMul(f, GfMul(f, x, 3), 13), GfMul(f, GfMul(f, x, 2), 9))
        == f.g.zero
  {
    hide Laws, GfMul, Comb, Sum4, Digits, Doubled, Plus;
    FactorsMeet();
    Inner(f, x, 14);
    Inner(f, x, 11);
    Inner(f, x, 13);
    Inner(f, x, 9);
    CombSum4(f, Doubled(Digits(14)), Digits(11), Digits(13), Plus(Doubled(Digits(9)), Digits(9)), x);
    CombSum4(f, Plus(Doubled(Digits(14)), Digits(14)), Doubled(Digits(11)), Digits(13), Digits(9), x);
    CombSum4(f, Digits(14), Plus(Doubled(Digits(11)), Digits(11)), Doubled(Digits(13)), Digits(9), x);
    CombSum4(f, Digits(14), Digits(11), Plus(Doubled(Digits(13)), Digits(13)), Doubled(Digits(9)), x);
    CombEnds(f, x);
  }

  /** The factors of the two mixings multiply, without carries, to one and to nothing. */
  lemma FactorsMeet()
    ensures Plus(Plus(Doubled(Digits(14)), Digits(11)), Plus(Digits(13), Plus(Doubled(Digits(9)), Digits(9))))
        == Mask(true, false, false, false, false)
    ensures Plus(Plus(Plus(Doubled(Digits(14)), Digits(14)), Doubled(Digits(11))), Plus(Digits(13), Digits(9)))
        == Mask(false, false, false, false, false)
    ensures Plus(Plus(Digits(14), Plus(Doubled(Digits(11)), Digits(11))), Plus(Doubled(Digits(13)), Digits(9)))
        == Mask(false, false, false, false, false)
    ensures Plus(Plus(Digits(14), Digits(11)), Plus(Plus(Doubled(Digits(13)), Digits(13)), Doubled(Digits(9))))
        == Mask(false, false, false, false, false)
  {
  }

  lemma Inner<T(!new)>(f: Field<T>, x: T, k: nat)
    requires Laws(f) && Factor(k)
    ensures GfMul(f, x, k) == Comb(f, Digits(k), x)
    ensures GfMul(f, GfMul(f, x, 2), k) == Comb(f, Doubled(Digits(k)), x)
    ensures GfMul(f, GfMul(f, x, 3), k) == Comb(f, Plus(Doubled(Digits(k)), Digits(k)), x)
  {
    assert GfMul(f, x, 2) == f.double(x) && GfMul(f, x, 3) == f.g.add(f.double(x), x);
    hide Laws, GfMul, Comb;
    GfMulComb(f, x, k);
    GfMulSum(f, f.double(x), x, k);
    CombSum(f, Doubled(Digits(k)), Digits(k), x);
  }

  lemma CombEnds<T(!new)>(f: Field<T>, x: T)
    requires Laws(f)
    ensures Comb(f, Mask(true, false, false, false, false), x) == x
    ensures Comb(f, Mask(false, false, false, false, false), x) == f.g.zero
  {
    Drops(f, x, x, x);
    Drops(f, f.g.zero, f.g.zero, f.g.zero);
    hide Laws, Sum5, By4, By8, By16;
  }

  /** The first row of the inverse applied to a mixed column gives its first element back. */
  lemma FirstRow<T(!new)>(f: Field<T>, a: T, b: T, c: T, d: T)
    requires Laws(f)
    ensures Dot(f, Dot(f, a, b, c, d, 2, 3, 1, 1), Dot(f, a, b, c, d, 1, 2, 3, 1),
                   Dot(f, a, b, c, d, 1, 1, 2, 3), Dot(f, a, b, c, d, 3, 1, 1, 2), 14, 11, 13, 9) == a
  {
    var a2, a3, b2, b3 := GfMul(f, a, 2), GfMul(f, a, 3), GfMul(f, b, 2), GfMul(f, b, 3);
    var c2, c3, d2, d3 := GfMul(f, c, 2), GfMul(f, c, 3), GfMul(f, d, 2), GfMul(f, d, 3);
    assert GfMul(f, a, 1) == a && GfMul(f, b, 1) == b && GfMul(f, c, 1) == c && GfMul(f, d, 1) == d;
    hide Laws, GfMul, Sum4;
    GfMulSum4(f, a2, b3, c, d, 14);
    GfMulSum4(f, a, b2, c3, d, 11);
    GfMulSum4(f, a, b, c2, d3, 13);
    GfMulSum4(f, a3, b, c, d2, 9);
    Transpose(f, GfMul(f, a2, 14), GfMul(f, b3, 14), GfMul(f, c, 14), GfMul(f, d, 14),
              GfMul(f, a, 11), GfMul(f, b2, 11), GfMul(f, c3, 11), GfMul(f, d, 11),
              GfMul(f, a, 13), GfMul(f, b, 13), GfMul(f, c2, 13), GfMul(f, d3, 13),
              GfMul(f, a3, 9), GfMul(f, b, 9), GfMul(f, c, 9), GfMul(f, d2, 9));
    Meet(f, a);
    Meet(f, b);
    Meet(f, c);
    Meet(f, d);
    OnlyFirst(f, a);
  }

  lemma Turn<T(!new)>(f: Field<T>, a: T, b: T, c: T, d: T, k0: nat, k1: nat, k2: nat, k3: nat)
    requires Laws(f)
    ensures Dot(f, a, b, c, d, k0, k1, k2, k3) == Dot(f, b, c, d, a, k1, k2, k3, k0)
  {
    hide Laws, GfMul;
    Rotate(f, GfMul(f, a, k0), GfMul(f, b, k1), GfMul(f, c, k2), GfMul(f, d, k3));
  }

  /** Row by row, each the first row of a turned column. */
  lemma NextRow<T(!new)>(f: Field<T>, a: T, b: T, c: T, d: T, w: T, k0: nat, k1: nat, k2: nat, k3: nat)
    requires Laws(f)
    requires Dot(f, Dot(f, b, c, d, a, 2, 3, 1, 1), Dot(f, b, c, d, a, 1, 2, 3, 1),
                    Dot(f, b, c, d, a, 1, 1, 2, 3), Dot(f, b, c, d, a, 3, 1, 1, 2), k1, k2, k3, k0) == w
    ensures Dot(f, Dot(f, a, b, c, d, 2, 3, 1, 1), Dot(f, a, b, c, d, 1, 2, 3, 1),
                   Dot(f, a, b, c, d, 1, 1, 2, 3), Dot(f, a, b, c, d, 3, 1, 1, 2), k0, k1, k2, k3) == w
  {
    hide Laws, Dot;
    Turn(f, a, b, c, d, 2, 3, 1, 1);
    Turn(f, a, b, c, d, 1, 2, 3, 1);
    Turn(f, a, b, c, d, 1, 1, 2, 3);
    Turn(f, a, b, c, d, 3, 1, 1, 2);
    Turn(f, Dot(f, a, b, c, d, 2, 3, 1, 1), Dot(f, a, b, c, d, 1, 2, 3, 1),
         Dot(f, a, b, c, d, 1, 1, 2, 3), Dot(f, a, b, c, d, 3, 1, 1, 2), k0, k1, k2, k3);
  }

  lemma UnmixMix<T(!new)>(f: Field<T>, w: seq<T>)
    requires Laws(f) && |w| == 4
    ensures UnmixColumn(f, MixColumn(f, w)) == w
  {
    hide Laws, Dot;
    var a, b, c, d := w[0], w[1], w[2], w[3];
    FirstRow(f, a, b, c, d);
    FirstRow(f, b, c, d, a);
    NextRow(f, a, b, c, d, b, 9, 14, 11, 13);
    FirstRow(f, c, d, a, b);
    NextRow(f, b, c, d, a, c, 9, 14, 11, 13);
    NextRow(f, a, b, c, d, c, 13, 9, 14, 11);
    FirstRow(f, d, a, b, c);
    NextRow(f, c, d, a, b, d, 9, 14, 11, 13);
    NextRow(f, b, c, d, a, d, 13, 9, 14, 11);
    NextRow(f, a, b, c, d, d, 11, 13, 9, 14);
  }
}
