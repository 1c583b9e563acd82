/** The abelian group behind the ge_ operations, given by its laws, and integer
    multiples in it. */
module Group {

  datatype Group<!P> = Group(zero: P, add: (P, P) -> P, neg: P -> P)

  ghost predicate Associative<P>(g: Group<P>, x: P, y: P, z: P) {
    g.add(g.add(x, y), z) == g.add(x, g.add(y, z))
  }

  ghost predicate Commutative<P>(g: Group<P>, x: P, y: P) {
    g.add(x, y) == g.add(y, x)
  }

  ghost predicate Neutral<P>(g: Group<P>, x: P) {
    g.add(x, g.zero) == x && g.add(x, g.neg(x)) == g.zero
  }

  ghost predicate Abelian<P(!new)>(g: Group<P>) {
    && (forall x, y, z :: Associative(g, x, y, z))
    && (forall x, y :: Commutative(g, x, y))
    && (forall x :: Neutral(g, x))
  }

  /** n times p, for any integer n. The second measure never changes; naming p there
      stops the verifier from unfolding multiples by a literal group order. */
  ghost function Mul<P>(g: Group<P>, n: int, p: P): P
    decreases if n < 0 then -n else n, p
  {
    if n == 0 then g.zero
    else if n > 0 then g.add(Mul(g, n - 1, p), p)
    else g.add(Mul(g, n + 1, p), g.neg(p))
  }

  lemma Cancel<P(!new)>(g: Group<P>, x: P, y: P)
    requires Abelian(g)
    ensures g.add(g.add(x, y), g.neg(y)) == x
    ensures g.add(g.add(x, g.neg(y)), y) == x
  {
    assert Associative(g, x, y, g.neg(y)) && Associative(g, x, g.neg(y), y);
    assert Neutral(g, y) && Neutral(g, x) && Commutative(g, y, g.neg(y));
  }

  /** (x + y) + (z + w) == (x + z) + (y + w) */
  lemma Interchange<P(!new)>(g: Group<P>, x: P, y: P, z: P, w: P)
    requires Abelian(g)
    ensures g.add(g.add(x, y), g.add(z, w)) == g.add(g.add(x, z), g.add(y, w))
  {
    assert Associative(g, x, y, g.add(z, w)) && Associative(g, y, z, w);
    assert Commutative(g, y, z);
    assert Associative(g, z, y, w) && Associative(g, x, z, g.add(y, w));
  }

  lemma MulSucc<P(!new)>(g: Group<P>, n: int, p: P)
    requires Abelian(g)
    ensures Mul(g, n + 1, p) == g.add(Mul(g, n, p), p)
    ensures Mul(g, n - 1, p) == g.add(Mul(g, n, p), g.neg(p))
  {
    if n < 0 {
      Cancel(g, Mul(g, n + 1, p), p);
    } else if n > 0 {
      Cancel(g, Mul(g, n - 1, p), p);
    }
  }

  lemma {:induction false} MulAdd<P(!new)>(g: Group<P>, m: int, n: int, p: P)
    requires Abelian(g)
    ensures Mul(g, m + n, p) == g.add(Mul(g, m, p), Mul(g, n, p))
    decreases if n < 0 then -n else n
  {
    if n == 0 {
      assert Neutral(g, Mul(g, m, p));
    } else if n > 0 {
      MulAdd(g, m, n - 1, p);
      MulSucc(g, m + (n - 1), p);
      assert Associative(g, Mul(g, m, p), Mul(g, n - 1, p), p);
    } else {
      MulAdd(g, m, n + 1, p);
      MulSucc(g, m + (n + 1), p);
      assert Associative(g, Mul(g, m, p), Mul(g, n + 1, p), g.neg(p));
    }
  }

  lemma {:induction false} MulMul<P(!new)>(g: Group<P>, m: int, n: int, p: P)
    requires Abelian(g)
    ensures Mul(g, m * n, p) == Mul(g, m, Mul(g, n, p))
    decreases if m < 0 then -m else m
  {
    var q := Mul(g, n, p);
    if m > 0 {
      MulMul(g, m - 1, n, p);
      MulAdd(g, (m - 1) * n, n, p);
      assert (m - 1) * n + n == m * n;
    } else if m < 0 {
      MulMul(g, m + 1, n, p);
      assert m * n + n == (m + 1) * n;
      MulAdd(g, m * n, n, p);
      Cancel(g, Mul(g, m * n, p), q);
    }
  }

  lemma MulOne<P(!new)>(g: Group<P>, p: P)
    requires Abelian(g)
    ensures Mul(g, 1, p) == p
    ensures Mul(g, 2, p) == g.add(p, p)
    ensures Mul(g, -1, p) == g.neg(p)
  {
    assert Neutral(g, p) && Commutative(g, g.zero, p);
    assert Neutral(g, g.neg(p)) && Commutative(g, g.zero, g.neg(p));
    assert Mul(g, 0, p) == g.zero;
    assert Mul(g, 1, p) == g.add(Mul(g, 0, p), p);
    assert Mul(g, 2, p) == g.add(Mul(g, 1, p), p);
  }

  lemma {:induction false} MulZero<P(!new)>(g: Group<P>, n: int)
    requires Abelian(g)
    ensures Mul(g, n, g.zero) == g.zero
  {
    MulMul(g, n, 0, g.zero);
  }

  lemma MulNeg<P(!new)>(g: Group<P>, n: int, p: P)
    requires Abelian(g)
    ensures Mul(g, -n, p) == g.neg(Mul(g, n, p))
  {
    MulOne(g, Mul(g, n, p));
    MulMul(g, -1, n, p);
  }

  /** Multiples of a point killed by `order` depend only on the multiplier modulo `order`. */
  lemma MulModOrder<P(!new)>(g: Group<P>, order: nat, n: int, p: P)
    requires Abelian(g) && order > 0 && Mul(g, order, p) == g.zero
    ensures Mul(g, n % order, p) == Mul(g, n, p)
  {
    var q := n / order;
    MulMul(g, q, order, p);
    MulZero(g, q);
    assert q * order + n % order == n;
    MulAdd(g, q * order, n % order, p);
    assert Commutative(g, g.zero, Mul(g, n % order, p)) && Neutral(g, Mul(g, n % order, p));
  }
}
