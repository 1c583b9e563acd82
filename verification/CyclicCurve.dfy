/** The integers modulo 8 l as a curve with cofactor 8: what Valid asks can all be met at
    once, and a base point outside the subgroup of prime order defeats an honest proof. */
module CyclicCurve {
  import opened Wrappers
  import opened Numbers
  import opened Group
  import opened Ed25519
  import opened ScalarMult
  import opened StealthKeys

  const SIZE: nat := 8 * ORDER

  type Residue = x: nat | x < SIZE

  function Plus(x: Residue, y: Residue): Residue {
    if x + y < SIZE then x + y else x + y - SIZE
  }

  function Minus(x: Residue): Residue {
    if x == 0 then 0 else SIZE - x
  }

  function Residues(): Group<Residue> {
    Group(0, (x, y) => Plus(x, y), x => Minus(x))
  }

  lemma ResiduesAbelian()
    ensures Abelian(Residues())
  {
    var g := Residues();
    assert forall x, y, z :: Associative(g, x, y, z);
    assert forall x, y :: Commutative(g, x, y);
    assert forall x :: Neutral(g, x);
  }

  lemma MulUnfolds(n: nat, p: Residue)
    ensures n > 0 ==> Mul(Residues(), n, p) == Plus(Mul(Residues(), n - 1, p), p)
    ensures Mul(Residues(), 0, p) == 0
  {
  }

  /** A multiple is the product less a number of whole turns. */
  lemma {:induction false} Turns(n: nat, p: Residue) returns (q: int)
    ensures n * p == q * SIZE + Mul(Residues(), n, p)
  {
    MulUnfolds(n, p);
    q := 0;
    if n > 0 {
      q := Turns(n - 1, p);
      var below: Residue := Mul(Residues(), n - 1, p);
      OneTurn(n, p, q);
      q := if below + p < SIZE then q else q + 1;
    }
  }

  lemma OneTurn(n: nat, p: int, q: int)
    ensures n * p == (n - 1) * p + p && (q + 1) * SIZE == q * SIZE + SIZE
  {
  }

  lemma MulIs(n: nat, p: Residue, v: Residue, t: int)
    requires n * p == t * SIZE + v
    ensures Mul(Residues(), n, p) == v
  {
    var q := Turns(n, p);
    SameRest(t, v, q, Mul(Residues(), n, p));
  }

  lemma SameRest(t: int, v: Residue, q: int, w: Residue)
    requires t * SIZE + v == q * SIZE + w
    ensures v == w
  {
    DivModUnique(t * SIZE + v, SIZE, t, v);
    DivModUnique(t * SIZE + v, SIZE, q, w);
  }

  function Encode(x: Residue): seq<int> { [x] + seq(31, _ => 0) }

  function Decode(s: seq<int>): Option<Residue> {
    if |s| == 32 && 0 <= s[0] < SIZE then Some(s[0]) else None
  }

  ghost function Table(p: Residue): seq<Residue> {
    seq(8, j requires 0 <= j < 8 => Mul(Residues(), j + 1, p))
  }

  ghost function OddTable(p: Residue): seq<Residue> {
    seq(8, j requires 0 <= j < 8 => Mul(Residues(), 2 * j + 1, p))
  }

  /** The curve: base point 8, each point encoded as itself and 31 zeros. */
  ghost function Cyclic(hash: seq<int> -> nat, fromHash: seq<int> -> Residue): Curve<Residue> {
    Curve(Residues(), 8,
      seq(32, k requires 0 <= k < 32 => Table(Mul(Residues(), Pow(256, k), 8))), OddTable(8),
      x => Encode(x), s => Decode(s), hash, fromHash)
  }

  lemma CyclicPoint(hash: seq<int> -> nat, fromHash: seq<int> -> Residue, p: Residue)
    ensures Point(Cyclic(hash, fromHash), p)
  {
    MulIs(SIZE, p, 0, p);
    hide Mul;
  }

  lemma CyclicTables(hash: seq<int> -> nat, fromHash: seq<int> -> Residue)
    ensures var c := Cyclic(hash, fromHash); BaseTable(c.group, c.G, c.base) && OddMultiples(c.group, c.G, c.baseOdd)
  {
    hide Mul, Residues, Pow;
  }

  lemma CyclicBase(hash: seq<int> -> nat, fromHash: seq<int> -> Residue)
    ensures var c := Cyclic(hash, fromHash); InSubgroup(c, c.G)
  {
    MulIs(ORDER, 8, 0, 1);
    hide Mul;
  }

  /** Everything asked of a curve holds of this one. */
  lemma CyclicValid(hash: seq<int> -> nat, fromHash: seq<int> -> Residue)
    ensures Valid(Cyclic(hash, fromHash))
  {
    var c := Cyclic(hash, fromHash);
    assert c.group == Residues();
    hide Mul, Abelian, InSubgroup, Point, BaseTable, OddMultiples, Cyclic, Residues;
    ResiduesAbelian();
    CyclicTables(hash, fromHash);
    CyclicBase(hash, fromHash);
    forall p: Residue ensures Point(c, p) {
      CyclicPoint(hash, fromHash, p);
    }
  }

  /** The hash is 1 on one buffer and 2 on all others. */
  ghost function Example(): Curve<Residue> {
    Cyclic(b => Probe(Encode(1) + Encode(0) + Encode(0), b), b => 0)
  }

  /** A = 1 is outside the subgroup; the proof made about it with r = 1, k = 0 and the empty
      message is refused. */
  lemma HonestProofRefused()
    ensures Valid(Example()) && !InSubgroup(Example(), 1) && !Honest(Example(), [], 1, 1, 0)
  {
    var c := Example();
    CyclicValid(c.hash, c.fromHash);
    assert !InSubgroup(c, 1) by {
      MulIs(ORDER, 1, ORDER, 0);
    }
    assert Probes(c, 1);
    hide Mul, Valid, Honest, InSubgroup, Probes;
    if Honest(c, [], 1, 1, 0) {
      ProbeDecides(c, 1);
    }
  }
}
