/** One-time keys and transaction proofs of crypto.cpp. */
module StealthKeys {
  import opened Wrappers
  import opened Group
  import opened Ed25519
  import opened ScalarMult
  import opened Signatures
  import Varint

  /** 8 b P, or nothing when the key does not decode. */
  ghost function Derivation<P>(c: Curve<P>, key: seq<int>, sec: nat): Option<seq<int>> {
    match c.decode(key)
    case None => None
    case Some(p) => Some(c.encode(Mul(c.group, 8, Mul(c.group, sec, p))))
  }

  function DerivedScalar<P>(c: Curve<P>, derivation: seq<int>, index: nat): (n: nat)
    ensures n < ORDER
  {
    c.hash(derivation + Varint.Encode(index)) % ORDER
  }

  /** What is hashed for the first 128 outputs and for the next 16256. */
  lemma DerivedScalarBytes<P>(c: Curve<P>, derivation: seq<int>, index: nat)
    ensures index < 128 ==> DerivedScalar(c, derivation, index) == c.hash(derivation + [index]) % ORDER
    ensures 128 <= index < 16384 ==>
      DerivedScalar(c, derivation, index) == c.hash(derivation + [index % 128 + 128, index / 128]) % ORDER
  {
    Varint.EncodeSmall(index);
    hide Varint.Encode;
  }

  /** Outputs are told apart: two derivations of one length, or two indices, have different
      scalars under some hash. */
  lemma DerivedScalarsDiffer<P>(c: Curve<P>, d: seq<int>, i: nat, d': seq<int>, i': nat)
      returns (hash: seq<int> -> nat)
    requires |d| == |d'| && (d != d' || i != i')
    ensures DerivedScalar(c.(hash := hash), d, i) != DerivedScalar(c.(hash := hash), d', i')
  {
    var e, e' := d + Varint.Encode(i), d' + Varint.Encode(i');
    hash := b => if b == e then 1 else 2;
    if e == e' {
      assert e[..|d|] == d && e'[..|d|] == d' && e[|d|..] == Varint.Encode(i) && e'[|d|..] == Varint.Encode(i');
      hide Varint.Encode;
      Varint.EncodeInjective(i, i');
      assert false;
    }
  }

  /** The derivation is eight times the product: of small order nothing is left, and it lies in the
      subgroup of prime order. */
  lemma DerivationIs<P(!new)>(c: Curve<P>, p: P, sec: nat)
    requires Valid(c)
    ensures Derivation(c, c.encode(p), sec) == Some(c.encode(Mul(c.group, 8 * sec, p)))
    ensures InSubgroup(c, Mul(c.group, 8 * sec, p))
  {
    assert Point(c, p) && Point(c, Mul(c.group, sec, p));
    MulMul(c.group, 8, sec, p);
    MulMul(c.group, ORDER, 8, Mul(c.group, sec, p));
    hide Valid, Mul;
    assert ORDER * 8 == 8 * ORDER;
  }

  /** H(derivation, index) G + B */
  ghost function DerivedPublic<P>(c: Curve<P>, derivation: seq<int>, index: nat, base: seq<int>): Option<seq<int>> {
    match c.decode(base)
    case None => None
    case Some(b) => Some(c.encode(c.group.add(b, MulG(c, DerivedScalar(c, derivation, index)))))
  }

  /** generate_key_derivation */
  method GenerateKeyDerivation<P(!new)>(c: Curve<P>, key: seq<int>, sec: nat) returns (d: Option<seq<int>>)
    requires Valid(c) && sec < ORDER
    ensures d == Derivation(c, key, sec)
  {
    hide Abelian, Point, BaseTable, OddMultiples, Mul;
    var point := c.decode(key);
    if point.None? {
      return None;
    }
    var point2 := GeScalarMult(c.group, Bytes(sec), point.value);
    var point3 := Mul8(c.group, point2);
    d := Some(c.encode(point3));
  }

  /** derivation_to_scalar: the output index goes in as a varint. */
  method DerivationToScalar<P>(c: Curve<P>, derivation: seq<int>, index: nat) returns (n: nat)
    ensures n == DerivedScalar(c, derivation, index)
  {
    var buf := Varint.WriteVarint(derivation, index);
    n := c.hash(buf) % ORDER;
  }

  /** derive_public_key */
  method DerivePublicKey<P(!new)>(c: Curve<P>, derivation: seq<int>, index: nat, base: seq<int>)
      returns (d: Option<seq<int>>)
    requires Valid(c)
    ensures d == DerivedPublic(c, derivation, index, base)
  {
    hide Abelian, Point, BaseTable, OddMultiples, Mul, DerivedScalar;
    var point1 := c.decode(base);
    if point1.None? {
      return None;
    }
    var scalar := DerivationToScalar(c, derivation, index);
    var point2 := GeScalarMultBase(c.group, Bytes(scalar), c.base, c.G);
    d := Some(c.encode(c.group.add(point1.value, point2)));
  }

  /** derive_secret_key */
  method DeriveSecretKey<P>(c: Curve<P>, derivation: seq<int>, index: nat, base: nat) returns (x: nat)
    requires base < ORDER
    ensures x == (base + DerivedScalar(c, derivation, index)) % ORDER
  {
    var scalar := DerivationToScalar(c, derivation, index);
    x := (base + scalar) % ORDER;
  }

  /** Sender and receiver obtain the same derivation: 8 r (a G) == 8 a (r G). */
  lemma DerivationsAgree<P(!new)>(c: Curve<P>, a: nat, r: nat)
    requires Valid(c)
    ensures Derivation(c, c.encode(MulG(c, a)), r).Some?
    ensures Derivation(c, c.encode(MulG(c, a)), r) == Derivation(c, c.encode(MulG(c, r)), a)
  {
    assert Point(c, MulG(c, a)) && Point(c, MulG(c, r));
    hide Mul;
    MulMul(c.group, r, a, c.G);
    MulMul(c.group, a, r, c.G);
    assert r * a == a * r;
  }

  /** The derived secret is the secret of the derived public key, at every output index. */
  lemma DerivedKeysMatch<P(!new)>(c: Curve<P>, derivation: seq<int>, index: nat, b: nat)
    requires Valid(c)
    ensures DerivedPublic(c, derivation, index, c.encode(MulG(c, b)))
      == Some(c.encode(MulG(c, (b + DerivedScalar(c, derivation, index)) % ORDER)))
  {
    assert Point(c, MulG(c, b));
    hide Mul, DerivedScalar;
    var n := DerivedScalar(c, derivation, index);
    MulOrder(c, b + n, c.G);
    MulAdd(c.group, b, n, c.G);
  }

  // ---------------------------------------------------------------- transaction proofs

  ghost function TxChallenge<P>(c: Curve<P>, msg: seq<int>, D: seq<int>, x: P, y: P): nat {
    c.hash(msg + D + c.encode(x) + c.encode(y)) % ORDER
  }

  ghost predicate TxAccepts<P>(c: Curve<P>, msg: seq<int>, R: seq<int>, A: seq<int>, D: seq<int>, s: Signature) {
    && c.decode(R).Some? && c.decode(A).Some? && c.decode(D).Some? && Reduced(s)
    && TxChallenge(c, msg, D,
         Combo(c.group, s.c, c.decode(R).value, s.r, c.G),
         Combo(c.group, s.c, c.decode(D).value, s.r, c.decode(A).value)) == s.c
  }

  /** The prover's pair for the secret r, the derivation bytes D and the nonce k. */
  ghost function TxProof<P>(c: Curve<P>, msg: seq<int>, D: seq<int>, r: nat, A: P, k: nat): Signature {
    var n := TxChallenge(c, msg, D, MulG(c, k), Mul(c.group, k, A));
    Signature(n, MulSub(n, r, k))
  }

  /** generate_tx_proof; None where the source throws. */
  method GenerateTxProof<P(!new)>(c: Curve<P>, msg: seq<int>, R: seq<int>, A: seq<int>, D: seq<int>, r: nat, k: nat)
      returns (s: Option<Signature>)
    requires Valid(c) && r < ORDER && k < ORDER
    ensures s.Some? <==> c.decode(R).Some? && c.decode(A).Some? && c.decode(D).Some?
    ensures s.Some? ==> s.value == TxProof(c, msg, D, r, c.decode(A).value, k)
  {
    hide Abelian, Point, BaseTable, OddMultiples, Mul, MulSub;
    if c.decode(R).None? || c.decode(A).None? || c.decode(D).None? {
      return None;
    }
    var x := GeScalarMultBase(c.group, Bytes(k), c.base, c.G);
    var y := GeScalarMult(c.group, Bytes(k), c.decode(A).value);
    var ch := c.hash(msg + D + c.encode(x) + c.encode(y)) % ORDER;
    s := Some(Signature(ch, MulSub(ch, r, k)));
  }

  /** n P + m Q by way of the encodings of both terms, as the checker computes it. */
  method SumThroughBytes<P(!new)>(c: Curve<P>, x: P, y: P) returns (z: Option<P>)
    requires Valid(c)
    ensures z == Some(c.group.add(x, y))
  {
    assert Point(c, x) && Point(c, y);
    var x' := c.decode(c.encode(x));
    var y' := c.decode(c.encode(y));
    if x'.None? || y'.None? {
      return None;
    }
    z := Some(c.group.add(x'.value, y'.value));
  }

  /** check_tx_proof */
  method CheckTxProof<P(!new)>(c: Curve<P>, msg: seq<int>, R: seq<int>, A: seq<int>, D: seq<int>, s: Signature)
      returns (ok: bool)
    requires Valid(c)
    ensures ok <==> TxAccepts(c, msg, R, A, D, s)
  {
    hide Abelian, Point, BaseTable, OddMultiples, Mul;
    if c.decode(R).None? || c.decode(A).None? || c.decode(D).None? || s.c >= ORDER || s.r >= ORDER {
      return false;
    }
    var cR := GeScalarMult(c.group, Bytes(s.c), c.decode(R).value);
    var rG := GeScalarMultBase(c.group, Bytes(s.r), c.base, c.G);
    var cD := GeScalarMult(c.group, Bytes(s.c), c.decode(D).value);
    var rA := GeScalarMult(c.group, Bytes(s.r), c.decode(A).value);
    var x := SumThroughBytes(c, cR, rG);
    var y := SumThroughBytes(c, cD, rA);
    if x.None? || y.None? {
      return false;
    }
    ok := ChallengeMatches(c, msg + D + c.encode(x.value) + c.encode(y.value), s.c);
  }

  /** The second commitment is the prover's exactly when A is killed by the multiple
      of the order that reducing the response dropped. */
  lemma TxSecondCommitment<P(!new)>(c: Curve<P>, n: int, r: int, k: int, s: int, A: P)
    requires Valid(c)
    ensures Combo(c.group, n, Mul(c.group, r, A), s, A) == Mul(c.group, k, A)
      <==> Mul(c.group, n * r + s - k, A) == c.group.zero
  {
    var g, m := c.group, n * r;
    MulMul(g, n, r, A);
    MulAdd(g, m, s, A);
    MulAdd(g, m + s - k, k, A);
    hide Mul, Valid;
    var u, v := Mul(g, m + s - k, A), Mul(g, k, A);
    assert Combo(g, n, Mul(g, r, A), s, A) == g.add(u, v);
    AddsNothing(g, u, v);
  }

  lemma AddsNothing<P(!new)>(g: Group<P>, u: P, v: P)
    requires Abelian(g)
    ensures g.add(u, v) == v <==> u == g.zero
  {
    Cancel(g, u, v);
    assert Commutative(g, g.zero, v) && Neutral(g, v);
  }

  /** What the check hashes is the message, D, c R + r G and c D + r A, and it compares that hash
      with c: a hash that is c on these bytes alone is accepted, one that is c on all others is not. */
  lemma TxDecides<P(!new)>(c: Curve<P>, msg: seq<int>, R: seq<int>, A: seq<int>, D: seq<int>, s: Signature, pR: P,
      pA: P, pD: P)
    requires c.decode(R) == Some(pR) && c.decode(A) == Some(pA) && c.decode(D) == Some(pD) && Reduced(s)
    ensures var g := c.group;
      var e := msg + D + c.encode(g.add(Mul(g, s.c, pR), Mul(g, s.r, c.G)))
        + c.encode(g.add(Mul(g, s.c, pD), Mul(g, s.r, pA)));
      && TxAccepts(c.(hash := b => if b == e then s.c else s.c + 1), msg, R, A, D, s)
      && !TxAccepts(c.(hash := b => if b == e then s.c + 1 else s.c), msg, R, A, D, s)
  {
    hide Mul;
    NextResidue(s.c);
  }

  /** Neither half may be replaced by another number of the same residue. */
  lemma TxReduced<P>(c: Curve<P>, msg: seq<int>, R: seq<int>, A: seq<int>, D: seq<int>, s: Signature)
    ensures !TxAccepts(c, msg, R, A, D, Signature(s.c + ORDER, s.r))
    ensures !TxAccepts(c, msg, R, A, D, Signature(s.c, s.r + ORDER))
  {
  }

  /** Special soundness: two proofs with the same commitments and different challenges give the
      secret, the same for both equations: (c - c') R == (r' - r) G and (c - c') D == (r' - r) A. */
  lemma TxSound<P(!new)>(c: Curve<P>, pR: P, pA: P, pD: P, s: Signature, s': Signature)
    requires Valid(c)
    requires Combo(c.group, s.c, pR, s.r, c.G) == Combo(c.group, s'.c, pR, s'.r, c.G)
    requires Combo(c.group, s.c, pD, s.r, pA) == Combo(c.group, s'.c, pD, s'.r, pA)
    ensures Mul(c.group, s.c - s'.c, pR) == Mul(c.group, s'.r - s.r, c.G)
    ensures Mul(c.group, s.c - s'.c, pD) == Mul(c.group, s'.r - s.r, pA)
  {
    SameCombo(c.group, s.c, pR, s.r, c.G, s'.c, s'.r);
    SameCombo(c.group, s.c, pD, s.r, pA, s'.c, s'.r);
  }

  /** The proof made with R = r G and D = r A is accepted. */
  ghost predicate Honest<P>(c: Curve<P>, msg: seq<int>, r: nat, A: P, k: nat) {
    var D := c.encode(Mul(c.group, r, A));
    TxAccepts(c, msg, c.encode(MulG(c, r)), c.encode(A), D, TxProof(c, msg, D, r, A, k))
  }

  /** Completeness: with A in the subgroup of prime order every honest proof is accepted. */
  lemma TxProofComplete<P(!new)>(c: Curve<P>, msg: seq<int>, r: nat, A: P, k: nat)
    requires Valid(c) && InSubgroup(c, A)
    ensures Honest(c, msg, r, A, k)
  {
    assert Point(c, A) && Point(c, MulG(c, r)) && Point(c, Mul(c.group, r, A)) && InSubgroup(c, c.G);
    var s := TxProof(c, msg, c.encode(Mul(c.group, r, A)), r, A, k);
    hide Valid, InSubgroup, Mul, Combo, MulSub;
    Response(c, s.c, r, k, s.r, c.G);
    Response(c, s.c, r, k, s.r, A);
  }

  /** Whatever the hash function, every honest proof about A is accepted. */
  ghost predicate AlwaysAccepted<P(!new)>(c: Curve<P>, A: P) {
    forall hash: seq<int> -> nat, msg: seq<int>, r: nat, k: nat ::
      r < ORDER && k < ORDER ==> Honest(c.(hash := hash), msg, r, A, k)
  }

  lemma ValidAnyHash<P(!new)>(c: Curve<P>, hash: seq<int> -> nat, A: P)
    requires Valid(c)
    ensures Valid(c.(hash := hash)) && (InSubgroup(c, A) <==> InSubgroup(c.(hash := hash), A))
  {
    hide Mul, Abelian, BaseTable, OddMultiples;
    var c' := c.(hash := hash);
    forall p ensures Point(c', p) {
      assert Point(c, p);
    }
  }

  function Probe(expected: seq<int>, b: seq<int>): nat { if b == expected then 1 else 2 }

  /** The multiples in the proof with r = 1 and k = 0. */
  lemma ProbeMultiples<P(!new)>(c: Curve<P>, A: P)
    requires Valid(c)
    ensures var g := c.group; Mul(g, 1, A) == A && Mul(g, 0, A) == g.zero && MulG(c, 0) == g.zero
    ensures c.decode(c.encode(A)) == Some(A) && MulSub(1, 1, 0) == ORDER - 1
  {
    MulOne(c.group, A);
    MulSubIs(1, 1, 0);
    assert Point(c, A);
  }

  /** A hash that is 1 on the prover's buffer and 2 on all others. */
  ghost predicate Probes<P>(c: Curve<P>, A: P) {
    var e := c.encode;
    forall b :: c.hash(b) == Probe(e(A) + e(c.group.zero) + e(c.group.zero), b)
  }

  lemma ProbeProof<P(!new)>(c: Curve<P>, A: P)
    requires Valid(c) && Probes(c, A)
    ensures TxProof(c, [], c.encode(A), 1, A, 0) == Signature(1, ORDER - 1)
  {
    ProbeMultiples(c, A);
    hide Mul, MulSub, Valid;
    assert [] + c.encode(A) == c.encode(A);
  }

  /** What the checker hashes for that proof. */
  lemma ProbeChecked<P(!new)>(c: Curve<P>, A: P)
    requires Valid(c) && Probes(c, A) && Honest(c, [], 1, A, 0)
    ensures var x, y := Combo(c.group, 1, c.G, ORDER - 1, c.G), Combo(c.group, 1, A, ORDER - 1, A);
      TxChallenge(c, [], c.encode(A), x, y) == 1
  {
    ProbeMultiples(c, A);
    ProbeMultiples(c, c.G);
    ProbeProof(c, A);
    hide Mul, MulSub, Valid, Combo, TxChallenge, TxProof, Probes;
  }

  /** A multiple n = 1, s = l - 1 is all of the order. */
  lemma ProbeSum<P(!new)>(c: Curve<P>, A: P)
    requires Valid(c)
    ensures Combo(c.group, 1, A, ORDER - 1, A) == c.group.zero <==> InSubgroup(c, A)
  {
    ProbeMultiples(c, A);
    TxSecondCommitment(c, 1, 1, 0, ORDER - 1, A);
    hide Mul, MulSub, Valid, Combo;
  }

  /** If the checker hashes the prover's buffer, its second commitment is the prover's. */
  lemma ProbeDecides<P(!new)>(c: Curve<P>, A: P)
    requires Valid(c) && Probes(c, A) && Honest(c, [], 1, A, 0)
    ensures InSubgroup(c, A)
  {
    var e, zero := c.encode, c.group.zero;
    var x, y := Combo(c.group, 1, c.G, ORDER - 1, c.G), Combo(c.group, 1, A, ORDER - 1, A);
    ProbeChecked(c, A);
    assert InSubgroup(c, c.G);
    ProbeSum(c, c.G);
    ProbeSum(c, A);
    ProbeMultiples(c, y);
    ProbeMultiples(c, zero);
    hide Mul, MulSub, Valid, Combo, InSubgroup, Honest;
    assert [] + e(A) == e(A);
    assert Probe(e(A) + e(zero) + e(zero), e(A) + e(x) + e(y)) == 1;
    SameSuffix(e(A) + e(zero), e(y), e(zero));
  }

  lemma SameSuffix(s: seq<int>, x: seq<int>, y: seq<int>)
    requires s + x == s + y
    ensures x == y
  {
    assert x == (s + x)[|s|..] && y == (s + y)[|s|..];
  }

  /** check_tx_proof accepts all that generate_tx_proof makes about A, whatever the hash,
      the message and the secrets, exactly when A lies in the subgroup of prime order. */
  lemma HonestExact<P(!new)>(c: Curve<P>, A: P)
    requires Valid(c)
    ensures AlwaysAccepted(c, A) <==> InSubgroup(c, A)
  {
    if InSubgroup(c, A) {
      forall hash: seq<int> -> nat, msg: seq<int>, r: nat, k: nat ensures Honest(c.(hash := hash), msg, r, A, k) {
        ValidAnyHash(c, hash, A);
        TxProofComplete(c.(hash := hash), msg, r, A, k);
      }
    } else if AlwaysAccepted(c, A) {
      var e, zero := c.encode, c.group.zero;
      var hash: seq<int> -> nat := b => Probe(e(A) + e(zero) + e(zero), b);
      ValidAnyHash(c, hash, A);
      assert Honest(c.(hash := hash), [], 1, A, 0);
      assert Probes(c.(hash := hash), A);
      ProbeDecides(c.(hash := hash), A);
    }
  }
}
