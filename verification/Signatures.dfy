/** The CryptoNote signatures of crypto.cpp. Randomness is a parameter; the hash and
    the map to the curve are arbitrary functions of the curve description. */
module Signatures {
  import opened Wrappers
  import opened Numbers
  import opened Group
  import opened Ed25519
  import opened ScalarMult

  datatype Signature = Signature(c: nat, r: nat)

  /** sc_check */
  predicate Reduced(s: Signature) { s.c < ORDER && s.r < ORDER }

  ghost function MulG<P>(c: Curve<P>, n: int): P { Mul(c.group, n, c.G) }

  // ---------------------------------------------------------------- single key

  ghost function Commitment<P>(c: Curve<P>, p: P, s: Signature): seq<int> {
    c.encode(Combo(c.group, s.c, p, s.r, c.G))
  }

  ghost predicate Accepts<P>(c: Curve<P>, h: seq<int>, pub: seq<int>, s: Signature) {
    && c.decode(pub).Some? && Reduced(s)
    && c.hash(h + pub + Commitment(c, c.decode(pub).value, s)) % ORDER == s.c
  }

  lemma SubIsZero(x: int, y: int)
    requires 0 <= y < ORDER
    ensures (x % ORDER - y) % ORDER == 0 <==> x % ORDER == y
  {
  }

  /** How every check ends: hash the buffer, subtract, compare with zero. */
  method ChallengeMatches<P>(c: Curve<P>, buf: seq<int>, expected: nat) returns (ok: bool)
    requires expected < ORDER
    ensures ok <==> c.hash(buf) % ORDER == expected
  {
    var hs := c.hash(buf) % ORDER;
    SubIsZero(hs, expected);
    ok := (hs - expected) % ORDER == 0;
  }

  /** generate_signature, with k the random scalar. */
  method GenerateSignature<P(!new)>(c: Curve<P>, h: seq<int>, pub: seq<int>, sec: nat, k: nat) returns (s: Signature)
    requires Valid(c) && sec < ORDER && k < ORDER
    ensures s.c == c.hash(h + pub + c.encode(MulG(c, k))) % ORDER
    ensures s.r == MulSub(s.c, sec, k)
  {
    hide Abelian, Point, BaseTable, OddMultiples, Mul, MulSub;
    var point := GeScalarMultBase(c.group, Bytes(k), c.base, c.G);
    var challenge := c.hash(h + pub + c.encode(point)) % ORDER;
    s := Signature(challenge, MulSub(challenge, sec, k));
  }

  /** check_signature */
  method CheckSignature<P(!new)>(c: Curve<P>, h: seq<int>, pub: seq<int>, s: Signature) returns (ok: bool)
    requires Valid(c)
    ensures ok <==> Accepts(c, h, pub, s)
  {
    hide Abelian, Point, BaseTable, OddMultiples, Mul;
    var p := c.decode(pub);
    if p.None? || s.c >= ORDER || s.r >= ORDER {
      return false;
    }
    var point := DoubleScalarMultPrecomp(c.group, Bytes(s.c), p.value, Bytes(s.r), c.baseOdd, c.G);
    ok := ChallengeMatches(c, h + pub + c.encode(point), s.c);
  }

  /** Every signature made with the key of pub is accepted. */
  lemma SignatureComplete<P(!new)>(c: Curve<P>, h: seq<int>, sec: nat, k: nat, s: Signature)
    requires Valid(c)
    requires s.c == c.hash(h + c.encode(MulG(c, sec)) + c.encode(MulG(c, k))) % ORDER
    requires s.r == MulSub(s.c, sec, k)
    ensures Accepts(c, h, c.encode(MulG(c, sec)), s)
  {
    assert Point(c, MulG(c, sec));
    Response(c, s.c, sec, k, s.r, c.G);
  }

  /** What the check hashes is the prefix, the key and c P + r G, and it compares that hash with c:
      a hash that is c on these bytes alone is accepted, one that is c on all others is not. */
  lemma SignatureDecides<P(!new)>(c: Curve<P>, h: seq<int>, pub: seq<int>, p: P, s: Signature)
    requires c.decode(pub) == Some(p) && Reduced(s)
    ensures var g := c.group; var e := h + pub + c.encode(g.add(Mul(g, s.c, p), Mul(g, s.r, c.G)));
      && Accepts(c.(hash := b => if b == e then s.c else s.c + 1), h, pub, s)
      && !Accepts(c.(hash := b => if b == e then s.c + 1 else s.c), h, pub, s)
  {
    hide Mul;
    NextResidue(s.c);
  }

  lemma NextResidue(n: nat)
    ensures n % ORDER != (n + 1) % ORDER && (n < ORDER ==> n % ORDER == n)
  {
    var q, r := n / ORDER, n % ORDER;
    if r + 1 < ORDER {
      DivModUnique(n + 1, ORDER, q, r + 1);
    } else {
      DivModUnique(n + 1, ORDER, q + 1, 0);
    }
  }

  /** Neither half may be replaced by another number of the same residue. */
  lemma SignatureReduced<P>(c: Curve<P>, h: seq<int>, pub: seq<int>, s: Signature)
    ensures !Accepts(c, h, pub, Signature(s.c + ORDER, s.r)) && !Accepts(c, h, pub, Signature(s.c, s.r + ORDER))
  {
  }

  /** c P + r G == c' P + r' G */
  lemma SameCombo<P(!new)>(g: Group<P>, n: int, p: P, r: int, q: P, n': int, r': int)
    requires Abelian(g) && Combo(g, n, p, r, q) == Combo(g, n', p, r', q)
    ensures Mul(g, n - n', p) == Mul(g, r' - r, q)
  {
    hide Abelian, Mul;
    ComboAdd(g, n, p, r, q, -n', -r);
    ComboAdd(g, n', p, r', q, -n', -r);
    MulZeroTimes(g, p);
    MulZeroTimes(g, q);
    ZeroAdds(g, Mul(g, n - n', p));
    ZeroAdds(g, Mul(g, r' - r, q));
  }

  lemma MulZeroTimes<P>(g: Group<P>, p: P)
    ensures Mul(g, 0, p) == g.zero
  {
  }

  lemma ZeroAdds<P(!new)>(g: Group<P>, x: P)
    requires Abelian(g)
    ensures g.add(x, g.zero) == x && g.add(g.zero, x) == x
  {
    assert Neutral(g, x) && Commutative(g, x, g.zero);
  }

  lemma SameEncoding<P(!new)>(c: Curve<P>, x: P, y: P)
    requires Valid(c) && c.encode(x) == c.encode(y)
    ensures x == y
  {
    assert Point(c, x) && Point(c, y);
  }

  /** Special soundness: two signatures with one commitment that are accepted under different
      challenges give the secret: (c - c') P == (r' - r) G. */
  lemma SignatureSound<P(!new)>(c: Curve<P>, hash': seq<int> -> nat, h: seq<int>, pub: seq<int>, p: P, s: Signature,
      s': Signature)
    requires Valid(c) && c.decode(pub) == Some(p) && Commitment(c, p, s) == Commitment(c, p, s')
    requires Accepts(c, h, pub, s) && Accepts(c.(hash := hash'), h, pub, s')
    ensures s.c == c.hash(h + pub + Commitment(c, p, s)) % ORDER
    ensures s'.c == hash'(h + pub + Commitment(c, p, s)) % ORDER
    ensures Mul(c.group, s.c - s'.c, p) == Mul(c.group, s'.r - s.r, c.G)
  {
    SameEncoding(c, Combo(c.group, s.c, p, s.r, c.G), Combo(c.group, s'.c, p, s'.r, c.G));
    SameCombo(c.group, s.c, p, s.r, c.G, s'.c, s'.r);
  }

  // ---------------------------------------------------------------- rings

  ghost function DecodeOr<P>(c: Curve<P>, b: seq<int>): P {
    if c.decode(b).Some? then c.decode(b).value else c.group.zero
  }

  /** The pair of commitments one ring member contributes to the hashed buffer. */
  ghost function Entry<P>(c: Curve<P>, image: P, pub: seq<int>, s: Signature): seq<int> {
    c.encode(Combo(c.group, s.c, DecodeOr(c, pub), s.r, c.G))
      + c.encode(Combo(c.group, s.r, HashToEc(c, pub), s.c, image))
  }

  ghost function Buffer<P>(c: Curve<P>, h: seq<int>, image: P, pubs: seq<seq<int>>, sigs: seq<Signature>,
      n: nat): seq<int>
    requires n <= |pubs| && n <= |sigs|
  {
    if n == 0 then h else Buffer(c, h, image, pubs, sigs, n - 1) + Entry(c, image, pubs[n - 1], sigs[n - 1])
  }

  ghost function ChallengeSum(sigs: seq<Signature>, n: nat): nat
    requires n <= |sigs|
  {
    if n == 0 then 0 else ChallengeSum(sigs, n - 1) + sigs[n - 1].c
  }

  ghost predicate RingAccepts<P>(c: Curve<P>, h: seq<int>, image: seq<int>, pubs: seq<seq<int>>, sigs: seq<Signature>)
    requires |sigs| == |pubs|
  {
    && c.decode(image).Some?
    && (forall i :: 0 <= i < |pubs| ==> Reduced(sigs[i]) && c.decode(pubs[i]).Some?)
    && c.hash(Buffer(c, h, c.decode(image).value, pubs, sigs, |pubs|)) % ORDER == ChallengeSum(sigs, |pubs|) % ORDER
  }

  lemma BufferNext<P>(c: Curve<P>, h: seq<int>, image: P, pubs: seq<seq<int>>, s: seq<Signature>, n: nat)
    requires n <= |pubs| && n <= |s|
    ensures Buffer(c, h, image, pubs, s, n) ==
      if n == 0 then h else Buffer(c, h, image, pubs, s, n - 1) + Entry(c, image, pubs[n - 1], s[n - 1])
  {
  }

  /** The buffer is the prefix and then 64 bytes for each member. */
  lemma {:induction false} BufferLayout<P(!new)>(c: Curve<P>, h: seq<int>, image: P, pubs: seq<seq<int>>,
      s: seq<Signature>, n: nat, i: nat)
    requires Valid(c) && n <= |pubs| && n <= |s|
    ensures var b := Buffer(c, h, image, pubs, s, n);
      && |b| == |h| + 64 * n && b[..|h|] == h
      && (i < n ==> b[|h| + 64 * i..|h| + 64 * i + 64] == Entry(c, image, pubs[i], s[i]))
    decreases n
  {
    hide *;
    BufferNext(c, h, image, pubs, s, n);
    if n > 0 {
      BufferLayout(c, h, image, pubs, s, n - 1, i);
      EntryHalves(c, image, pubs[n - 1], s[n - 1]);
      var b := Buffer(c, h, image, pubs, s, n - 1);
      var e := Entry(c, image, pubs[n - 1], s[n - 1]);
      Behind(b, e, |h|);
      if i < n - 1 {
        Behind(b, e, |h| + 64 * i);
      }
    }
  }

  /** Slices of b + e inside b, and the one that is e. */
  lemma Behind(b: seq<int>, e: seq<int>, at: nat)
    requires |e| == 64 && at <= |b|
    ensures (b + e)[..at] == b[..at] && (b + e)[|b|..|b| + 64] == e
    ensures at + 64 <= |b| ==> (b + e)[at..at + 64] == b[at..at + 64]
  {
  }

  /** The hashed bytes of a member: c P + r G before r Hp(P) + c I. */
  lemma RingLayout<P(!new)>(c: Curve<P>, h: seq<int>, image: P, pubs: seq<seq<int>>, s: seq<Signature>, i: nat, p: P)
    requires Valid(c) && i < |pubs| == |s| && c.decode(pubs[i]) == Some(p)
    ensures var g, b, at := c.group, Buffer(c, h, image, pubs, s, |s|), |h| + 64 * i;
      && |b| == |h| + 64 * |s| && b[..|h|] == h
      && b[at..at + 32] == c.encode(g.add(Mul(g, s[i].c, p), Mul(g, s[i].r, c.G)))
      && b[at + 32..at + 64] == c.encode(g.add(Mul(g, s[i].r, HashToEc(c, pubs[i])), Mul(g, s[i].c, image)))
  {
    BufferLayout(c, h, image, pubs, s, |s|, i);
    EntryHalves(c, image, pubs[i], s[i]);
    hide Buffer, Valid, Mul, HashToEc, Entry;
    Halved(Buffer(c, h, image, pubs, s, |s|), |h| + 64 * i);
  }

  lemma Halved(b: seq<int>, at: nat)
    requires at + 64 <= |b|
    ensures b[at..at + 64][..32] == b[at..at + 32] && b[at..at + 64][32..] == b[at + 32..at + 64]
  {
  }

  lemma EntryHalves<P(!new)>(c: Curve<P>, image: P, pub: seq<int>, s: Signature)
    requires Valid(c)
    ensures var e := Entry(c, image, pub, s);
      && |e| == 64
      && e[..32] == c.encode(Combo(c.group, s.c, DecodeOr(c, pub), s.r, c.G))
      && e[32..] == c.encode(Combo(c.group, s.r, HashToEc(c, pub), s.c, image))
  {
    assert Point(c, Combo(c.group, s.c, DecodeOr(c, pub), s.r, c.G));
    assert Point(c, Combo(c.group, s.r, HashToEc(c, pub), s.c, image));
    hide Valid, Combo, DecodeOr, HashToEc;
  }

  /** Every member's scalars are reduced and its key decodes, and so does the image. */
  ghost predicate WellFormed<P>(c: Curve<P>, image: seq<int>, pubs: seq<seq<int>>, s: seq<Signature>) {
    && |pubs| == |s| && c.decode(image).Some?
    && forall i :: 0 <= i < |pubs| ==> s[i].c < ORDER && s[i].r < ORDER && c.decode(pubs[i]).Some?
  }

  /** A ring is accepted exactly when it is well formed and the hash of its buffer is the sum of
      its challenges: with every hash of another residue it is refused. */
  lemma RingDecides<P(!new)>(c: Curve<P>, h: seq<int>, image: seq<int>, pubs: seq<seq<int>>, s: seq<Signature>, v: nat)
    requires |pubs| == |s|
    ensures RingAccepts(c.(hash := b => v), h, image, pubs, s)
      <==> WellFormed(c, image, pubs, s) && v % ORDER == ChallengeSum(s, |s|) % ORDER
    ensures exists hash: seq<int> -> nat :: !RingAccepts(c.(hash := hash), h, image, pubs, s)
  {
    hide Buffer;
    var bad := ChallengeSum(s, |s|) + 1;
    NextResidue(ChallengeSum(s, |s|));
    var hash: seq<int> -> nat := b => bad;
    assert !RingAccepts(c.(hash := hash), h, image, pubs, s);
  }

  /** The hash is taken of the buffer laid out above: one that is right there alone is enough. */
  lemma RingHashes<P(!new)>(c: Curve<P>, h: seq<int>, image: seq<int>, pubs: seq<seq<int>>, s: seq<Signature>)
    requires WellFormed(c, image, pubs, s)
    ensures var e := Buffer(c, h, c.decode(image).value, pubs, s, |s|); var sum := ChallengeSum(s, |s|);
      && RingAccepts(c.(hash := b => if b == e then sum else sum + 1), h, image, pubs, s)
      && !RingAccepts(c.(hash := b => if b == e then sum + 1 else sum), h, image, pubs, s)
  {
    var sum := ChallengeSum(s, |s|);
    var e := Buffer(c, h, c.decode(image).value, pubs, s, |s|);
    NextResidue(sum);
    BufferAnyHash(c, b => if b == e then sum else sum + 1, h, c.decode(image).value, pubs, s, |s|);
    BufferAnyHash(c, b => if b == e then sum + 1 else sum, h, c.decode(image).value, pubs, s, |s|);
    hide Buffer, ChallengeSum;
  }

  lemma {:induction false} BufferAnyHash<P(!new)>(c: Curve<P>, hash: seq<int> -> nat, h: seq<int>, image: P,
      pubs: seq<seq<int>>, s: seq<Signature>, n: nat)
    requires n <= |pubs| && n <= |s|
    ensures Buffer(c.(hash := hash), h, image, pubs, s, n) == Buffer(c, h, image, pubs, s, n)
  {
    if n > 0 {
      BufferAnyHash(c, hash, h, image, pubs, s, n - 1);
    }
  }

  /** Every member's challenge counts once: none gives nothing, and one more is one more. */
  lemma {:induction false} ChallengeCounts(s: seq<Signature>, n: nat, i: nat, d: nat)
    requires i < n <= |s|
    ensures ChallengeSum(s, 0) == 0
    ensures ChallengeSum(s[i := Signature(s[i].c + d, s[i].r)], n) == ChallengeSum(s, n) + d
  {
    var t := s[i := Signature(s[i].c + d, s[i].r)];
    if i < n - 1 {
      ChallengeCounts(s, n - 1, i, d);
    } else {
      SumBelow(s, t, n - 1);
    }
  }

  lemma {:induction false} SumBelow(s: seq<Signature>, t: seq<Signature>, n: nat)
    requires n <= |s| && n <= |t| && forall j :: 0 <= j < n ==> s[j] == t[j]
    ensures ChallengeSum(s, n) == ChallengeSum(t, n)
  {
    if n > 0 {
      SumBelow(s, t, n - 1);
    }
  }

  /** Different sums differ in some member's challenge. */
  lemma {:induction false} SomeChallenge(s: seq<Signature>, s': seq<Signature>, n: nat) returns (i: nat)
    requires n <= |s| && n <= |s'| && ChallengeSum(s, n) != ChallengeSum(s', n)
    ensures i < n && s[i].c != s'[i].c
  {
    if s[n - 1].c != s'[n - 1].c {
      i := n - 1;
    } else {
      i := SomeChallenge(s, s', n - 1);
    }
  }

  /** Special soundness: two signatures with one commitment buffer that are accepted under hashes
      of different residue on it give a member's secret, for its key and for the image alike:
      (c - c') P == (r' - r) G and (c - c') I == (r' - r) Hp(P). */
  lemma RingSound<P(!new)>(c: Curve<P>, hash': seq<int> -> nat, h: seq<int>, image: seq<int>, pubs: seq<seq<int>>,
      s: seq<Signature>, s': seq<Signature>) returns (i: nat)
    requires Valid(c) && |pubs| == |s| == |s'|
    requires RingAccepts(c, h, image, pubs, s) && RingAccepts(c.(hash := hash'), h, image, pubs, s')
    requires var I := c.decode(image).value; var b := Buffer(c, h, I, pubs, s, |s|);
      b == Buffer(c, h, I, pubs, s', |s|) && c.hash(b) % ORDER != hash'(b) % ORDER
    ensures i < |pubs| && s[i].c != s'[i].c && c.decode(pubs[i]).Some? && c.decode(image).Some?
    ensures var g, n, r := c.group, s[i].c - s'[i].c, s'[i].r - s[i].r;
      && Mul(g, n, c.decode(pubs[i]).value) == Mul(g, r, c.G)
      && Mul(g, n, c.decode(image).value) == Mul(g, r, HashToEc(c, pubs[i]))
  {
    hide *;
    RingWellFormed(c, h, image, pubs, s);
    var I := c.decode(image).value;
    RingSums(c, hash', h, image, pubs, s, s');
    i := SomeChallenge(s, s', |s|);
    SameMembers(c, h, I, pubs, s, s', i);
    MemberSound(c, c.decode(pubs[i]).value, HashToEc(c, pubs[i]), I, s[i], s'[i]);
  }

  lemma RingWellFormed<P(!new)>(c: Curve<P>, h: seq<int>, image: seq<int>, pubs: seq<seq<int>>, s: seq<Signature>)
    requires |pubs| == |s| && RingAccepts(c, h, image, pubs, s)
    ensures c.decode(image).Some? && forall i :: 0 <= i < |pubs| ==> c.decode(pubs[i]).Some?
  {
  }

  lemma RingSums<P(!new)>(c: Curve<P>, hash': seq<int> -> nat, h: seq<int>, image: seq<int>, pubs: seq<seq<int>>,
      s: seq<Signature>, s': seq<Signature>)
    requires |pubs| == |s| == |s'|
    requires RingAccepts(c, h, image, pubs, s) && RingAccepts(c.(hash := hash'), h, image, pubs, s')
    requires var I := c.decode(image).value; var b := Buffer(c, h, I, pubs, s, |s|);
      b == Buffer(c, h, I, pubs, s', |s|) && c.hash(b) % ORDER != hash'(b) % ORDER
    ensures ChallengeSum(s, |s|) != ChallengeSum(s', |s|)
  {
    BufferAnyHash(c, hash', h, c.decode(image).value, pubs, s', |s|);
    hide Buffer, ChallengeSum, Reduced;
  }

  /** Equal buffers have equal commitments. */
  lemma SameMembers<P(!new)>(c: Curve<P>, h: seq<int>, I: P, pubs: seq<seq<int>>, s: seq<Signature>,
      s': seq<Signature>, i: nat)
    requires Valid(c) && |pubs| == |s| == |s'| && i < |s| && c.decode(pubs[i]).Some?
    requires Buffer(c, h, I, pubs, s, |s|) == Buffer(c, h, I, pubs, s', |s|)
    ensures var g, p, q := c.group, c.decode(pubs[i]).value, HashToEc(c, pubs[i]);
      && c.encode(Combo(g, s[i].c, p, s[i].r, c.G)) == c.encode(Combo(g, s'[i].c, p, s'[i].r, c.G))
      && c.encode(Combo(g, s[i].r, q, s[i].c, I)) == c.encode(Combo(g, s'[i].r, q, s'[i].c, I))
  {
    RingLayout(c, h, I, pubs, s, i, c.decode(pubs[i]).value);
    RingLayout(c, h, I, pubs, s', i, c.decode(pubs[i]).value);
    hide Buffer, Valid, Mul, HashToEc;
  }

  lemma MemberSound<P(!new)>(c: Curve<P>, p: P, q: P, I: P, s: Signature, s': Signature)
    requires Valid(c)
    requires c.encode(Combo(c.group, s.c, p, s.r, c.G)) == c.encode(Combo(c.group, s'.c, p, s'.r, c.G))
    requires c.encode(Combo(c.group, s.r, q, s.c, I)) == c.encode(Combo(c.group, s'.r, q, s'.c, I))
    ensures Mul(c.group, s.c - s'.c, p) == Mul(c.group, s'.r - s.r, c.G)
    ensures Mul(c.group, s.c - s'.c, I) == Mul(c.group, s'.r - s.r, q)
  {
    assert Abelian(c.group);
    SameEncoding(c, Combo(c.group, s.c, p, s.r, c.G), Combo(c.group, s'.c, p, s'.r, c.G));
    SameEncoding(c, Combo(c.group, s.r, q, s.c, I), Combo(c.group, s'.r, q, s'.c, I));
    hide Valid;
    SameCombo(c.group, s.c, p, s.r, c.G, s'.c, s'.r);
    SameCombo(c.group, s'.r, q, s'.c, I, s.r, s.c);
  }

  /** No member's half may be replaced by another number of the same residue. */
  lemma RingReduced<P>(c: Curve<P>, h: seq<int>, image: seq<int>, pubs: seq<seq<int>>, s: seq<Signature>, i: nat)
    requires |pubs| == |s| && i < |s|
    ensures !RingAccepts(c, h, image, pubs, s[i := Signature(s[i].c + ORDER, s[i].r)])
    ensures !RingAccepts(c, h, image, pubs, s[i := Signature(s[i].c, s[i].r + ORDER)])
  {
    hide Buffer, ChallengeSum;
    var t, u := s[i := Signature(s[i].c + ORDER, s[i].r)], s[i := Signature(s[i].c, s[i].r + ORDER)];
    assert !Reduced(t[i]) && !Reduced(u[i]);
  }

  /** One member's commitments, as both loops compute them. */
  method RingEntry<P(!new)>(c: Curve<P>, p: P, pub: seq<int>, s: Signature, pre: seq<P>, ghost image: P)
      returns (ab: seq<int>)
    requires Valid(c) && Reduced(s) && OddMultiples(c.group, image, pre)
    requires c.decode(pub) == Some(p)
    ensures ab == Entry(c, image, pub, s)
  {
    var cc, rr := Bytes(s.c), Bytes(s.r);
    var a := DoubleScalarMultPrecomp(c.group, cc, p, rr, c.baseOdd, c.G);
    var hp := HashToEc(c, pub);
    var b := DoubleScalarMultPrecomp(c.group, rr, hp, cc, pre, image);
    ab := c.encode(a) + c.encode(b);
  }

  lemma AddMod(x: int, y: int)
    ensures (x % ORDER + y) % ORDER == (x + y) % ORDER
  {
    var q := x / ORDER;
    assert x + y == q * ORDER + (x % ORDER + y);
    var r := (x % ORDER + y) / ORDER;
    DivModUnique(x + y, ORDER, q + r, (x % ORDER + y) % ORDER);
  }

  lemma SumStep(s: seq<Signature>, n: nat)
    requires n < |s|
    ensures ChallengeSum(s, n + 1) % ORDER == (ChallengeSum(s, n) % ORDER + s[n].c) % ORDER
  {
    AddMod(ChallengeSum(s, n), s[n].c);
  }

  /** The body of the checking loop: reject, or extend the buffer and the sum. */
  method CheckMember<P(!new)>(c: Curve<P>, pub: seq<int>, s: Signature, pre: seq<P>, buf: seq<int>, sum: nat,
      ghost image: P)
      returns (ok: bool, buf': seq<int>, sum': nat)
    requires Valid(c) && OddMultiples(c.group, image, pre)
    ensures ok <==> Reduced(s) && c.decode(pub).Some?
    ensures ok ==> buf' == buf + Entry(c, image, pub, s) && sum' == (sum + s.c) % ORDER
  {
    ok, buf', sum' := false, buf, sum;
    if s.c >= ORDER || s.r >= ORDER {
      return;
    }
    var p := c.decode(pub);
    if p.None? {
      return;
    }
    var ab := RingEntry(c, p.value, pub, s, pre, image);
    ok, buf', sum' := true, buf + ab, (sum + s.c) % ORDER;
  }

  /** The checking loop after n members. */
  ghost predicate Checked<P>(c: Curve<P>, h: seq<int>, image: P, pubs: seq<seq<int>>, s: seq<Signature>, n: nat,
      buf: seq<int>, sum: nat)
    requires n <= |pubs| == |s|
  {
    && (forall j :: 0 <= j < n ==> Reduced(s[j]) && c.decode(pubs[j]).Some?)
    && buf == Buffer(c, h, image, pubs, s, n)
    && sum == ChallengeSum(s, n) % ORDER
  }

  lemma CheckedStep<P>(c: Curve<P>, h: seq<int>, image: P, pubs: seq<seq<int>>, s: seq<Signature>, n: nat,
      buf: seq<int>, sum: nat)
    requires n < |pubs| == |s| && Checked(c, h, image, pubs, s, n, buf, sum)
    requires Reduced(s[n]) && c.decode(pubs[n]).Some?
    ensures Checked(c, h, image, pubs, s, n + 1, buf + Entry(c, image, pubs[n], s[n]), (sum + s[n].c) % ORDER)
  {
    SumStep(s, n);
  }

  /** The loop of check_ring_signature. */
  method CheckMembers<P(!new)>(c: Curve<P>, h: seq<int>, pubs: seq<seq<int>>, s: seq<Signature>, pre: seq<P>,
      ghost image: P)
      returns (ok: bool, buf: seq<int>, sum: nat)
    requires Valid(c) && |s| == |pubs| && OddMultiples(c.group, image, pre)
    ensures ok ==> Checked(c, h, image, pubs, s, |pubs|, buf, sum)
    ensures !ok ==> exists j :: 0 <= j < |pubs| && !(Reduced(s[j]) && c.decode(pubs[j]).Some?)
  {
    hide Valid, OddMultiples, Entry, Reduced;
    ok, buf, sum := true, h, 0;
    var i := 0;
    while ok && i < |pubs|
      invariant i <= |pubs|
      invariant if ok then Checked(c, h, image, pubs, s, i, buf, sum)
                else exists j :: 0 <= j < |pubs| && !(Reduced(s[j]) && c.decode(pubs[j]).Some?)
      decreases |pubs| - i, ok
    {
      ghost var buf0, sum0 := buf, sum;
      ok, buf, sum := CheckMember(c, pubs[i], s[i], pre, buf, sum, image);
      if ok {
        CheckedStep(c, h, image, pubs, s, i, buf0, sum0);
      }
      i := i + 1;
    }
  }

  /** check_ring_signature */
  method CheckRingSignature<P(!new)>(c: Curve<P>, h: seq<int>, image: seq<int>, pubs: seq<seq<int>>, s: seq<Signature>)
    returns (ok: bool)
    requires Valid(c) && |s| == |pubs|
    ensures ok <==> RingAccepts(c, h, image, pubs, s)
  {
    var I := c.decode(image);
    if I.None? {
      return false;
    }
    var pre := DsmPrecomp(c.group, I.value);
    var buf, sum;
    ok, buf, sum := CheckMembers(c, h, pubs, s, pre[..], I.value);
    if ok {
      ok := ChallengeMatches(c, buf, sum);
    }
  }

  // ---------------------------------------------------------------- making a ring signature

  /** What the signer's own slot contributes: commitments to the nonce k. */
  ghost function SignerEntry<P>(c: Curve<P>, pub: seq<int>, k: nat): seq<int> {
    c.encode(MulG(c, k)) + c.encode(Mul(c.group, k, HashToEc(c, pub)))
  }

  /** The buffer and challenge sum of the generating loop after n members. */
  ghost function SignerBuffer<P>(c: Curve<P>, h: seq<int>, image: P, pubs: seq<seq<int>>, rand: seq<Signature>,
      sec: nat, k: nat, n: nat): seq<int>
    requires n <= |pubs| && n <= |rand|
  {
    if n == 0 then h
    else
      var entry := if n - 1 == sec then SignerEntry(c, pubs[n - 1], k) else Entry(c, image, pubs[n - 1], rand[n - 1]);
      SignerBuffer(c, h, image, pubs, rand, sec, k, n - 1) + entry
  }

  ghost function SignerSum(rand: seq<Signature>, sec: nat, n: nat): nat
    requires n <= |rand|
  {
    if n == 0 then 0 else SignerSum(rand, sec, n - 1) + if n - 1 == sec then 0 else rand[n - 1].c
  }

  /** The signer's own challenge and response, closing the ring. */
  ghost function Closing<P>(c: Curve<P>, h: seq<int>, image: P, pubs: seq<seq<int>>, rand: seq<Signature>, x: nat,
      sec: nat, k: nat): Signature
    requires |pubs| == |rand|
  {
    var hs := c.hash(SignerBuffer(c, h, image, pubs, rand, sec, k, |pubs|)) % ORDER;
    var ch := (hs - SignerSum(rand, sec, |pubs|) % ORDER) % ORDER;
    Signature(ch, MulSub(ch, x, k))
  }

  /** The body of the generating loop at the signer's index. */
  method SignerStep<P(!new)>(c: Curve<P>, pub: seq<int>, k: nat) returns (ab: seq<int>)
    requires Valid(c) && k < ORDER
    ensures ab == SignerEntry(c, pub, k)
  {
    hide Abelian, Point, BaseTable, OddMultiples, Mul;
    var a := GeScalarMultBase(c.group, Bytes(k), c.base, c.G);
    var b := GeScalarMult(c.group, Bytes(k), HashToEc(c, pub));
    ab := c.encode(a) + c.encode(b);
  }

  lemma SignerSumStep(rand: seq<Signature>, sec: nat, n: nat)
    requires n < |rand|
    ensures SignerSum(rand, sec, n + 1) % ORDER ==
      if n == sec then SignerSum(rand, sec, n) % ORDER else (SignerSum(rand, sec, n) % ORDER + rand[n].c) % ORDER
  {
    AddMod(SignerSum(rand, sec, n), rand[n].c);
  }

  /** The generating loop after n members: sig holds the drawn pairs so far. */
  ghost predicate Drawn<P>(c: Curve<P>, h: seq<int>, image: P, pubs: seq<seq<int>>, rand: seq<Signature>, sec: nat,
      k: nat, n: nat, buf: seq<int>, sum: nat, sig: seq<Signature>)
    requires n <= |pubs| == |rand| == |sig|
  {
    && (forall j :: 0 <= j < n && j != sec ==> sig[j] == rand[j] && c.decode(pubs[j]).Some?)
    && buf == SignerBuffer(c, h, image, pubs, rand, sec, k, n)
    && sum == SignerSum(rand, sec, n) % ORDER
  }

  lemma DrawnStep<P>(c: Curve<P>, h: seq<int>, image: P, pubs: seq<seq<int>>, rand: seq<Signature>, sec: nat,
      k: nat, n: nat, buf: seq<int>, sum: nat, sig: seq<Signature>)
    requires n < |pubs| == |rand| == |sig| && Drawn(c, h, image, pubs, rand, sec, k, n, buf, sum, sig)
    ensures n == sec ==>
      Drawn(c, h, image, pubs, rand, sec, k, n + 1, buf + SignerEntry(c, pubs[n], k), sum, sig)
    ensures n != sec && c.decode(pubs[n]).Some? ==>
      Drawn(c, h, image, pubs, rand, sec, k, n + 1, buf + Entry(c, image, pubs[n], rand[n]), (sum + rand[n].c) % ORDER,
          sig[n := rand[n]])
  {
    hide SignerEntry, Entry;
    SignerSumStep(rand, sec, n);
  }

  /** Every ring member but the signer has a decodable key. */
  ghost predicate OthersDecode<P>(c: Curve<P>, pubs: seq<seq<int>>, sec: nat) {
    forall j :: 0 <= j < |pubs| && j != sec ==> c.decode(pubs[j]).Some?
  }

  /** The generating loop; ok is false where the source aborts. */
  method DrawMembers<P(!new)>(c: Curve<P>, h: seq<int>, pubs: seq<seq<int>>, rand: seq<Signature>, sec: nat, k: nat,
      sig: array<Signature>, pre: seq<P>, ghost image: P)
      returns (ok: bool, buf: seq<int>, sum: nat)
    requires Valid(c) && |pubs| == |rand| == sig.Length && k < ORDER && OddMultiples(c.group, image, pre)
    requires forall j :: 0 <= j < |rand| ==> Reduced(rand[j])
    modifies sig
    ensures ok <==> OthersDecode(c, pubs, sec)
    ensures ok ==> Drawn(c, h, image, pubs, rand, sec, k, |pubs|, buf, sum, sig[..])
    ensures sum < ORDER
  {
    hide Valid, OddMultiples, Entry, SignerEntry, Reduced;
    ok, buf, sum := true, h, 0;
    var i := 0;
    while ok && i < |pubs|
      invariant i <= |pubs| && sum < ORDER
      invariant ok ==> Drawn(c, h, image, pubs, rand, sec, k, i, buf, sum, sig[..])
      invariant !ok ==> !OthersDecode(c, pubs, sec)
      decreases |pubs| - i, ok
    {
      DrawnStep(c, h, image, pubs, rand, sec, k, i, buf, sum, sig[..]);
      if i == sec {
        var ab := SignerStep(c, pubs[i], k);
        buf := buf + ab;
      } else {
        var p := c.decode(pubs[i]);
        ghost var was := sig[..];
        sig[i] := rand[i];
        assert sig[..] == was[i := rand[i]];
        if p.None? {
          ok := false;
        } else {
          var ab := RingEntry(c, p.value, pubs[i], rand[i], pre, image);
          buf, sum := buf + ab, (sum + rand[i].c) % ORDER;
        }
      }
      i := i + 1;
    }
  }

  /** generate_ring_signature, with rand and k the random scalars. */
  method GenerateRingSignature<P(!new)>(c: Curve<P>, h: seq<int>, image: seq<int>, pubs: seq<seq<int>>, x: nat,
      sec: nat, rand: seq<Signature>, k: nat, sig: array<Signature>)
      returns (ok: bool)
    requires Valid(c) && |pubs| == |rand| == sig.Length && sec < |pubs| && x < ORDER && k < ORDER
    requires forall j :: 0 <= j < |rand| ==> Reduced(rand[j])
    modifies sig
    ensures ok <==> c.decode(image).Some? && OthersDecode(c, pubs, sec)
    ensures ok ==> sig[..] == rand[sec := Closing(c, h, c.decode(image).value, pubs, rand, x, sec, k)]
  {
    var I := c.decode(image);
    if I.None? {
      return false;
    }
    hide Valid, OddMultiples, Reduced, SignerBuffer, SignerSum, OthersDecode, Drawn, Closing;
    var pre := Precomputed(c, I.value);
    var buf, sum;
    ok, buf, sum := DrawMembers(c, h, pubs, rand, sec, k, sig, pre, I.value);
    if ok {
      CloseRing(c, h, pubs, x, sec, rand, k, buf, sum, sig, I.value);
    }
  }

  /** The last three statements: the signer's challenge and response. */
  method CloseRing<P(!new)>(c: Curve<P>, h: seq<int>, pubs: seq<seq<int>>, x: nat, sec: nat, rand: seq<Signature>,
      k: nat, buf: seq<int>, sum: nat, sig: array<Signature>, ghost image: P)
    requires |pubs| == |rand| == sig.Length && sec < |pubs|
    requires Drawn(c, h, image, pubs, rand, sec, k, |pubs|, buf, sum, sig[..])
    modifies sig
    ensures sig[..] == rand[sec := Closing(c, h, image, pubs, rand, x, sec, k)]
  {
    hide SignerBuffer, SignerSum;
    var hs := c.hash(buf) % ORDER;
    var ch := (hs - sum) % ORDER;
    var s := Signature(ch, MulSub(ch, x, k));
    assert s == Closing(c, h, image, pubs, rand, x, sec, k);
    hide Closing;
    assert forall j :: 0 <= j < |rand| && j != sec ==> sig[..][j] == rand[j];
    sig[sec] := s;
    assert forall j :: 0 <= j < |rand| ==> sig[j] == rand[sec := s][j];
  }

  method Precomputed<P(!new)>(c: Curve<P>, p: P) returns (pre: seq<P>)
    requires Valid(c)
    ensures OddMultiples(c.group, p, pre)
  {
    var table := DsmPrecomp(c.group, p);
    pre := table[..];
  }

  /** With the right key and image, the signer's commitments are what the verifier recomputes. */
  lemma SignerEntryAgrees<P(!new)>(c: Curve<P>, x: nat, k: nat, s: Signature, pub: seq<int>, image: P)
    requires Valid(c) && pub == c.encode(MulG(c, x)) && image == Mul(c.group, x, HashToEc(c, pub))
    requires s.r == MulSub(s.c, x, k)
    ensures Entry(c, image, pub, s) == SignerEntry(c, pub, k)
  {
    assert Point(c, MulG(c, x));
    HashToEcInSubgroup(c, pub);
    assert InSubgroup(c, c.G);
    hide Valid, InSubgroup, HashToEc, Mul, Combo, MulSub;
    Response(c, s.c, x, k, s.r, c.G);
    Response(c, s.c, x, k, s.r, HashToEc(c, pub));
  }

  /** Putting the closing pair at the signer's index changes no other member. */
  lemma {:induction false} BuffersAgree<P>(c: Curve<P>, h: seq<int>, image: P, pubs: seq<seq<int>>,
      rand: seq<Signature>, sec: nat, k: nat, s: Signature, n: nat)
    requires n <= |pubs| == |rand| && sec < |pubs|
    requires Entry(c, image, pubs[sec], s) == SignerEntry(c, pubs[sec], k)
    ensures Buffer(c, h, image, pubs, rand[sec := s], n) == SignerBuffer(c, h, image, pubs, rand, sec, k, n)
    ensures ChallengeSum(rand[sec := s], n) == SignerSum(rand, sec, n) + if n > sec then s.c else 0
  {
    if n > 0 {
      BuffersAgree(c, h, image, pubs, rand, sec, k, s, n - 1);
    }
  }

  lemma ClosingSum(hs: int, sum: nat)
    requires 0 <= hs < ORDER
    ensures hs == (sum + (hs - sum % ORDER) % ORDER) % ORDER
  {
    AddMod(sum, (hs - sum % ORDER) % ORDER);
  }

  /** The closing pair makes the ring equation hold. */
  lemma RingEquationHolds<P>(c: Curve<P>, h: seq<int>, image: P, pubs: seq<seq<int>>, x: nat, sec: nat,
      rand: seq<Signature>, k: nat, s: Signature)
    requires |pubs| == |rand| && sec < |pubs|
    requires s == Closing(c, h, image, pubs, rand, x, sec, k)
    requires Entry(c, image, pubs[sec], s) == SignerEntry(c, pubs[sec], k)
    ensures Reduced(s)
    ensures c.hash(Buffer(c, h, image, pubs, rand[sec := s], |pubs|)) % ORDER
        == ChallengeSum(rand[sec := s], |pubs|) % ORDER
  {
    hide Entry, SignerEntry, Buffer, SignerBuffer, ChallengeSum, SignerSum;
    BuffersAgree(c, h, image, pubs, rand, sec, k, s, |pubs|);
    var hs := c.hash(SignerBuffer(c, h, image, pubs, rand, sec, k, |pubs|)) % ORDER;
    ClosingSum(hs, SignerSum(rand, sec, |pubs|));
  }

  lemma ClosingResponse<P>(c: Curve<P>, h: seq<int>, image: P, pubs: seq<seq<int>>, x: nat, sec: nat,
      rand: seq<Signature>, k: nat)
    requires |pubs| == |rand|
    ensures var s := Closing(c, h, image, pubs, rand, x, sec, k); s.r == MulSub(s.c, x, k)
  {
  }

  /** Completeness: for every ring size, signer index, nonces and hash, a signature
      made with the key of the signer's slot and its key image is accepted. */
  lemma RingComplete<P(!new)>(c: Curve<P>, h: seq<int>, image: seq<int>, pubs: seq<seq<int>>, x: nat, sec: nat,
      rand: seq<Signature>, k: nat)
    requires Valid(c) && |pubs| == |rand| && sec < |pubs|
    requires (forall j :: 0 <= j < |rand| ==> Reduced(rand[j])) && OthersDecode(c, pubs, sec)
    requires pubs[sec] == c.encode(MulG(c, x))
    requires image == c.encode(Mul(c.group, x, HashToEc(c, pubs[sec])))
    ensures c.decode(image).Some?
    ensures RingAccepts(c, h, image, pubs, rand[sec := Closing(c, h, c.decode(image).value, pubs, rand, x, sec, k)])
  {
    var I := Mul(c.group, x, HashToEc(c, pubs[sec]));
    assert Point(c, I) && Point(c, MulG(c, x));
    hide Valid, Mul, HashToEc, Entry, SignerEntry, Closing, Reduced;
    var s := Closing(c, h, I, pubs, rand, x, sec, k);
    ClosingResponse(c, h, I, pubs, x, sec, rand, k);
    SignerEntryAgrees(c, x, k, s, pubs[sec], I);
    RingEquationHolds(c, h, I, pubs, x, sec, rand, k, s);
  }
}
