/** tree_hash (tree-hash.c), over any hash of two nodes. */
module MerkleTree {
  import opened Numbers

  /** The counts tree_hash_cnt accepts. */
  const LIMIT := 0x1000_0000

  /** Two powers of two strictly below n and at least half of it are equal. */
  lemma TopPowerUnique(n: nat, p: nat, q: nat)
    requires PowerOfTwo(p) && PowerOfTwo(q) && p < n <= 2 * p && q < n <= 2 * q
    ensures p == q
  {
    if p < q {
      PowersApart(p, q);
    } else if q < p {
      PowersApart(q, p);
    }
  }

  /** The largest power of two strictly below n. */
  function TopPower(n: nat): (p: nat)
    requires n >= 2
    ensures PowerOfTwo(p) && p < n <= 2 * p
  {
    if n == 2 then 1 else 2 * TopPower((n + 1) / 2)
  }

  /** tree_hash_cnt */
  method TreeHashCnt(count: nat) returns (cnt: nat)
    requires 3 <= count <= LIMIT
    ensures cnt == TopPower(count) && 2 <= cnt
  {
    var pow := 2;
    while pow < count
      invariant 2 <= pow && PowerOfTwo(pow) && PowerOfTwo(pow / 2) && pow / 2 < count
      decreases count - pow
    {
      pow := pow * 2;
    }
    cnt := pow / 2;
    TopPowerUnique(count, cnt, TopPower(count));
  }

  /** One level up: neighbours are hashed in pairs. */
  function PairUp<T>(hash: (T, T) -> T, s: seq<T>): (t: seq<T>)
    requires |s| % 2 == 0
    ensures |t| == |s| / 2
  {
    seq(|s| / 2, i requires 0 <= i < |s| / 2 => hash(s[2 * i], s[2 * i + 1]))
  }

  /** The tree over a power of two of nodes, level by level from the bottom, as the
      source builds it. */
  function Levels<T>(hash: (T, T) -> T, s: seq<T>): T
    requires PowerOfTwo(|s|)
    decreases |s|
  {
    if |s| == 1 then s[0] else Levels(hash, PairUp(hash, s))
  }

  /** The same tree as Merkle trees are defined: the hash of the roots of the two halves. */
  function Root<T>(hash: (T, T) -> T, s: seq<T>): T
    requires PowerOfTwo(|s|)
    decreases |s|
  {
    if |s| == 1 then s[0] else hash(Root(hash, s[..|s| / 2]), Root(hash, s[|s| / 2..]))
  }

  lemma PairUpConcat<T>(hash: (T, T) -> T, lo: seq<T>, hi: seq<T>)
    requires |lo| % 2 == 0 && |hi| % 2 == 0
    ensures PairUp(hash, lo + hi) == PairUp(hash, lo) + PairUp(hash, hi)
  {
  }

  /** The level-by-level tree splits into the trees of the two halves. */
  lemma {:induction false} LevelsSplit<T>(hash: (T, T) -> T, lo: seq<T>, hi: seq<T>)
    requires |lo| == |hi| && PowerOfTwo(|lo|)
    ensures PowerOfTwo(|lo + hi|) && Levels(hash, lo + hi) == hash(Levels(hash, lo), Levels(hash, hi))
    decreases |lo|
  {
    if |lo| == 1 {
      assert PairUp(hash, lo + hi) == [hash(lo[0], hi[0])];
    } else {
      PairUpConcat(hash, lo, hi);
      hide PairUp;
      LevelsSplit(hash, PairUp(hash, lo), PairUp(hash, hi));
    }
  }

  /** Building by levels gives the root of the recursive definition. */
  lemma {:induction false} LevelsIsRoot<T>(hash: (T, T) -> T, s: seq<T>)
    requires PowerOfTwo(|s|)
    ensures Levels(hash, s) == Root(hash, s)
    decreases |s|
  {
    if |s| > 1 {
      var lo, hi := s[..|s| / 2], s[|s| / 2..];
      assert s == lo + hi;
      LevelsSplit(hash, lo, hi);
      LevelsIsRoot(hash, lo);
      LevelsIsRoot(hash, hi);
    }
  }

  /** The bottom level: the first 2 cnt - count leaves stay, the others pair up. */
  function Bottom<T>(hash: (T, T) -> T, s: seq<T>, cnt: nat): (t: seq<T>)
    requires cnt <= |s| <= 2 * cnt
    ensures |t| == cnt
  {
    s[..2 * cnt - |s|] + PairUp(hash, s[2 * cnt - |s|..])
  }

  /** The root of any non-empty list of leaves. */
  function TreeRoot<T>(hash: (T, T) -> T, s: seq<T>): T
    requires s != []
  {
    if |s| == 1 then s[0] else Root(hash, Bottom(hash, s, TopPower(|s|)))
  }

  /** The trees of two to six leaves: the left hand is the earlier one, and what does not fill a
      level is paired at the end. */
  lemma SmallTrees<T>(hash: (T, T) -> T, a: T, b: T, c: T, d: T, e: T, f: T)
    ensures TreeRoot(hash, [a]) == a && TreeRoot(hash, [a, b]) == hash(a, b)
    ensures TreeRoot(hash, [a, b, c]) == hash(a, hash(b, c))
    ensures TreeRoot(hash, [a, b, c, d]) == hash(hash(a, b), hash(c, d))
    ensures TreeRoot(hash, [a, b, c, d, e]) == hash(hash(a, b), hash(c, hash(d, e)))
    ensures TreeRoot(hash, [a, b, c, d, e, f]) == hash(hash(a, b), hash(hash(c, d), hash(e, f)))
  {
    SmallPowers();
    hide Bottom, Root, TopPower, PowerOfTwo;
    SmallBottoms(hash, a, b, c, d, e, f);
    RootOne(hash, hash(a, b));
    RootTwo(hash, a, hash(b, c));
    RootTwo(hash, hash(a, b), hash(c, d));
    RootFour(hash, a, b, c, hash(d, e));
    RootFour(hash, a, b, hash(c, d), hash(e, f));
  }

  lemma SmallPowers()
    ensures TopPower(2) == 1 && TopPower(3) == 2 && TopPower(4) == 2 && TopPower(5) == 4 && TopPower(6) == 4
  {
  }

  lemma SmallBottoms<T>(hash: (T, T) -> T, a: T, b: T, c: T, d: T, e: T, f: T)
    ensures Bottom(hash, [a, b], 1) == [hash(a, b)] && Bottom(hash, [a, b, c], 2) == [a, hash(b, c)]
    ensures Bottom(hash, [a, b, c, d], 2) == [hash(a, b), hash(c, d)]
    ensures Bottom(hash, [a, b, c, d, e], 4) == [a, b, c, hash(d, e)]
    ensures Bottom(hash, [a, b, c, d, e, f], 4) == [a, b, hash(c, d), hash(e, f)]
  {
  }

  lemma RootOne<T>(hash: (T, T) -> T, a: T)
    ensures Root(hash, [a]) == a
  {
  }

  lemma RootTwo<T>(hash: (T, T) -> T, a: T, b: T)
    ensures PowerOfTwo(2) && Root(hash, [a, b]) == hash(a, b)
  {
    assert [a, b][..1] == [a] && [a, b][1..] == [b];
  }

  lemma RootFour<T>(hash: (T, T) -> T, a: T, b: T, c: T, d: T)
    ensures PowerOfTwo(4) && Root(hash, [a, b, c, d]) == hash(hash(a, b), hash(c, d))
  {
    RootTwo(hash, a, b);
    RootTwo(hash, c, d);
    assert [a, b, c, d][..2] == [a, b] && [a, b, c, d][2..] == [c, d];
  }

  // ---------------------------------------------------------------- binding

  /** The pairs hashed above a power of two of nodes, and among the leaves. */
  ghost function RootPairs<T>(hash: (T, T) -> T, s: seq<T>): (ps: seq<(T, T)>)
    requires PowerOfTwo(|s|)
    decreases |s|
  {
    if |s| == 1 then []
    else
      var lo, hi := s[..|s| / 2], s[|s| / 2..];
      RootPairs(hash, lo) + RootPairs(hash, hi) + [(Root(hash, lo), Root(hash, hi))]
  }

  ghost function LeafPairs<T>(s: seq<T>): (ps: seq<(T, T)>)
    requires |s| % 2 == 0
  {
    seq(|s| / 2, i requires 0 <= i < |s| / 2 => (s[2 * i], s[2 * i + 1]))
  }

  ghost function BottomPairs<T>(s: seq<T>, cnt: nat): (ps: seq<(T, T)>)
    requires cnt <= |s| <= 2 * cnt
  {
    LeafPairs(s[2 * cnt - |s|..])
  }

  /** All the pairs hashed on the way to the root. */
  ghost function TreePairs<T>(hash: (T, T) -> T, s: seq<T>): (ps: seq<(T, T)>)
    requires s != []
  {
    if |s| == 1 then []
    else
      var cnt := TopPower(|s|);
      BottomPairs(s, cnt) + RootPairs(hash, Bottom(hash, s, cnt))
  }

  ghost predicate Collide<T>(hash: (T, T) -> T, p: (T, T), q: (T, T)) {
    p != q && hash(p.0, p.1) == hash(q.0, q.1)
  }

  ghost predicate Collision<T>(hash: (T, T) -> T, ps: seq<(T, T)>, qs: seq<(T, T)>) {
    exists i, j :: 0 <= i < |ps| && 0 <= j < |qs| && Collide(hash, ps[i], qs[j])
  }

  lemma CollisionInside<T>(hash: (T, T) -> T, ps: seq<(T, T)>, qs: seq<(T, T)>, before: seq<(T, T)>,
      before': seq<(T, T)>, after: seq<(T, T)>, after': seq<(T, T)>)
    requires Collision(hash, ps, qs)
    ensures Collision(hash, before + ps + after, before' + qs + after')
  {
    var i, j :| 0 <= i < |ps| && 0 <= j < |qs| && Collide(hash, ps[i], qs[j]);
    hide Collide;
    var us, vs := before + ps + after, before' + qs + after';
    assert us[|before| + i] == ps[i] && vs[|before'| + j] == qs[j];
  }

  lemma SingleEqual<T>(s: seq<T>, t: seq<T>)
    requires |s| == |t| == 1 && s[0] == t[0]
    ensures s == t
  {
  }

  lemma SingleRoots<T>(hash: (T, T) -> T, s: seq<T>, t: seq<T>)
    requires |s| == |t| == 1 && PowerOfTwo(1) && Root(hash, s) == Root(hash, t)
    ensures s == t
  {
    SingleEqual(s, t);
  }

  lemma PowerPositive(n: nat)
    requires PowerOfTwo(n)
    ensures n > 0
  {
  }

  lemma HalvesOf<T>(s: seq<T>)
    requires |s| > 1 && PowerOfTwo(|s|)
    ensures var n := |s| / 2; PowerOfTwo(n) && |s| == 2 * n && s == s[..n] + s[n..]
  {
  }

  lemma RootParts<T>(hash: (T, T) -> T, s: seq<T>)
    requires |s| > 1 && PowerOfTwo(|s|)
    ensures var n := |s| / 2; var lo, hi := s[..n], s[n..];
      && PowerOfTwo(n) && |s| == 2 * n && s == lo + hi && Root(hash, s) == hash(Root(hash, lo), Root(hash, hi))
      && RootPairs(hash, s) == RootPairs(hash, lo) + RootPairs(hash, hi) + [(Root(hash, lo), Root(hash, hi))]
  {
    HalvesOf(s);
    hide PowerOfTwo;
  }

  lemma LastPairs<T>(hash: (T, T) -> T, ps: seq<(T, T)>, qs: seq<(T, T)>, p: (T, T), q: (T, T))
    requires Collide(hash, p, q)
    ensures Collision(hash, ps + [p], qs + [q])
  {
    hide Collide;
    assert (ps + [p])[|ps|] == p && (qs + [q])[|qs|] == q;
  }

  lemma NodeCollision<T>(hash: (T, T) -> T, pl: seq<(T, T)>, ql: seq<(T, T)>, ph: seq<(T, T)>, qh: seq<(T, T)>,
      p: (T, T), q: (T, T))
    requires Collide(hash, p, q) || Collision(hash, pl, ql) || Collision(hash, ph, qh)
    ensures Collision(hash, pl + ph + [p], ql + qh + [q])
  {
    hide *;
    if Collide(hash, p, q) {
      LastPairs(hash, pl + ph, ql + qh, p, q);
    } else if Collision(hash, ph, qh) {
      CollisionInside(hash, ph, qh, pl, ql, [p], [q]);
    } else {
      CollisionInside(hash, pl, ql, [], [], ph + [p], qh + [q]);
      assert [] + pl + (ph + [p]) == pl + ph + [p] && [] + ql + (qh + [q]) == ql + qh + [q];
    }
  }

  /** Two trees over a power of two of nodes with one root differ in a colliding pair. */
  lemma {:induction false} RootCollision<T>(hash: (T, T) -> T, s: seq<T>, t: seq<T>)
    requires |s| == |t| && PowerOfTwo(|s|) && Root(hash, s) == Root(hash, t) && s != t
    ensures Collision(hash, RootPairs(hash, s), RootPairs(hash, t))
    decreases |s|
  {
    hide Root, RootPairs, Collision, PowerOfTwo;
    PowerPositive(|s|);
    if |s| == 1 {
      SingleRoots(hash, s, t);
      assert false;
    } else {
      var n := |s| / 2;
      RootParts(hash, s);
      RootParts(hash, t);
      var lo, hi, lo', hi' := s[..n], s[n..], t[..n], t[n..];
      var p, q := (Root(hash, lo), Root(hash, hi)), (Root(hash, lo'), Root(hash, hi'));
      if p == q {
        if lo != lo' {
          RootCollision(hash, lo, lo');
        } else {
          RootCollision(hash, hi, hi');
        }
      }
      NodeCollision(hash, RootPairs(hash, lo), RootPairs(hash, lo'), RootPairs(hash, hi), RootPairs(hash, hi'), p, q);
    }
  }

  lemma LeafCollision<T>(hash: (T, T) -> T, s: seq<T>, t: seq<T>)
    requires |s| == |t| && |s| % 2 == 0 && PairUp(hash, s) == PairUp(hash, t) && s != t
    ensures Collision(hash, LeafPairs(s), LeafPairs(t))
  {
    var i :| 0 <= i < |s| && s[i] != t[i];
    assert i == 2 * (i / 2) || i == 2 * (i / 2) + 1;
    assert PairUp(hash, s)[i / 2] == PairUp(hash, t)[i / 2];
    assert Collide(hash, LeafPairs(s)[i / 2], LeafPairs(t)[i / 2]);
  }

  lemma BottomCollision<T>(hash: (T, T) -> T, s: seq<T>, t: seq<T>, cnt: nat)
    requires |s| == |t| && cnt <= |s| <= 2 * cnt && Bottom(hash, s, cnt) == Bottom(hash, t, cnt) && s != t
    ensures Collision(hash, BottomPairs(s, cnt), BottomPairs(t, cnt))
  {
    var k := 2 * cnt - |s|;
    var bs, bt := Bottom(hash, s, cnt), Bottom(hash, t, cnt);
    assert s[..k] == bs[..k] == bt[..k] == t[..k];
    assert PairUp(hash, s[k..]) == bs[k..] == bt[k..] == PairUp(hash, t[k..]);
    hide PairUp, Bottom, LeafPairs, Collision;
    assert s == s[..k] + s[k..] && t == t[..k] + t[k..];
    LeafCollision(hash, s[k..], t[k..]);
  }

  /** The same with the bottom level below a power of two of nodes. */
  lemma LevelCollision<T>(hash: (T, T) -> T, s: seq<T>, t: seq<T>, cnt: nat)
    requires |s| == |t| && PowerOfTwo(cnt) && cnt <= |s| <= 2 * cnt && s != t
    requires Root(hash, Bottom(hash, s, cnt)) == Root(hash, Bottom(hash, t, cnt))
    ensures Collision(hash, BottomPairs(s, cnt) + RootPairs(hash, Bottom(hash, s, cnt)),
                      BottomPairs(t, cnt) + RootPairs(hash, Bottom(hash, t, cnt)))
  {
    hide *;
    var bs, bt := Bottom(hash, s, cnt), Bottom(hash, t, cnt);
    var ls, lt := BottomPairs(s, cnt), BottomPairs(t, cnt);
    var rs, rt := RootPairs(hash, bs), RootPairs(hash, bt);
    assert [] + ls + rs == ls + rs == ls + rs + [] && [] + lt + rt == lt + rt == lt + rt + [];
    if bs == bt {
      BottomCollision(hash, s, t, cnt);
      CollisionInside(hash, ls, lt, [], [], rs, rt);
    } else {
      RootCollision(hash, bs, bt);
      CollisionInside(hash, rs, rt, ls, lt, [], []);
    }
  }

  /** Different lists of one length with one root show two different pairs of one hash, and
      they are among the pairs hashed for the two roots. */
  lemma TreeCollision<T>(hash: (T, T) -> T, s: seq<T>, t: seq<T>)
    requires s != [] && |s| == |t| && TreeRoot(hash, s) == TreeRoot(hash, t) && s != t
    ensures Collision(hash, TreePairs(hash, s), TreePairs(hash, t))
  {
    hide Bottom, Root, BottomPairs, RootPairs, Collision, TopPower, PowerOfTwo;
    if |s| == 1 {
      SingleEqual(s, t);
      assert false;
    } else {
      LevelCollision(hash, s, t, TopPower(|s|));
    }
  }

  ghost predicate Injective<T(!new)>(hash: (T, T) -> T) {
    forall a, b, c, d :: hash(a, b) == hash(c, d) ==> a == c && b == d
  }

  /** With an injective pair hash, lists of the same length with the same root are equal. */
  lemma TreeRootInjective<T(!new)>(hash: (T, T) -> T, s: seq<T>, t: seq<T>)
    requires Injective(hash) && s != [] && |s| == |t| && TreeRoot(hash, s) == TreeRoot(hash, t)
    ensures s == t
  {
    if s != t {
      TreeCollision(hash, s, t);
    }
  }

  /** The pairs hashed straight from the leaves into the upper part of ints. */
  method HashPairs<T>(hash: (T, T) -> T, hashes: seq<T>, k: nat, ints: array<T>)
    requires k <= ints.Length && k <= |hashes| && |hashes| - k == 2 * (ints.Length - k)
    modifies ints
    ensures ints[..k] == old(ints[..k]) && ints[k..] == PairUp(hash, hashes[k..])
  {
    var i, j := k, k;
    ghost var p := PairUp(hash, hashes[k..]);
    while j < ints.Length
      invariant k <= j <= ints.Length && i == k + 2 * (j - k)
      invariant ints[..k] == old(ints[..k])
      invariant forall m :: k <= m < j ==> ints[m] == p[m - k]
    {
      assert p[j - k] == hash(hashes[i], hashes[i + 1]);
      ints[j] := hash(hashes[i], hashes[i + 1]);
      i, j := i + 2, j + 1;
    }
    assert i == |hashes|;
  }

  /** The bottom level: leaves copied, then pairs hashed. */
  method FillBottom<T>(hash: (T, T) -> T, hashes: seq<T>, ints: array<T>)
    requires ints.Length <= |hashes| <= 2 * ints.Length
    modifies ints
    ensures ints[..] == Bottom(hash, hashes, ints.Length)
  {
    var k := 2 * ints.Length - |hashes|;
    for l := 0 to k
      invariant ints[..l] == hashes[..l]
    {
      ints[l] := hashes[l];
    }
    HashPairs(hash, hashes, k, ints);
    assert ints[..] == ints[..k] + ints[k..];
  }

  /** One cn_fast_hash of the halving loop. It reads its whole input into a state of its own
      and copies the state out afterwards, so that cell j may be part of the input; nothing
      from 2j + 2 up is written. */
  method HalveCell<T>(hash: (T, T) -> T, ints: array<T>, j: nat)
    requires 2 * j + 1 < ints.Length
    modifies ints
    ensures ints[..j + 1] == old(ints[..j]) + [hash(old(ints[2 * j]), old(ints[2 * j + 1]))]
    ensures ints[2 * j + 2..] == old(ints[2 * j + 2..])
  {
    var state := hash(ints[2 * j], ints[2 * j + 1]);
    ints[j] := state;
  }

  /** The same over what the cells held before the loop. */
  method HalveStep<T>(hash: (T, T) -> T, ints: array<T>, j: nat, ghost all: seq<T>)
    requires 2 * j + 1 < ints.Length == |all| && ints[2 * j..] == all[2 * j..]
    modifies ints
    ensures ints[..j + 1] == old(ints[..j]) + [hash(all[2 * j], all[2 * j + 1])]
    ensures ints[2 * j + 2..] == all[2 * j + 2..]
  {
    assert ints[2 * j] == all[2 * j..][0] && ints[2 * j + 1] == all[2 * j..][1];
    assert ints[2 * j + 2..] == all[2 * j..][2..] == all[2 * j + 2..];
    HalveCell(hash, ints, j);
  }

  lemma PairUpAt<T>(hash: (T, T) -> T, s: seq<T>, j: nat)
    requires |s| % 2 == 0 && 2 * j + 1 < |s|
    ensures PairUp(hash, s)[..j + 1] == PairUp(hash, s)[..j] + [hash(s[2 * j], s[2 * j + 1])]
  {
  }

  /** One halving in place: no node is overwritten before it is read. */
  method HalveInPlace<T>(hash: (T, T) -> T, cnt: nat, ints: array<T>)
    requires 2 * cnt <= ints.Length
    modifies ints
    ensures ints[..cnt] == PairUp(hash, old(ints[..2 * cnt]))
  {
    ghost var s := ints[..2 * cnt];
    ghost var p, all := PairUp(hash, s), ints[..];
    assert |p| == cnt;
    hide PairUp;
    var i, j := 0, 0;
    while j < cnt
      invariant 0 <= j <= cnt && i == 2 * j
      invariant ints[..j] == p[..j] && ints[i..] == all[i..]
    {
      PairUpAt(hash, s, j);
      HalveStep(hash, ints, j, all);
      i, j := i + 2, j + 1;
    }
    assert ints[..cnt] == p;
  }

  lemma LevelsUp<T>(hash: (T, T) -> T, s: seq<T>)
    requires PowerOfTwo(|s|) && |s| > 1
    ensures PowerOfTwo(|PairUp(hash, s)|) && Levels(hash, s) == Levels(hash, PairUp(hash, s))
    ensures |s| == 2 ==> Levels(hash, s) == hash(s[0], s[1])
  {
  }

  /** The halving loop from cnt nodes down to two, and the last hash. */
  method HashUp<T>(hash: (T, T) -> T, ints: array<T>) returns (root: T)
    requires ints.Length >= 2 && PowerOfTwo(ints.Length)
    modifies ints
    ensures root == Root(hash, old(ints[..]))
  {
    var cnt := ints.Length;
    ghost var s, top := ints[..], Root(hash, ints[..]);
    LevelsIsRoot(hash, s);
    assert ints[..cnt] == s;
    hide Levels, Root, PairUp;
    while cnt > 2
      invariant 2 <= cnt <= ints.Length && PowerOfTwo(cnt)
      invariant ints[..cnt] == s && Levels(hash, s) == top
    {
      LevelsUp(hash, s);
      cnt, s := cnt / 2, PairUp(hash, s);
      HalveInPlace(hash, cnt, ints);
    }
    LevelsUp(hash, s);
    assert s[0] == ints[0] && s[1] == ints[1];
    root := hash(ints[0], ints[1]);
  }

  /** tree_hash */
  method TreeHash<T>(hash: (T, T) -> T, hashes: seq<T>) returns (root: T)
    requires 1 <= |hashes| <= LIMIT
    ensures root == TreeRoot(hash, hashes)
  {
    var count := |hashes|;
    if count == 1 {
      root := hashes[0];
    } else if count == 2 {
      root := hash(hashes[0], hashes[1]);
      assert hashes[..0] == [] && hashes[0..] == hashes;
      assert Bottom(hash, hashes, 1) == [root];
    } else {
      var cnt := TreeHashCnt(count);
      var ints := new T[cnt](_ => hashes[0]);
      FillBottom(hash, hashes, ints);
      root := HashUp(hash, ints);
    }
  }
}
