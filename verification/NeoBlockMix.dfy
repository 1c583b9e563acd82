/** The NeoScrypt block mixer (neoscrypt.c), which mixes in place: the shortcuts for r = 1
    and r = 2 and the general loop with its second buffer compute the same shuffle. */
module NeoBlockMix {
  import opened Rows
  import opened BlockMix

  /** neoscrypt_blkxor between two blocks of X, then the mixer on the first. */
  method XorMix(mix: Words -> Words, X: array<bv32>, i: nat, j: nat, ghost n: nat)
    requires IsMixer(mix) && X.Length == n * WORDS && i < n && j < n && i != j
    modifies X
    ensures Row(X[..], WORDS, i) == old(mix(Xor(Row(X[..], WORDS, j), Row(X[..], WORDS, i))))
    ensures forall k: nat :: k < n && k != i ==> Row(X[..], WORDS, k) == old(Row(X[..], WORDS, k))
  {
    XorCommutes(Row(X[..], WORDS, i), Row(X[..], WORDS, j));
    CopyRow(X, WORDS, i, Xor(Row(X[..], WORDS, i), Row(X[..], WORDS, j)), n);
    CopyRow(X, WORDS, i, mix(Row(X[..], WORDS, i)), n);
  }

  /** The first i blocks are mixed and the others are untouched. */
  ghost predicate MixedUpTo(mix: Words -> Words, B: Words, r: nat, i: nat, X: Words)
    requires IsMixer(mix) && |B| == 2 * r * WORDS && r > 0 && i <= 2 * r
  {
    && |X| == |B|
    && (forall k: nat :: k < i ==> Row(X, WORDS, k) == Mixed(mix, B, r, k))
    && forall k: nat :: i <= k < 2 * r ==> Row(X, WORDS, k) == Row(B, WORDS, k)
  }

  /** Block i takes in its predecessor, or the last block when i = 0, and is mixed. */
  method MixBlock(mix: Words -> Words, X: array<bv32>, r: nat, i: nat, ghost B: Words)
    requires IsMixer(mix) && |B| == 2 * r * WORDS && r > 0 && i < 2 * r && MixedUpTo(mix, B, r, i, X[..])
    modifies X
    ensures MixedUpTo(mix, B, r, i + 1, X[..])
  {
    if i > 0 {
      XorMix(mix, X, i, i - 1, 2 * r);
    } else {
      assert Before(mix, B, r, 0) == Row(B, WORDS, 2 * r - 1);
      XorMix(mix, X, 0, 2 * r - 1, 2 * r);
    }
  }

  /** All blocks stand where the shuffle wants them. */
  ghost predicate Shuffled(mix: Words -> Words, B: Words, r: nat, X: Words)
    requires IsMixer(mix) && |B| == 2 * r * WORDS && r > 0
  {
    |X| == |B| && forall k: nat :: k < 2 * r ==> Row(X, WORDS, k) == Mixed(mix, B, r, Source(k, r))
  }

  method MixOne(mix: Words -> Words, X: array<bv32>)
    requires IsMixer(mix) && X.Length == 2 * WORDS
    modifies X
    ensures Shuffled(mix, old(X[..]), 1, X[..])
  {
    ghost var B := X[..];
    MixBlock(mix, X, 1, 0, B);
    MixBlock(mix, X, 1, 1, B);
  }

  /** neoscrypt_blkswp. */
  method SwapRows(X: array<bv32>, i: nat, j: nat, ghost n: nat)
    requires X.Length == n * WORDS && i < n && j < n
    modifies X
    ensures Row(X[..], WORDS, i) == old(Row(X[..], WORDS, j)) && Row(X[..], WORDS, j) == old(Row(X[..], WORDS, i))
    ensures forall k: nat :: k < n && k != i && k != j ==> Row(X[..], WORDS, k) == old(Row(X[..], WORDS, k))
  {
    var a, b := Row(X[..], WORDS, i), Row(X[..], WORDS, j);
    CopyRow(X, WORDS, i, b, n);
    CopyRow(X, WORDS, j, a, n);
  }

  method MixTwo(mix: Words -> Words, X: array<bv32>)
    requires IsMixer(mix) && X.Length == 4 * WORDS
    modifies X
    ensures Shuffled(mix, old(X[..]), 2, X[..])
  {
    ghost var B := X[..];
    MixBlock(mix, X, 2, 0, B);
    MixBlock(mix, X, 2, 1, B);
    MixBlock(mix, X, 2, 2, B);
    MixBlock(mix, X, 2, 3, B);
    SwapRows(X, 1, 2, 4);
  }

  /** The general loop's first half leaves every mixed block in Y. */
  method MixInto(mix: Words -> Words, X: array<bv32>, Y: array<bv32>, r: nat)
    requires IsMixer(mix) && X != Y && X.Length == Y.Length == 2 * r * WORDS && r > 0
    modifies X, Y
    ensures forall k: nat :: k < 2 * r ==> Row(Y[..], WORDS, k) == Mixed(mix, old(X[..]), r, k)
  {
    ghost var B := X[..];
    var i := 0;
    while i < 2 * r
      invariant i <= 2 * r && MixedUpTo(mix, B, r, i, X[..])
      invariant forall k: nat :: k < i ==> Row(Y[..], WORDS, k) == Mixed(mix, B, r, k)
    {
      MixBlock(mix, X, r, i, B);
      CopyRow(Y, WORDS, i, Row(X[..], WORDS, i), 2 * r);
      i := i + 1;
    }
  }

  /** Its second half gathers the even blocks and then the odd ones. */
  method Gather(X: array<bv32>, Y: array<bv32>, r: nat)
    requires X != Y && X.Length == Y.Length == 2 * r * WORDS
    modifies X
    ensures forall k: nat :: k < 2 * r ==> Row(X[..], WORDS, k) == Row(Y[..], WORDS, Source(k, r))
  {
    var i := 0;
    while i < r
      invariant i <= r && forall k: nat :: k < i ==> Row(X[..], WORDS, k) == Row(Y[..], WORDS, Source(k, r))
    {
      CopyRow(X, WORDS, i, Row(Y[..], WORDS, 2 * i), 2 * r);
      i := i + 1;
    }
    i := 0;
    while i < r
      invariant i <= r && forall k: nat :: k < i + r ==> Row(X[..], WORDS, k) == Row(Y[..], WORDS, Source(k, r))
    {
      CopyRow(X, WORDS, i + r, Row(Y[..], WORDS, 2 * i + 1), 2 * r);
      i := i + 1;
    }
  }

  method MixGeneral(mix: Words -> Words, X: array<bv32>, Y: array<bv32>, r: nat)
    requires IsMixer(mix) && X != Y && X.Length == Y.Length == 2 * r * WORDS && r > 0
    modifies X, Y
    ensures Shuffled(mix, old(X[..]), r, X[..])
  {
    MixInto(mix, X, Y, r);
    Gather(X, Y, r);
  }

  /** All three branches give the standard's mixing of the old contents. */
  method BlkMix(mix: Words -> Words, X: array<bv32>, Y: array<bv32>, r: nat)
    requires IsMixer(mix) && X != Y && X.Length == Y.Length == 2 * r * WORDS && r > 0
    modifies X, Y
    ensures X[..] == BlockMix.BlockMix(mix, old(X[..]), r)
  {
    ghost var B := X[..];
    if r == 1 {
      MixOne(mix, X);
    } else if r == 2 {
      MixTwo(mix, X);
    } else {
      MixGeneral(mix, X, Y, r);
    }
    BlockMixIs(mix, B, r, X[..]);
  }
}
