/** The block mixer of scrypt (scryptn.c) and of NeoScrypt with its shortcuts for r = 1
    and r = 2 (neoscrypt.c), against section 4 of RFC 7914. The core permutation is any
    function from 16 words to 16 words. */
module BlockMix {
  import opened Rows

  const WORDS := 16

  type Words = seq<bv32>

  ghost predicate IsMixer(mix: Words -> Words) {
    forall b: Words :: |b| == WORDS ==> |mix(b)| == WORDS
  }

  function Xor(a: Words, b: Words): (c: Words)
    requires |a| == |b|
    ensures |c| == |a|
  {
    seq(|a|, i requires 0 <= i < |a| => a[i] ^ b[i])
  }

  lemma XorCommutes(a: Words, b: Words)
    requires |a| == |b|
    ensures Xor(a, b) == Xor(b, a)
  {
    assert forall i :: 0 <= i < |a| ==> Xor(a, b)[i] == Xor(b, a)[i];
  }

  // ---------------------------------------------------------------- section 4 of RFC 7914

  /** The state X before step i: the last input block at first, then the block just mixed. */
  ghost function Before(mix: Words -> Words, B: Words, r: nat, i: nat): (x: Words)
    requires IsMixer(mix) && |B| == 2 * r * WORDS && r > 0 && i <= 2 * r
    ensures |x| == WORDS
    decreases i
  {
    if i == 0 then Row(B, WORDS, 2 * r - 1) else mix(Xor(Before(mix, B, r, i - 1), Row(B, WORDS, i - 1)))
  }

  /** Y_i of the standard. */
  ghost function Mixed(mix: Words -> Words, B: Words, r: nat, i: nat): (x: Words)
    requires IsMixer(mix) && |B| == 2 * r * WORDS && r > 0 && i < 2 * r
    ensures |x| == WORDS
  {
    Before(mix, B, r, i + 1)
  }

  /** The even blocks and then the odd ones. */
  function Source(k: nat, r: nat): nat {
    if k < r then 2 * k else 2 * (k - r) + 1
  }

  ghost function BlockMix(mix: Words -> Words, B: Words, r: nat): (out: Words)
    requires IsMixer(mix) && |B| == 2 * r * WORDS && r > 0
    ensures |out| == |B|
  {
    seq(|B|, w requires 0 <= w < |B| => Mixed(mix, B, r, Source(w / WORDS, r))[w % WORDS])
  }

  lemma BlockMixRow(mix: Words -> Words, B: Words, r: nat, k: nat)
    requires IsMixer(mix) && |B| == 2 * r * WORDS && r > 0 && k < 2 * r
    ensures Row(BlockMix(mix, B, r), WORDS, k) == Mixed(mix, B, r, Source(k, r))
  {
    hide Before;
    forall j | 0 <= j < WORDS
      ensures Row(BlockMix(mix, B, r), WORDS, k)[j] == Mixed(mix, B, r, Source(k, r))[j]
    {
      assert (k * WORDS + j) / WORDS == k;
    }
  }

  /** The mixing unrolled: each block is the mixer of the one before and the next input block,
      from the last input block on, and the even blocks come first. */
  lemma BlockMixSteps(mix: Words -> Words, B: Words, r: nat, i: nat, k: nat)
    requires IsMixer(mix) && |B| == 2 * r * WORDS && r > 0 && i < 2 * r && k < r
    ensures |Row(B, WORDS, i)| == |Row(B, WORDS, 2 * r - 1)| == WORDS
    ensures Mixed(mix, B, r, 0) == mix(Xor(Row(B, WORDS, 2 * r - 1), Row(B, WORDS, 0)))
    ensures i > 0 ==> Mixed(mix, B, r, i) == mix(Xor(Mixed(mix, B, r, i - 1), Row(B, WORDS, i)))
    ensures Row(BlockMix(mix, B, r), WORDS, k) == Mixed(mix, B, r, 2 * k)
    ensures Row(BlockMix(mix, B, r), WORDS, r + k) == Mixed(mix, B, r, 2 * k + 1)
  {
    BlockMixRow(mix, B, r, k);
    BlockMixRow(mix, B, r, r + k);
    assert Before(mix, B, r, i + 1) == mix(Xor(Before(mix, B, r, i), Row(B, WORDS, i)));
    assert Before(mix, B, r, 1) == mix(Xor(Before(mix, B, r, 0), Row(B, WORDS, 0)));
    hide BlockMix, Xor;
  }

  lemma BlockMixIs(mix: Words -> Words, B: Words, r: nat, out: Words)
    requires IsMixer(mix) && |B| == |out| == 2 * r * WORDS && r > 0
    requires forall k: nat :: k < 2 * r ==> Row(out, WORDS, k) == Mixed(mix, B, r, Source(k, r))
    ensures out == BlockMix(mix, B, r)
  {
    forall k: nat | k < 2 * r ensures Row(out, WORDS, k) == Row(BlockMix(mix, B, r), WORDS, k) {
      BlockMixRow(mix, B, r, k);
    }
    SameRows(out, BlockMix(mix, B, r), WORDS, 2 * r);
  }

  // ---------------------------------------------------------------- scryptn.c

  /** The places of the first i blocks in the output, i even. */
  ghost predicate Placed(mix: Words -> Words, B: Words, r: nat, i: nat, out: Words)
    requires IsMixer(mix) && |B| == 2 * r * WORDS && r > 0 && i <= 2 * r && i % 2 == 0
  {
    forall k: nat :: k < 2 * r && Source(k, r) < i ==> Row(out, WORDS, k) == Mixed(mix, B, r, Source(k, r))
  }

  lemma PlacedStep(mix: Words -> Words, B: Words, r: nat, i: nat, before: Words, after: Words)
    requires IsMixer(mix) && |B| == 2 * r * WORDS && r > 0 && i + 2 <= 2 * r && i % 2 == 0
    requires Placed(mix, B, r, i, before)
    requires Row(after, WORDS, i / 2) == Mixed(mix, B, r, i) && Row(after, WORDS, i / 2 + r) == Mixed(mix, B, r, i + 1)
    requires forall k: nat :: k < 2 * r && k != i / 2 && k != i / 2 + r ==>
                                Row(after, WORDS, k) == Row(before, WORDS, k)
    ensures Placed(mix, B, r, i + 2, after)
  {
  }

  /** One turn: two blocks, each written straight to its shuffled place. */
  method Turn(mix: Words -> Words, Bin: array<bv32>, Bout: array<bv32>, X: Words, r: nat, i: nat) returns (X': Words)
    requires IsMixer(mix) && Bin != Bout && Bin.Length == Bout.Length == 2 * r * WORDS && r > 0
    requires i + 2 <= 2 * r && i % 2 == 0 && X == Before(mix, Bin[..], r, i) && Placed(mix, Bin[..], r, i, Bout[..])
    modifies Bout
    ensures X' == Before(mix, Bin[..], r, i + 2) && Placed(mix, Bin[..], r, i + 2, Bout[..])
  {
    ghost var B, before := Bin[..], Bout[..];
    X' := mix(Xor(X, Row(Bin[..], WORDS, i)));
    assert X' == Mixed(mix, B, r, i);
    hide Placed;
    CopyRow(Bout, WORDS, i / 2, X', 2 * r);
    X' := mix(Xor(X', Row(Bin[..], WORDS, i + 1)));
    assert X' == Mixed(mix, B, r, i + 1);
    CopyRow(Bout, WORDS, i / 2 + r, X', 2 * r);
    hide *;
    PlacedStep(mix, B, r, i, before, Bout[..]);
  }

  method BlockMixSalsa8(mix: Words -> Words, Bin: array<bv32>, Bout: array<bv32>, r: nat)
    requires IsMixer(mix) && Bin != Bout && Bin.Length == Bout.Length == 2 * r * WORDS && r > 0
    modifies Bout
    ensures Bout[..] == BlockMix(mix, Bin[..], r)
  {
    var X := Row(Bin[..], WORDS, 2 * r - 1);
    var i := 0;
    while i < 2 * r
      invariant i % 2 == 0 && i <= 2 * r && X == Before(mix, Bin[..], r, i) && Placed(mix, Bin[..], r, i, Bout[..])
    {
      X := Turn(mix, Bin, Bout, X, r, i);
      i := i + 2;
    }
    BlockMixIs(mix, Bin[..], r, Bout[..]);
  }
}
