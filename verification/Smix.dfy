/** scrypt's smix (scryptn.c), two steps a turn with X and Y swapping roles, against
    scryptROMix of section 5 of RFC 7914. */
module Smix {
  import opened Numbers
  import opened Bits
  import opened Rows
  import opened BlockMix


  // ---------------------------------------------------------------- section 5 of RFC 7914

  /** V_i, the block after i mixings. */
  ghost function Iter(mix: Words -> Words, B: Words, r: nat, i: nat): (x: Words)
    requires IsMixer(mix) && |B| == 2 * r * WORDS && r > 0
    ensures |x| == |B|
  {
    if i == 0 then B else BlockMix.BlockMix(mix, Iter(mix, B, r, i - 1), r)
  }

  function Values(s: Words): (v: seq<int>)
    ensures |v| == |s|
  {
    seq(|s|, i requires 0 <= i < |s| => s[i] as int)
  }

  /** The last block of 64 bytes read as one little-endian number. */
  ghost function Integerify(X: Words, r: nat): (v: nat)
    requires |X| == 2 * r * WORDS && r > 0
  {
    EvalNonnegative(Row(X, WORDS, 2 * r - 1));
    Eval(B32, Values(Row(X, WORDS, 2 * r - 1)))
  }

  lemma {:induction false} EvalNonnegative(s: Words)
    ensures Eval(B32, Values(s)) >= 0
  {
    if s != [] {
      EvalNonnegative(s[1..]);
      assert Values(s)[1..] == Values(s[1..]);
    }
  }

  /** X after i steps of the second loop, which reads the table of the first. */
  ghost function Second(mix: Words -> Words, B: Words, r: nat, N: nat, i: nat): (x: Words)
    requires IsMixer(mix) && |B| == 2 * r * WORDS && r > 0 && N > 0
    ensures |x| == |B|
  {
    if i == 0 then
      Iter(mix, B, r, N)
    else
      var x := Second(mix, B, r, N, i - 1);
      BlockMix.BlockMix(mix, Xor(x, Iter(mix, B, r, Integerify(x, r) % N)), r)
  }

  ghost function RoMix(mix: Words -> Words, B: Words, r: nat, N: nat): (x: Words)
    requires IsMixer(mix) && |B| == 2 * r * WORDS && r > 0 && N > 0
    ensures |x| == |B|
  {
    Second(mix, B, r, N, N)
  }

  /** The two loops step by step: the first mixes B over and over, the second xors into its block
      the row of the first that the block's own last 64 bytes ask for, and mixes. */
  lemma RoMixSteps(mix: Words -> Words, B: Words, r: nat, N: nat, i: nat)
    requires IsMixer(mix) && |B| == 2 * r * WORDS && r > 0 && N > 0
    ensures Iter(mix, B, r, 0) == B && Iter(mix, B, r, i + 1) == BlockMix.BlockMix(mix, Iter(mix, B, r, i), r)
    ensures Second(mix, B, r, N, 0) == Iter(mix, B, r, N) && Second(mix, B, r, N, N) == RoMix(mix, B, r, N)
    ensures var x := Second(mix, B, r, N, i);
      Second(mix, B, r, N, i + 1) == BlockMix.BlockMix(mix, Xor(x, Iter(mix, B, r, Integerify(x, r) % N)), r)
  {
    hide BlockMix.BlockMix, Integerify, Xor;
  }

  /** That row is the little-endian number in the last 64 bytes modulo N, and two words of the
      flat block are enough for it. */
  lemma IndexWords(x: Words, r: nat, N: nat)
    requires |x| == 2 * r * WORDS && r > 0 && PowerOfTwo(N) && N < B64
    ensures N > 0 && Integerify(x, r) % N == (x[32 * r - 16] as nat + B32 * x[32 * r - 15] as nat) % N
  {
    var last := Row(x, WORDS, 2 * r - 1);
    assert |last| == WORDS && last[0] == x[32 * r - 16] && last[1] == x[32 * r - 15];
    assert N > 0;
    hide Row, PowerOfTwo, Eval;
    LowModulo(last, N);
  }

  // ---------------------------------------------------------------- the index

  /** A multiple of m on top does not change the remainder when N divides m. */
  lemma ReduceLow(low: nat, high: nat, m: nat, N: nat)
    requires N > 0 && m % N == 0
    ensures (low + m * high) % N == low % N
  {
    var k, q := m / N, low / N;
    assert low == q * N + low % N && m == k * N;
    MulAssoc(high, k, N);
    MulDistributes(N, q, high * k);
    DivModUnique(low + m * high, N, q + high * k, low % N);
  }

  lemma LowWords(s: Words)
    requires |s| == WORDS
    ensures var high := Eval(B32, Values(s[2..]));
            high >= 0 && Eval(B32, Values(s)) == s[0] as int + B32 * s[1] as int + B64 * high
  {
    assert Values(s)[1..] == Values(s[1..]) && Values(s[1..])[1..] == Values(s[2..]);
    EvalNonnegative(s[2..]);
  }

  lemma LowModulo(s: Words, N: nat)
    requires |s| == WORDS && PowerOfTwo(N) && N < B64
    ensures Eval(B32, Values(s)) % N == (s[0] as nat + B32 * s[1] as nat) % N
  {
    hide PowerOfTwo, Eval, Values;
    PowerDividesWord(N);
    LowWords(s);
    ReduceLow(s[0] as nat + B32 * s[1] as nat, Eval(B32, Values(s[2..])), B64, N);
  }

  /** Two words and a mask stand for the whole block modulo N. */
  method Index(X: array<bv32>, r: nat, N: nat) returns (j: nat)
    requires X.Length == 2 * r * WORDS && r > 0 && PowerOfTwo(N) && N < B64
    ensures j == Integerify(X[..], r) % N
  {
    var at := (2 * r - 1) * WORDS;
    ghost var last := Row(X[..], WORDS, 2 * r - 1);
    var low := X[at + 1] as nat * B32 + X[at] as nat;
    j := BitAnd(low, N - 1);
    assert |last| == WORDS && low == last[0] as nat + B32 * last[1] as nat
        && Integerify(X[..], r) == Eval(B32, Values(last));
    hide *;
    AndPower(low, N);
    LowModulo(last, N);
  }

  // ---------------------------------------------------------------- smix on words

  /** V holds N blocks of m words. */
  ghost predicate Table(V: array<bv32>, N: nat, m: nat) { V.Length == N * m }

  /** The first i rows of V are the first i mixings. */
  ghost predicate Filled(mix: Words -> Words, B: Words, r: nat, V: Words, i: nat)
    requires IsMixer(mix) && |B| == 2 * r * WORDS && r > 0
  {
    forall k: nat :: k < i ==> Row(V, |B|, k) == Iter(mix, B, r, k)
  }

  lemma EvenPower(N: nat) returns (half: nat)
    requires PowerOfTwo(N) && 1 < N
    ensures N == 2 * half
  {
    half := N / 2;
  }

  lemma Starts(mix: Words -> Words, B: Words, r: nat, V: Words)
    requires IsMixer(mix) && |B| == 2 * r * WORDS && r > 0
    ensures B == Iter(mix, B, r, 0) && Filled(mix, B, r, V, 0)
  {
  }

  lemma Ends(mix: Words -> Words, B: Words, r: nat, N: nat)
    requires IsMixer(mix) && |B| == 2 * r * WORDS && r > 0 && N > 0
    ensures Iter(mix, B, r, N) == Second(mix, B, r, N, 0) && RoMix(mix, B, r, N) == Second(mix, B, r, N, N)
  {
  }

  /** One step of the first loop: the block goes to V and its mixing to the other buffer. */
  method FillStep(mix: Words -> Words, X: array<bv32>, Y: array<bv32>, V: array<bv32>, r: nat, i: nat, ghost N: nat,
      ghost B: Words)
    requires IsMixer(mix) && |B| == X.Length == Y.Length == 2 * r * WORDS && r > 0
    requires Table(V, N, |B|) && i < N && X != Y && V != X && V != Y
    requires X[..] == Iter(mix, B, r, i) && Filled(mix, B, r, V[..], i)
    modifies V, Y
    ensures Y[..] == Iter(mix, B, r, i + 1) && Filled(mix, B, r, V[..], i + 1)
  {
    CopyRow(V, X.Length, i, X[..], N);
    BlockMixSalsa8(mix, X, Y, r);
  }

  /** One turn of the first loop, after which X is back in its place. */
  method FillTurn(mix: Words -> Words, X: array<bv32>, Y: array<bv32>, V: array<bv32>, r: nat, i: nat, ghost N: nat,
      ghost B: Words)
    requires IsMixer(mix) && |B| == X.Length == Y.Length == 2 * r * WORDS && r > 0
    requires Table(V, N, |B|) && i + 1 < N && X != Y && V != X && V != Y
    requires X[..] == Iter(mix, B, r, i) && Filled(mix, B, r, V[..], i)
    modifies V, X, Y
    ensures X[..] == Iter(mix, B, r, i + 2) && Filled(mix, B, r, V[..], i + 2)
  {
    hide *;
    FillStep(mix, X, Y, V, r, i, N, B);
    FillStep(mix, Y, X, V, r, i + 1, N, B);
  }

  method Fill(mix: Words -> Words, X: array<bv32>, Y: array<bv32>, V: array<bv32>, r: nat, N: nat)
    requires IsMixer(mix) && X.Length == Y.Length == 2 * r * WORDS && r > 0
    requires Table(V, N, X.Length) && PowerOfTwo(N) && 1 < N && X != Y && V != X && V != Y
    modifies V, X, Y
    ensures X[..] == Iter(mix, old(X[..]), r, N) && Filled(mix, old(X[..]), r, V[..], N)
  {
    ghost var B := X[..];
    var i := 0;
    hide *;
    ghost var h: nat := 0;
    ghost var half := EvenPower(N);
    Starts(mix, B, r, V[..]);
    while i < N
      invariant i == 2 * h && h <= half && X[..] == Iter(mix, B, r, i) && Filled(mix, B, r, V[..], i)
    {
      FillTurn(mix, X, Y, V, r, i, N, B);
      i, h := i + 2, h + 1;
    }
  }

  /** blkxor of a row of V into X. */
  method XorRow(X: array<bv32>, V: array<bv32>, j: nat, ghost N: nat)
    requires X != V && Table(V, N, X.Length) && j < N
    modifies X
    ensures |Row(V[..], X.Length, j)| == X.Length && X[..] == Xor(old(X[..]), Row(V[..], X.Length, j))
  {
    RowsApart(X.Length, j, N);
    var at := j * X.Length;
    forall k | 0 <= k < X.Length {
      X[k] := X[k] ^ V[at + k];
    }
  }

  /** One step of the second loop, which leaves V alone. */
  method MixStep(mix: Words -> Words, X: array<bv32>, Y: array<bv32>, V: array<bv32>, r: nat, ghost i: nat, N: nat,
      ghost B: Words)
    requires IsMixer(mix) && |B| == X.Length == Y.Length == 2 * r * WORDS && r > 0
    requires Table(V, N, |B|) && X != Y && V != X && V != Y && PowerOfTwo(N) && N < B64
    requires X[..] == Second(mix, B, r, N, i) && Filled(mix, B, r, V[..], N)
    modifies X, Y
    ensures Y[..] == Second(mix, B, r, N, i + 1)
  {
    var j := Index(X, r, N);
    XorRow(X, V, j, N);
    assert Row(V[..], |B|, j) == Iter(mix, B, r, j);
    BlockMixSalsa8(mix, X, Y, r);
  }

  method MixTurn(mix: Words -> Words, X: array<bv32>, Y: array<bv32>, V: array<bv32>, r: nat, ghost i: nat, N: nat,
      ghost B: Words)
    requires IsMixer(mix) && |B| == X.Length == Y.Length == 2 * r * WORDS && r > 0
    requires Table(V, N, |B|) && X != Y && V != X && V != Y && PowerOfTwo(N) && N < B64
    requires X[..] == Second(mix, B, r, N, i) && Filled(mix, B, r, V[..], N)
    modifies X, Y
    ensures X[..] == Second(mix, B, r, N, i + 2)
  {
    hide *;
    MixStep(mix, X, Y, V, r, i, N, B);
    MixStep(mix, Y, X, V, r, i + 1, N, B);
  }

  method MixAll(mix: Words -> Words, X: array<bv32>, Y: array<bv32>, V: array<bv32>, r: nat, N: nat, ghost B: Words)
    requires IsMixer(mix) && |B| == X.Length == Y.Length == 2 * r * WORDS && r > 0
    requires Table(V, N, |B|) && X != Y && V != X && V != Y && PowerOfTwo(N) && 1 < N < B64
    requires X[..] == Iter(mix, B, r, N) && Filled(mix, B, r, V[..], N)
    modifies X, Y
    ensures X[..] == RoMix(mix, B, r, N)
  {
    var i := 0;
    hide *;
    ghost var h: nat := 0;
    ghost var half := EvenPower(N);
    Ends(mix, B, r, N);
    while i < N
      invariant i == 2 * h && h <= half && X[..] == Second(mix, B, r, N, i) && Filled(mix, B, r, V[..], N)
    {
      MixTurn(mix, X, Y, V, r, i, N, B);
      i, h := i + 2, h + 1;
    }
  }

  /** Both loops: scryptROMix of the words in X. */
  method MixWords(mix: Words -> Words, X: array<bv32>, Y: array<bv32>, V: array<bv32>, r: nat, N: nat)
    requires IsMixer(mix) && X.Length == Y.Length == 2 * r * WORDS && r > 0
    requires Table(V, N, X.Length) && X != Y && V != X && V != Y && PowerOfTwo(N) && 1 < N < B64
    modifies X, Y, V
    ensures X[..] == RoMix(mix, old(X[..]), r, N)
  {
    ghost var B := X[..];
    Fill(mix, X, Y, V, r, N);
    MixAll(mix, X, Y, V, r, N, B);
  }
}
