/** scrypt_N_R_1_256_sp (scryptn.c): smix on the bytes of a block, between two PBKDF2 runs,
    as in section 6 of RFC 7914 with p = 1 and the input as its own salt. */
module Scrypt {
  import opened Numbers
  import opened Rows
  import opened BlockMix
  import opened Smix
  import Hmac
  import Pbkdf2

  // ---------------------------------------------------------------- words as bytes

  /** le32dec. */
  function Word(p: seq<bv8>): bv32
    requires |p| == 4
  {
    p[0] as bv32 + (p[1] as bv32 << 8) + (p[2] as bv32 << 16) + (p[3] as bv32 << 24)
  }

  /** le32enc. */
  function Bytes(x: bv32): (p: seq<bv8>)
    ensures |p| == 4
  {
    [(x & 0xff) as bv8, ((x >> 8) & 0xff) as bv8, ((x >> 16) & 0xff) as bv8, ((x >> 24) & 0xff) as bv8]
  }

  lemma WordBytes(x: bv32)
    ensures Word(Bytes(x)) == x
  {
  }

  function Decode(B: seq<bv8>, n: nat): (X: Words)
    requires |B| == 4 * n
    ensures |X| == n
  {
    seq(n, k requires 0 <= k < n => Word(B[4 * k..4 * k + 4]))
  }

  function Encode(X: Words): (B: seq<bv8>)
    ensures |B| == 4 * |X|
  {
    Flatten(seq(|X|, k requires 0 <= k < |X| => Bytes(X[k])), 4)
  }

  /** Writing words out and reading them back changes nothing. */
  lemma DecodeEncode(X: Words)
    ensures Decode(Encode(X), |X|) == X
  {
    hide Word, Bytes;
    var rows := seq(|X|, k requires 0 <= k < |X| => Bytes(X[k]));
    forall k: nat | k < |X| ensures Decode(Encode(X), |X|)[k] == X[k] {
      FlattenRow(rows, 4, k);
      assert Encode(X)[4 * k..4 * k + 4] == Bytes(X[k]);
      WordBytes(X[k]);
    }
  }

  // ---------------------------------------------------------------- the specification

  ghost function Mix(mix: Words -> Words, B: seq<bv8>, r: nat, N: nat): (B': seq<bv8>)
    requires IsMixer(mix) && |B| == 128 * r && r > 0 && N > 0
    ensures |B'| == |B|
  {
    Encode(RoMix(mix, Decode(B, 32 * r), r, N))
  }

  ghost function ScryptHash(mix: Words -> Words, input: seq<bv8>, N: nat, r: nat): (dk: seq<bv8>)
    requires IsMixer(mix) && 0 < r < 0x200_0000 && N > 0
    ensures |dk| == 32
  {
    var B := Pbkdf2.Derived(input, input, 1, 128 * r);
    Pbkdf2.Derived(input, Mix(mix, B, r, N), 1, 32)
  }

  /** Words are read and written low byte first. */
  lemma LowByteFirst()
    ensures Word([0x04, 0x03, 0x02, 0x01]) == 0x01020304 && Bytes(0x01020304) == [0x04, 0x03, 0x02, 0x01]
  {
  }

  /** The hash as one MAC over the mixed block, with the input as key; the block before the
      mixing is derived from the input twice over. */
  lemma ScryptMac(mix: Words -> Words, input: seq<bv8>, N: nat, r: nat) returns (B: seq<bv8>)
    requires IsMixer(mix) && 0 < r < 0x200_0000 && N > 0
    ensures |B| == 128 * r && B == Pbkdf2.Derived(input, input, 1, 128 * r)
    ensures ScryptHash(mix, input, N, r) ==
      Hmac.Mac(input, Encode(RoMix(mix, Decode(B, 32 * r), r, N)) + [0, 0, 0, 1])
  {
    hide RoMix, Encode, Decode, Hmac.Mac;
    B := Pbkdf2.Derived(input, input, 1, 128 * r);
    hide Pbkdf2.Derived;
    Pbkdf2.DerivedOnce(input, Mix(mix, B, r, N), 32);
  }

  // ---------------------------------------------------------------- the code

  method Load(B: array<bv8>, X: array<bv32>)
    requires B.Length == 4 * X.Length
    modifies X
    ensures X[..] == Decode(B[..], X.Length)
  {
    hide Word;
    var k := 0;
    while k < X.Length
      invariant 0 <= k <= X.Length && forall j :: 0 <= j < k ==> X[j] == Word(B[4 * j..4 * j + 4])
    {
      X[k] := Word(B[4 * k..4 * k + 4]);
      k := k + 1;
    }
    assert forall j :: 0 <= j < X.Length ==> B[4 * j..4 * j + 4] == B[..][4 * j..4 * j + 4];
  }

  method Save(B: array<bv8>, X: array<bv32>)
    requires B.Length == 4 * X.Length
    modifies B
    ensures B[..] == Encode(X[..])
  {
    hide Bytes;
    var k := 0;
    while k < X.Length
      invariant 0 <= k <= X.Length && forall j: nat :: j < k ==> Row(B[..], 4, j) == Bytes(X[j])
    {
      CopyRow(B, 4, k, Bytes(X[k]), X.Length);
      k := k + 1;
    }
    ghost var s := X[..];
    FlattenIs(seq(|s|, j requires 0 <= j < |s| => Bytes(s[j])), 4, B[..]);
  }

  /** smix. */
  method SMix(mix: Words -> Words, B: array<bv8>, X: array<bv32>, Y: array<bv32>, V: array<bv32>, r: nat, N: nat)
    requires IsMixer(mix) && B.Length == 128 * r && X.Length == Y.Length == 2 * r * WORDS && r > 0
    requires Table(V, N, X.Length) && X != Y && V != X && V != Y && PowerOfTwo(N) && 1 < N < B64
    modifies B, X, Y, V
    ensures B[..] == Mix(mix, old(B[..]), r, N)
  {
    hide RoMix, Decode, Encode;
    Load(B, X);
    MixWords(mix, X, Y, V, r, N);
    Save(B, X);
  }

  method ScryptNR1(mix: Words -> Words, input: seq<bv8>, output: array<bv8>, N: nat, r: nat)
    requires IsMixer(mix) && |input| < 0x1_0000_0000 && output.Length == 32 && 0 < r < 0x200_0000
    requires PowerOfTwo(N) && 1 < N < 0x1_0000_0000
    modifies output
    ensures output[..] == ScryptHash(mix, input, N, r)
  {
    hide RoMix, Decode, Encode, Pbkdf2.Derived, Mix;
    var B := new bv8[128 * r];
    var X, Y := new bv32[2 * r * WORDS], new bv32[2 * r * WORDS];
    var V := new bv32[N * X.Length];
    Pbkdf2.Pbkdf2(input, input, 1, B, 128 * r);
    assert B[..128 * r] == B[..];
    SMix(mix, B, X, Y, V, r, N);
    Pbkdf2.Pbkdf2(input, B[..], 1, output, 32);
    assert output[..32] == output[..];
  }
}
