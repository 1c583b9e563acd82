/** The SHA-256 compression (sha256.h): 64 rounds that turn the indices of the working
    array instead of moving its words, against sections 4.1.2 and 6.2.2 of FIPS 180-4. */
module Sha256Block {

  /** The constants K_t by rows of sixteen. */
  const K0: seq<bv32> := [
    0x428a2f98, 0x71374491, 0xb5c0fbcf, 0xe9b5dba5, 0x3956c25b, 0x59f111f1, 0x923f82a4, 0xab1c5ed5,
    0xd807aa98, 0x12835b01, 0x243185be, 0x550c7dc3, 0x72be5d74, 0x80deb1fe, 0x9bdc06a7, 0xc19bf174]
  const K1: seq<bv32> := [
    0xe49b69c1, 0xefbe4786, 0x0fc19dc6, 0x240ca1cc, 0x2de92c6f, 0x4a7484aa, 0x5cb0a9dc, 0x76f988da,
    0x983e5152, 0xa831c66d, 0xb00327c8, 0xbf597fc7, 0xc6e00bf3, 0xd5a79147, 0x06ca6351, 0x14292967]
  const K2: seq<bv32> := [
    0x27b70a85, 0x2e1b2138, 0x4d2c6dfc, 0x53380d13, 0x650a7354, 0x766a0abb, 0x81c2c92e, 0x92722c85,
    0xa2bfe8a1, 0xa81a664b, 0xc24b8b70, 0xc76c51a3, 0xd192e819, 0xd6990624, 0xf40e3585, 0x106aa070]
  const K3: seq<bv32> := [
    0x19a4c116, 0x1e376c08, 0x2748774c, 0x34b0bcb5, 0x391c0cb3, 0x4ed8aa4a, 0x5b9cca4f, 0x682e6ff3,
    0x748f82ee, 0x78a5636f, 0x84c87814, 0x8cc70208, 0x90befffa, 0xa4506ceb, 0xbef9a3f7, 0xc67178f2]
  const K: seq<bv32> := K0 + K1 + K2 + K3

  // ---------------------------------------------------------------- words and bytes

  /** be32dec. */
  function Word(p: seq<bv8>): bv32
    requires |p| == 4
  {
    p[3] as bv32 + (p[2] as bv32 << 8) + (p[1] as bv32 << 16) + (p[0] as bv32 << 24)
  }

  /** be32enc. */
  function Bytes(x: bv32): (p: seq<bv8>)
    ensures |p| == 4
  {
    [((x >> 24) & 0xff) as bv8, ((x >> 16) & 0xff) as bv8, ((x >> 8) & 0xff) as bv8, (x & 0xff) as bv8]
  }

  lemma WordBytes(x: bv32)
    ensures Word(Bytes(x)) == x
  {
  }

  lemma BytesWord(p: seq<bv8>)
    requires |p| == 4
    ensures Bytes(Word(p)) == p
  {
  }

  // ---------------------------------------------------------------- the standard's functions

  function RotR(x: bv32, n: bv6): bv32
    requires n <= 32
  {
    (x >> n) | (x << (32 - n))
  }

  function Parity(x: bv32, y: bv32, z: bv32): bv32 { x ^ y ^ z }
  function Add(x: bv32, y: bv32): bv32 { x + y }
  function Sum(a: bv32, b: bv32, c: bv32, d: bv32, e: bv32): bv32 { a + b + c + d + e }
  function Ch(x: bv32, y: bv32, z: bv32): bv32 { (x & y) ^ (!x & z) }
  function Maj(x: bv32, y: bv32, z: bv32): bv32 { (x & y) ^ (x & z) ^ (y & z) }
  function Sigma0(x: bv32): bv32 { Parity(RotR(x, 2), RotR(x, 13), RotR(x, 22)) }
  function Sigma1(x: bv32): bv32 { Parity(RotR(x, 6), RotR(x, 11), RotR(x, 25)) }
  function LowSigma0(x: bv32): bv32 { Parity(RotR(x, 7), RotR(x, 18), x >> 3) }
  function LowSigma1(x: bv32): bv32 { Parity(RotR(x, 17), RotR(x, 19), x >> 10) }

  lemma ParityIs(x: bv32, y: bv32, z: bv32)
    ensures Parity(x, y, z) == x ^ y ^ z
  {
  }

  lemma Rotations(x: bv32)
    ensures RotR(x, 2) == (x >> 2) | (x << 30)
    ensures RotR(x, 6) == (x >> 6) | (x << 26)
    ensures RotR(x, 7) == (x >> 7) | (x << 25)
    ensures RotR(x, 11) == (x >> 11) | (x << 21)
    ensures RotR(x, 13) == (x >> 13) | (x << 19)
    ensures RotR(x, 17) == (x >> 17) | (x << 15)
    ensures RotR(x, 18) == (x >> 18) | (x << 14)
    ensures RotR(x, 19) == (x >> 19) | (x << 13)
    ensures RotR(x, 22) == (x >> 22) | (x << 10)
    ensures RotR(x, 25) == (x >> 25) | (x << 7)
  {
  }

  /** The four functions in shifts alone. */
  lemma Sigma0Is(x: bv32)
    ensures Sigma0(x) == ((x >> 2) | (x << 30)) ^ ((x >> 13) | (x << 19)) ^ ((x >> 22) | (x << 10))
  {
    Rotations(x);
    ParityIs((x >> 2) | (x << 30), (x >> 13) | (x << 19), (x >> 22) | (x << 10));
    hide RotR, Parity;
  }

  lemma Sigma1Is(x: bv32)
    ensures Sigma1(x) == ((x >> 6) | (x << 26)) ^ ((x >> 11) | (x << 21)) ^ ((x >> 25) | (x << 7))
  {
    Rotations(x);
    ParityIs((x >> 6) | (x << 26), (x >> 11) | (x << 21), (x >> 25) | (x << 7));
    hide RotR, Parity;
  }

  lemma LowSigma0Is(x: bv32)
    ensures LowSigma0(x) == ((x >> 7) | (x << 25)) ^ ((x >> 18) | (x << 14)) ^ (x >> 3)
  {
    Rotations(x);
    ParityIs((x >> 7) | (x << 25), (x >> 18) | (x << 14), x >> 3);
    hide RotR, Parity;
  }

  lemma LowSigma1Is(x: bv32)
    ensures LowSigma1(x) == ((x >> 17) | (x << 15)) ^ ((x >> 19) | (x << 13)) ^ (x >> 10)
  {
    Rotations(x);
    ParityIs((x >> 17) | (x << 15), (x >> 19) | (x << 13), x >> 10);
    hide RotR, Parity;
  }

  /** The truth tables of choice and majority, all eight cases in one byte. */
  lemma TruthTables()
    ensures Ch(0xf0f0f0f0, 0xcccccccc, 0xaaaaaaaa) == 0xcacacaca
    ensures Maj(0xf0f0f0f0, 0xcccccccc, 0xaaaaaaaa) == 0xe8e8e8e8
  {
  }

  /** A later word of the schedule from those 2, 7, 15 and 16 places before. */
  function Extend(w2: bv32, w7: bv32, w15: bv32, w16: bv32): bv32 {
    Add(Add(Add(LowSigma1(w2), w7), LowSigma0(w15)), w16)
  }

  /** The message schedule W_t. The block never changes; naming it in the measures here and of the
      rounds keeps the verifier from unfolding all of them at once. */
  function Schedule(block: seq<bv8>, t: nat): bv32
    requires |block| == 64
    decreases t, block
  {
    if t < 16 then Word(block[4 * t..4 * t + 4])
    else Extend(Schedule(block, t - 2), Schedule(block, t - 7), Schedule(block, t - 15), Schedule(block, t - 16))
  }

  /** Step 3: T1 and T2, and every variable moves one place along. */
  function Round(v: seq<bv32>, k: bv32, w: bv32): (v': seq<bv32>)
    requires |v| == 8
    ensures |v'| == 8
  {
    var T1 := Sum(v[7], Sigma1(v[4]), Ch(v[4], v[5], v[6]), k, w);
    var T2 := Add(Sigma0(v[0]), Maj(v[0], v[1], v[2]));
    [Add(T1, T2), v[0], v[1], v[2], Add(v[3], T1), v[4], v[5], v[6]]
  }

  function Rounds(v: seq<bv32>, block: seq<bv8>, t: nat): (v': seq<bv32>)
    requires |v| == 8 && |block| == 64 && t <= 64
    ensures |v'| == 8
    decreases t, block
  {
    if t == 0 then v else Round(Rounds(v, block, t - 1), K[t - 1], Schedule(block, t - 1))
  }

  function Compress(h: seq<bv32>, block: seq<bv8>): (h': seq<bv32>)
    requires |h| == 8 && |block| == 64
    ensures |h'| == 8
  {
    seq(8, j requires 0 <= j < 8 => Add(h[j], Rounds(h, block, 64)[j]))
  }

  // ---------------------------------------------------------------- the code's forms

  function ShortCh(x: bv32, y: bv32, z: bv32): bv32 { (x & (y ^ z)) ^ z }
  function ShortMaj(x: bv32, y: bv32, z: bv32): bv32 { (x & (y | z)) | (y & z) }

  lemma ChForms(x: bv32, y: bv32, z: bv32)
    ensures (x & (y ^ z)) ^ z == (x & y) ^ (!x & z)
  {
  }

  lemma MajForms(x: bv32, y: bv32, z: bv32)
    ensures (x & (y | z)) | (y & z) == (x & y) ^ (x & z) ^ (y & z)
  {
  }

  lemma ShortForms(x: bv32, y: bv32, z: bv32)
    ensures ShortCh(x, y, z) == Ch(x, y, z) && ShortMaj(x, y, z) == Maj(x, y, z)
  {
    ChForms(x, y, z);
    MajForms(x, y, z);
  }

  lemma SumSwap(a: bv32, b: bv32, c: bv32, w: bv32, k: bv32)
    ensures Sum(a, b, c, w, k) == Sum(a, b, c, k, w)
  {
  }

  /** Where the code keeps variable j before round i. */
  function At(i: nat, j: nat): (k: nat)
    requires i <= 64
    ensures k < 8
  {
    var k := (64 - i) % 8 + j % 8;
    if k < 8 then k else k - 8
  }

  /** The code writes it with one remainder. */
  lemma AtIsIndex(i: nat, j: nat)
    requires i <= 64
    ensures At(i, j) == (64 - i + j) % 8
  {
    var a, b := (64 - i) % 8, j % 8;
    var q := (64 - i) / 8 + j / 8;
    assert 64 - i + j == 8 * q + (a + b);
  }

  /** The array S holds the variables v, turned by i places. */
  ghost predicate Turned<T>(S: seq<T>, v: seq<T>, i: nat)
    requires i <= 64
  {
    |S| == |v| == 8 && forall j: nat :: j < 8 ==> S[At(i, j)] == v[j]
  }

  lemma AtIs(i: nat, j: nat)
    requires i <= 64 && j < 8
    ensures var b := (64 - i) % 8; At(i, j) == if b + j < 8 then b + j else b + j - 8
  {
  }

  lemma AtApart(i: nat, j: nat, k: nat)
    requires i <= 64 && j < 8 && k < 8 && j != k
    ensures At(i, j) != At(i, k)
  {
    AtIs(i, j);
    AtIs(i, k);
  }

  lemma TurnBack(i: nat)
    requires i < 64
    ensures (64 - (i + 1)) % 8 == if (64 - i) % 8 == 0 then 7 else (64 - i) % 8 - 1
  {
    var q, b := (64 - i) / 8, (64 - i) % 8;
    assert 64 - i == 8 * q + b;
  }

  lemma AtMoves(i: nat, j: nat)
    requires i < 64 && j < 8
    ensures At(i + 1, j) == At(i, if j == 0 then 7 else j - 1)
  {
    TurnBack(i);
  }

  /** Two stores into the turned array move every variable one place along. */
  lemma TurnedStep<T>(S: seq<T>, S': seq<T>, v: seq<T>, i: nat, a: T, e: T)
    requires i < 64 && Turned(S, v, i)
    requires S' == S[At(i, 3) := e][At(i, 7) := a]
    ensures Turned(S', [a, v[0], v[1], v[2], e, v[4], v[5], v[6]], i + 1)
  {
    hide At;
    forall j: nat | j < 8
      ensures S'[At(i + 1, j)] == [a, v[0], v[1], v[2], e, v[4], v[5], v[6]][j]
    {
      AtMoves(i, j);
      var k := if j == 0 then 7 else j - 1;
      if k != 3 { AtApart(i, 3, k); }
      if k != 7 { AtApart(i, 7, k); }
    }
  }

  lemma RoundIs(v: seq<bv32>, k: bv32, w: bv32, t0: bv32, t1: bv32)
    requires |v| == 8
    requires t0 == Sum(v[7], Sigma1(v[4]), ShortCh(v[4], v[5], v[6]), w, k)
    requires t1 == Add(Sigma0(v[0]), ShortMaj(v[0], v[1], v[2]))
    ensures Round(v, k, w) == [Add(t0, t1), v[0], v[1], v[2], Add(v[3], t0), v[4], v[5], v[6]]
  {
    hide Sigma0, Sigma1, Ch, Maj, ShortCh, ShortMaj, Add, Sum;
    ShortForms(v[4], v[5], v[6]);
    ShortForms(v[0], v[1], v[2]);
    SumSwap(v[7], Sigma1(v[4]), Ch(v[4], v[5], v[6]), w, k);
  }

  /** RNDr: two stores and no moves. */
  method Rndr(S: array<bv32>, i: nat, w: bv32, k: bv32, ghost v: seq<bv32>)
    requires S.Length == 8 && i < 64 && Turned(S[..], v, i)
    modifies S
    ensures Turned(S[..], Round(v, k, w), i + 1)
  {
    hide At, Sigma0, Sigma1, Round, Add, Sum, ShortCh, ShortMaj;
    ghost var before := S[..];
    var t0 := Sum(S[At(i, 7)], Sigma1(S[At(i, 4)]), ShortCh(S[At(i, 4)], S[At(i, 5)], S[At(i, 6)]), w, k);
    var t1 := Add(Sigma0(S[At(i, 0)]), ShortMaj(S[At(i, 0)], S[At(i, 1)], S[At(i, 2)]));
    RoundIs(v, k, w, t0, t1);
    S[At(i, 3)] := Add(S[At(i, 3)], t0);
    S[At(i, 7)] := Add(t0, t1);
    TurnedStep(before, S[..], v, i, Add(t0, t1), Add(v[3], t0));
  }

  method Prepare(block: seq<bv8>) returns (W: array<bv32>)
    requires |block| == 64
    ensures fresh(W) && W.Length == 64 && forall t: nat :: t < 64 ==> W[t] == Schedule(block, t)
  {
    hide Extend, Word;
    W := new bv32[64];
    for i := 0 to 16
      invariant forall t: nat :: t < i ==> W[t] == Schedule(block, t)
    {
      W[i] := Word(block[4 * i..4 * i + 4]);
    }
    for i := 16 to 64
      invariant forall t: nat :: t < i ==> W[t] == Schedule(block, t)
    {
      W[i] := Extend(W[i - 2], W[i - 7], W[i - 15], W[i - 16]);
    }
  }

  lemma UnturnedTwice(S: seq<bv32>, v: seq<bv32>, i: nat)
    requires i == 0 || i == 64
    ensures Turned(S, v, i) <==> |S| == |v| == 8 && S == v
  {
    assert forall j: nat :: j < 8 ==> At(i, j) == j;
  }

  method Transform(state: array<bv32>, block: seq<bv8>)
    requires state.Length == 8 && |block| == 64
    modifies state
    ensures state[..] == Compress(old(state[..]), block)
  {
    hide Turned, Round, Schedule, Add, At;
    ghost var h := state[..];
    var W := Prepare(block);
    var S := new bv32[8](j requires 0 <= j < 8 reads state => state[j]);
    assert S[..] == h;
    UnturnedTwice(S[..], h, 0);
    for i := 0 to 64
      invariant Turned(S[..], Rounds(h, block, i), i) && state[..] == h
      invariant forall t: nat :: t < 64 ==> W[t] == Schedule(block, t)
    {
      Rndr(S, i, W[i], K[i], Rounds(h, block, i));
    }
    UnturnedTwice(S[..], Rounds(h, block, 64), 64);
    for i := 0 to 8
      invariant S[..] == Rounds(h, block, 64)
      invariant forall j :: 0 <= j < 8 ==> state[j] == if j < i then Add(h[j], Rounds(h, block, 64)[j]) else h[j]
    {
      state[i] := Add(state[i], S[i]);
    }
  }
}
