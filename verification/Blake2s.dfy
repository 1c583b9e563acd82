/** Keyed BLAKE2s (neoscrypt.c): a buffer of two blocks that compresses late, so the last
    block is always still there to be marked last. The compression is any function of the
    state, the two counter words, the last-block flag and one block. The eight state words
    are held as their 32 little-endian bytes. */
module Blake2s {
  import opened Numbers
  import Sha256Block
  import Sha256

  const BLOCK := 64

  type Compress = (seq<bv8>, nat, nat, bool, seq<bv8>) -> seq<bv8>

  ghost predicate IsCompress(compress: Compress) {
    forall h, t0, t1, last, block :: |compress(h, t0, t1, last, block)| == 32
  }

  const IV: seq<bv8> := [
    0x67, 0xE6, 0x09, 0x6A, 0x85, 0xAE, 0x67, 0xBB, 0x72, 0xF3, 0x6E, 0x3C, 0x3A, 0xF5, 0x4F, 0xA5,
    0x7F, 0x52, 0x0E, 0x51, 0x8C, 0x68, 0x05, 0x9B, 0xAB, 0xD9, 0x83, 0x1F, 0x19, 0xCD, 0xE0, 0x5B]

  function Zeros(n: nat): (r: seq<bv8>)
    ensures |r| == n
  {
    seq(n, _ => 0)
  }

  // ---------------------------------------------------------------- section 3.3 of RFC 7693

  /** One compression at byte counter t. The standard's counter has two words; without
      wide the high one stays zero. */
  function Call(compress: Compress, wide: bool, h: seq<bv8>, t: nat, last: bool, block: seq<bv8>): seq<bv8> {
    compress(h, t % B32, if wide then t / B32 else 0, last, block)
  }

  ghost function Blocks(compress: Compress, wide: bool, h: seq<bv8>, t: nat, data: seq<bv8>): (r: seq<bv8>)
    requires IsCompress(compress)
    ensures |r| == 32
    decreases |data|
  {
    if |data| <= BLOCK then
      Call(compress, wide, h, t + |data|, true, data + Zeros(BLOCK - |data|))
    else
      Blocks(compress, wide, Call(compress, wide, h, t + BLOCK, false, data[..BLOCK]), t + BLOCK, data[BLOCK..])
  }

  /** The first state word takes the digest length, the key length, and fanout and depth 1. */
  function Initial(nn: bv8, kk: bv8): (h: seq<bv8>)
    ensures |h| == 32
  {
    [IV[0] ^ nn, IV[1] ^ kk, IV[2] ^ 1, IV[3] ^ 1] + IV[4..]
  }

  function PadKey(key: seq<bv8>): (block: seq<bv8>)
    requires |key| <= BLOCK
    ensures |block| == BLOCK
  {
    key + Zeros(BLOCK - |key|)
  }

  /** The standard's keyed hash: the padded key is the first block when there is a key. */
  ghost function Rfc(compress: Compress, input: seq<bv8>, key: seq<bv8>, nn: nat): (output: seq<bv8>)
    requires IsCompress(compress) && |key| <= BLOCK && nn <= 32
    ensures |output| == nn
  {
    Blocks(compress, true, Initial(nn as bv8, |key| as bv8), 0, if key == [] then input else PadKey(key) + input)[..nn]
  }

  /** What the code computes: always a key block, and one counter word. */
  ghost function Digest(compress: Compress, input: seq<bv8>, key: seq<bv8>, nn: nat): (output: seq<bv8>)
    requires IsCompress(compress) && |key| <= BLOCK && nn <= 32
    ensures |output| == nn
  {
    Blocks(compress, false, Initial(nn as bv8, |key| as bv8), 0, PadKey(key) + input)[..nn]
  }

  /** The initial value is that of SHA-256, low byte first. */
  lemma InitialWords()
    ensures |IV| == 32
    ensures Sha256Block.Word([IV[3], IV[2], IV[1], IV[0]]) == Sha256.H0[0]
    ensures Sha256Block.Word([IV[7], IV[6], IV[5], IV[4]]) == Sha256.H0[1]
    ensures Sha256Block.Word([IV[11], IV[10], IV[9], IV[8]]) == Sha256.H0[2]
    ensures Sha256Block.Word([IV[15], IV[14], IV[13], IV[12]]) == Sha256.H0[3]
    ensures Sha256Block.Word([IV[19], IV[18], IV[17], IV[16]]) == Sha256.H0[4]
    ensures Sha256Block.Word([IV[23], IV[22], IV[21], IV[20]]) == Sha256.H0[5]
    ensures Sha256Block.Word([IV[27], IV[26], IV[25], IV[24]]) == Sha256.H0[6]
    ensures Sha256Block.Word([IV[31], IV[30], IV[29], IV[28]]) == Sha256.H0[7]
  {
    LowInitialWords();
    HighInitialWords();
    hide Sha256Block.Word;
  }

  lemma LowInitialWords()
    ensures Sha256Block.Word([IV[3], IV[2], IV[1], IV[0]]) == Sha256.H0[0]
    ensures Sha256Block.Word([IV[7], IV[6], IV[5], IV[4]]) == Sha256.H0[1]
    ensures Sha256Block.Word([IV[11], IV[10], IV[9], IV[8]]) == Sha256.H0[2]
    ensures Sha256Block.Word([IV[15], IV[14], IV[13], IV[12]]) == Sha256.H0[3]
  {
  }

  lemma HighInitialWords()
    ensures Sha256Block.Word([IV[19], IV[18], IV[17], IV[16]]) == Sha256.H0[4]
    ensures Sha256Block.Word([IV[23], IV[22], IV[21], IV[20]]) == Sha256.H0[5]
    ensures Sha256Block.Word([IV[27], IV[26], IV[25], IV[24]]) == Sha256.H0[6]
    ensures Sha256Block.Word([IV[31], IV[30], IV[29], IV[28]]) == Sha256.H0[7]
  {
  }

  /** The first state word of a 32-byte digest under a 32-byte key, 0x6a09e667 ^ 0x01012020. */
  lemma InitialExample()
    ensures Initial(32, 32)[..4] == [0x47, 0xc6, 0x08, 0x6b] && Initial(32, 32)[4..] == IV[4..]
  {
  }

  /** The parameters enter by xor. */
  lemma InitialParameters(nn: bv8, kk: bv8)
    ensures Initial(nn, kk)[0] == 0x67 ^ nn && Initial(nn, kk)[1] == 0xe6 ^ kk
    ensures Initial(nn, kk)[2] == 0x08 && Initial(nn, kk)[3] == 0x6b && Initial(nn, kk)[4..] == IV[4..]
  {
  }

  lemma BlocksUnfold(compress: Compress, wide: bool, h: seq<bv8>, t: nat, data: seq<bv8>)
    requires IsCompress(compress) && t + |data| < B32
    ensures |data| <= 64 ==>
      Blocks(compress, wide, h, t, data) == compress(h, t + |data|, 0, true, data + seq(64 - |data|, _ => 0))
    ensures |data| > 64 ==>
      Blocks(compress, wide, h, t, data)
          == Blocks(compress, wide, compress(h, t + 64, 0, false, data[..64]), t + 64, data[64..])
  {
    if |data| <= 64 {
      assert Zeros(64 - |data|) == seq(64 - |data|, _ => 0 as bv8);
    }
  }

  /** Inputs of no block, one and two, call by call: the key block, then the input, the counter
      going up by the bytes taken in and the last call marked last. */
  lemma SmallInputs(compress: Compress, input: seq<bv8>, key: seq<bv8>, nn: nat)
    requires IsCompress(compress) && 0 < |key| <= BLOCK && nn <= 32 && |input| <= 128
    ensures var h := Initial(nn as bv8, |key| as bv8); var k := key + seq(64 - |key|, _ => 0);
      var first := compress(h, 64, 0, false, k);
      && (input == [] ==> Rfc(compress, input, key, nn) == compress(h, 64, 0, true, k)[..nn])
      && (0 < |input| <= 64 ==>
            Rfc(compress, input, key, nn)
                == compress(first, 64 + |input|, 0, true, input + seq(64 - |input|, _ => 0))[..nn])
      && (|input| > 64 ==>
            Rfc(compress, input, key, nn)
                == compress(compress(first, 128, 0, false, input[..64]), 64 + |input|, 0, true,
                    input[64..] + seq(128 - |input|, _ => 0))[..nn])
  {
    hide Initial, Blocks;
    var h, k := Initial(nn as bv8, |key| as bv8), PadKey(key);
    assert k == key + seq(64 - |key|, _ => 0);
    assert IsCompress(compress);
    BlocksUnfold(compress, true, h, 0, k + input);
    if input == [] {
      assert k + input == k && k + seq(0, _ => 0) == k;
    } else {
      assert (k + input)[..64] == k && (k + input)[64..] == input;
      var first := compress(h, 64, 0, false, k);
      BlocksUnfold(compress, true, first, 64, input);
      if |input| > 64 {
        BlocksUnfold(compress, true, compress(first, 128, 0, false, input[..64]), 128, input[64..]);
      }
    }
  }

  lemma {:induction false} NarrowCounter(compress: Compress, h: seq<bv8>, t: nat, data: seq<bv8>)
    requires IsCompress(compress) && t + |data| < B32
    ensures Blocks(compress, false, h, t, data) == Blocks(compress, true, h, t, data)
    decreases |data|
  {
    if |data| > BLOCK {
      NarrowCounter(compress, Call(compress, true, h, t + BLOCK, false, data[..BLOCK]), t + BLOCK, data[BLOCK..]);
    }
  }

  /** The result is a compression flagged last, at the counter of all the data. */
  lemma {:induction false} LastCall(compress: Compress, wide: bool, h: seq<bv8>, t: nat, data: seq<bv8>)
    returns (before: seq<bv8>, block: seq<bv8>)
    requires IsCompress(compress)
    ensures |block| == BLOCK && Blocks(compress, wide, h, t, data)
        == Call(compress, wide, before, t + |data|, true, block)
    decreases |data|
  {
    if |data| <= BLOCK {
      before, block := h, data + Zeros(BLOCK - |data|);
    } else {
      before, block := LastCall(compress, wide, Call(compress, wide, h, t + BLOCK, false, data[..BLOCK]), t + BLOCK,
          data[BLOCK..]);
    }
  }

  /** A compression that shows only whether its counter words are these. */
  ghost function Probe(low: nat, high: nat): (compress: Compress)
    ensures IsCompress(compress)
  {
    (h, t0, t1, last, block) => seq(32, _ => if t0 == low && t1 == high then 1 as bv8 else 0)
  }

  lemma ProbeShows(low: nat, high: nat, wide: bool, h: seq<bv8>, data: seq<bv8>)
    ensures Blocks(Probe(low, high), wide, h, 0, data)[0]
            == if |data| % B32 == low && (if wide then |data| / B32 else 0) == high then 1 else 0
  {
    var before, block := LastCall(Probe(low, high), wide, h, 0, data);
  }

  lemma Differs(input: seq<bv8>, key: seq<bv8>, nn: nat) returns (compress: Compress)
    requires |key| <= BLOCK && 1 <= nn <= 32 && |input| < B32 && (key == [] || BLOCK + |input| >= B32)
    ensures IsCompress(compress) && Digest(compress, input, key, nn) != Rfc(compress, input, key, nn)
  {
    hide Blocks, Probe, IsCompress, Initial, PadKey;
    var total := BLOCK + |input|;
    compress := Probe(total % B32, 0);
    var h := Initial(nn as bv8, |key| as bv8);
    ProbeShows(total % B32, 0, false, h, PadKey(key) + input);
    ProbeShows(total % B32, 0, true, h, if key == [] then input else PadKey(key) + input);
    assert Digest(compress, input, key, nn)[0] != Rfc(compress, input, key, nn)[0];
  }

  /** The code meets the standard for every compression exactly when there is a key and
      the byte total stays below 2^32. */
  lemma DigestMeetsRfc(input: seq<bv8>, key: seq<bv8>, nn: nat)
    requires |key| <= BLOCK && 1 <= nn <= 32 && |input| < B32
    ensures (forall compress: Compress | IsCompress(compress) ::
               Digest(compress, input, key, nn) == Rfc(compress, input, key, nn))
            <==> (key != [] && BLOCK + |input| < B32)
  {
    if key != [] && BLOCK + |input| < B32 {
      forall compress: Compress | IsCompress(compress)
        ensures Digest(compress, input, key, nn) == Rfc(compress, input, key, nn)
      {
        NarrowCounter(compress, Initial(nn as bv8, |key| as bv8), 0, PadKey(key) + input);
      }
    } else {
      var compress := Differs(input, key, nn);
    }
  }

  // ---------------------------------------------------------------- whole blocks

  predicate Whole(data: seq<bv8>) {
    |data| == 0 || (|data| >= BLOCK && Whole(data[BLOCK..]))
  }

  /** The state after whole blocks none of which is the last. */
  function Absorb(compress: Compress, wide: bool, h: seq<bv8>, t: nat, data: seq<bv8>): seq<bv8>
    requires Whole(data)
    decreases |data|
  {
    if data == [] then h
    else Absorb(compress, wide, Call(compress, wide, h, t + BLOCK, false, data[..BLOCK]), t + BLOCK, data[BLOCK..])
  }

  lemma {:induction false} AbsorbSnoc(compress: Compress, wide: bool, h: seq<bv8>, t: nat, data: seq<bv8>,
      block: seq<bv8>)
    requires Whole(data) && |block| == BLOCK
    ensures Whole(data + block)
    ensures Absorb(compress, wide, h, t, data + block)
            == Call(compress, wide, Absorb(compress, wide, h, t, data), t + |data| + BLOCK, false, block)
    decreases |data|
  {
    if data == [] {
      assert data + block == block && block[..BLOCK] == block && block[BLOCK..] == [];
    } else {
      AbsorbSnoc(compress, wide, Call(compress, wide, h, t + BLOCK, false, data[..BLOCK]), t + BLOCK, data[BLOCK..],
          block);
      assert (data + block)[..BLOCK] == data[..BLOCK] && (data + block)[BLOCK..] == data[BLOCK..] + block;
    }
  }

  lemma {:induction false} BlocksSplit(compress: Compress, wide: bool, h: seq<bv8>, t: nat, data: seq<bv8>,
      rest: seq<bv8>)
    requires IsCompress(compress) && Whole(data) && (rest != [] || data == [])
    ensures Blocks(compress, wide, h, t, data + rest)
            == Blocks(compress, wide, Absorb(compress, wide, h, t, data), t + |data|, rest)
    decreases |data|
  {
    if data == [] {
      assert data + rest == rest;
    } else {
      BlocksSplit(compress, wide, Call(compress, wide, h, t + BLOCK, false, data[..BLOCK]), t + BLOCK, data[BLOCK..],
          rest);
      assert (data + rest)[..BLOCK] == data[..BLOCK] && (data + rest)[BLOCK..] == data[BLOCK..] + rest;
    }
  }

  // ---------------------------------------------------------------- the buffered state

  /** h and t are the state after the absorbed blocks, and pending is the rest of the message. */
  ghost predicate Tracks(compress: Compress, start: seq<bv8>, absorbed: seq<bv8>, h: seq<bv8>, t: nat,
      pending: seq<bv8>, message: seq<bv8>)
  {
    && Whole(absorbed) && t == |absorbed| % B32 && h == Absorb(compress, false, start, 0, absorbed)
    && message == absorbed + pending
  }

  lemma TracksCompress(compress: Compress, start: seq<bv8>, absorbed: seq<bv8>, h: seq<bv8>, t: nat,
      pending: seq<bv8>, message: seq<bv8>)
    requires Tracks(compress, start, absorbed, h, t, pending, message) && |pending| > BLOCK
    ensures var t' := (t + BLOCK) % B32;
            Tracks(compress, start, absorbed + pending[..BLOCK], compress(h, t', 0, false, pending[..BLOCK]), t',
                   pending[BLOCK..], message)
  {
    AbsorbSnoc(compress, false, start, 0, absorbed, pending[..BLOCK]);
    assert pending == pending[..BLOCK] + pending[BLOCK..];
  }

  lemma TracksFinish(compress: Compress, start: seq<bv8>, absorbed: seq<bv8>, h: seq<bv8>, t: nat,
      pending: seq<bv8>, message: seq<bv8>)
    requires IsCompress(compress) && Tracks(compress, start, absorbed, h, t, pending, message)
    requires |pending| <= BLOCK && (pending == [] ==> absorbed == [])
    ensures compress(h, (t + |pending|) % B32, 0, true, pending + Zeros(BLOCK - |pending|))
            == Blocks(compress, false, start, 0, message)
  {
    hide Absorb, Whole, Blocks, IsCompress, Zeros;
    BlocksSplit(compress, false, start, 0, absorbed, pending);
    LastBlock(compress, h, |absorbed|, pending);
    SumModulo(|absorbed|, |pending|);
  }

  lemma SumModulo(a: nat, b: nat)
    ensures (a % B32 + b) % B32 == (a + b) % B32
  {
  }

  lemma LastBlock(compress: Compress, h: seq<bv8>, t: nat, pending: seq<bv8>)
    requires IsCompress(compress) && |pending| <= BLOCK
    ensures Blocks(compress, false, h, t, pending)
            == compress(h, (t + |pending|) % B32, 0, true, pending + Zeros(BLOCK - |pending|))
  {
  }

  class State {
    const compress: Compress
    var h: seq<bv8>
    var t: nat
    const buf: array<bv8>
    var buflen: nat
    /** The state at the start, the blocks compressed so far, and all bytes taken in. */
    ghost const start: seq<bv8>
    ghost var absorbed: seq<bv8>
    ghost var message: seq<bv8>

    ghost predicate Buffered()
      reads this, buf
    {
      && IsCompress(compress) && buf.Length == 2 * BLOCK && buflen <= 2 * BLOCK
      && Tracks(compress, start, absorbed, h, t, buf[..buflen], message)
    }

    /** Once a block is compressed, more than one block is held back. */
    ghost predicate Valid()
      reads this, buf
    {
      Buffered() && (absorbed != [] ==> buflen > BLOCK)
    }

    constructor (compress: Compress, h: seq<bv8>)
      requires IsCompress(compress)
      ensures Valid() && fresh(buf) && this.compress == compress && start == h && message == []
    {
      this.compress := compress;
      this.h := h;
      t := 0;
      buf := new bv8[2 * BLOCK];
      buflen := 0;
      start := h;
      absorbed := [];
      message := [];
    }

    /** What lies behind the first block moves to the front. */
    method ShiftLeft()
      requires buf.Length == 2 * BLOCK && BLOCK <= buflen <= 2 * BLOCK
      modifies this`buflen, buf
      ensures buflen == old(buflen) - BLOCK && buf[..buflen] == old(buf[BLOCK..buflen])
    {
      buflen := buflen - BLOCK;
      forall j | 0 <= j < buflen {
        buf[j] := buf[j + BLOCK];
      }
    }

    method CompressFirst()
      requires Buffered() && buflen > BLOCK
      modifies this, buf
      ensures Buffered() && message == old(message) && buflen == old(buflen) - BLOCK
    {
      ghost var pending := buf[..buflen];
      TracksCompress(compress, start, absorbed, h, t, pending, message);
      hide Tracks;
      var block := buf[..BLOCK];
      assert block == pending[..BLOCK] && buf[BLOCK..buflen] == pending[BLOCK..];
      t := (t + BLOCK) % B32;
      h := compress(h, t, 0, false, block);
      ShiftLeft();
      absorbed := absorbed + block;
    }

    method Append(input: seq<bv8>)
      requires Buffered() && |input| <= 2 * BLOCK - buflen
      modifies this, buf
      ensures Buffered() && message == old(message) + input && buflen == old(buflen) + |input|
          && absorbed == old(absorbed)
    {
      ghost var before := buf[..buflen];
      forall j | 0 <= j < |input| {
        buf[buflen + j] := input[j];
      }
      buflen := buflen + |input|;
      assert buf[..buflen] == before + input;
      message := message + input;
    }

    /** Any number of updates of any sizes only appends to the message. */
    method Update(input: seq<bv8>)
      requires Valid()
      modifies this, buf
      ensures Valid() && message == old(message) + input
    {
      hide Tracks, IsCompress;
      var i := 0;
      assert message == old(message) + input[..0];
      while i < |input|
        invariant 0 <= i <= |input| && Buffered()
        invariant absorbed != [] ==> buflen >= BLOCK && (i == |input| ==> buflen > BLOCK)
        invariant message == old(message) + input[..i]
        decreases |input| - i, buflen
      {
        var fill := 2 * BLOCK - buflen;
        if |input| - i > fill {
          assert input[..i] + input[i..i + fill] == input[..i + fill];
          Append(input[i..i + fill]);
          CompressFirst();
          i := i + fill;
        } else {
          assert input[..i] + input[i..] == input[..|input|];
          Append(input[i..]);
          i := |input|;
        }
      }
      assert input[..i] == input;
    }

    method ErasePast()
      requires buf.Length == 2 * BLOCK && buflen <= BLOCK
      modifies buf
      ensures buf[..BLOCK] == old(buf[..buflen]) + Zeros(BLOCK - buflen)
    {
      forall j | buflen <= j < 2 * BLOCK {
        buf[j] := 0;
      }
    }

    /** The digest of everything taken in. */
    method Finish()
      requires Valid()
      modifies this, buf
      ensures h == Blocks(compress, false, start, 0, old(message))
    {
      hide Tracks, IsCompress, Blocks;
      if buflen > BLOCK {
        CompressFirst();
      }
      TracksFinish(compress, start, absorbed, h, t, buf[..buflen], message);
      t := (t + buflen) % B32;
      ErasePast();
      h := compress(h, t, 0, true, buf[..BLOCK]);
    }
  }

  /** The whole keyed hash. */
  method Hash(compress: Compress, input: seq<bv8>, key: seq<bv8>, nn: nat) returns (output: seq<bv8>)
    requires IsCompress(compress) && |key| <= BLOCK && nn <= 32
    ensures output == Digest(compress, input, key, nn)
  {
    var S := new State(compress, Initial(nn as bv8, |key| as bv8));
    S.Update(PadKey(key));
    S.Update(input);
    assert S.message == PadKey(key) + input;
    S.Finish();
    output := S.h[..nn];
  }
}
