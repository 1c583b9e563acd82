/** Streaming SHA-256 (sha256.h): a context fed in pieces of any sizes gives the digest of
    the padded whole message, sections 5.1.1 and 6.2.2 of FIPS 180-4. */
module Sha256 {
  import opened Numbers
  import opened Bits
  import opened Rows
  import opened Sha256Block


  const H0: seq<bv32> := [
    0x6A09E667, 0xBB67AE85, 0x3C6EF372, 0xA54FF53A, 0x510E527F, 0x9B05688C, 0x1F83D9AB, 0x5BE0CD19]

  // ---------------------------------------------------------------- the one-shot hash

  function Fold(h: seq<bv32>, data: seq<bv8>): (h': seq<bv32>)
    requires |h| == 8 && |data| % 64 == 0
    ensures |h'| == 8
    decreases |data|
  {
    if data == [] then h else Fold(Compress(h, data[..64]), data[64..])
  }

  lemma {:induction false} FoldConcat(h: seq<bv32>, data: seq<bv8>, more: seq<bv8>)
    requires |h| == 8 && |data| % 64 == |more| % 64 == 0
    ensures Fold(h, data + more) == Fold(Fold(h, data), more)
    decreases |data|
  {
    if data == [] {
      assert data + more == more;
    } else {
      hide Compress;
      FoldConcat(Compress(h, data[..64]), data[64..], more);
      assert (data + more)[..64] == data[..64] && (data + more)[64..] == data[64..] + more;
    }
  }

  lemma FoldSnoc(h: seq<bv32>, data: seq<bv8>, block: seq<bv8>)
    requires |h| == 8 && |data| % 64 == 0 && |block| == 64
    ensures Fold(h, data + block) == Compress(Fold(h, data), block)
  {
    hide Compress;
    FoldConcat(h, data, block);
    assert block[..64] == block && block[64..] == [];
  }

  function NatBytes(x: nat): (p: seq<bv8>)
    requires x < B32
    ensures |p| == 4
  {
    Bytes(x as bv32)
  }

  /** A bit count as its two big-endian words. */
  function LengthBytes(bits: nat): (p: seq<bv8>)
    requires bits < B64
    ensures |p| == 8
  {
    NatBytes(bits / B32) + NatBytes(bits % B32)
  }

  /** How many zero bytes follow the byte 0x80: the least number that leaves 56 modulo 64. */
  function ZeroBytes(n: nat): (k: nat)
    ensures k < 64 && (n + 1 + k) % 64 == 56
  {
    if n % 64 < 56 then 55 - n % 64 else 119 - n % 64
  }

  /** The bit count is taken modulo 2^64; below 2^61 bytes that is the count itself. */
  function Pad(message: seq<bv8>): (p: seq<bv8>)
    ensures |p| % 64 == 0
  {
    PadSize(|message|);
    message + [0x80] + seq(ZeroBytes(|message|), _ => 0) + LengthBytes(8 * |message| % B64)
  }

  lemma PadSize(n: nat)
    ensures (n + 1 + ZeroBytes(n) + 8) % 64 == 0
  {
    hide ZeroBytes;
    var m := n + 1 + ZeroBytes(n);
    DivModUnique(m + 8, 64, m / 64 + 1, 0);
  }

  function EncodeWords(s: seq<bv32>): (p: seq<bv8>)
    ensures |p| == 4 * |s|
  {
    Flatten(seq(|s|, k requires 0 <= k < |s| => Bytes(s[k])), 4)
  }

  function Digest(message: seq<bv8>): (d: seq<bv8>)
    ensures |d| == 32
  {
    EncodeWords(Fold(H0, Pad(message)))
  }

  // ---------------------------------------------------------------- the invariant

  /** state is the hash of the absorbed blocks and pending is the rest of the message. */
  ghost predicate Tracks(state: seq<bv32>, absorbed: seq<bv8>, pending: seq<bv8>, message: seq<bv8>) {
    |absorbed| % 64 == 0 && message == absorbed + pending && state == Fold(H0, absorbed)
  }

  lemma TracksAppend(state: seq<bv32>, absorbed: seq<bv8>, pending: seq<bv8>, message: seq<bv8>, src: seq<bv8>)
    requires Tracks(state, absorbed, pending, message)
    ensures Tracks(state, absorbed, pending + src, message + src)
  {
  }

  lemma TracksBlock(state: seq<bv32>, absorbed: seq<bv8>, pending: seq<bv8>, message: seq<bv8>)
    requires Tracks(state, absorbed, pending, message) && |pending| >= 64 && |state| == 8
    ensures Tracks(Compress(state, pending[..64]), absorbed + pending[..64], pending[64..], message)
  {
    hide Compress, Fold;
    FoldSnoc(H0, absorbed, pending[..64]);
    assert pending == pending[..64] + pending[64..];
  }

  lemma TracksLength(state: seq<bv32>, absorbed: seq<bv8>, pending: seq<bv8>, message: seq<bv8>)
    requires Tracks(state, absorbed, pending, message)
    ensures |message| == |absorbed| + |pending|
  {
  }

  lemma PendingSize(absorbed: seq<bv8>, pending: seq<bv8>, message: seq<bv8>)
    requires |absorbed| % 64 == 0 && message == absorbed + pending && |pending| < 64
    ensures |pending| == |message| % 64
  {
  }

  // ---------------------------------------------------------------- the bit counter

  /** The two words hold the number of bits modulo 2^64. */
  ghost predicate Counts(high: nat, low: nat, bytes: nat) {
    high < B32 && low < B32 && high * B32 + low == 8 * bytes % B64
  }

  const W29 := 0x2000_0000

  lemma LowBits(len: nat, q: nat, r: nat)
    requires len == q * W29 + r && r < W29
    ensures len % B32 * 8 % B32 == 8 * r
  {
    var g, t := q / 8, q % 8;
    DivModUnique(len, B32, g, t * W29 + r);
    DivModUnique((t * W29 + r) * 8, B32, t, 8 * r);
  }

  lemma HighBits(len: nat, q: nat, r: nat)
    requires len == q * W29 + r && r < W29
    ensures 8 * len % B64 == q % B32 * B32 + 8 * r
  {
    var h, l := q / B32, q % B32;
    DivModUnique(8 * len, B64, h, l * B32 + 8 * r);
  }

  /** The two words of a length in bits. */
  lemma SplitBits(len: nat)
    ensures 8 * len % B64 == len / W29 % B32 * B32 + len % B32 * 8 % B32
  {
    LowBits(len, len / W29, len % W29);
    HighBits(len, len / W29, len % W29);
  }

  lemma AddModulo(a: nat, b: nat, x: nat, y: nat)
    requires x == a % B64 && y == b % B64
    ensures (a + b) % B64 == if x + y < B64 then x + y else x + y - B64
  {
    DivModUnique(a + b, B64, a / B64 + b / B64 + (if x + y < B64 then 0 else 1), if x + y < B64 then x + y
        else x + y - B64);
  }

  lemma Wraps(x: nat)
    requires x < 2 * B32
    ensures x % B32 == if x < B32 then x else x - B32
  {
    DivModUnique(x, B32, if x < B32 then 0 else 1, if x < B32 then x else x - B32);
  }

  /** Adding two two-word numbers with the carry found by comparison. */
  method AddWords(high: nat, low: nat, b0: nat, b1: nat) returns (high': nat, low': nat)
    requires high < B32 && low < B32 && b0 < B32 && b1 < B32
    ensures high' < B32 && low' < B32
    ensures var sum := high * B32 + low + (b0 * B32 + b1);
            high' * B32 + low' == if sum < B64 then sum else sum - B64
  {
    Wraps(low + b1);
    low' := (low + b1) % B32;
    high' := high;
    if low' < b1 {
      Wraps(high + 1);
      high' := (high + 1) % B32;
    }
    Wraps(high' + b0);
    high' := (high' + b0) % B32;
  }

  /** The counter of SHA256_Update: exact modulo 2^64, across the carry between the words. */
  method AddBits(high: nat, low: nat, len: nat, ghost bytes: nat) returns (high': nat, low': nat)
    requires Counts(high, low, bytes) && len < B64
    ensures Counts(high', low', bytes + len)
  {
    SplitBits(len);
    AddModulo(8 * bytes, 8 * len, high * B32 + low, len / W29 % B32 * B32 + len % B32 * 8 % B32);
    high', low' := AddWords(high, low, len / W29 % B32, len % B32 * 8 % B32);
  }

  /** Bytes waiting in the buffer, read off the low counter word. */
  method Waiting(high: nat, low: nat, ghost bytes: nat) returns (r: nat)
    requires Counts(high, low, bytes)
    ensures r == bytes % 64
  {
    r := BitAnd(low / 8, 63);
    assert PowerOfTwo(4) && PowerOfTwo(16) && PowerOfTwo(64);
    AndPower(low / 8, 64);
    LowWord(high, low, bytes);
  }

  lemma LowWord(high: nat, low: nat, bytes: nat)
    requires Counts(high, low, bytes)
    ensures low / 8 % 64 == bytes % 64
  {
    var q := 8 * bytes / B64;
    assert 8 * bytes == (q * B32 + high) * B32 + low;
    var g := q * B32 + high;
    assert low / 8 == bytes - g * W29;
    DivModUnique(bytes, 64, (bytes - g * W29) / 64 + g * 0x80_0000, (bytes - g * W29) % 64);
  }

  // ---------------------------------------------------------------- the context

  class Context {
    const state: array<bv32>
    const buf: array<bv8>
    var high: nat
    var low: nat
    /** All bytes taken in, and those of them already compressed. */
    ghost var message: seq<bv8>
    ghost var absorbed: seq<bv8>

    ghost function Repr(): set<object> { {this, state, buf} }

    ghost predicate Valid()
      reads this, state, buf
    {
      && state.Length == 8 && buf.Length == 64 && Counts(high, low, |message|)
      && |absorbed| <= |message| < |absorbed| + 64
      && Tracks(state[..], absorbed, buf[..|message| - |absorbed|], message)
    }

    constructor ()
      ensures state.Length == 8 && buf.Length == 64 && fresh(state) && fresh(buf)
    {
      state := new bv32[8];
      buf := new bv8[64];
    }

    /** SHA256_Init. */
    method Init()
      requires state.Length == 8 && buf.Length == 64
      modifies this, state
      ensures Valid() && message == []
    {
      high, low := 0, 0;
      forall j | 0 <= j < 8 {
        state[j] := H0[j];
      }
      assert state[..] == H0;
      message, absorbed := [], [];
    }

    /** memcpy of a whole context. */
    method CopyFrom(other: Context)
      requires other.Valid() && state.Length == 8 && buf.Length == 64
      requires other != this && other.state != state && other.buf != buf
      modifies this, state, buf
      ensures Valid() && message == other.message
    {
      hide Counts, Tracks;
      high, low := other.high, other.low;
      forall j | 0 <= j < 8 {
        state[j] := other.state[j];
      }
      forall j | 0 <= j < 64 {
        buf[j] := other.buf[j];
      }
      message, absorbed := other.message, other.absorbed;
      assert state[..] == old(other.state[..]);
      assert buf[..|message| - |absorbed|] == old(other.buf[..|other.message| - |other.absorbed|]);
    }

    /** memcpy into the buffer. */
    method Store(at: nat, src: seq<bv8>)
      requires buf.Length == 64 && at + |src| <= 64
      modifies buf
      ensures buf[..at + |src|] == old(buf[..at]) + src
    {
      forall j | 0 <= j < |src| {
        buf[at + j] := src[j];
      }
    }

    /** SHA256_Update. */
    method Update(src: seq<bv8>)
      requires Valid() && |src| < B64
      modifies this, state, buf
      ensures Valid() && message == old(message) + src
    {
      hide Counts, Fold, Compress;
      var r := Waiting(high, low, |message|);
      PendingSize(absorbed, buf[..|message| - |absorbed|], message);
      high, low := AddBits(high, low, |src|, |message|);
      TracksAppend(state[..], absorbed, buf[..r], message, src);
      message := message + src;
      if |src| < 64 - r {
        Store(r, src);
      } else {
        Blocks(r, src);
      }
    }

    /** The part of the update that compresses: the started block, the whole blocks of the
        input, and what is left goes to the buffer. */
    method Blocks(r: nat, src: seq<bv8>)
      requires state.Length == 8 && buf.Length == 64 && r < 64 && 64 - r <= |src|
      requires Tracks(state[..], absorbed, buf[..r] + src, message)
      modifies this`absorbed, state, buf
      ensures |absorbed| <= |message| < |absorbed| + 64
      ensures Tracks(state[..], absorbed, buf[..|message| - |absorbed|], message)
    {
      hide Tracks, Fold, Compress;
      ghost var pending := buf[..r] + src;
      TracksBlock(state[..], absorbed, pending, message);
      Store(r, src[..64 - r]);
      assert buf[..] == pending[..64];
      Transform(state, buf[..]);
      absorbed := absorbed + pending[..64];
      assert pending[64..] == src[64 - r..];
      var i := WholeBlocks(64 - r, src);
      TracksLength(state[..], absorbed, src[i..], message);
      ghost var hashed := state[..];
      Store(0, src[i..]);
      assert state[..] == hashed && buf[..|src| - i] == src[i..];
    }

    /** The whole blocks of the input from i on. */
    method WholeBlocks(start: nat, src: seq<bv8>) returns (i: nat)
      requires state.Length == 8 && start <= |src| && Tracks(state[..], absorbed, src[start..], message)
      modifies this`absorbed, state
      ensures i <= |src| < i + 64 && Tracks(state[..], absorbed, src[i..], message)
    {
      hide Tracks, Fold, Compress;
      i := start;
      while |src| - i >= 64
        invariant i <= |src| && Tracks(state[..], absorbed, src[i..], message)
      {
        TracksBlock(state[..], absorbed, src[i..], message);
        assert src[i..][..64] == src[i..i + 64] && src[i..][64..] == src[i + 64..];
        Transform(state, src[i..i + 64]);
        absorbed := absorbed + src[i..i + 64];
        i := i + 64;
      }
    }

    /** SHA256_Pad: the length is taken before the padding changes the counter. */
    method PadMessage()
      requires Valid()
      modifies this, state, buf
      ensures state.Length == 8 && state[..] == Fold(H0, Pad(old(message)))
    {
      hide Counts, Fold, Compress;
      ghost var m := message;
      var len := EncodeCount(high, low, |message|);
      var r := Waiting(high, low, |message|);
      var plen := if r < 56 then 56 - r else 120 - r;
      Update(PAD[..plen]);
      Update(len);
      PaddedMessage(m, plen);
      TracksWhole(state[..], absorbed, buf[..|message| - |absorbed|], message);
    }

    /** SHA256_Final. */
    method Final() returns (digest: seq<bv8>)
      requires Valid()
      modifies this, state, buf
      ensures digest == Digest(old(message))
      ensures state.Length == 8 && buf.Length == 64
    {
      hide Fold;
      PadMessage();
      digest := EncodeVect(state[..]);
    }
  }

  const PAD: seq<bv8> := [0x80] + seq(63, _ => 0)

  method EncodeCount(high: nat, low: nat, ghost bytes: nat) returns (len: seq<bv8>)
    requires Counts(high, low, bytes)
    ensures len == LengthBytes(8 * bytes % B64)
  {
    hide NatBytes;
    DivModUnique(8 * bytes % B64, B32, high, low);
    len := NatBytes(high) + NatBytes(low);
  }

  lemma PaddedMessage(m: seq<bv8>, plen: nat)
    requires plen == if |m| % 64 < 56 then 56 - |m| % 64 else 120 - |m| % 64
    ensures m + PAD[..plen] + LengthBytes(8 * |m| % B64) == Pad(m)
  {
    hide LengthBytes;
    assert PAD[..plen] == [0x80] + seq(plen - 1, _ => 0);
  }

  lemma TracksWhole(state: seq<bv32>, absorbed: seq<bv8>, pending: seq<bv8>, message: seq<bv8>)
    requires Tracks(state, absorbed, pending, message) && |pending| < 64 && |message| % 64 == 0
    ensures state == Fold(H0, message)
  {
    hide Fold;
    PendingSize(absorbed, pending, message);
    assert pending == [] && message == absorbed;
  }

  /** be32enc_vect. */
  method EncodeVect(src: seq<bv32>) returns (dst: seq<bv8>)
    ensures dst == EncodeWords(src)
  {
    var a := new bv8[4 * |src|];
    var i := 0;
    while i < |src|
      invariant 0 <= i <= |src|
      invariant forall k: nat :: k < i ==> Row(a[..], 4, k) == Bytes(src[k])
    {
      hide Bytes;
      CopyRow(a, 4, i, Bytes(src[i]), |src|);
      i := i + 1;
    }
    FlattenIs(seq(|src|, k requires 0 <= k < |src| => Bytes(src[k])), 4, a[..]);
    dst := a[..];
  }

  /** A message fed in any pieces, empty ones included, has the one-shot digest. */
  method HashPieces(pieces: seq<seq<bv8>>) returns (digest: seq<bv8>)
    requires forall i :: 0 <= i < |pieces| ==> |pieces[i]| < B64
    ensures digest == Digest(Concat(pieces))
  {
    var ctx := new Context();
    ctx.Init();
    var i := 0;
    while i < |pieces|
      invariant 0 <= i <= |pieces| && ctx.Valid() && ctx.message == Concat(pieces[..i])
      invariant fresh(ctx) && fresh(ctx.state) && fresh(ctx.buf)
    {
      ctx.Update(pieces[i]);
      assert pieces[..i + 1][..i] == pieces[..i];
      i := i + 1;
    }
    assert pieces[..i] == pieces;
    digest := ctx.Final();
  }

  function Concat(pieces: seq<seq<bv8>>): seq<bv8> {
    if pieces == [] then [] else Concat(pieces[..|pieces| - 1]) + pieces[|pieces| - 1]
  }

  /** Below 2^61 bytes the padding ends with the length itself, in bits. */
  lemma LengthExact(message: seq<bv8>)
    requires |message| < 0x2000_0000_0000_0000
    ensures Pad(message) == message + [0x80] + seq(ZeroBytes(|message|), _ => 0) + LengthBytes(8 * |message|)
  {
    hide LengthBytes, ZeroBytes;
    DivModUnique(8 * |message|, B64, 0, 8 * |message|);
  }
}
