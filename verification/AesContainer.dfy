/** The OpenAES container (oaes_lib.c): a header, the initial vector, and the padded data
    in ECB or CBC (section 6.2 of NIST SP 800-38A), over messages that chain their vectors. */
module AesContainer {
  import opened Wrappers
  import opened Buffers
  import AesField
  import AesBlock

  /** The 16-bit option word by its two bytes in memory, the low one first. */
  datatype Options = Word(lo: bv8, hi: bv8)

  const ECB := Word(1, 0)
  const CBC := Word(2, 0)

  predicate Chained(options: Options) { options.lo & 2 != 0 }

  datatype Error = Arg2 | Arg3 | NoKey | Buf | BadHeader
  datatype Result = Ok(m: seq<bv8>) | Err(e: Error)

  /** A substitution box with its inverse, and n round keys. */
  datatype Key = Key(sub: bv8 -> bv8, inv: bv8 -> bv8, exp: seq<bv8>, n: nat)

  ghost predicate BoxInverse(k: Key, x: bv8) { k.inv(k.sub(x)) == x }

  predicate Sized(k: Key) { k.n >= 2 && |k.exp| == 16 * k.n }

  ghost predicate ValidKey(k: Key) {
    Sized(k) && forall x :: BoxInverse(k, x)
  }

  function BlockCipher(k: Key): AesBlock.Cipher<bv8> { AesBlock.Cipher(AesField.Bytes(), k.sub, k.inv) }

  function E(k: Key, b: seq<bv8>): (r: seq<bv8>)
    requires Sized(k) && |b| == 16
    ensures |r| == 16
  {
    AesBlock.Encrypt(BlockCipher(k), k.exp, k.n, b)
  }

  function D(k: Key, b: seq<bv8>): (r: seq<bv8>)
    requires Sized(k) && |b| == 16
    ensures |r| == 16
  {
    AesBlock.Decrypt(BlockCipher(k), k.exp, k.n, b)
  }

  lemma ProperKey(k: Key)
    requires ValidKey(k)
    ensures AesBlock.Proper(BlockCipher(k))
  {
    hide AesField.Laws, AesField.Bytes;
    AesField.ByteLaws();
    forall x ensures AesBlock.BoxInverse(BlockCipher(k), x) {
      assert BoxInverse(k, x);
    }
  }

  lemma BlockRoundTrip(k: Key, b: seq<bv8>)
    requires ValidKey(k) && |b| == 16
    ensures D(k, E(k, b)) == b
  {
    ProperKey(k);
    hide AesBlock.Proper, AesBlock.Encrypt, AesBlock.Decrypt, BlockCipher;
    AesBlock.DecryptEncrypt(BlockCipher(k), k.exp, k.n, b);
  }

  // ---------------------------------------------------------------- chaining

  function Mask(cbc: bool, b: seq<bv8>, iv: seq<bv8>): (r: seq<bv8>)
    requires |b| == |iv| == 16
    ensures |r| == 16
  {
    if cbc then XorBytes(b, iv) else b
  }

  lemma MaskTwice(cbc: bool, b: seq<bv8>, iv: seq<bv8>)
    requires |b| == |iv| == 16
    ensures Mask(cbc, Mask(cbc, b, iv), iv) == b
  {
    forall i | 0 <= i < 16 ensures Mask(cbc, Mask(cbc, b, iv), iv)[i] == b[i] {
      XorTwice(b[i], iv[i]);
    }
  }

  lemma XorTwice(x: bv8, y: bv8)
    ensures (x ^ y) ^ y == x
  {
  }

  /** The encrypted blocks; each is the vector of the next one in CBC. */
  function Chain(k: Key, cbc: bool, iv: seq<bv8>, data: seq<bv8>): (out: seq<bv8>)
    requires Sized(k) && |iv| == 16
    decreases |data|
  {
    if |data| < 16 then []
    else
      var c := E(k, Mask(cbc, data[..16], iv));
      c + Chain(k, cbc, c, data[16..])
  }

  function Unchain(k: Key, cbc: bool, iv: seq<bv8>, out: seq<bv8>): (data: seq<bv8>)
    requires Sized(k) && |iv| == 16
    decreases |out|
  {
    if |out| < 16 then [] else Mask(cbc, D(k, out[..16]), iv) + Unchain(k, cbc, out[..16], out[16..])
  }

  lemma {:induction false} ChainSize(k: Key, cbc: bool, iv: seq<bv8>, data: seq<bv8>)
    requires Sized(k) && |iv| == 16 && |data| % 16 == 0
    ensures |Chain(k, cbc, iv, data)| == |Unchain(k, cbc, iv, data)| == |data|
    decreases |data|
  {
    hide E, D, Mask, Sized;
    if data != [] {
      OneLess(|data|);
      ChainSize(k, cbc, E(k, Mask(cbc, data[..16], iv)), data[16..]);
      ChainSize(k, cbc, data[..16], data[16..]);
    }
  }

  lemma OneLess(n: nat)
    requires n % 16 == 0 && n > 0
    ensures n >= 16 && (n - 16) % 16 == 0
  {
  }

  lemma {:induction false} UnchainChain(k: Key, cbc: bool, iv: seq<bv8>, data: seq<bv8>)
    requires ValidKey(k) && |iv| == 16 && |data| % 16 == 0
    ensures Unchain(k, cbc, iv, Chain(k, cbc, iv, data)) == data
    decreases |data|
  {
    hide E, D, Mask;
    if data != [] {
      OneLess(|data|);
      var x := Mask(cbc, data[..16], iv);
      var c := E(k, x);
      var out := Chain(k, cbc, iv, data);
      assert out[..16] == c && out[16..] == Chain(k, cbc, c, data[16..]);
      UnchainChain(k, cbc, c, data[16..]);
      BlockRoundTrip(k, x);
      MaskTwice(cbc, data[..16], iv);
      assert data == data[..16] + data[16..];
    }
  }

  /** The vector that follows some encrypted blocks. */
  function LastIv(iv: seq<bv8>, out: seq<bv8>): (r: seq<bv8>)
    requires |iv| == 16
    ensures |r| == 16
  {
    if |out| < 16 then iv else out[|out| - 16..]
  }

  lemma LastIvShift(iv: seq<bv8>, c: seq<bv8>, rest: seq<bv8>)
    requires |iv| == |c| == 16 && (rest == [] || |rest| >= 16)
    ensures LastIv(iv, c + rest) == LastIv(c, rest)
  {
  }

  lemma {:induction false} ChainSnoc(k: Key, cbc: bool, iv: seq<bv8>, data: seq<bv8>, b: seq<bv8>)
    requires Sized(k) && |iv| == 16 && |data| % 16 == 0 && |b| == 16
    ensures var out := Chain(k, cbc, iv, data);
            Chain(k, cbc, iv, data + b) == out + E(k, Mask(cbc, b, LastIv(iv, out)))
    decreases |data|
  {
    hide E, Mask, LastIv, Sized;
    if data == [] {
      assert data + b == b && b[..16] == b && b[16..] == [];
      FirstIv(iv);
    } else {
      OneLess(|data|);
      var c := E(k, Mask(cbc, data[..16], iv));
      ChainSnoc(k, cbc, c, data[16..], b);
      assert (data + b)[..16] == data[..16] && (data + b)[16..] == data[16..] + b;
      var rest := Chain(k, cbc, c, data[16..]);
      LastIvShift(iv, c, rest);
    }
  }

  lemma FirstIv(iv: seq<bv8>)
    requires |iv| == 16
    ensures LastIv(iv, []) == iv
  {
  }

  lemma {:induction false} UnchainSnoc(k: Key, cbc: bool, iv: seq<bv8>, out: seq<bv8>, c: seq<bv8>)
    requires Sized(k) && |iv| == 16 && |out| % 16 == 0 && |c| == 16
    ensures Unchain(k, cbc, iv, out + c) == Unchain(k, cbc, iv, out) + Mask(cbc, D(k, c), LastIv(iv, out))
    decreases |out|
  {
    hide D, Mask, LastIv, Sized;
    if out == [] {
      assert out + c == c && c[..16] == c && c[16..] == [];
      FirstIv(iv);
    } else {
      OneLess(|out|);
      UnchainSnoc(k, cbc, out[..16], out[16..], c);
      assert (out + c)[..16] == out[..16] && (out + c)[16..] == out[16..] + c;
      assert out == out[..16] + out[16..];
      LastIvShift(iv, out[..16], out[16..]);
    }
  }

  // ---------------------------------------------------------------- padding and header

  function PadLen(n: nat): (p: nat)
    ensures p < 16
  {
    if n % 16 == 0 then 0 else 16 - n % 16
  }

  lemma PadFits(n: nat)
    ensures (n + PadLen(n)) % 16 == 0 && (32 + (n + PadLen(n))) % 16 == 0
  {
    var q, r := n / 16, n % 16;
    assert n == 16 * q + r;
    assert n + PadLen(n) == 16 * (if r == 0 then q else q + 1);
  }

  /** The bytes 1, 2, 3, ... */
  function Padding(p: nat): (r: seq<bv8>)
    requires p < 16
    ensures |r| == p
  {
    TALLY[..p]
  }

  const TALLY: seq<bv8> := [1, 2, 3, 4, 5, 6, 7, 8, 9, 10, 11, 12, 13, 14, 15]

  lemma TallyAt(p: nat)
    requires 1 <= p <= 15
    ensures TALLY[p - 1] as nat == p
  {
  }

  function Padded(m: seq<bv8>): (r: seq<bv8>)
    ensures |r| == |m| + PadLen(|m|)
  {
    m + Padding(PadLen(|m|))
  }

  /** Undoing the padding from the count in the last byte. */
  function Strip(data: seq<bv8>): (r: Result)
    requires data != []
    ensures r.Err? ==> r.e == BadHeader
  {
    var p := data[|data| - 1] as nat;
    if 0 < p <= 15 && p <= |data| && data[|data| - p..] == Padding(p) then Ok(data[..|data| - p]) else Err(BadHeader)
  }

  lemma StripPadded(m: seq<bv8>)
    requires PadLen(|m|) > 0
    ensures Padded(m) != [] && Strip(Padded(m)) == Ok(m)
  {
    var p := PadLen(|m|);
    TallyAt(p);
    assert Padded(m)[|m| + p - 1] == TALLY[p - 1];
    assert Padded(m)[|m|..] == Padding(p) && Padded(m)[..|m|] == m;
  }

  function Header(options: Options, pad: bool): (h: seq<bv8>)
    ensures |h| == 16
  {
    [0x4f, 0x41, 0x45, 0x53, 1, 2, options.lo, options.hi, if pad then 1 else 0, 0, 0, 0, 0, 0, 0, 0]
  }

  function ReadOptions(c: seq<bv8>): Options
    requires |c| >= 16
  {
    Word(c[6], c[7])
  }

  /** No unknown option, not both modes, and some mode. */
  predicate ValidOptions(options: Options) {
    && options.hi == 0 && options.lo & 0xfc == 0
    && !(options.lo & 1 != 0 && options.lo & 2 != 0)
    && options != Word(0, 0)
  }

  lemma TwoModes(options: Options)
    ensures ValidOptions(options) <==> options == ECB || options == CBC
  {
  }

  predicate IsPadded(c: seq<bv8>)
    requires |c| >= 16
  {
    c[8] & 1 != 0
  }

  /** The tests oaes_decrypt makes on the first sixteen bytes. */
  predicate HeaderOk(c: seq<bv8>)
    requires |c| >= 16
  {
    && c[..4] == [0x4f, 0x41, 0x45, 0x53] && c[4] == 1 && c[5] == 2
    && ValidOptions(ReadOptions(c)) && c[8] & 0xfe == 0
  }

  lemma HeaderRead(options: Options, pad: bool, rest: seq<bv8>)
    ensures var c := Header(options, pad) + rest;
            ReadOptions(c) == options && IsPadded(c) == pad && (HeaderOk(c) <==> ValidOptions(options))
  {
    hide ValidOptions;
    var c := Header(options, pad) + rest;
    assert c[..4] == [0x4f, 0x41, 0x45, 0x53];
  }

  // ---------------------------------------------------------------- whole containers

  function Seal(k: Key, options: Options, iv: seq<bv8>, m: seq<bv8>): (c: seq<bv8>)
    requires Sized(k) && |iv| == 16
    ensures |c| == 32 + |m| + PadLen(|m|)
  {
    PadFits(|m|);
    ChainSize(k, Chained(options), iv, Padded(m));
    Header(options, PadLen(|m|) > 0) + iv + Chain(k, Chained(options), iv, Padded(m))
  }

  lemma DataSize(n: nat)
    requires n >= 32 && n % 16 == 0
    ensures (n - 32) % 16 == 0
  {
  }

  /** A well-formed header that claims padding over no data makes the code look before its
      buffer; that container is outside the model. */
  predicate Readable(c: seq<bv8>)
    requires |c| >= 32
  {
    HeaderOk(c) && IsPadded(c) ==> |c| > 32
  }

  /** What oaes_decrypt makes of a container of whole blocks. */
  function Open(k: Key, c: seq<bv8>): (r: Result)
    requires Sized(k) && |c| % 16 == 0 && |c| >= 32 && Readable(c)
    ensures r.Err? ==> r.e == BadHeader
  {
    if !HeaderOk(c) then Err(BadHeader)
    else
      var data := Unchain(k, Chained(ReadOptions(c)), c[16..32], c[32..]);
      DataSize(|c|);
      ChainSize(k, Chained(ReadOptions(c)), c[16..32], c[32..]);
      if IsPadded(c) then Strip(data) else Ok(data)
  }

  lemma SealParts(k: Key, options: Options, iv: seq<bv8>, m: seq<bv8>)
    requires Sized(k) && |iv| == 16
    ensures var c := Seal(k, options, iv, m);
            && c[16..32] == iv && c[32..] == Chain(k, Chained(options), iv, Padded(m))
            && ReadOptions(c) == options && IsPadded(c) == (PadLen(|m|) > 0) && (HeaderOk(c) <==> ValidOptions(options))
            && Readable(c)
  {
    hide Header, Chain, HeaderOk, ReadOptions, IsPadded;
    var out := Chain(k, Chained(options), iv, Padded(m));
    var h := Header(options, PadLen(|m|) > 0);
    HeaderRead(options, PadLen(|m|) > 0, iv + out);
    assert h + iv + out == h + (iv + out);
  }

  /** Opening what was sealed gives the message back exactly for the two mode words that
      oaes_set_option can leave; any other option word is refused. */
  lemma OpenSeal(k: Key, options: Options, iv: seq<bv8>, m: seq<bv8>)
    requires ValidKey(k) && |iv| == 16
    ensures var c := Seal(k, options, iv, m);
            && |c| % 16 == 0 && Readable(c)
            && Open(k, c) == if ValidOptions(options) then Ok(m) else Err(BadHeader)
  {
    hide Seal, Chain, Unchain, HeaderOk, ReadOptions, IsPadded, Strip;
    SealParts(k, options, iv, m);
    PadFits(|m|);
    UnchainChain(k, Chained(options), iv, Padded(m));
    if PadLen(|m|) > 0 {
      StripPadded(m);
    } else {
      assert Padded(m) == m;
    }
  }

  /** The vector a context holds after sealing: the last encrypted block in CBC. */
  function NextIv(options: Options, iv: seq<bv8>, c: seq<bv8>): (r: seq<bv8>)
    requires |iv| == 16 && |c| >= 32
    ensures |r| == 16
  {
    if Chained(options) then LastIv(iv, c[32..]) else iv
  }

  function SealAll(k: Key, options: Options, iv: seq<bv8>, ms: seq<seq<bv8>>): (cs: seq<seq<bv8>>)
    requires Sized(k) && |iv| == 16
    ensures |cs| == |ms|
    decreases |ms|
  {
    if ms == [] then []
    else
      var c := Seal(k, options, iv, ms[0]);
      [c] + SealAll(k, options, NextIv(options, iv, c), ms[1..])
  }

  /** Messages sealed one after another, each from the vector the last one left, all open. */
  lemma {:induction false} OpenSealAll(k: Key, options: Options, iv: seq<bv8>, ms: seq<seq<bv8>>, i: nat)
    requires ValidKey(k) && |iv| == 16 && ValidOptions(options) && i < |ms|
    ensures var c := SealAll(k, options, iv, ms)[i];
            |c| >= 32 && |c| % 16 == 0 && Readable(c) && Open(k, c) == Ok(ms[i])
    decreases |ms|
  {
    hide Seal, Open, Readable, NextIv;
    var c := Seal(k, options, iv, ms[0]);
    OpenSeal(k, options, iv, ms[0]);
    if i > 0 {
      OpenSealAll(k, options, NextIv(options, iv, c), ms[1..], i - 1);
    }
  }

  // ---------------------------------------------------------------- byte by byte

  /** Exactly these first bytes are accepted. */
  lemma HeaderExact(c: seq<bv8>)
    requires |c| >= 16
    ensures HeaderOk(c) <==>
      && c[0] == 0x4f && c[1] == 0x41 && c[2] == 0x45 && c[3] == 0x53 && c[4] == 1 && c[5] == 2
      && (c[6] == 1 || c[6] == 2) && c[7] == 0 && (c[8] == 0 || c[8] == 1)
    ensures HeaderOk(c) ==> (Chained(ReadOptions(c)) <==> c[6] == 2) && (IsPadded(c) <==> c[8] == 1)
  {
    TwoModes(ReadOptions(c));
    LowBit(c[8]);
    hide ValidOptions;
  }

  lemma LowBit(x: bv8)
    ensures x & 0xfe == 0 <==> x == 0 || x == 1
    ensures (x == 0 || x == 1) ==> (x & 1 != 0 <==> x == 1)
  {
  }

  /** The bytes counted upwards from 1. */
  lemma TallyCounts(p: nat, i: nat)
    requires i < p < 16
    ensures Padding(p)[i] as nat == i + 1
  {
    TallyAt(i + 1);
  }

  /** The bytes 1, 2, 3, ... */
  predicate Counting(s: seq<bv8>) { forall i: nat :: i < |s| ==> s[i] as nat == i + 1 }

  lemma CountingIs(s: seq<bv8>)
    requires |s| < 16
    ensures Counting(s) <==> s == Padding(|s|)
  {
    forall i: nat | i < |s| ensures Padding(|s|)[i] as nat == i + 1 {
      TallyCounts(|s|, i);
    }
    hide Padding;
    if Counting(s) {
      forall i: nat | i < |s| ensures s[i] == Padding(|s|)[i] {
        SameByte(s[i], Padding(|s|)[i]);
      }
    }
  }

  lemma SameByte(x: bv8, y: bv8)
    requires x as nat == y as nat
    ensures x == y
  {
  }

  /** Padding is removed exactly from data that ends in 1, 2, ..., p for some p up to 15. */
  lemma StripExact(data: seq<bv8>, p: nat)
    requires 15 < |data| && p == data[|data| - 1] as nat
    ensures Strip(data) ==
      if 0 < p <= 15 && Counting(data[|data| - p..]) then Ok(data[..|data| - p]) else Err(BadHeader)
  {
    if 0 < p <= 15 {
      CountingIs(data[|data| - p..]);
    }
    hide Counting, Padding;
  }

  lemma BlockShift(b: seq<bv8>, rest: seq<bv8>, i: nat)
    requires |b| == 16 && 0 < i && 16 * i <= |rest|
    ensures (b + rest)[16 * i..16 * i + 16] == rest[16 * (i - 1)..16 * (i - 1) + 16]
  {
  }

  /** Block i of the chain is the encryption of its data, masked with the block before it. */
  lemma {:induction false} ChainBlock(k: Key, cbc: bool, iv: seq<bv8>, data: seq<bv8>, i: nat)
    requires Sized(k) && |iv| == 16 && |data| % 16 == 0 && 16 * i + 16 <= |data|
    ensures var out := Chain(k, cbc, iv, data);
      && |out| == |data|
      && out[16 * i..16 * i + 16]
          == E(k, Mask(cbc, data[16 * i..16 * i + 16], (iv + out)[16 * i..16 * i + 16]))
    decreases i
  {
    hide *;
    ChainSize(k, cbc, iv, data);
    ChainStep(k, cbc, iv, data);
    var c := E(k, Mask(cbc, data[..16], iv));
    var rest := Chain(k, cbc, c, data[16..]);
    if i == 0 {
      assert (iv + (c + rest))[0..16] == iv && (c + rest)[0..16] == c;
    } else {
      OneLess(|data|);
      ChainBlock(k, cbc, c, data[16..], i - 1);
      BlockShift(c, rest, i);
      BlockShift(iv, c + rest, i);
      BlockShift(data[..16], data[16..], i);
      assert data[..16] + data[16..] == data;
    }
  }

  lemma ChainStep(k: Key, cbc: bool, iv: seq<bv8>, data: seq<bv8>)
    requires Sized(k) && |iv| == 16 && |data| >= 16
    ensures var c := E(k, Mask(cbc, data[..16], iv)); Chain(k, cbc, iv, data) == c + Chain(k, cbc, c, data[16..])
  {
  }

  /** What is encrypted of a message: its bytes and then the counting ones, up to whole blocks. */
  lemma PaddedAt(m: seq<bv8>, t: nat)
    requires t < |m| + PadLen(|m|)
    ensures |Padded(m)| % 16 == 0 && |m| <= |Padded(m)| < |m| + 16
    ensures if t < |m| then Padded(m)[t] == m[t] else Padded(m)[t] as nat == t - |m| + 1
  {
    PadFits(|m|);
    if t >= |m| {
      TallyCounts(PadLen(|m|), t - |m|);
    }
  }

  lemma MaskAt(b: seq<bv8>, iv: seq<bv8>, j: nat)
    requires |b| == |iv| == 16 && j < 16
    ensures Mask(false, b, iv) == b && Mask(true, b, iv)[j] == b[j] ^ iv[j]
  {
  }

  /** The first 32 bytes of a sealed message. */
  lemma SealHeader(k: Key, options: Options, iv: seq<bv8>, m: seq<bv8>)
    requires Sized(k) && |iv| == 16 && (options == ECB || options == CBC)
    ensures var c := Seal(k, options, iv, m);
      && c[16..32] == iv
      && c[..16] == [0x4f, 0x41, 0x45, 0x53, 1, 2, if options == CBC then 2 else 1, 0,
                     if |m| % 16 == 0 then 0 else 1, 0, 0, 0, 0, 0, 0, 0]
  {
    hide Chain, Sized;
  }

  /** Then the blocks of the padded message, each encrypted after the xor, in CBC, of the 16 bytes
      before it. */
  lemma SealBlock(k: Key, options: Options, iv: seq<bv8>, m: seq<bv8>, i: nat)
    requires Sized(k) && |iv| == 16 && (options == ECB || options == CBC) && 16 * i < |m|
    ensures |Padded(m)| >= 16 * i + 16
    ensures var c := Seal(k, options, iv, m);
      && |c| >= 48 + 16 * i
      && c[32 + 16 * i..48 + 16 * i]
          == E(k, Mask(options == CBC, Padded(m)[16 * i..16 * i + 16], c[16 + 16 * i..32 + 16 * i]))
  {
    ModeBits();
    BlockFits(|m|, i);
    PadFits(|m|);
    ChainBlock(k, Chained(options), iv, Padded(m), i);
    hide E, Chain, Sized, Padded, Chained, Mask, PadLen;
    var out := Chain(k, Chained(options), iv, Padded(m));
    BehindHeader(Header(options, PadLen(|m|) > 0), iv, out, i);
  }

  lemma ModeBits()
    ensures Chained(CBC) && !Chained(ECB)
  {
  }

  lemma BehindHeader(h: seq<bv8>, iv: seq<bv8>, out: seq<bv8>, i: nat)
    requires |h| == |iv| == 16 && 16 * i + 16 <= |out|
    ensures (h + iv + out)[32 + 16 * i..48 + 16 * i] == out[16 * i..16 * i + 16]
    ensures (h + iv + out)[16 + 16 * i..32 + 16 * i] == (iv + out)[16 * i..16 * i + 16]
  {
    assert h + iv + out == h + (iv + out);
  }

  lemma BlockFits(n: nat, i: nat)
    requires 16 * i < n
    ensures 16 * i + 16 <= n + PadLen(n)
  {
    PadFits(n);
    var q := (n + PadLen(n)) / 16;
    assert n + PadLen(n) == 16 * q;
  }

  /** The next vector is the end of what was sealed last, in CBC. */
  lemma NextVector(k: Key, options: Options, iv: seq<bv8>, m: seq<bv8>)
    requires Sized(k) && |iv| == 16 && (options == ECB || options == CBC)
    ensures var c := Seal(k, options, iv, m);
      NextIv(options, iv, c) == if options == CBC then c[|c| - 16..] else iv
  {
    hide Chain, Sized;
    var c := Seal(k, options, iv, m);
    PadFits(|m|);
    var out := Chain(k, Chained(options), iv, Padded(m));
    var h := Header(options, PadLen(|m|) > 0);
    assert c == h + iv + out && c[32..] == out;
    ChainSize(k, Chained(options), iv, Padded(m));
    if |out| < 16 {
      assert c[16..] == iv;
    } else {
      assert c[|c| - 16..] == out[|out| - 16..];
    }
  }
}
