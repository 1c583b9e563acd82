/** The OpenAES context (oaes_lib.c): options, chaining vector and key, and the calls that
    set a mode, encrypt into a caller's buffer and decrypt into one. */
module AesContext {
  import opened Wrappers
  import opened Buffers
  import opened Numbers
  import AesBlock
  import opened AesContainer

  // ---------------------------------------------------------------- one block of a message

  /** What the block at i is padded to. */
  lemma PaddedBlock(m: seq<bv8>, i: nat, size: nat)
    requires i % 16 == 0 && i < |m| && size == (if |m| - i < 16 then |m| - i else 16)
    ensures i + 16 <= |Padded(m)| && Padded(m)[i..i + 16] == m[i..i + size] + Padding(16 - size)
    ensures size < 16 ==> i + 16 == |Padded(m)|
  {
    BlockPad(|m|, i, size);
    NoPadding();
    hide PadLen, Padding;
    if size < 16 {
      CutBlock(m, Padding(PadLen(|m|)), i);
    } else {
      WholeBlock(m, Padding(PadLen(|m|)), i);
    }
  }

  lemma CutBlock(m: seq<bv8>, p: seq<bv8>, i: nat)
    requires i <= |m| && |m| - i + |p| == 16
    ensures (m + p)[i..i + 16] == m[i..|m|] + p
  {
  }

  lemma WholeBlock(m: seq<bv8>, p: seq<bv8>, i: nat)
    requires i + 16 <= |m|
    ensures (m + p)[i..i + 16] == m[i..i + 16] + []
  {
  }

  lemma NoPadding()
    ensures Padding(0) == []
  {
  }

  lemma BlockPad(n: nat, i: nat, size: nat)
    requires i % 16 == 0 && i < n && size == (if n - i < 16 then n - i else 16)
    ensures size < 16 ==> i + size == n && PadLen(n) == 16 - size
  {
    var q := i / 16;
    assert i == 16 * q;
    if size < 16 {
      DivModUnique(n, 16, q, size);
    }
  }

  lemma BlockLeft(m: seq<bv8>, i: nat)
    requires i % 16 == 0 && i < |m| + PadLen(|m|)
    ensures i < |m| && (i + 16) % 16 == 0
  {
    var q := i / 16;
    assert i == 16 * q;
    assert |m| == 16 * (|m| / 16) + |m| % 16;
  }

  method FetchBlock(cbc: bool, part: seq<bv8>, iv: seq<bv8>) returns (block: array<bv8>)
    requires 1 <= |part| <= 16 && |iv| == 16
    ensures fresh(block) && block.Length == 16 && block[0..16] == Mask(cbc, part + Padding(16 - |part|), iv)
  {
    hide Padding;
    var padding := Padding(16 - |part|);
    block := new bv8[16];
    CopyIn(block, 0, part);
    CopyIn(block, |part|, padding);
    assert block[..] == part + padding;
    if cbc {
      XorIn(block, 0, iv);
      assert block[..] == XorBytes(part + padding, iv);
    }
    assert block[0..16] == block[..];
  }

  /** Fetch, pad, mask, encrypt, put back, and remember for the next block. */
  method EncryptStep(k: Key, cbc: bool, c: array<bv8>, at: nat, size: nat, iv: array<bv8>)
    requires Sized(k) && c != iv && iv.Length == 16 && 1 <= size <= 16 && at + 16 <= c.Length
    modifies c, iv
    ensures c[at..at + 16] == E(k, Mask(cbc, old(c[at..at + size]) + Padding(16 - size), old(iv[..])))
    ensures AesBlock.Outside(old(c[..]), c[..], at)
    ensures iv[..] == if cbc then c[at..at + 16] else old(iv[..])
  {
    hide AesBlock.Encrypt, Padding, Mask, AesBlock.Outside;
    var block := FetchBlock(cbc, c[at..at + size], iv[..]);
    AesBlock.EncryptBlock(BlockCipher(k), k.exp, k.n, block, 0);
    assert block[0..16] == E(k, Mask(cbc, c[at..at + size] + Padding(16 - size), iv[..]));
    hide E, BlockCipher, Sized;
    AesBlock.Put(c, at, block[0..16]);
    if cbc {
      CopyIn(iv, 0, block[0..16]);
      assert iv[..] == block[0..16];
    }
  }

  /** After the blocks before i: the output so far, the data still to come, and the vector. */
  ghost predicate Encrypting(k: Key, cbc: bool, iv0: seq<bv8>, head: seq<bv8>, m: seq<bv8>, i: nat, c: seq<bv8>,
      iv: seq<bv8>)
    requires Sized(k) && |iv0| == 16
  {
    && |head| == 32 && i % 16 == 0 && i <= |Padded(m)| && |c| >= 32 + |Padded(m)|
    && c[..32] == head
    && c[32..32 + i] == Chain(k, cbc, iv0, Padded(m)[..i])
    && (i < |m| ==> c[32 + i..32 + |m|] == m[i..])
    && iv == if cbc then LastIv(iv0, c[32..32 + i]) else iv0
  }

  lemma EncryptingStep(k: Key, cbc: bool, iv0: seq<bv8>, head: seq<bv8>, m: seq<bv8>, i: nat, size: nat,
      c: seq<bv8>, iv: seq<bv8>, c': seq<bv8>, iv': seq<bv8>)
    requires Sized(k) && |iv0| == |iv| == 16 && Encrypting(k, cbc, iv0, head, m, i, c, iv)
    requires i < |m| && size == (if |m| - i < 16 then |m| - i else 16)
    requires AesBlock.Outside(c, c', 32 + i) && |c| >= 48 + i
    requires c'[32 + i..48 + i] == E(k, Mask(cbc, c[32 + i..32 + i + size] + Padding(16 - size), iv))
    requires iv' == if cbc then c'[32 + i..48 + i] else iv
    ensures Encrypting(k, cbc, iv0, head, m, i + 16, c', iv')
  {
    hide E, Padding, Padded, PadLen;
    PaddedBlock(m, i, size);
    var b := Padded(m)[i..i + 16];
    assert c[32 + i..32 + i + size] == c[32 + i..32 + |m|][..size] == m[i..][..size] == m[i..i + size];
    assert Padded(m)[..i + 16] == Padded(m)[..i] + b;
    ChainStep(k, cbc, iv0, Padded(m)[..i], b, c[32..32 + i], iv, c'[32 + i..48 + i]);
    assert c'[32..32 + i] == c[32..32 + i];
    assert c'[32..48 + i] == c'[32..32 + i] + c'[32 + i..48 + i];
    assert c'[..32] == c[..32];
    if i + 16 < |m| {
      assert c'[48 + i..32 + |m|] == c[48 + i..32 + |m|] == c[32 + i..32 + |m|][16..] == m[i + 16..];
    }
    if cbc {
      assert LastIv(iv0, c'[32..48 + i]) == c'[32 + i..48 + i];
    }
  }

  lemma ChainStep(k: Key, cbc: bool, iv0: seq<bv8>, data: seq<bv8>, b: seq<bv8>, out: seq<bv8>, iv: seq<bv8>,
      e: seq<bv8>)
    requires Sized(k) && |iv0| == |iv| == |b| == 16 && |data| % 16 == 0 && out == Chain(k, cbc, iv0, data)
    requires iv == (if cbc then LastIv(iv0, out) else iv0) && e == E(k, Mask(cbc, b, iv))
    ensures Chain(k, cbc, iv0, data + b) == out + e
  {
    hide E, Chain, LastIv, XorBytes;
    ChainSnoc(k, cbc, iv0, data, b);
  }

  /** The loop of oaes_encrypt over the data already copied behind the header. */
  method EncryptBlocks(k: Key, cbc: bool, m: seq<bv8>, c: array<bv8>, iv: array<bv8>, ghost iv0: seq<bv8>,
      ghost head: seq<bv8>)
    requires Sized(k) && c != iv && iv.Length == 16 && iv[..] == iv0 && c.Length >= 32 + |Padded(m)|
    requires Encrypting(k, cbc, iv0, head, m, 0, c[..], iv[..])
    modifies c, iv
    ensures Encrypting(k, cbc, iv0, head, m, |Padded(m)|, c[..], iv[..])
    ensures forall j :: 32 + |Padded(m)| <= j < c.Length ==> c[j] == old(c[j])
  {
    hide Padded, Padding, E, Encrypting, Sized;
    var total := |m| + PadLen(|m|);
    hide PadLen;
    PadFits(|m|);
    var i := 0;
    while i < total
      invariant i % 16 == 0 && i <= total && Encrypting(k, cbc, iv0, head, m, i, c[..], iv[..])
      invariant forall j :: 32 + total <= j < c.Length ==> c[j] == old(c[j])
    {
      BlockLeft(m, i);
      var size := if |m| - i < 16 then |m| - i else 16;
      PaddedBlock(m, i, size);
      ghost var before, ivBefore := c[..], iv[..];
      EncryptStep(k, cbc, c, 32 + i, size, iv);
      EncryptingStep(k, cbc, iv0, head, m, i, size, before, ivBefore, c[..], iv[..]);
      i := i + 16;
    }
  }

  // ---------------------------------------------------------------- decryption in place

  /** Decrypt one block where it stands and unmask it. */
  method DecryptStep(k: Key, cbc: bool, m: array<bv8>, i: nat, iv: seq<bv8>)
    requires Sized(k) && |iv| == 16 && i + 16 <= m.Length
    modifies m
    ensures m[i..i + 16] == Mask(cbc, D(k, old(m[i..i + 16])), iv)
    ensures AesBlock.Outside(old(m[..]), m[..], i)
  {
    hide AesBlock.Decrypt;
    AesBlock.DecryptBlock(BlockCipher(k), k.exp, k.n, m, i);
    if cbc {
      ghost var p := m[i..i + 16];
      XorIn(m, i, iv);
      assert m[i..i + 16] == XorBytes(p, iv);
    }
  }

  /** The blocks before i are decrypted and the others still encrypted. */
  ghost predicate Decrypting(k: Key, cbc: bool, iv0: seq<bv8>, out: seq<bv8>, i: nat, m: seq<bv8>)
    requires Sized(k) && |iv0| == 16
  {
    && i % 16 == 0 && i <= |out| <= |m|
    && m[..i] == Unchain(k, cbc, iv0, out[..i]) && m[i..|out|] == out[i..]
  }

  lemma DecryptingStep(k: Key, cbc: bool, iv0: seq<bv8>, out: seq<bv8>, i: nat, m: seq<bv8>, m': seq<bv8>, iv: seq<bv8>)
    requires Sized(k) && |iv0| == |iv| == 16 && Decrypting(k, cbc, iv0, out, i, m) && i + 16 <= |out|
    requires iv == (if cbc && i > 0 then out[i - 16..i] else iv0) && AesBlock.Outside(m, m', i)
    requires m'[i..i + 16] == Mask(cbc, D(k, m[i..i + 16]), iv)
    ensures Decrypting(k, cbc, iv0, out, i + 16, m')
  {
    hide D, XorBytes;
    var c := out[i..i + 16];
    assert m[i..i + 16] == m[i..|out|][..16] == c;
    assert out[..i + 16] == out[..i] + c;
    UnchainSnoc(k, cbc, iv0, out[..i], c);
    assert m'[..i + 16] == m'[..i] + m'[i..i + 16] && m'[..i] == m[..i];
    assert m'[i + 16..|out|] == m[i + 16..|out|] == m[i..|out|][16..] == out[i + 16..];
    if cbc && i > 0 {
      assert LastIv(iv0, out[..i]) == out[i - 16..i];
    }
  }

  lemma DecryptingEnds(k: Key, cbc: bool, iv0: seq<bv8>, out: seq<bv8>, m: seq<bv8>)
    requires Sized(k) && |iv0| == 16 && |out| <= |m|
    ensures m[..|out|] == out ==> Decrypting(k, cbc, iv0, out, 0, m)
    ensures Decrypting(k, cbc, iv0, out, |out|, m) ==> m[..|out|] == Unchain(k, cbc, iv0, out)
  {
    hide D;
    assert out[..|out|] == out;
  }

  /** One block; all but the first are unmasked with the container's block before it. */
  method DecryptTurn(k: Key, cbc: bool, c: seq<bv8>, m: array<bv8>, i: nat, iv: seq<bv8>) returns (iv': seq<bv8>)
    requires i % 16 == 0 && Sized(k) && |iv| == 16 && 48 + i <= |c| <= m.Length + 32
        && (!cbc || i == 0 ==> iv == c[16..32])
    requires Decrypting(k, cbc, c[16..32], c[32..], i, m[..])
    modifies m
    ensures |iv'| == 16 && (!cbc ==> iv' == c[16..32])
    ensures Decrypting(k, cbc, c[16..32], c[32..], i + 16, m[..])
    ensures forall j :: |c| - 32 <= j < m.Length ==> m[j] == old(m[j])
  {
    hide Decrypting, D, Sized;
    iv' := iv;
    if cbc && i > 0 {
      iv' := c[16 + i..32 + i];
      assert iv' == c[32..][i - 16..i];
    }
    ghost var before := m[..];
    DecryptStep(k, cbc, m, i, iv');
    DecryptingStep(k, cbc, c[16..32], c[32..], i, before, m[..], iv');
  }

  /** The loop of oaes_decrypt. */
  method DecryptBlocks(k: Key, cbc: bool, c: seq<bv8>, m: array<bv8>)
    requires Sized(k) && |c| >= 32 && |c| % 16 == 0 && m.Length >= |c| - 32 && m[..|c| - 32] == c[32..]
    modifies m
    ensures m[..|c| - 32] == Unchain(k, cbc, c[16..32], c[32..])
    ensures forall j :: |c| - 32 <= j < m.Length ==> m[j] == old(m[j])
  {
    hide Decrypting, Unchain, Sized;
    var total := |c| - 32;
    var iv := c[16..32];
    var i := 0;
    DataSize(|c|);
    assert m[..][..total] == m[..total];
    DecryptingEnds(k, cbc, c[16..32], c[32..], m[..]);
    while i < total
      invariant i % 16 == 0 && i <= total && Decrypting(k, cbc, c[16..32], c[32..], i, m[..])
      invariant |iv| == 16 && (!cbc || i == 0 ==> iv == c[16..32])
      invariant forall j :: total <= j < m.Length ==> m[j] == old(m[j])
    {
      NextBlock(i, total);
      iv := DecryptTurn(k, cbc, c, m, i, iv);
      i := i + 16;
    }
    DecryptingEnds(k, cbc, c[16..32], c[32..], m[..]);
    assert m[..][..total] == m[..total];
  }

  lemma NextBlock(i: nat, total: nat)
    requires i % 16 == 0 && total % 16 == 0 && i < total
    ensures i + 16 <= total && (i + 16) % 16 == 0
  {
  }

  /** The last i bytes are the last i of the padding bytes up to p. */
  predicate Tail(data: seq<bv8>, p: nat, i: nat)
    requires i <= p <= 15 && p <= |data|
  {
    data[|data| - i..] == TALLY[p - i..p]
  }

  lemma TailStart(data: seq<bv8>, p: nat)
    requires p <= 15 && p <= |data|
    ensures Tail(data, p, 0)
  {
  }

  lemma TailStep(data: seq<bv8>, p: nat, i: nat)
    requires i < p <= 15 && p <= |data|
    ensures Tail(data, p, i + 1) <==> Tail(data, p, i) && data[|data| - 1 - i] == TALLY[p - 1 - i]
  {
    assert data[|data| - i - 1..] == [data[|data| - 1 - i]] + data[|data| - i..];
    assert TALLY[p - i - 1..p] == [TALLY[p - 1 - i]] + TALLY[p - i..p];
  }

  lemma StripIs(data: seq<bv8>, p: nat)
    requires 15 < |data| && p == data[|data| - 1] as nat
    ensures Strip(data) == if 0 < p <= 15 && Tail(data, p, p) then Ok(data[..|data| - p]) else Err(BadHeader)
  {
    if 0 < p <= 15 {
      assert TALLY[0..p] == Padding(p);
    }
  }

  /** The end of oaes_decrypt on a padded container. */
  method RemovePad(m: array<bv8>, total: nat) returns (rc: Option<Error>, mLen: nat)
    requires 15 < total <= m.Length
    modifies m
    ensures var r := Strip(old(m[..total]));
            if r.Ok? then rc == None && mLen == |r.m| && mLen <= total && m[..mLen] == r.m
            else rc == Some(BadHeader) && mLen == total
    ensures forall j :: total <= j < m.Length ==> m[j] == old(m[j])
  {
    ghost var data := m[..total];
    var temp := m[total - 1] as nat;
    StripIs(data, temp);
    hide Strip;
    if temp <= 0 || temp > 15 {
      return Some(BadHeader), total;
    }
    var isPad := CheckPad(m, total, temp);
    if !isPad {
      return Some(BadHeader), total;
    }
    ghost var kept := data[..total - temp];
    forall j | total - temp <= j < total {
      m[j] := 0;
    }
    assert m[..total - temp] == kept;
    return None, total - temp;
  }

  method CheckPad(m: array<bv8>, total: nat, temp: nat) returns (isPad: bool)
    requires temp <= 15 < total <= m.Length
    ensures isPad == Tail(m[..total], temp, temp)
  {
    isPad := true;
    var i := 0;
    ghost var data := m[..total];
    TailStart(data, temp);
    hide Tail;
    while i < temp
      invariant 0 <= i <= temp && isPad == Tail(data, temp, i)
    {
      TailStep(data, temp, i);
      assert m[total - 1 - i] == data[total - 1 - i];
      if m[total - 1 - i] != TALLY[temp - 1 - i] {
        isPad := false;
      }
      i := i + 1;
    }
  }

  // ---------------------------------------------------------------- the context

  /** The length of the container in a 64-bit word, as the code adds it up. */
  function SealedLen(m: seq<bv8>): (n: nat)
    ensures n < B64
  {
    (32 + |m| + PadLen(|m|)) % B64
  }

  lemma SealedFits(m: seq<bv8>)
    ensures PadLen(|m|) <= 15
    ensures 32 + |m| + PadLen(|m|) < B64 ==> SealedLen(m) == 32 + |m| + PadLen(|m|)
  {
  }

  class Context {
    var options: Options
    const iv: array<bv8>
    var key: Option<Key>

    ghost predicate Valid()
      reads this
    {
      iv.Length == 16 && ValidOptions(options) && (key.Some? ==> ValidKey(key.value))
    }

    /** oaes_alloc: CBC with a random vector. */
    constructor (random: seq<bv8>)
      requires |random| == 16
      ensures Valid() && options == CBC && iv[..] == random && key == None && fresh(iv)
    {
      options := Word(0, 0);
      key := None;
      iv := new bv8[16];
      new;
      var rc := SetOption(CBC, None, random);
    }

    /** oaes_set_option: exactly one mode is left set; any other option is refused. */
    method SetOption(option: Options, value: Option<seq<bv8>>, random: seq<bv8>) returns (rc: Option<Error>)
      requires iv.Length == 16 && (options == Word(0, 0) || ValidOptions(options))
      requires |random| == 16 && (value.Some? ==> |value.value| == 16)
      modifies this`options, iv
      ensures option == ECB ==> rc == None && options == ECB && iv[..] == seq(16, _ => 0)
      ensures option == CBC ==> rc == None && options == CBC && iv[..] == if value.Some? then value.value else random
      ensures option != ECB && option != CBC ==> rc == Some(Arg2) && options == old(options) && iv[..] == old(iv[..])
    {
      TwoModes(options);
      if option == ECB {
        options := Word(options.lo & 0xfd, options.hi);
        CopyIn(iv, 0, seq(16, _ => 0));
        assert iv[..] == seq(16, _ => 0);
      } else if option == CBC {
        options := Word(options.lo & 0xfe, options.hi);
        CopyIn(iv, 0, if value.Some? then value.value else random);
        assert iv[..] == if value.Some? then value.value else random;
      } else {
        return Some(Arg2);
      }
      options := Word(options.lo | option.lo, options.hi | option.hi);
      return None;
    }

    /** oaes_encrypt: the length alone without a buffer, an error, or the sealed message and
        the vector for the next one. A length whose sum wraps must not get as far as writing. */
    method Encrypt(m: seq<bv8>, c: array?<bv8>, cLenIn: nat) returns (rc: Option<Error>, cLen: nat)
      requires Valid() && |m| < B64 && (c != null ==> cLenIn <= c.Length && c != iv)
      requires c == null || key.None? || cLenIn < SealedLen(m) || 32 + |m| + PadLen(|m|) < B64
      modifies iv, c
      ensures Valid() && cLen == SealedLen(m)
      ensures c == null ==> rc == None && iv[..] == old(iv[..])
      ensures c != null && cLenIn < cLen ==> rc == Some(Buf) && c[..] == old(c[..]) && iv[..] == old(iv[..])
      ensures c != null && cLenIn >= cLen && key.None? ==>
                rc == Some(NoKey) && c[..] == old(c[..]) && iv[..] == old(iv[..])
      ensures c != null && cLenIn >= cLen && key.Some? ==>
                && rc == None && c[..cLen] == Seal(key.value, options, old(iv[..]), m)
                && iv[..] == NextIv(options, old(iv[..]), c[..cLen])
                && forall j :: cLen <= j < c.Length ==> c[j] == old(c[j])
    {
      hide PadLen, ValidOptions;
      cLen := (32 + |m| + PadLen(|m|)) % B64;
      if c == null {
        return None, cLen;
      }
      if cLenIn < cLen {
        return Some(Buf), cLen;
      }
      if key.None? {
        return Some(NoKey), cLen;
      }
      SealInto(key.value, m, c, cLen);
      return None, cLen;
    }

    /** The part of oaes_encrypt that writes. */
    method SealInto(k: Key, m: seq<bv8>, c: array<bv8>, cLen: nat)
      requires Sized(k) && iv.Length == 16 && c != iv && cLen == 32 + |m| + PadLen(|m|) <= c.Length
      modifies iv, c
      ensures c[..cLen] == Seal(k, options, old(iv[..]), m)
      ensures iv[..] == NextIv(options, old(iv[..]), c[..cLen])
      ensures forall j :: cLen <= j < c.Length ==> c[j] == old(c[j])
    {
      hide PadLen, Header, Padding, Chain, E, Sized;
      ghost var iv0 := iv[..];
      var h := Header(options, PadLen(|m|) > 0);
      CopyIn(c, 0, h);
      CopyIn(c, 16, iv[..]);
      CopyIn(c, 32, m);
      assert c[..32] == h + iv0;
      assert |m| > 0 ==> c[32..32 + |m|] == m[0..];
      StartEncrypting(k, Chained(options), iv0, h + iv0, m, c[..], iv[..]);
      EncryptBlocks(k, Chained(options), m, c, iv, iv0, h + iv0);
      EndEncrypting(k, options, iv0, h, m, c[..], iv[..]);
      assert c[..][..cLen] == c[..cLen];
    }

    /** oaes_decrypt. It reads the mode and the vector from the container, not from the context;
        a length below 32 wraps around, and the output may not be said to be that long. */
    method Decrypt(c: seq<bv8>, m: array?<bv8>, mLenIn: nat) returns (rc: Option<Error>, mLen: nat)
      requires Valid() && |c| < B64 && (m != null ==> mLenIn <= m.Length && m != iv)
      requires m == null || key.None? || |c| >= 32 || |c| % 16 != 0 || mLenIn < |c| + B64 - 32
      requires |c| >= 32 && |c| % 16 == 0 ==> Readable(c)
      modifies m
      ensures |c| % 16 != 0 ==> rc == Some(Arg3) && mLen == mLenIn
      ensures |c| % 16 == 0 && m == null ==> rc == None && mLen == (|c| - 32) % B64
      ensures |c| % 16 == 0 && m != null && mLenIn < (|c| - 32) % B64 ==> rc == Some(Buf) && mLen == (|c| - 32) % B64
      ensures |c| % 16 == 0 && m != null && mLenIn >= (|c| - 32) % B64 && key.None? ==> rc == Some(NoKey)
      ensures m != null && rc in {Some(Arg3), Some(Buf), Some(NoKey)} ==> m[..] == old(m[..])
      ensures |c| % 16 == 0 && m != null && mLenIn >= (|c| - 32) % B64 && key.Some? ==>
                && |c| >= 32
                && var r := Open(key.value, c);
                   && (r.Ok? ==> rc == None && mLen == |r.m| && mLen <= m.Length && m[..mLen] == r.m)
                   && (r.Err? ==> rc == Some(r.e) && mLen == |c| - 32)
                   && forall j :: |c| - 32 <= j < m.Length ==> m[j] == old(m[j])
    {
      if |c| % 16 != 0 {
        return Some(Arg3), mLenIn;
      }
      LengthWraps(|c|);
      mLen := (|c| - 32) % B64;
      if m == null {
        return None, mLen;
      }
      if mLenIn < mLen {
        return Some(Buf), mLen;
      }
      if key.None? {
        return Some(NoKey), mLen;
      }
      rc, mLen := OpenInto(key.value, c, m);
    }

    /** The part of oaes_decrypt that reads the header and writes. */
    method OpenInto(k: Key, c: seq<bv8>, m: array<bv8>) returns (rc: Option<Error>, mLen: nat)
      requires Sized(k) && 32 <= |c| <= m.Length + 32 && |c| % 16 == 0 && Readable(c)
      modifies m
      ensures var r := Open(k, c);
              if r.Ok? then rc == None && mLen == |r.m| && mLen <= m.Length && m[..mLen] == r.m
              else rc == Some(r.e) && mLen == |c| - 32
      ensures rc.Some? ==> rc == Some(BadHeader)
      ensures forall j :: |c| - 32 <= j < m.Length ==> m[j] == old(m[j])
    {
      hide Strip, HeaderOk, IsPadded, Unchain, Sized;
      mLen := |c| - 32;
      if !HeaderOk(c) {
        return Some(BadHeader), mLen;
      }
      CopyIn(m, 0, c[32..]);
      assert m[..mLen] == c[32..];
      DecryptBlocks(k, Chained(ReadOptions(c)), c, m);
      if IsPadded(c) {
        DataSize(|c|);
        rc, mLen := RemovePad(m, mLen);
      } else {
        rc := None;
      }
    }
  }

  lemma LengthWraps(n: nat)
    requires n < B64
    ensures (n - 32) % B64 == if n >= 32 then n - 32 else n - 32 + B64
  {
  }

  lemma StartEncrypting(k: Key, cbc: bool, iv0: seq<bv8>, head: seq<bv8>, m: seq<bv8>, c: seq<bv8>, iv: seq<bv8>)
    requires Sized(k) && |iv0| == 16 && iv == iv0 && |head| == 32 && |c| >= 32 + |Padded(m)|
    requires c[..32] == head && (|m| > 0 ==> c[32..32 + |m|] == m)
    ensures Encrypting(k, cbc, iv0, head, m, 0, c, iv)
  {
    hide E;
    assert c[32..32 + 0] == [] && m[0..] == m;
  }

  lemma EndEncrypting(k: Key, options: Options, iv0: seq<bv8>, h: seq<bv8>, m: seq<bv8>, c: seq<bv8>, iv: seq<bv8>)
    requires Sized(k) && |iv0| == 16 && h == Header(options, PadLen(|m|) > 0)
    requires Encrypting(k, Chained(options), iv0, h + iv0, m, |Padded(m)|, c, iv)
    ensures c[..32 + |Padded(m)|] == Seal(k, options, iv0, m)
    ensures iv == NextIv(options, iv0, c[..32 + |Padded(m)|])
  {
    hide E, Header, Padded, Chain, LastIv;
    var n := |Padded(m)|;
    assert Padded(m)[..n] == Padded(m);
    assert c[..32 + n] == c[..32] + c[32..32 + n];
    assert c[..32 + n][32..] == c[32..32 + n];
  }

  /** Any sequence of messages through two contexts that share a key: every message arrives,
      whatever mode the sender is in and however its vector chains. */
  method Exchange(sender: Context, receiver: Context, ms: seq<seq<bv8>>) returns (received: seq<seq<bv8>>)
    requires sender != receiver && sender.iv != receiver.iv && sender.Valid() && receiver.Valid()
    requires sender.key.Some? && receiver.key == sender.key
    requires forall i :: 0 <= i < |ms| ==> |ms[i]| < B64 - 96
    modifies sender.iv
    ensures received == ms
  {
    received := [];
    var i := 0;
    while i < |ms|
      invariant 0 <= i <= |ms| && received == ms[..i] && sender.Valid() && receiver.Valid()
    {
      var m := Deliver(sender, receiver, ms[i]);
      received := received + [m];
      i := i + 1;
    }
  }

  /** The two calls of a sender: the length first, and then the container. */
  method Send(sender: Context, m: seq<bv8>) returns (c: seq<bv8>)
    requires sender.Valid() && sender.key.Some? && |m| < B64 - 96
    modifies sender.iv
    ensures sender.Valid() && c == Seal(sender.key.value, sender.options, old(sender.iv[..]), m)
    ensures sender.iv[..] == NextIv(sender.options, old(sender.iv[..]), c)
  {
    hide Seal, PadLen, ValidOptions, ValidKey, NextIv, SealedLen;
    SealedFits(m);
    var rc, cLen := sender.Encrypt(m, null, 0);
    var buffer := new bv8[cLen];
    rc, cLen := sender.Encrypt(m, buffer, cLen);
    c := buffer[..cLen];
  }

  method Receive(receiver: Context, c: seq<bv8>) returns (m: seq<bv8>)
    requires receiver.Valid() && receiver.key.Some? && 32 <= |c| < B64 - 32 && |c| % 16 == 0 && Readable(c)
    requires Open(receiver.key.value, c).Ok?
    ensures m == Open(receiver.key.value, c).m
  {
    hide Open, ValidOptions, ValidKey, Readable;
    LengthWraps(|c|);
    var buffer := new bv8[|c|];
    var rc, mLen := receiver.Decrypt(c, buffer, |c|);
    m := buffer[..mLen];
  }

  method Deliver(sender: Context, receiver: Context, m: seq<bv8>) returns (m': seq<bv8>)
    requires sender != receiver && sender.iv != receiver.iv && sender.Valid() && receiver.Valid()
    requires sender.key.Some? && receiver.key == sender.key && |m| < B64 - 96
    modifies sender.iv
    ensures m' == m && sender.Valid() && receiver.Valid()
  {
    hide Seal, Open, PadLen, ValidOptions, Readable;
    OpenSeal(sender.key.value, sender.options, sender.iv[..], m);
    var c := Send(sender, m);
    m' := Receive(receiver, c);
  }
}
