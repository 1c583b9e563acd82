/** HMAC-SHA256 (sha256.h): two running hashes against RFC 2104. */
module Hmac {
  import opened Numbers
  import opened Sha256
  import opened Buffers

  // ---------------------------------------------------------------- RFC 2104

  /** A key longer than a block is hashed first; zeros fill it up to the block. */
  function BlockKey(key: seq<bv8>): (k: seq<bv8>)
    ensures |k| == 64
  {
    var short := if |key| > 64 then Digest(key) else key;
    short + seq(64 - |short|, _ => 0)
  }

  function Repeat(x: bv8): (r: seq<bv8>)
    ensures |r| == 64
  {
    seq(64, _ => x)
  }

  function Inner(key: seq<bv8>): (p: seq<bv8>) ensures |p| == 64 { XorBytes(BlockKey(key), Repeat(0x36)) }
  function Outer(key: seq<bv8>): (p: seq<bv8>) ensures |p| == 64 { XorBytes(BlockKey(key), Repeat(0x5c)) }

  function Mac(key: seq<bv8>, text: seq<bv8>): (m: seq<bv8>)
    ensures |m| == 32
  {
    Digest(Outer(key) + Digest(Inner(key) + text))
  }

  /** The two pads byte by byte. */
  lemma MacPads(key: seq<bv8>, text: seq<bv8>) returns (i: seq<bv8>, o: seq<bv8>)
    requires |key| <= 64
    ensures |i| == |o| == 64 && Mac(key, text) == Digest(o + Digest(i + text))
    ensures forall j :: 0 <= j < |key| ==> i[j] == key[j] ^ 0x36 && o[j] == key[j] ^ 0x5c
    ensures forall j :: |key| <= j < 64 ==> i[j] == 0x36 && o[j] == 0x5c
  {
    hide Digest;
    i, o := Inner(key), Outer(key);
    ZeroXor();
  }

  lemma ZeroXor()
    ensures (0 as bv8) ^ 0x36 == 0x36 && (0 as bv8) ^ 0x5c == 0x5c
  {
  }

  /** A key longer than a block stands for its digest. */
  lemma LongKey(key: seq<bv8>, text: seq<bv8>)
    requires |key| > 64
    ensures Mac(key, text) == Mac(Digest(key), text)
  {
    hide Digest;
    assert BlockKey(key) == BlockKey(Digest(key));
  }

  /** Zeros behind a shorter one change nothing. */
  lemma ZeroPaddedKey(key: seq<bv8>, text: seq<bv8>)
    requires |key| < 64
    ensures Mac(key + [0], text) == Mac(key, text)
  {
    hide Digest;
    assert BlockKey(key + [0]) == BlockKey(key);
  }

  // ---------------------------------------------------------------- the context

  /** memset of a block and the xor of the key over its first bytes. */
  method PadBlock(key: seq<bv8>, x: bv8) returns (pad: seq<bv8>)
    requires |key| <= 64
    ensures pad == XorBytes(key + seq(64 - |key|, _ => 0), Repeat(x))
  {
    var a := new bv8[64](_ => x);
    XorIn(a, 0, key);
    pad := a[..];
  }

  class HmacContext {
    const ictx: Context
    const octx: Context

    ghost function Repr(): set<object> { ictx.Repr() + octx.Repr() }

    ghost predicate Shape() {
      && ictx != octx && ictx.state != octx.state && ictx.buf != octx.buf
      && ictx.state.Length == octx.state.Length == 8 && ictx.buf.Length == octx.buf.Length == 64
    }

    ghost predicate Valid()
      reads Repr()
    {
      Shape() && ictx.Valid() && octx.Valid()
    }

    /** The running hashes are those of the inner pad and the text, and of the outer pad. */
    ghost predicate Holds(key: seq<bv8>, text: seq<bv8>)
      reads Repr()
    {
      Valid() && ictx.message == Inner(key) + text && octx.message == Outer(key)
    }

    constructor ()
      ensures Shape() && fresh(Repr())
    {
      ictx := new Context();
      octx := new Context();
    }

    /** HMAC_SHA256_Init. */
    method Init(key: seq<bv8>)
      requires Shape() && |key| < B64
      modifies Repr()
      ensures Holds(key, [])
    {
      hide Context.Valid, Digest;
      var K := key;
      if |key| > 64 {
        ictx.Init();
        ictx.Update(key);
        assert [] + key == key;
        K := ictx.Final();
      }
      ictx.Init();
      var pad := PadBlock(K, 0x36);
      ictx.Update(pad);
      octx.Init();
      pad := PadBlock(K, 0x5c);
      octx.Update(pad);
      assert [] + Inner(key) == Inner(key) + [] && [] + Outer(key) == Outer(key);
    }

    /** HMAC_SHA256_Update. */
    method Update(src: seq<bv8>, ghost key: seq<bv8>, ghost text: seq<bv8>)
      requires Holds(key, text) && |src| < B64
      modifies Repr()
      ensures Holds(key, text + src)
    {
      hide Context.Valid, Inner, Outer;
      ictx.Update(src);
      assert Inner(key) + text + src == Inner(key) + (text + src);
    }

    /** HMAC_SHA256_Final. */
    method Final(ghost key: seq<bv8>, ghost text: seq<bv8>) returns (digest: seq<bv8>)
      requires Holds(key, text)
      modifies Repr()
      ensures digest == Mac(key, text) && Shape()
    {
      hide Context.Valid, Inner, Outer, Digest;
      var ihash := ictx.Final();
      octx.Update(ihash);
      digest := octx.Final();
    }

    method CopyFrom(other: HmacContext, ghost key: seq<bv8>, ghost text: seq<bv8>)
      requires Shape() && other.Holds(key, text) && Repr() !! other.Repr()
      modifies Repr()
      ensures Holds(key, text)
    {
      hide Context.Valid, Inner, Outer;
      ictx.CopyFrom(other.ictx);
      octx.CopyFrom(other.octx);
    }
  }
}
