/** Byte copies and xors into part of a buffer. */
module Buffers {

  function XorBytes(a: seq<bv8>, b: seq<bv8>): (c: seq<bv8>)
    requires |a| == |b|
    ensures |c| == |a|
  {
    seq(|a|, i requires 0 <= i < |a| => a[i] ^ b[i])
  }

  method CopyIn(dst: array<bv8>, off: nat, src: seq<bv8>)
    requires off + |src| <= dst.Length
    modifies dst
    ensures forall j :: 0 <= j < dst.Length ==> dst[j] == if off <= j < off + |src| then src[j - off] else old(dst[j])
  {
    forall j | 0 <= j < |src| {
      dst[off + j] := src[j];
    }
  }

  method XorIn(dst: array<bv8>, off: nat, src: seq<bv8>)
    requires off + |src| <= dst.Length
    modifies dst
    ensures forall j :: 0 <= j < dst.Length ==> dst[j] == if off <= j < off + |src| then old(dst[j]) ^ src[j - off]
        else old(dst[j])
  {
    forall j | off <= j < off + |src| {
      dst[j] := dst[j] ^ src[j - off];
    }
  }
}
