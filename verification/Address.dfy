/** Addresses: a varint tag, data and a checksum in base58 (base58.cpp). */
module Address {
  import opened Wrappers
  import opened Numbers
  import opened Base58
  import Varint

  const CHECKSUM := 4

  /** cn_fast_hash: any function to at least four bytes. */
  ghost predicate IsHash(hash: seq<int> -> seq<int>) {
    forall b :: |hash(b)| >= CHECKSUM && AllBytes(hash(b))
  }

  function Payload(tag: nat, data: seq<int>): seq<int> { Varint.Encode(tag) + data }

  function WithChecksum(hash: seq<int> -> seq<int>, body: seq<int>): seq<int>
    requires |hash(body)| >= CHECKSUM
  {
    body + hash(body)[..CHECKSUM]
  }

  /** What decode_addr accepts: a checksummed body whose tag can be read. */
  function Accepted(hash: seq<int> -> seq<int>, bytes: seq<int>): Option<(nat, seq<int>)>
    requires AllBytes(bytes) && (|bytes| > CHECKSUM ==> |hash(bytes[..|bytes| - CHECKSUM])| >= CHECKSUM)
  {
    if |bytes| <= CHECKSUM then None
    else
      var body := bytes[..|bytes| - CHECKSUM];
      var (read, tag) := Varint.Read(body, 64, true);
      if bytes != WithChecksum(hash, body) || read <= 0 then None else Some((tag, body[read..]))
  }

  /** The bytes behind the letters, for a tag of one byte: tag, data, and four bytes of their hash. */
  lemma AddressBytes(hash: seq<int> -> seq<int>, tag: nat, data: seq<int>)
    requires tag < 128 && |hash([tag] + data)| >= 4
    ensures Payload(tag, data) == [tag] + data
    ensures WithChecksum(hash, Payload(tag, data)) == [tag] + data + hash([tag] + data)[..4]
  {
    Varint.EncodeSmall(tag);
  }

  /** encode_addr */
  method EncodeAddr(hash: seq<int> -> seq<int>, tag: nat, data: seq<int>) returns (addr: string)
    requires IsHash(hash) && AllBytes(data)
    ensures AllBytes(WithChecksum(hash, Payload(tag, data)))
    ensures addr == Encode(WithChecksum(hash, Payload(tag, data)))
  {
    var buf := Varint.WriteVarint([], tag);
    assert [] + Varint.Encode(tag) == Varint.Encode(tag);
    buf := buf + data;
    buf := buf + hash(buf)[..CHECKSUM];
    addr := EncodeData(buf);
  }

  /** decode_addr */
  method DecodeAddr(hash: seq<int> -> seq<int>, addr: string) returns (r: Option<(nat, seq<int>)>)
    requires IsHash(hash)
    ensures r == match Decode(addr) case None => None case Some(bytes) => Accepted(hash, bytes)
  {
    hide Decode;
    var decoded := DecodeString(addr);
    if decoded.None? {
      return None;
    }
    var bytes := decoded.value;
    if |bytes| <= CHECKSUM {
      return None;
    }
    var checksum := bytes[|bytes| - CHECKSUM..];
    var body := bytes[..|bytes| - CHECKSUM];
    var expected := hash(body)[..CHECKSUM];
    assert bytes == body + checksum;
    if expected != checksum {
      assert bytes[|body|..] != WithChecksum(hash, body)[|body|..];
      return None;
    }
    var read, tag := Varint.ReadVarint(64, 64, body);
    if read <= 0 {
      return None;
    }
    r := Some((tag, body[read..]));
  }

  lemma PayloadAccepted(hash: seq<int> -> seq<int>, tag: nat, data: seq<int>)
    requires IsHash(hash) && AllBytes(data) && tag < 0x1_0000_0000_0000_0000
    ensures AllBytes(WithChecksum(hash, Payload(tag, data)))
    ensures Accepted(hash, WithChecksum(hash, Payload(tag, data))) == Some((tag, data))
  {
    PowersOfTwo();
    hide Pow;
    var body := Payload(tag, data);
    Varint.ReadEncode(tag, data, 64, true);
    assert WithChecksum(hash, body)[..|body|] == body;
    assert body[|Varint.Encode(tag)|..] == data;
  }

  /** decode_addr undoes encode_addr, for every tag, data and hash. */
  lemma AddressRoundTrip(hash: seq<int> -> seq<int>, tag: nat, data: seq<int>)
    requires IsHash(hash) && AllBytes(data) && tag < 0x1_0000_0000_0000_0000
    ensures AllBytes(WithChecksum(hash, Payload(tag, data)))
    ensures Decode(Encode(WithChecksum(hash, Payload(tag, data)))) == Some(WithChecksum(hash, Payload(tag, data)))
    ensures Accepted(hash, WithChecksum(hash, Payload(tag, data))) == Some((tag, data))
  {
    PayloadAccepted(hash, tag, data);
    DecodeEncode(WithChecksum(hash, Payload(tag, data)));
  }

  /** The bytes of the tag inside an accepted address. */
  ghost function TagLength(bytes: seq<int>): int
    requires AllBytes(bytes) && |bytes| > CHECKSUM
  {
    Varint.Read(bytes[..|bytes| - CHECKSUM], 64, true).0
  }

  lemma AcceptedParts(hash: seq<int> -> seq<int>, bytes: seq<int>)
    requires IsHash(hash) && AllBytes(bytes) && Accepted(hash, bytes).Some?
    ensures var (tag, data) := Accepted(hash, bytes).value;
      && |bytes| > CHECKSUM && AllBytes(data) && AllBytes(WithChecksum(hash, Payload(tag, data)))
      && var body := bytes[..|bytes| - CHECKSUM];
      && bytes == WithChecksum(hash, body) && AllBytes(body) && TagLength(bytes) > 0
      && Varint.Read(body, 64, true) == (TagLength(bytes), tag) && data == body[TagLength(bytes)..]
  {
    hide Varint.Read;
  }

  /** The other way round holds exactly when the tag is complete: an accepted address
      is the one encode_addr gives for its tag and data if and only if some byte before
      the checksum is below 128. */
  lemma AddressCanonical(hash: seq<int> -> seq<int>, addr: string)
    requires IsHash(hash) && Decode(addr).Some? && Accepted(hash, Decode(addr).value).Some?
    ensures var bytes := Decode(addr).value; var (tag, data) := Accepted(hash, bytes).value;
      && AllBytes(WithChecksum(hash, Payload(tag, data)))
      && (Encode(WithChecksum(hash, Payload(tag, data))) == addr <==> Varint.Ends(bytes[..|bytes| - CHECKSUM]))
  {
    var bytes := Decode(addr).value;
    var (tag, data) := Accepted(hash, bytes).value;
    var body := bytes[..|bytes| - CHECKSUM];
    AcceptedParts(hash, bytes);
    hide Accepted, Decode, Encode, WithChecksum, Payload, Varint.Read, Varint.Ends, IsHash;
    EncodeDecode(addr);
    DecodeEncode(WithChecksum(hash, Payload(tag, data)));
    TagEquality(hash, bytes, tag, data, body, TagLength(bytes));
    Varint.ReadEnds(body, 64, true);
  }

  /** The payload is the accepted body exactly when the tag's last byte ends it. */
  lemma PayloadIsBody(tag: nat, data: seq<int>, body: seq<int>, n: nat)
    requires AllBytes(body) && Varint.Read(body, 64, true) == (n, tag) && 0 < n && data == body[n..]
    ensures Payload(tag, data) == body <==> body[n - 1] < 128
  {
    if body[n - 1] < 128 {
      Varint.ReadCanonical(body, 64, true);
      assert body[..n] + body[n..] == body;
    } else {
      Varint.ReadTruncated(body, 64, true);
      hide Varint.Read;
      assert Payload(tag, data) == Varint.Encode(tag);
    }
  }

  lemma TagEquality(hash: seq<int> -> seq<int>, bytes: seq<int>, tag: nat, data: seq<int>, body: seq<int>, n: nat)
    requires IsHash(hash) && AllBytes(bytes) && |bytes| > CHECKSUM && body == bytes[..|bytes| - CHECKSUM]
    requires bytes == WithChecksum(hash, body) && AllBytes(data)
    requires Varint.Read(body, 64, true) == (n, tag) && n > 0 && data == body[n..]
    ensures WithChecksum(hash, Payload(tag, data)) == bytes <==> bytes[n - 1] < 128
  {
    assert AllBytes(body) && body[n - 1] == bytes[n - 1];
    hide Varint.Read, WithChecksum, Payload;
    PayloadIsBody(tag, data, body, n);
    if WithChecksum(hash, Payload(tag, data)) == bytes {
      SameBody(hash, Payload(tag, data), body);
    }
  }

  lemma SameBody(hash: seq<int> -> seq<int>, p: seq<int>, q: seq<int>)
    requires IsHash(hash) && WithChecksum(hash, p) == WithChecksum(hash, q)
    ensures p == q
  {
    assert |p| == |q|;
    assert WithChecksum(hash, p)[..|p|] == p && WithChecksum(hash, q)[..|q|] == q;
  }

  lemma CutOffBytes(hash: seq<int> -> seq<int>)
    requires IsHash(hash)
    ensures AllBytes(WithChecksum(hash, [0x80])) && Accepted(hash, WithChecksum(hash, [0x80])) == Some((0, []))
    ensures Payload(0, []) == [0] && WithChecksum(hash, [0x80])[0] != WithChecksum(hash, [0])[0]
  {
    assert WithChecksum(hash, [0x80])[..1] == [0x80];
    assert Varint.Read([], 57, false) == (0, 0) && [0x80][1..] == [];
  }

  /** A cut-off tag is accepted all the same: for every hash the address of the one byte
      80 and its checksum decodes to tag 0 and no data, whose own address is another. */
  lemma TruncatedTagAccepted(hash: seq<int> -> seq<int>)
    requires IsHash(hash)
    ensures AllBytes(WithChecksum(hash, [0x80])) && AllBytes(WithChecksum(hash, Payload(0, [])))
    ensures var addr := Encode(WithChecksum(hash, [0x80]));
      && Decode(addr).Some? && Accepted(hash, Decode(addr).value) == Some((0, []))
      && Encode(WithChecksum(hash, Payload(0, []))) != addr
  {
    hide Encode, Decode, Accepted, WithChecksum;
    CutOffBytes(hash);
    CanonicalBytes(hash);
    DecodeEncode(WithChecksum(hash, [0x80]));
    DecodeEncode(WithChecksum(hash, Payload(0, [])));
  }

  lemma CanonicalBytes(hash: seq<int> -> seq<int>)
    requires IsHash(hash)
    ensures AllBytes(WithChecksum(hash, Payload(0, [])))
  {
    assert Payload(0, []) == [0];
  }

  /** An address printed and read back: tag and data return, whatever the hash. */
  method PrintAndRead(hash: seq<int> -> seq<int>, tag: nat, data: seq<int>) returns (r: Option<(nat, seq<int>)>)
    requires IsHash(hash) && AllBytes(data) && tag < B64
    ensures r == Some((tag, data))
  {
    hide Encode, Decode, Accepted;
    AddressRoundTrip(hash, tag, data);
    var addr := EncodeAddr(hash, tag, data);
    r := DecodeAddr(hash, addr);
  }
}
