/** FastKDF (neoscrypt.c): a ring buffer of 256 bytes kept in a straight array whose
    tail mirrors its head. The BLAKE2s call is any function of 64 and 32 bytes to 32. */
module FastKdf {
  import opened Numbers
  import opened Bits
  import opened Buffers

  const SIZE := 256

  ghost predicate IsPrf(prf: (seq<bv8>, seq<bv8>) -> seq<bv8>) {
    forall input, key :: |prf(input, key)| == 32
  }

  // ---------------------------------------------------------------- the ring

  function Repeated(s: seq<bv8>): (r: seq<bv8>)
    requires s != []
    ensures |r| == SIZE
  {
    seq(SIZE, i requires 0 <= i < SIZE => s[i % |s|])
  }

  /** n bytes of the ring from position p on. */
  function RingRead(ring: seq<bv8>, p: nat, n: nat): (r: seq<bv8>)
    requires |ring| == SIZE
    ensures |r| == n
  {
    seq(n, i requires 0 <= i < n => ring[(p + i) % SIZE])
  }

  /** x xor'ed into the ring from position p on. */
  function RingXor(ring: seq<bv8>, p: nat, x: seq<bv8>): (r: seq<bv8>)
    requires |ring| == SIZE && |x| == 32 && p < SIZE
    ensures |r| == SIZE
  {
    seq(SIZE, j requires 0 <= j < SIZE => if (j - p) % SIZE < 32 then ring[j] ^ x[(j - p) % SIZE] else ring[j])
  }

  function Sum(x: seq<bv8>): nat {
    if x == [] then 0 else Sum(x[..|x| - 1]) + x[|x| - 1] as nat
  }

  datatype Ring = Ring(bytes: seq<bv8>, ptr: nat)

  /** One iteration: the pointer moves by the sum of the output, which is then xor'ed in. */
  function Iterate(prf: (seq<bv8>, seq<bv8>) -> seq<bv8>, a: seq<bv8>, b: Ring): (r: Ring)
    requires |a| == |b.bytes| == SIZE && |prf(RingRead(a, b.ptr, 64), RingRead(b.bytes, b.ptr, 32))| == 32
    ensures |r.bytes| == SIZE && r.ptr < SIZE
  {
    var x := prf(RingRead(a, b.ptr, 64), RingRead(b.bytes, b.ptr, 32));
    var p := Sum(x) % SIZE;
    Ring(RingXor(b.bytes, p, x), p)
  }

  ghost function Run(prf: (seq<bv8>, seq<bv8>) -> seq<bv8>, a: seq<bv8>, b: seq<bv8>, n: nat): (r: Ring)
    requires IsPrf(prf) && |a| == |b| == SIZE
    ensures |r.bytes| == SIZE && r.ptr < SIZE
  {
    if n == 0 then Ring(b, 0) else Iterate(prf, a, Run(prf, a, b, n - 1))
  }

  /** Output byte i: the ring from the pointer on, xor the repeated password. */
  function Output(a: seq<bv8>, b: Ring, n: nat): (r: seq<bv8>)
    requires |a| == |b.bytes| == SIZE && n <= SIZE
    ensures |r| == n
  {
    seq(n, i requires 0 <= i < n => b.bytes[(b.ptr + i) % SIZE] ^ a[i])
  }

  function Clip(s: seq<bv8>): seq<bv8> { if |s| > SIZE then s[..SIZE] else s }

  // ---------------------------------------------------------------- the ring byte by byte

  function Clipped(s: seq<bv8>): nat { if |s| > SIZE then SIZE else |s| }

  lemma RepeatedAt(s: seq<bv8>, i: nat)
    requires s != [] && i < SIZE
    ensures Repeated(Clip(s))[i] == s[i % Clipped(s)]
  {
  }

  /** The pointer is the plain sum of the bytes. */
  lemma {:induction false} SumConcat(x: seq<bv8>, y: seq<bv8>)
    ensures Sum(x + y) == Sum(x) + Sum(y)
  {
    if y == [] {
      assert x + y == x;
    } else {
      SumConcat(x, y[..|y| - 1]);
      assert (x + y)[..|x + y| - 1] == x + y[..|y| - 1];
    }
  }

  lemma SumSingle(b: bv8)
    ensures Sum([b]) == b as nat && Sum([]) == 0
  {
    assert [b][..0] == [];
  }

  /** Before the iterations: the pointer at 0, salt and password repeated. */
  lemma RunStarts(prf: (seq<bv8>, seq<bv8>) -> seq<bv8>, password: seq<bv8>, salt: seq<bv8>, i: nat)
    requires IsPrf(prf) && password != [] && salt != [] && i < SIZE
    ensures var b := Run(prf, Repeated(Clip(password)), Repeated(Clip(salt)), 0);
      b.ptr == 0 && b.bytes[i] == salt[i % Clipped(salt)]
  {
    RepeatedAt(salt, i);
  }

  /** What an iteration hashes: 64 bytes of the password ring and 32 of the salt ring, both from
      the pointer on. */
  function Hashed(prf: (seq<bv8>, seq<bv8>) -> seq<bv8>, a: seq<bv8>, b: seq<bv8>, p: nat): seq<bv8>
    requires |a| == |b| == 256
  {
    prf(seq(64, i requires 0 <= i < 64 => a[(p + i) % 256]), seq(32, i requires 0 <= i < 32 => b[(p + i) % 256]))
  }

  lemma HashedReads(prf: (seq<bv8>, seq<bv8>) -> seq<bv8>, a: seq<bv8>, b: seq<bv8>, p: nat)
    requires |a| == |b| == SIZE
    ensures prf(RingRead(a, p, 64), RingRead(b, p, 32)) == Hashed(prf, a, b, p)
  {
    assert RingRead(a, p, 64) == seq(64, i requires 0 <= i < 64 => a[(p + i) % 256]);
    assert RingRead(b, p, 32) == seq(32, i requires 0 <= i < 32 => b[(p + i) % 256]);
  }

  lemma RunNext(prf: (seq<bv8>, seq<bv8>) -> seq<bv8>, a: seq<bv8>, b: seq<bv8>, n: nat)
    requires IsPrf(prf) && |a| == |b| == SIZE
    ensures var r := Run(prf, a, b, n); var x := Hashed(prf, a, r.bytes, r.ptr); var p := Sum(x) % SIZE;
      |x| == 32 && Run(prf, a, b, n + 1) == Ring(RingXor(r.bytes, p, x), p)
  {
    var r := Run(prf, a, b, n);
    assert Run(prf, a, b, n + 1) == Iterate(prf, a, r);
    hide Run, RingXor, Sum, Hashed, RingRead;
    HashedReads(prf, a, r.bytes, r.ptr);
  }

  lemma XorAround256(ring: seq<bv8>, p: nat, x: seq<bv8>, i: nat)
    requires |ring| == SIZE && |x| == 32 && p < SIZE && i < SIZE
    ensures var at := (p + i) % 256; RingXor(ring, p, x)[at] == if i < 32 then ring[at] ^ x[i] else ring[at]
  {
    Around(p, i);
  }

  lemma RingLaw(r: Ring, r': Ring, x: seq<bv8>, i: nat)
    requires |r.bytes| == SIZE && |x| == 32 && i < SIZE
    requires r' == Ring(RingXor(r.bytes, Sum(x) % SIZE, x), Sum(x) % SIZE)
    ensures var at := (r'.ptr + i) % 256;
      |r'.bytes| == SIZE && r'.bytes[at] == if i < 32 then r.bytes[at] ^ x[i] else r.bytes[at]
  {
    XorAround256(r.bytes, Sum(x) % SIZE, x, i);
    hide RingXor, Sum;
  }

  /** One iteration: the pointer becomes the sum of the hash modulo 256, and from the new pointer
      on 32 bytes of the ring are xor'ed with the hash. */
  lemma RunLaw(prf: (seq<bv8>, seq<bv8>) -> seq<bv8>, a: seq<bv8>, b: seq<bv8>, n: nat, i: nat)
    requires IsPrf(prf) && |a| == |b| == SIZE && i < SIZE
    ensures var r, r' := Run(prf, a, b, n), Run(prf, a, b, n + 1);
      var x, at := Hashed(prf, a, r.bytes, r.ptr), (r'.ptr + i) % 256;
      && |x| == 32 && r'.ptr == Sum(x) % 256
      && r'.bytes[at] == if i < 32 then r.bytes[at] ^ x[i] else r.bytes[at]
  {
    hide Run, Hashed, Sum, RingXor;
    var r, r' := Run(prf, a, b, n), Run(prf, a, b, n + 1);
    RunNext(prf, a, b, n);
    RingLaw(r, r', Hashed(prf, a, r.bytes, r.ptr), i);
  }

  lemma Around(p: nat, i: nat)
    requires p < SIZE && i < SIZE
    ensures ((p + i) % SIZE - p) % SIZE == i
  {
    if p + i < SIZE {
      DivModUnique(p + i, SIZE, 0, p + i);
      DivModUnique(i, SIZE, 0, i);
    } else {
      DivModUnique(p + i, SIZE, 1, p + i - SIZE);
      DivModUnique(i - SIZE, SIZE, -1, i);
    }
  }

  /** Output byte i in the rings' bytes. */
  lemma OutputLaw(prf: (seq<bv8>, seq<bv8>) -> seq<bv8>, password: seq<bv8>, b: Ring, m: nat, i: nat)
    requires password != [] && |b.bytes| == SIZE && i < m <= SIZE
    ensures Output(Repeated(Clip(password)), b, m)[i] == b.bytes[(b.ptr + i) % 256] ^ password[i % Clipped(password)]
  {
    RepeatedAt(password, i);
  }

  // ---------------------------------------------------------------- the straight buffer

  /** The first 256 bytes are the ring and the rest repeats its head. */
  ghost predicate Mirrors(buf: seq<bv8>, ring: seq<bv8>, tail: nat) {
    && |ring| == SIZE && tail <= SIZE && |buf| == SIZE + tail
    && buf[..SIZE] == ring
    && forall j :: 0 <= j < tail ==> buf[SIZE + j] == ring[j]
  }

  lemma MirroredAt(buf: seq<bv8>, ring: seq<bv8>, tail: nat, j: nat)
    requires Mirrors(buf, ring, tail) && j < SIZE + tail
    ensures buf[j] == ring[j % SIZE]
  {
    if j < SIZE {
      assert buf[j] == buf[..SIZE][j];
    } else {
      assert buf[j] == buf[SIZE + (j - SIZE)];
    }
  }

  /** Reading straight on from the pointer reads around the ring. */
  lemma MirroredRead(buf: seq<bv8>, ring: seq<bv8>, tail: nat, p: nat)
    requires Mirrors(buf, ring, tail) && p < SIZE
    ensures buf[p..p + tail] == RingRead(ring, p, tail)
  {
    forall i: nat | i < tail ensures buf[p + i] == RingRead(ring, p, tail)[i] {
      MirroredAt(buf, ring, tail, p + i);
    }
    hide Mirrors, RingRead;
  }

  /** The first n bytes of buf repeat src. */
  ghost predicate Filled(buf: seq<bv8>, src: seq<bv8>, n: nat) {
    src != [] && n <= |buf| && forall j :: 0 <= j < n ==> buf[j] == src[j % |src|]
  }

  lemma RepeatIndex(i: nat, k: nat, n: nat)
    requires n > 0 && k < n
    ensures (i * n + k) % n == k
  {
    DivModUnique(i * n + k, n, i, k);
  }

  lemma ExtendFilled(before: seq<bv8>, after: seq<bv8>, src: seq<bv8>, i: nat, m: nat)
    requires Filled(before, src, i * |src|) && m <= |src| && |after| == |before| && i * |src| + m <= |after|
    requires forall j :: 0 <= j < i * |src| ==> after[j] == before[j]
    requires after[i * |src|..i * |src| + m] == src[..m]
    ensures Filled(after, src, i * |src| + m)
  {
    var at := i * |src|;
    forall j | 0 <= j < at + m ensures after[j] == src[j % |src|] {
      if j >= at {
        RepeatIndex(i, j - at, |src|);
        assert after[j] == after[at..at + m][j - at] == src[..m][j - at];
      }
    }
  }

  lemma FilledMirrors(buf: seq<bv8>, src: seq<bv8>, tail: nat)
    requires Filled(buf, src, SIZE) && tail <= |src| <= SIZE && |buf| == SIZE + tail
    requires buf[SIZE..] == src[..tail]
    ensures Mirrors(buf, Repeated(src), tail)
  {
    forall j | 0 <= j < tail ensures buf[SIZE + j] == Repeated(src)[j] {
      assert buf[SIZE + j] == buf[SIZE..][j] == src[j];
      RepeatIndex(0, j, |src|);
    }
  }

  method CopyAt(buf: array<bv8>, src: seq<bv8>, i: nat, m: nat)
    requires src != [] && m <= |src| && i * |src| + m <= buf.Length && Filled(buf[..], src, i * |src|)
    modifies buf
    ensures Filled(buf[..], src, i * |src| + m)
  {
    ghost var before := buf[..];
    var at := i * |src|;
    CopyIn(buf, at, src[..m]);
    assert buf[..][at..at + m] == src[..m];
    ExtendFilled(before, buf[..], src, i, m);
  }

  /** Initialising a buffer: whole copies, the part that is left, and the mirrored tail. */
  method Fill(buf: array<bv8>, src: seq<bv8>, tail: nat)
    requires tail <= |src| <= SIZE && src != [] && buf.Length == SIZE + tail
    modifies buf
    ensures Mirrors(buf[..], Repeated(src), tail)
  {
    var n := |src|;
    var a: nat := SIZE / n;
    var i := 0;
    while i < a
      invariant 0 <= i <= a && Filled(buf[..], src, i * n)
    {
      Fits(i + 1, a, n);
      CopyAt(buf, src, i, n);
      i := i + 1;
    }
    Fits(a, a, n);
    var b := SIZE - a * n;
    CopyAt(buf, src, a, b);
    ghost var before := buf[..];
    CopyIn(buf, SIZE, src[..tail]);
    assert buf[..][SIZE..] == src[..tail];
    assert Filled(buf[..], src, SIZE) by {
      assert forall j :: 0 <= j < SIZE ==> buf[..][j] == before[j];
    }
    FilledMirrors(buf[..], src, tail);
  }

  lemma Fits(i: nat, a: nat, n: nat)
    requires n > 0 && i <= a == SIZE / n
    ensures i * n <= SIZE && (i == a ==> SIZE - i * n < n) && i * n == (if i == 0 then 0 else (i - 1) * n + n)
  {
    assert SIZE == a * n + SIZE % n;
    MulMonotonic(n, i, a);
  }

  // ---------------------------------------------------------------- the iteration

  lemma RingOffset(j: nat, p: nat)
    requires j < SIZE && p < SIZE
    ensures (j - p) % SIZE == if p <= j then j - p else j - p + SIZE
  {
    if p <= j {
      DivModUnique(j - p, SIZE, 0, j - p);
    } else {
      DivModUnique(j - p, SIZE, -1, j - p + SIZE);
    }
  }

  lemma RingXorAt(ring: seq<bv8>, p: nat, x: seq<bv8>, j: nat)
    requires |ring| == SIZE && |x| == 32 && p < SIZE && j < SIZE
    ensures RingXor(ring, p, x)[j] ==
            if p <= j < p + 32 then ring[j] ^ x[j - p] else if j + SIZE < p + 32 then ring[j] ^ x[j + SIZE - p]
                else ring[j]
  {
    RingOffset(j, p);
  }

  /** Byte j of the straight buffer after the xor alone. */
  function Xored(buf: seq<bv8>, p: nat, x: seq<bv8>, j: nat): bv8
    requires |buf| == SIZE + 32 && |x| == 32 && j < |buf|
  {
    if p <= j < p + 32 then buf[j] ^ x[j - p] else buf[j]
  }

  /** Which byte ends up at j: the fix-ups take head or tail from its other place. */
  function Source(p: nat, j: nat): (k: nat)
    requires p < SIZE && j < SIZE + 32
    ensures k < SIZE + 32
  {
    if j + SIZE < p + 32 then SIZE + j else if p + SIZE <= j then j - SIZE else j
  }

  /** The first fix-up: the tail from p on is copied from the head. */
  method MirrorHead(buf: array<bv8>, p: nat)
    requires buf.Length == SIZE + 32 && p < SIZE
    modifies buf
    ensures forall j :: 0 <= j < SIZE + 32 ==> buf[j] == old(buf[if p + SIZE <= j then j - SIZE else j])
  {
    if p < 32 {
      CopyIn(buf, SIZE + p, buf[p..32]);
    }
  }

  /** The second: the head below p + 32 - 256 is copied from the tail. */
  method MirrorTail(buf: array<bv8>, p: nat)
    requires buf.Length == SIZE + 32 && p < SIZE
    modifies buf
    ensures forall j :: 0 <= j < SIZE + 32 ==> buf[j] == old(buf[if j + SIZE < p + 32 then j + SIZE else j])
  {
    if SIZE - p < 32 {
      CopyIn(buf, 0, buf[SIZE..SIZE + 32 - (SIZE - p)]);
    }
  }

  /** The xor and the two fix-ups. */
  method XorBoth(buf: array<bv8>, p: nat, x: seq<bv8>)
    requires buf.Length == SIZE + 32 && |x| == 32 && p < SIZE
    modifies buf
    ensures forall j :: 0 <= j < SIZE + 32 ==> buf[j] == Xored(old(buf[..]), p, x, Source(p, j))
  {
    ghost var before := buf[..];
    XorIn(buf, p, x);
    ghost var after := buf[..];
    assert forall j :: 0 <= j < SIZE + 32 ==> after[j] == Xored(before, p, x, j);
    hide Xored;
    MirrorHead(buf, p);
    ghost var middle := buf[..];
    MirrorTail(buf, p);
    forall j: nat | j < SIZE + 32 ensures buf[j] == Xored(before, p, x, Source(p, j)) {
      assert buf[j] == middle[if j + SIZE < p + 32 then j + SIZE else j];
      assert buf[j] == after[Source(p, j)];
    }
  }

  lemma SourcePlace(p: nat, j: nat)
    requires p < SIZE && j < SIZE + 32
    ensures var i := if j < SIZE then j else j - SIZE; var k := Source(p, j);
      && k % SIZE == i
      && (if p <= k < p + 32 then if p <= i < p + 32 then k == i else i + SIZE < p + 32 && k == i + SIZE
          else !(p <= i < p + 32) && !(i + SIZE < p + 32))
  {
  }

  /** Both places then hold what the ring holds after the xor. */
  lemma XoredRing(buf: seq<bv8>, ring: seq<bv8>, p: nat, x: seq<bv8>, j: nat)
    requires Mirrors(buf, ring, 32) && |x| == 32 && p < SIZE && j < SIZE + 32
    ensures Xored(buf, p, x, Source(p, j)) == RingXor(ring, p, x)[if j < SIZE then j else j - SIZE]
  {
    var i, k := if j < SIZE then j else j - SIZE, Source(p, j);
    SourcePlace(p, j);
    MirroredAt(buf, ring, 32, k);
    RingXorAt(ring, p, x, i);
    hide RingXor, Source, Mirrors;
  }

  /** The modification of the salt buffer restores the mirror. */
  method ModifySalt(buf: array<bv8>, ghost ring: seq<bv8>, p: nat, x: seq<bv8>)
    requires Mirrors(buf[..], ring, 32) && |x| == 32 && p < SIZE
    modifies buf
    ensures Mirrors(buf[..], RingXor(ring, p, x), 32)
  {
    ghost var before := buf[..];
    XorBoth(buf, p, x);
    hide Xored, Source, RingXor;
    forall j: nat | j < SIZE + 32 ensures buf[j] == RingXor(ring, p, x)[if j < SIZE then j else j - SIZE] {
      XoredRing(before, ring, p, x, j);
    }
  }

  method SumBytes(x: seq<bv8>) returns (total: nat)
    ensures total == Sum(x)
  {
    total := 0;
    var j := 0;
    while j < |x|
      invariant 0 <= j <= |x| && total == Sum(x[..j])
    {
      assert x[..j + 1][..j] == x[..j];
      total := total + x[j] as nat;
      j := j + 1;
    }
    assert x[..j] == x;
  }

  method NextPointer(x: seq<bv8>) returns (p: nat)
    ensures p == Sum(x) % SIZE
  {
    var total := SumBytes(x);
    p := BitAnd(total, SIZE - 1);
    assert PowerOfTwo(4) && PowerOfTwo(16) && PowerOfTwo(64);
    AndPower(total, SIZE);
  }

  /** The main loop. */
  method Mix(prf: (seq<bv8>, seq<bv8>) -> seq<bv8>, A: array<bv8>, B: array<bv8>, ghost a: seq<bv8>,
      ghost b: seq<bv8>, n: nat)
      returns (p: nat)
    requires IsPrf(prf) && A != B && Mirrors(A[..], a, 64) && Mirrors(B[..], b, 32)
    modifies B
    ensures p == Run(prf, a, b, n).ptr && Mirrors(B[..], Run(prf, a, b, n).bytes, 32)
  {
    p := 0;
    var i := 0;
    while i < n
      invariant 0 <= i <= n
      invariant p == Run(prf, a, b, i).ptr && Mirrors(B[..], Run(prf, a, b, i).bytes, 32)
    {
      ghost var ring := Run(prf, a, b, i);
      MirroredRead(A[..], a, 64, p);
      MirroredRead(B[..], ring.bytes, 32, p);
      var x := prf(A[..][p..p + 64], B[..][p..p + 32]);
      p := NextPointer(x);
      ModifySalt(B, ring.bytes, p, x);
      i := i + 1;
    }
  }

  lemma OutputAt(A: seq<bv8>, B: seq<bv8>, a: seq<bv8>, ring: Ring, n: nat, i: nat)
    requires Mirrors(A, a, 64) && Mirrors(B, ring.bytes, 32) && ring.ptr < SIZE && i < n <= SIZE
    ensures Output(a, ring, n)[i] == B[if ring.ptr + i < SIZE then ring.ptr + i else ring.ptr + i - SIZE] ^ A[i]
  {
    var p := ring.ptr;
    DivModUnique(p + i, SIZE, if p + i < SIZE then 0 else 1, if p + i < SIZE then p + i else p + i - SIZE);
    assert B[..SIZE] == ring.bytes && A[..SIZE] == a;
    assert B[if p + i < SIZE then p + i else p + i - SIZE] == B[..SIZE][(p + i) % SIZE];
    assert A[i] == A[..SIZE][i];
  }

  /** The exit taken when the output stops before the end of the ring. */
  method EmitStraight(A: array<bv8>, B: array<bv8>, p: nat, output: array<bv8>, length: nat)
    requires A != B && output != A && output != B && length <= output.Length && length <= A.Length
        && p + length <= B.Length
    modifies B, output
    ensures forall i :: 0 <= i < length ==> output[i] == old(B[p + i]) ^ A[i]
    ensures forall i :: length <= i < output.Length ==> output[i] == old(output[i])
  {
    XorIn(B, p, A[..length]);
    CopyIn(output, 0, B[p..p + length]);
  }

  /** The exit taken when the output goes around the ring. */
  method EmitWrapped(A: array<bv8>, B: array<bv8>, p: nat, left: nat, output: array<bv8>, length: nat)
    requires A != B && output != A && output != B && length <= output.Length && length <= A.Length
    requires left <= length <= p + left <= B.Length
    modifies B, output
    ensures forall i :: 0 <= i < length ==> output[i] == old(if i < left then B[p + i] else B[i - left]) ^ A[i]
    ensures forall i :: length <= i < output.Length ==> output[i] == old(output[i])
  {
    XorAround(A, B, p, left, length);
    CopyIn(output, 0, B[p..p + left]);
    CopyIn(output, left, B[..length - left]);
  }

  /** The xor of the output goes around the ring: up to the end and on from the start. */
  method XorAround(A: array<bv8>, B: array<bv8>, p: nat, left: nat, length: nat)
    requires A != B && length <= A.Length && left <= length <= p + left <= B.Length
    modifies B
    ensures forall i :: 0 <= i < left ==> B[p..p + left][i] == old(B[p + i]) ^ A[i]
    ensures forall i :: left <= i < length ==> B[..length - left][i - left] == old(B[i - left]) ^ A[i]
  {
    XorIn(B, p, A[..left]);
    XorIn(B, 0, A[left..length]);
  }

  /** The output section, wrapped or not. */
  method Emit(A: array<bv8>, B: array<bv8>, ghost a: seq<bv8>, ghost ring: Ring, p: nat, output: array<bv8>,
      length: nat)
    requires A != B && output != A && output != B && length <= output.Length && length <= SIZE
    requires Mirrors(A[..], a, 64) && Mirrors(B[..], ring.bytes, 32) && p == ring.ptr < SIZE
    modifies B, output
    ensures output[..length] == Output(a, ring, length)
    ensures output[length..] == old(output[length..])
  {
    ghost var B0 := B[..];
    assert A.Length == SIZE + 64 && B.Length == SIZE + 32;
    hide *;
    var left := SIZE - p;
    if left >= length {
      EmitStraight(A, B, p, output, length);
    } else {
      EmitWrapped(A, B, p, left, output, length);
    }
    forall i | 0 <= i < length ensures output[i] == Output(a, ring, length)[i] {
      OutputAt(A[..], B0, a, ring, length, i);
    }
  }

  /** The whole function computes on the straight buffers what the ring specifies. */
  method FastKdf(prf: (seq<bv8>, seq<bv8>) -> seq<bv8>, password: seq<bv8>, salt: seq<bv8>, n: nat,
      output: array<bv8>, length: nat)
    requires IsPrf(prf) && |password| >= 64 && |salt| >= 32
    requires output.Length >= if length > SIZE then SIZE else length
    modifies output
    ensures var m := if length > SIZE then SIZE else length;
            var a := Repeated(Clip(password));
            && output[..m] == Output(a, Run(prf, a, Repeated(Clip(salt)), n), m)
            && output[m..] == old(output[m..])
  {
    var A := new bv8[SIZE + 64];
    var B := new bv8[SIZE + 32];
    Fill(A, Clip(password), 64);
    Fill(B, Clip(salt), 32);
    var p := Mix(prf, A, B, Repeated(Clip(password)), Repeated(Clip(salt)), n);
    Emit(A, B, Repeated(Clip(password)), Run(prf, Repeated(Clip(password)), Repeated(Clip(salt)), n), p, output,
         if length > SIZE then SIZE else length);
  }
}
