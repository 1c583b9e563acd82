/** PBKDF2 with HMAC-SHA256 (sha256.h) against section 5.2 of RFC 8018. */
module Pbkdf2 {
  import opened Numbers
  import opened Sha256
  import opened Buffers
  import opened Hmac
  import opened Sha256Block

  // ---------------------------------------------------------------- section 5.2 of RFC 8018

  /** U_j of block i. */
  function U(password: seq<bv8>, salt: seq<bv8>, i: nat, j: nat): (u: seq<bv8>)
    requires i < B32 && j > 0
    ensures |u| == 32
    decreases j
  {
    if j == 1 then Mac(password, salt + NatBytes(i)) else Mac(password, U(password, salt, i, j - 1))
  }

  /** U_1 xor ... xor U_j. */
  function T(password: seq<bv8>, salt: seq<bv8>, i: nat, j: nat): (t: seq<bv8>)
    requires i < B32 && j > 0
    ensures |t| == 32
    decreases j
  {
    if j == 1 then U(password, salt, i, 1) else XorBytes(T(password, salt, i, j - 1), U(password, salt, i, j))
  }

  /** The first n bytes of T_1 || T_2 || ... */
  function Derived(password: seq<bv8>, salt: seq<bv8>, c: nat, n: nat): (dk: seq<bv8>)
    requires c > 0 && n <= 32 * (B32 - 1)
    ensures |dk| == n
  {
    seq(n, k requires 0 <= k < n => T(password, salt, k / 32 + 1, c)[k % 32])
  }

  /** Byte k of the key: block k / 32 + 1 starts from the salt and its big-endian number, goes on
      with the MAC of the MAC, and sums them up. */
  lemma DerivedSteps(password: seq<bv8>, salt: seq<bv8>, c: nat, n: nat, k: nat, j: nat) returns (b: seq<bv8>)
    requires c > 0 && k < n <= 32 * (B32 - 1) && j > 0
    ensures |b| == 4 && Word(b) == (k / 32 + 1) as bv32
    ensures Derived(password, salt, c, n)[k] == T(password, salt, k / 32 + 1, c)[k % 32]
    ensures T(password, salt, k / 32 + 1, 1) == U(password, salt, k / 32 + 1, 1) == Mac(password, salt + b)
    ensures U(password, salt, k / 32 + 1, j + 1) == Mac(password, U(password, salt, k / 32 + 1, j))
    ensures T(password, salt, k / 32 + 1, j + 1)
        == XorBytes(T(password, salt, k / 32 + 1, j), U(password, salt, k / 32 + 1, j + 1))
  {
    hide Mac, XorBytes, Word;
    b := NatBytes(k / 32 + 1);
    WordBytes((k / 32 + 1) as bv32);
  }

  /** The first 32 bytes with one iteration are one MAC. */
  lemma DerivedOnce(password: seq<bv8>, salt: seq<bv8>, n: nat)
    requires n <= 32
    ensures Derived(password, salt, 1, n) == Mac(password, salt + [0, 0, 0, 1])[..n]
  {
    hide Mac;
    NumberOne();
  }

  lemma NumberOne()
    ensures NatBytes(1) == [0, 0, 0, 1]
  {
  }

  // ---------------------------------------------------------------- the code

  method NextU(hctx: HmacContext, password: seq<bv8>, u: seq<bv8>) returns (u': seq<bv8>)
    requires hctx.Shape() && |password| < B64 && |u| == 32
    modifies hctx.Repr()
    ensures hctx.Shape() && u' == Mac(password, u)
  {
    hide HmacContext.Holds, Mac;
    hctx.Init(password);
    hctx.Update(u, password, []);
    assert [] + u == u;
    u' := hctx.Final(password, u);
  }

  lemma NextT(password: seq<bv8>, salt: seq<bv8>, i: nat, j: nat)
    requires i < B32 && j > 0
    ensures U(password, salt, i, j + 1) == Mac(password, U(password, salt, i, j))
    ensures T(password, salt, i, j + 1) == XorBytes(T(password, salt, i, j), U(password, salt, i, j + 1))
  {
  }

  method XorInto(t: array<bv8>, u: seq<bv8>)
    requires t.Length == |u|
    modifies t
    ensures t[..] == XorBytes(old(t[..]), u)
  {
    XorIn(t, 0, u);
  }

  /** The rounds from the second on: T takes in each new U. */
  method Iterate(hctx: HmacContext, password: seq<bv8>, ghost salt: seq<bv8>, i: nat, c: nat, first: seq<bv8>)
    returns (result: seq<bv8>)
    requires hctx.Shape() && |password| < B64 && i < B32 && c > 0 && first == U(password, salt, i, 1)
    modifies hctx.Repr()
    ensures hctx.Shape() && result == T(password, salt, i, c)
  {
    hide Mac, U, XorBytes, HmacContext.Shape;
    var u := first;
    var t := new bv8[32](k requires 0 <= k < 32 => first[k]);
    assert t[..] == u;
    var j := 1;
    while j < c
      invariant 1 <= j <= c && hctx.Shape() && t.Length == 32 && t !in hctx.Repr() && fresh(t)
      invariant u == U(password, salt, i, j) && t[..] == T(password, salt, i, j)
    {
      u := NextU(hctx, password, u);
      XorInto(t, u);
      NextT(password, salt, i, j);
      j := j + 1;
    }
    result := t[..];
  }

  /** The blocks written so far. */
  ghost predicate Written(buf: seq<bv8>, dk: seq<bv8>, done: nat)
    requires |dk| <= |buf|
  {
    forall k :: 0 <= k < |dk| && k < done ==> buf[k] == dk[k]
  }

  /** One block: the saved context goes on with the block number. */
  method Block(pshctx: HmacContext, hctx: HmacContext, password: seq<bv8>, salt: seq<bv8>, i: nat, c: nat)
    returns (t: seq<bv8>)
    requires pshctx.Holds(password, salt) && hctx.Shape() && pshctx.Repr() !! hctx.Repr()
    requires |password| < B64 && i < B32 && c > 0
    modifies hctx.Repr()
    ensures hctx.Shape() && pshctx.Holds(password, salt) && t == T(password, salt, i, c)
  {
    hctx.CopyFrom(pshctx, password, salt);
    hctx.Update(NatBytes(i), password, salt);
    var u := hctx.Final(password, salt + NatBytes(i));
    t := Iterate(hctx, password, salt, i, c, u);
  }

  lemma WrittenStep(before: seq<bv8>, after: seq<bv8>, password: seq<bv8>, salt: seq<bv8>, c: nat, n: nat, i: nat,
      t: seq<bv8>)
    requires c > 0 && n <= 32 * (B32 - 1) && n <= |before| == |after| && 32 * i < n
    requires Written(before, Derived(password, salt, c, n), 32 * i) && t == T(password, salt, i + 1, c)
    requires forall k :: 0 <= k < n ==> after[k] == if 32 * i <= k < 32 * i + 32 then t[k - 32 * i] else before[k]
    ensures Written(after, Derived(password, salt, c, n), 32 * (i + 1))
  {
    hide T;
    var dk := Derived(password, salt, c, n);
    forall k | 0 <= k < n && 32 * i <= k < 32 * i + 32 ensures after[k] == dk[k] {
      assert k / 32 == i && k % 32 == k - 32 * i;
    }
  }

  /** One block and its place in the output, cut short at the end. */
  method WriteBlock(pshctx: HmacContext, hctx: HmacContext, password: seq<bv8>, salt: seq<bv8>, i: nat, c: nat,
      buf: array<bv8>, dkLen: nat)
    requires pshctx.Holds(password, salt) && hctx.Shape() && pshctx.Repr() !! hctx.Repr()
    requires buf !in pshctx.Repr() && buf !in hctx.Repr()
    requires |password| < B64 && c > 0 && dkLen <= 32 * (B32 - 1) && dkLen <= buf.Length && 32 * i < dkLen
    requires Written(buf[..], Derived(password, salt, c, dkLen), 32 * i)
    modifies hctx.Repr(), buf
    ensures hctx.Shape() && pshctx.Holds(password, salt)
    ensures Written(buf[..], Derived(password, salt, c, dkLen), 32 * (i + 1))
    ensures forall k :: dkLen <= k < buf.Length ==> buf[k] == old(buf[k])
  {
    hide HmacContext.Holds, HmacContext.Shape, Derived, T, Written;
    ghost var before := buf[..];
    var t := Block(pshctx, hctx, password, salt, i + 1, c);
    var clen := if dkLen - i * 32 > 32 then 32 else dkLen - i * 32;
    CopyIn(buf, i * 32, t[..clen]);
    WrittenStep(before, buf[..], password, salt, c, dkLen, i, t);
  }

  /** PBKDF2_SHA256; an iteration count of zero acts like one. */
  method Pbkdf2(password: seq<bv8>, salt: seq<bv8>, c: nat, buf: array<bv8>, dkLen: nat)
    requires |password| < B64 && |salt| < B64 && dkLen <= 32 * (B32 - 1) && dkLen <= buf.Length
    modifies buf
    ensures buf[..dkLen] == Derived(password, salt, if c == 0 then 1 else c, dkLen)
    ensures buf[dkLen..] == old(buf[dkLen..])
  {
    hide HmacContext.Holds, HmacContext.Shape, Derived;
    var rounds := if c == 0 then 1 else c;
    var pshctx := new HmacContext();
    pshctx.Init(password);
    pshctx.Update(salt, password, []);
    assert [] + salt == salt;
    var hctx := new HmacContext();
    var i := 0;
    while i * 32 < dkLen
      invariant 0 <= i && i * 32 < dkLen + 32
      invariant pshctx.Holds(password, salt) && hctx.Shape()
      invariant fresh(pshctx.Repr()) && fresh(hctx.Repr()) && pshctx.Repr() !! hctx.Repr()
      invariant Written(buf[..], Derived(password, salt, rounds, dkLen), 32 * i)
      invariant forall k :: dkLen <= k < buf.Length ==> buf[k] == old(buf[k])
      decreases dkLen - i * 32
    {
      WriteBlock(pshctx, hctx, password, salt, i, rounds, buf, dkLen);
      i := i + 1;
    }
  }
}
