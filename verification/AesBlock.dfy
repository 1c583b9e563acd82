/** AES blocks (oaes_lib.c), sections 5.1 and 5.3 of FIPS 197: decryption undoes encryption
    for any round keys and any number of rounds, with any substitution box and its inverse. */
module AesBlock {
  import opened Group
  import opened AesField

  datatype Cipher<!T> = Cipher(f: Field<T>, sub: T -> T, inv: T -> T)

  ghost predicate BoxInverse<T>(ci: Cipher<T>, x: T) {
    ci.inv(ci.sub(x)) == x
  }

  ghost predicate Proper<T(!new)>(ci: Cipher<T>) {
    Laws(ci.f) && forall x :: BoxInverse(ci, x)
  }

  // ---------------------------------------------------------------- the four steps

  function SubBytes<T>(ci: Cipher<T>, b: seq<T>): (r: seq<T>)
    requires |b| == 16
    ensures |r| == 16
  {
    seq(16, i requires 0 <= i < 16 => ci.sub(b[i]))
  }

  function UnsubBytes<T>(ci: Cipher<T>, b: seq<T>): (r: seq<T>)
    requires |b| == 16
    ensures |r| == 16
  {
    seq(16, i requires 0 <= i < 16 => ci.inv(b[i]))
  }

  /** oaes_shift_rows. */
  function ShiftRows<T>(b: seq<T>): (r: seq<T>)
    requires |b| == 16
    ensures |r| == 16
  {
    [b[0], b[5], b[10], b[15], b[4], b[9], b[14], b[3], b[8], b[13], b[2], b[7], b[12], b[1], b[6], b[11]]
  }

  /** oaes_inv_shift_rows. */
  function UnshiftRows<T>(b: seq<T>): (r: seq<T>)
    requires |b| == 16
    ensures |r| == 16
  {
    [b[0], b[13], b[10], b[7], b[4], b[1], b[14], b[11], b[8], b[5], b[2], b[15], b[12], b[9], b[6], b[3]]
  }

  function MixColumns<T>(f: Field<T>, b: seq<T>): (r: seq<T>)
    requires |b| == 16
    ensures |r| == 16
  {
    MixColumn(f, b[0..4]) + MixColumn(f, b[4..8]) + MixColumn(f, b[8..12]) + MixColumn(f, b[12..16])
  }

  function UnmixColumns<T>(f: Field<T>, b: seq<T>): (r: seq<T>)
    requires |b| == 16
    ensures |r| == 16
  {
    UnmixColumn(f, b[0..4]) + UnmixColumn(f, b[4..8]) + UnmixColumn(f, b[8..12]) + UnmixColumn(f, b[12..16])
  }

  function AddKey<T>(f: Field<T>, b: seq<T>, k: seq<T>): (r: seq<T>)
    requires |b| == |k| == 16
    ensures |r| == 16
  {
    seq(16, i requires 0 <= i < 16 => f.g.add(b[i], k[i]))
  }

  lemma UnsubSub<T(!new)>(ci: Cipher<T>, b: seq<T>)
    requires Proper(ci) && |b| == 16
    ensures UnsubBytes(ci, SubBytes(ci, b)) == b
  {
    hide Laws;
    forall i | 0 <= i < 16 ensures UnsubBytes(ci, SubBytes(ci, b))[i] == b[i] {
      assert BoxInverse(ci, b[i]);
    }
  }

  lemma UnshiftShift<T>(b: seq<T>)
    requires |b| == 16
    ensures UnshiftRows(ShiftRows(b)) == b
  {
  }

  lemma UnmixMixColumns<T(!new)>(f: Field<T>, b: seq<T>)
    requires Laws(f) && |b| == 16
    ensures UnmixColumns(f, MixColumns(f, b)) == b
  {
    hide Laws, MixColumn, UnmixColumn;
    var m := MixColumns(f, b);
    assert m[0..4] == MixColumn(f, b[0..4]) && m[4..8] == MixColumn(f, b[4..8]);
    assert m[8..12] == MixColumn(f, b[8..12]) && m[12..16] == MixColumn(f, b[12..16]);
    UnmixMix(f, b[0..4]);
    UnmixMix(f, b[4..8]);
    UnmixMix(f, b[8..12]);
    UnmixMix(f, b[12..16]);
    assert b == b[0..4] + b[4..8] + b[8..12] + b[12..16];
  }

  lemma AddKeyTwice<T(!new)>(f: Field<T>, b: seq<T>, k: seq<T>)
    requires Laws(f) && |b| == |k| == 16
    ensures AddKey(f, AddKey(f, b, k), k) == b
  {
    forall i | 0 <= i < 16 ensures AddKey(f, AddKey(f, b, k), k)[i] == b[i] {
      Cancel(f.g, b[i], k[i]);
      assert OwnInverse(f, k[i]);
    }
  }

  // ---------------------------------------------------------------- whole blocks

  function Key<T>(exp: seq<T>, i: nat): (k: seq<T>)
    requires 16 * i + 16 <= |exp|
    ensures |k| == 16
  {
    exp[16 * i..16 * i + 16]
  }

  /** SubBytes and ShiftRows, which every round begins with. */
  function Scramble<T>(ci: Cipher<T>, b: seq<T>): (r: seq<T>)
    requires |b| == 16
    ensures |r| == 16
  {
    ShiftRows(SubBytes(ci, b))
  }

  function Unscramble<T>(ci: Cipher<T>, b: seq<T>): (r: seq<T>)
    requires |b| == 16
    ensures |r| == 16
  {
    UnsubBytes(ci, UnshiftRows(b))
  }

  /** The state after i full rounds. */
  function Rounds<T>(ci: Cipher<T>, exp: seq<T>, b: seq<T>, i: nat): (r: seq<T>)
    requires |b| == 16 && 16 * i + 16 <= |exp|
    ensures |r| == 16
  {
    if i == 0 then AddKey(ci.f, b, Key(exp, 0))
    else AddKey(ci.f, MixColumns(ci.f, Scramble(ci, Rounds(ci, exp, b, i - 1))), Key(exp, i))
  }

  /** The cipher of section 5.1, for n round keys. */
  function Encrypt<T>(ci: Cipher<T>, exp: seq<T>, n: nat, b: seq<T>): (r: seq<T>)
    requires n >= 2 && |exp| == 16 * n && |b| == 16
    ensures |r| == 16
  {
    AddKey(ci.f, Scramble(ci, Rounds(ci, exp, b, n - 2)), Key(exp, n - 1))
  }

  /** The inverse rounds from the last key down to key i. */
  function Back<T>(ci: Cipher<T>, exp: seq<T>, n: nat, b: seq<T>, i: nat): (r: seq<T>)
    requires n >= 2 && |exp| == 16 * n && |b| == 16 && 1 <= i < n
    ensures |r| == 16
    decreases n - i
  {
    if i == n - 1 then AddKey(ci.f, b, Key(exp, n - 1))
    else UnmixColumns(ci.f, AddKey(ci.f, Unscramble(ci, Back(ci, exp, n, b, i + 1)), Key(exp, i)))
  }

  /** The inverse cipher of section 5.3. */
  function Decrypt<T>(ci: Cipher<T>, exp: seq<T>, n: nat, b: seq<T>): (r: seq<T>)
    requires n >= 2 && |exp| == 16 * n && |b| == 16
    ensures |r| == 16
  {
    AddKey(ci.f, Unscramble(ci, Back(ci, exp, n, b, 1)), Key(exp, 0))
  }

  lemma UnscrambleScramble<T(!new)>(ci: Cipher<T>, b: seq<T>)
    requires Proper(ci) && |b| == 16
    ensures Unscramble(ci, Scramble(ci, b)) == b
  {
    hide Proper, SubBytes, UnsubBytes, ShiftRows, UnshiftRows;
    UnshiftShift(SubBytes(ci, b));
    UnsubSub(ci, b);
  }

  /** The inverse rounds walk back through the states of the encryption. */
  lemma {:induction false} BackIs<T(!new)>(ci: Cipher<T>, exp: seq<T>, n: nat, b: seq<T>, i: nat)
    requires Proper(ci) && n >= 2 && |exp| == 16 * n && |b| == 16 && 1 <= i < n
    ensures Back(ci, exp, n, Encrypt(ci, exp, n, b), i) == Scramble(ci, Rounds(ci, exp, b, i - 1))
    decreases n - i
  {
    hide Laws, BoxInverse, Scramble, Unscramble, AddKey, MixColumns, UnmixColumns, Key;
    if i == n - 1 {
      AddKeyTwice(ci.f, Scramble(ci, Rounds(ci, exp, b, n - 2)), Key(exp, n - 1));
    } else {
      BackIs(ci, exp, n, b, i + 1);
      UnscrambleScramble(ci, Rounds(ci, exp, b, i));
      var m := MixColumns(ci.f, Scramble(ci, Rounds(ci, exp, b, i - 1)));
      AddKeyTwice(ci.f, m, Key(exp, i));
      UnmixMixColumns(ci.f, Scramble(ci, Rounds(ci, exp, b, i - 1)));
    }
  }

  lemma DecryptEncrypt<T(!new)>(ci: Cipher<T>, exp: seq<T>, n: nat, b: seq<T>)
    requires Proper(ci) && n >= 2 && |exp| == 16 * n && |b| == 16
    ensures Decrypt(ci, exp, n, Encrypt(ci, exp, n, b)) == b
  {
    hide Laws, BoxInverse, Scramble, Unscramble, AddKey, Key, Encrypt, Back;
    BackIs(ci, exp, n, b, 1);
    UnscrambleScramble(ci, Rounds(ci, exp, b, 0));
    AddKeyTwice(ci.f, b, Key(exp, 0));
  }

  // ---------------------------------------------------------------- byte by byte

  /** A full round on column c: the substituted bytes of one diagonal with the factors 2, 3, 1, 1
      turning down the column, and the round key. */
  ghost predicate RoundColumn<T>(ci: Cipher<T>, s: seq<T>, key: seq<T>, c: nat, s': seq<T>)
    requires |s| == |key| == |s'| == 16 && c < 4
  {
    var g, double := ci.f.g, ci.f.double;
    var t0, t1 := ci.sub(s[4 * c]), ci.sub(s[(4 * c + 5) % 16]);
    var t2, t3 := ci.sub(s[(4 * c + 10) % 16]), ci.sub(s[(4 * c + 15) % 16]);
    && s'[4 * c] == g.add(Sum4(ci.f, double(t0), g.add(double(t1), t1), t2, t3), key[4 * c])
    && s'[4 * c + 1] == g.add(Sum4(ci.f, t0, double(t1), g.add(double(t2), t2), t3), key[4 * c + 1])
    && s'[4 * c + 2] == g.add(Sum4(ci.f, t0, t1, double(t2), g.add(double(t3), t3)), key[4 * c + 2])
    && s'[4 * c + 3] == g.add(Sum4(ci.f, g.add(double(t0), t0), t1, t2, double(t3)), key[4 * c + 3])
  }

  lemma RoundColumns<T>(ci: Cipher<T>, s: seq<T>, key: seq<T>, c: nat)
    requires |s| == |key| == 16 && c < 4
    ensures RoundColumn(ci, s, key, c, AddKey(ci.f, MixColumns(ci.f, Scramble(ci, s)), key))
  {
    var t := Scramble(ci, s);
    ScrambleAt(ci, s);
    hide Scramble;
    MixedAt(ci.f, t, c);
    hide MixColumns, Sum4;
  }

  /** SubBytes and ShiftRows take each column from a diagonal. */
  lemma ScrambleAt<T>(ci: Cipher<T>, s: seq<T>)
    requires |s| == 16
    ensures forall c: nat :: c < 4 ==> var t := Scramble(ci, s);
      && t[4 * c] == ci.sub(s[4 * c]) && t[4 * c + 1] == ci.sub(s[(4 * c + 5) % 16])
      && t[4 * c + 2] == ci.sub(s[(4 * c + 10) % 16]) && t[4 * c + 3] == ci.sub(s[(4 * c + 15) % 16])
  {
  }

  lemma MixedAt<T>(f: Field<T>, t: seq<T>, c: nat)
    requires |t| == 16 && c < 4
    ensures var m := MixColumns(f, t); var t0, t1, t2, t3 := t[4 * c], t[4 * c + 1], t[4 * c + 2], t[4 * c + 3];
      && m[4 * c] == Sum4(f, f.double(t0), f.g.add(f.double(t1), t1), t2, t3)
      && m[4 * c + 1] == Sum4(f, t0, f.double(t1), f.g.add(f.double(t2), t2), t3)
      && m[4 * c + 2] == Sum4(f, t0, t1, f.double(t2), f.g.add(f.double(t3), t3))
      && m[4 * c + 3] == Sum4(f, f.g.add(f.double(t0), t0), t1, t2, f.double(t3))
  {
    ColumnAt(f, t, c);
    hide MixColumns, Sum4;
    var m := MixColumns(f, t);
    assert m[4 * c] == m[4 * c..4 * c + 4][0] && m[4 * c + 1] == m[4 * c..4 * c + 4][1];
    assert m[4 * c + 2] == m[4 * c..4 * c + 4][2] && m[4 * c + 3] == m[4 * c..4 * c + 4][3];
  }

  lemma ColumnAt<T>(f: Field<T>, t: seq<T>, c: nat)
    requires |t| == 16 && c < 4
    ensures MixColumns(f, t)[4 * c..4 * c + 4] == MixColumn(f, t[4 * c..4 * c + 4])
  {
    hide MixColumn;
    assert c == 0 || c == 1 || c == 2 || c == 3;
  }

  ghost predicate FullRound<T>(ci: Cipher<T>, s: seq<T>, key: seq<T>, s': seq<T>) {
    |s| == |key| == |s'| == 16 && forall c: nat :: c < 4 ==> RoundColumn(ci, s, key, c, s')
  }

  /** The last round on column c does not mix. */
  ghost predicate LastColumn<T>(ci: Cipher<T>, s: seq<T>, key: seq<T>, c: nat, s': seq<T>)
    requires |s| == |key| == |s'| == 16 && c < 4
  {
    var g := ci.f.g;
    && s'[4 * c] == g.add(ci.sub(s[4 * c]), key[4 * c])
    && s'[4 * c + 1] == g.add(ci.sub(s[(4 * c + 5) % 16]), key[4 * c + 1])
    && s'[4 * c + 2] == g.add(ci.sub(s[(4 * c + 10) % 16]), key[4 * c + 2])
    && s'[4 * c + 3] == g.add(ci.sub(s[(4 * c + 15) % 16]), key[4 * c + 3])
  }

  ghost predicate LastRound<T>(ci: Cipher<T>, s: seq<T>, key: seq<T>, s': seq<T>) {
    |s| == |key| == |s'| == 16 && forall c: nat :: c < 4 ==> LastColumn(ci, s, key, c, s')
  }

  lemma FirstState<T>(ci: Cipher<T>, exp: seq<T>, b: seq<T>)
    requires |exp| >= 16 && |b| == 16
    ensures forall i :: 0 <= i < 16 ==> Rounds(ci, exp, b, 0)[i] == ci.f.g.add(b[i], exp[i])
  {
  }

  lemma NextState<T>(ci: Cipher<T>, exp: seq<T>, b: seq<T>, r: nat)
    requires |b| == 16 && r > 0 && 16 * r + 16 <= |exp|
    ensures FullRound(ci, Rounds(ci, exp, b, r - 1), Key(exp, r), Rounds(ci, exp, b, r))
  {
    hide RoundColumn, AddKey, MixColumns, Scramble, Key;
    var s, key, s' := Rounds(ci, exp, b, r - 1), Key(exp, r), Rounds(ci, exp, b, r);
    forall c: nat | c < 4 ensures RoundColumn(ci, s, key, c, s') {
      RoundColumns(ci, s, key, c);
    }
  }

  lemma KeyAt<T>(exp: seq<T>, i: nat, j: nat)
    requires 16 * i + 16 <= |exp| && j < 16
    ensures Key(exp, i)[j] == exp[16 * i + j]
  {
  }

  lemma LastState<T>(ci: Cipher<T>, s: seq<T>, key: seq<T>)
    requires |s| == |key| == 16
    ensures LastRound(ci, s, key, AddKey(ci.f, Scramble(ci, s), key))
  {
    ScrambleAt(ci, s);
    hide Scramble;
  }

  /** The cipher by its states: the first key alone, full rounds, and a last round that does not
      mix the columns. */
  lemma EncryptStates<T>(ci: Cipher<T>, exp: seq<T>, n: nat, b: seq<T>, r: nat)
    requires n >= 2 && |exp| == 16 * n && |b| == 16
    ensures forall i :: 0 <= i < 16 ==> Rounds(ci, exp, b, 0)[i] == ci.f.g.add(b[i], exp[i])
    ensures 0 < r < n - 1 ==> FullRound(ci, Rounds(ci, exp, b, r - 1), Key(exp, r), Rounds(ci, exp, b, r))
    ensures LastRound(ci, Rounds(ci, exp, b, n - 2), Key(exp, n - 1), Encrypt(ci, exp, n, b))
  {
    FirstState(ci, exp, b);
    LastState(ci, Rounds(ci, exp, b, n - 2), Key(exp, n - 1));
    hide FullRound, LastRound, Rounds, AddKey, Scramble, Key;
    if 0 < r < n - 1 {
      NextState(ci, exp, b, r);
    }
  }

  // ---------------------------------------------------------------- in place

  ghost predicate Outside<T>(before: seq<T>, after: seq<T>, at: nat) {
    |after| == |before| && forall j :: 0 <= j < |before| && !(at <= j < at + 16) ==> after[j] == before[j]
  }

  /** memcpy of a finished step back over the block. */
  method Put<T>(c: array<T>, at: nat, b: seq<T>)
    requires |b| == 16 && at + 16 <= c.Length
    modifies c
    ensures c[at..at + 16] == b && Outside(old(c[..]), c[..], at)
  {
    forall j | 0 <= j < 16 {
      c[at + j] := b[j];
    }
  }

  /** One full round of encryption. */
  method RoundAt<T>(ci: Cipher<T>, exp: seq<T>, i: nat, c: array<T>, at: nat)
    requires 1 <= i && 16 * i + 16 <= |exp| && at + 16 <= c.Length
    modifies c
    ensures c[at..at + 16] == AddKey(ci.f, MixColumns(ci.f, Scramble(ci, old(c[at..at + 16]))), Key(exp, i))
    ensures Outside(old(c[..]), c[..], at)
  {
    hide SubBytes, ShiftRows, MixColumns, AddKey, Key;
    Put(c, at, SubBytes(ci, c[at..at + 16]));
    Put(c, at, ShiftRows(c[at..at + 16]));
    Put(c, at, MixColumns(ci.f, c[at..at + 16]));
    Put(c, at, AddKey(ci.f, c[at..at + 16], Key(exp, i)));
  }

  /** oaes_encrypt_block. */
  method EncryptBlock<T>(ci: Cipher<T>, exp: seq<T>, n: nat, c: array<T>, at: nat)
    requires n >= 2 && |exp| == 16 * n && at + 16 <= c.Length
    modifies c
    ensures c[at..at + 16] == Encrypt(ci, exp, n, old(c[at..at + 16])) && Outside(old(c[..]), c[..], at)
  {
    hide SubBytes, ShiftRows, MixColumns, AddKey, Key;
    ghost var b := c[at..at + 16];
    Put(c, at, AddKey(ci.f, c[at..at + 16], Key(exp, 0)));
    var i := 1;
    while i < n - 1
      invariant 1 <= i <= n - 1 && c[at..at + 16] == Rounds(ci, exp, b, i - 1) && Outside(old(c[..]), c[..], at)
    {
      RoundAt(ci, exp, i, c, at);
      i := i + 1;
    }
    Put(c, at, SubBytes(ci, c[at..at + 16]));
    Put(c, at, ShiftRows(c[at..at + 16]));
    Put(c, at, AddKey(ci.f, c[at..at + 16], Key(exp, n - 1)));
  }

  method UnroundAt<T>(ci: Cipher<T>, exp: seq<T>, i: nat, c: array<T>, at: nat)
    requires 16 * i + 16 <= |exp| && at + 16 <= c.Length
    modifies c
    ensures c[at..at + 16] == UnmixColumns(ci.f, AddKey(ci.f, Unscramble(ci, old(c[at..at + 16])), Key(exp, i)))
    ensures Outside(old(c[..]), c[..], at)
  {
    hide UnsubBytes, UnshiftRows, UnmixColumns, AddKey, Key;
    Put(c, at, UnshiftRows(c[at..at + 16]));
    Put(c, at, UnsubBytes(ci, c[at..at + 16]));
    Put(c, at, AddKey(ci.f, c[at..at + 16], Key(exp, i)));
    Put(c, at, UnmixColumns(ci.f, c[at..at + 16]));
  }

  /** oaes_decrypt_block. */
  method DecryptBlock<T>(ci: Cipher<T>, exp: seq<T>, n: nat, c: array<T>, at: nat)
    requires n >= 2 && |exp| == 16 * n && at + 16 <= c.Length
    modifies c
    ensures c[at..at + 16] == Decrypt(ci, exp, n, old(c[at..at + 16])) && Outside(old(c[..]), c[..], at)
  {
    hide UnsubBytes, UnshiftRows, UnmixColumns, AddKey, Key;
    ghost var b := c[at..at + 16];
    Put(c, at, AddKey(ci.f, c[at..at + 16], Key(exp, n - 1)));
    var i := n - 2;
    while i > 0
      invariant 0 <= i <= n - 2 && c[at..at + 16] == Back(ci, exp, n, b, i + 1) && Outside(old(c[..]), c[..], at)
    {
      UnroundAt(ci, exp, i, c, at);
      i := i - 1;
    }
    Put(c, at, UnshiftRows(c[at..at + 16]));
    Put(c, at, UnsubBytes(ci, c[at..at + 16]));
    Put(c, at, AddKey(ci.f, c[at..at + 16], Key(exp, 0)));
  }
}
