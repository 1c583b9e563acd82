/** The variable-length integers of varint.h: seven bits a byte, least significant first,
    the high bit saying that more follow. */
module Varint {
  import opened Numbers
  import opened Bits

  const OVERFLOW := -1
  const REPRESENT := -2

  function Encode(n: nat): (s: seq<int>)
    ensures s != [] && AllBytes(s) && s[|s| - 1] < 128
  {
    if n < 128 then [n]
    else
      MoreBytes(n % 128 + 128, Encode(n / 128));
      [n % 128 + 128] + Encode(n / 128)
  }

  lemma MoreBytes(b: int, s: seq<int>)
    requires IsByte(b) && s != [] && AllBytes(s)
    ensures AllBytes([b] + s) && ([b] + s)[|s|] == s[|s| - 1]
  {
  }

  /** Numbers of one byte and of two. */
  lemma EncodeSmall(n: nat)
    ensures n < 128 ==> Encode(n) == [n]
    ensures 128 <= n < 16384 ==> Encode(n) == [n % 128 + 128, n / 128]
  {
  }

  /** Encodings are told apart even with something in front, up to the same length. */
  lemma {:induction false} EncodeInjective(m: nat, n: nat)
    requires Encode(m) == Encode(n)
    ensures m == n
    decreases m
  {
    if m >= 128 {
      assert Encode(m)[0] == m % 128 + 128 && Encode(n)[0] >= 128;
      assert Encode(m)[1..] == Encode(m / 128) && Encode(n)[1..] == Encode(n / 128);
      EncodeInjective(m / 128, n / 128);
    } else {
      assert Encode(n)[0] == m;
    }
  }

  /** write_varint: append the encoding of i to dest. */
  method WriteVarint(dest: seq<int>, n: nat) returns (d: seq<int>)
    ensures d == dest + Encode(n)
  {
    d := dest;
    var i := n;
    while i >= 0x80
      invariant d + Encode(i) == dest + Encode(n)
    {
      ghost var d0, i0 := d, i;
      d := d + [i % 128 + 0x80];
      i := i / 128;
      assert d + Encode(i) == d0 + Encode(i0);
    }
    d := d + [i];
  }

  lemma SevenBits(left: nat)
    ensures left <= 7 ==> Pow(2, left) <= 128
    ensures left >= 7 ==> Pow(2, left) == 128 * Pow(2, left - 7) >= 128
  {
    assert Pow(2, 7) == 128;
    if left <= 7 {
      PowMonotonic(2, left, 7);
    } else {
      PowAdd(2, 7, left - 7);
      PowPositive(2, left - 7);
    }
  }

  /** No room for byte b when `left` bits of the value are still open. */
  predicate Overflows(left: nat, b: int) { left <= 7 && b >= Pow(2, left) }

  lemma RoomForMore(left: nat, b: int)
    requires b >= 128 && !Overflows(left, b)
    ensures left > 7
  {
    SevenBits(left);
  }

  /** What read_varint returns and writes with `left` bits of the value still open: a negative
      code, or the number of bytes read and their value. */
  function Read(s: seq<int>, left: nat, first: bool): (r: (int, nat))
    requires AllBytes(s)
    ensures r.0 <= |s|
  {
    if s == [] then (0, 0)
    else if Overflows(left, s[0]) then (OVERFLOW, 0)
    else if s[0] == 0 && !first then (REPRESENT, 0)
    else if s[0] < 128 then (1, s[0])
    else
      RoomForMore(left, s[0]);
      var rest := Read(s[1..], left - 7, false);
      if rest.0 < 0 then rest else (1 + rest.0, s[0] - 128 + 128 * rest.1)
  }

  /** The two error codes: a value too large for its bits, and a needless last zero. */
  lemma ReadErrors()
    ensures Read([2], 1, true).0 == -1 && Read([128, 0], 64, true).0 == -2
  {
    assert Pow(2, 1) == 2;
    assert [128, 0][1..] == [0];
    SevenBits(57);
    SevenBits(64);
  }

  /** The guard of read_varint: the value fits in the bits it may have. */
  lemma {:induction false} ReadFits(s: seq<int>, left: nat, first: bool)
    requires AllBytes(s)
    ensures Read(s, left, first).1 < Pow(2, left)
    decreases |s|
  {
    SevenBits(left);
    PowPositive(2, left);
    if s != [] && s[0] >= 128 && !Overflows(left, s[0]) {
      RoomForMore(left, s[0]);
      hide Pow;
      ReadFits(s[1..], left - 7, false);
    }
  }

  /** What comes of reading r behind `read` bytes that hold the value `write` below p. */
  ghost function Joined(r: (int, nat), read: nat, write: nat, p: nat): (int, nat) {
    if r.0 < 0 then r else (read + r.0, write + r.1 * p)
  }

  /** The reading loop's progress: what is left to read completes what was read. */
  ghost predicate Completes(bits: nat, s: seq<int>, rest: seq<int>, read: nat, write: nat, shift: nat)
    requires AllBytes(s) && AllBytes(rest) && shift <= bits
  {
    Read(s, bits, true) == Joined(Read(rest, bits - shift, shift == 0), read, write, Pow(2, shift))
  }

  /** Seven low bits in front of what the rest reads as. */
  ghost function More(d: nat, r: (int, nat)): (int, nat) { if r.0 < 0 then r else (1 + r.0, d + 128 * r.1) }

  lemma JoinedMore(d: nat, r: (int, nat), read: nat, write: nat, p: nat)
    requires d < 128 && write < p
    ensures Joined(More(d, r), read, write, p) == Joined(r, read + 1, write + d * p, 128 * p)
    ensures write + d * p < 128 * p
  {
    Placed(write, d, r.1, p);
  }

  /** One accepted byte: the last one, or its seven bits below those of the rest. */
  lemma ReadStep(s: seq<int>, left: nat, first: bool)
    requires AllBytes(s) && s != [] && !Overflows(left, s[0]) && (s[0] == 0 ==> first)
    ensures s[0] < 128 ==> Read(s, left, first) == (1, s[0] % 128)
    ensures s[0] >= 128 ==> left > 7 && Read(s, left, first) == More(s[0] % 128, Read(s[1..], left - 7, false))
  {
    if s[0] >= 128 {
      RoomForMore(left, s[0]);
      hide Overflows;
    }
  }

  /** One byte more, its seven bits landing above those already written. */
  lemma CompletesStep(bits: nat, s: seq<int>, rest: seq<int>, read: nat, write: nat, shift: nat)
    requires AllBytes(s) && AllBytes(rest) && shift <= bits
    requires Completes(bits, s, rest, read, write, shift) && rest != [] && write < Pow(2, shift)
    requires !Overflows(bits - shift, rest[0]) && !(rest[0] == 0 && shift != 0)
    ensures var w := write + rest[0] % 128 * Pow(2, shift);
      if rest[0] < 128 then Read(s, bits, true) == (read + 1, w)
      else shift + 7 < bits && w < Pow(2, shift + 7) && Completes(bits, s, rest[1..], read + 1, w, shift + 7)
  {
    ReadStep(rest, bits - shift, shift == 0);
    hide Read, Pow, Overflows;
    if rest[0] >= 128 {
      SevenBits(shift + 7);
      hide Joined, More;
      JoinedMore(rest[0] % 128, Read(rest[1..], bits - (shift + 7), false), read, write, Pow(2, shift));
    }
  }

  lemma Placed(write: nat, d: nat, v: nat, p: nat)
    requires d < 128 && write < p
    ensures write + (d + 128 * v) * p == write + d * p + v * (128 * p)
    ensures write + d * p < 128 * p
  {
    MulDistributes(p, d, 128 * v);
    assert (128 * v) * p == v * (128 * p) by {
      MulAssoc(v, 128, p);
    }
    MulMonotonic(p, d, 127);
  }

  lemma BelowRoom(left: nat, b: int)
    requires b < 128 && !Overflows(left, b)
    ensures b < Pow(2, left)
  {
    SevenBits(left);
    hide Pow;
  }

  lemma Under(b: nat, room: nat, p: nat)
    requires b < room && p > 0
    ensures b * p < room * p
  {
  }

  lemma ShiftFits(bits: nat, b: nat, shift: nat)
    requires b < 128 && shift <= bits && !Overflows(bits - shift, b)
    ensures b * Pow(2, shift) < Pow(2, bits)
  {
    hide *;
    BelowRoom(bits - shift, b);
    PowPositive(2, shift);
    PowAdd(2, bits - shift, shift);
    Under(b, Pow(2, bits - shift), Pow(2, shift));
  }

  /** The byte's low bits shifted into place in a word of `digits` bits and joined by or. */
  method Deposit(bits: nat, digits: nat, write: nat, b: nat, shift: nat) returns (w: nat)
    requires bits <= digits && b < 128 && shift <= bits && !Overflows(bits - shift, b)
    requires write < Pow(2, shift)
    ensures w == write + b * Pow(2, shift)
  {
    hide Pow, BitOr, Overflows;
    ShiftFits(bits, b, shift);
    PowMonotonic(2, bits, digits);
    OrDisjoint(write, b, shift);
    PowPositive(2, digits);
    var shifted := b * Pow(2, shift) % Pow(2, digits);
    assert shifted == b * Pow(2, shift) by {
      DivModUnique(b * Pow(2, shift), Pow(2, digits), 0, b * Pow(2, shift));
    }
    w := BitOr(write, shifted);
  }

  lemma ReadingStarts(bits: nat, s: seq<int>)
    requires AllBytes(s)
    ensures Completes(bits, s, s, 0, 0, 0)
  {
    assert Pow(2, 0) == 1;
  }

  lemma ReadingEnds(bits: nat, s: seq<int>, rest: seq<int>, read: nat, write: nat, shift: nat)
    requires AllBytes(s) && AllBytes(rest) && shift <= bits
    requires Completes(bits, s, rest, read, write, shift) && rest == []
    ensures Read(s, bits, true) == (read, write)
  {
  }

  /** The two error codes are those of the specification. */
  lemma ReadingFails(bits: nat, s: seq<int>, rest: seq<int>, read: nat, write: nat, shift: nat)
    requires AllBytes(s) && AllBytes(rest) && shift <= bits
    requires Completes(bits, s, rest, read, write, shift) && rest != []
    ensures Overflows(bits - shift, rest[0]) ==> Read(s, bits, true).0 == OVERFLOW
    ensures !Overflows(bits - shift, rest[0]) && rest[0] == 0 && shift != 0 ==>
      Read(s, bits, true).0 == REPRESENT
  {
    hide Overflows;
  }

  lemma LowSeven(bits: nat, shift: nat, b: nat)
    requires shift <= bits && b < 256 && !Overflows(bits - shift, b)
    ensures !Overflows(bits - shift, b % 128)
  {
    hide Pow;
  }

  /** read_varint for any number of bits, into a word of at least that many: the returned
      code, and the value when it is not negative. */
  method ReadVarint(bits: nat, digits: nat, s: seq<int>) returns (read: int, write: nat)
    requires AllBytes(s) && bits <= digits
    ensures read == Read(s, bits, true).0 && (read >= 0 ==> write == Read(s, bits, true).1)
  {
    read, write := 0, 0;
    var shift := 0;
    assert s[0..] == s && Pow(2, 0) == 1;
    ReadingStarts(bits, s);
    hide Pow, Completes, Overflows;
    while true
      invariant 0 <= read <= |s| && shift == 7 * read && shift <= bits
      invariant write < Pow(2, shift) && Completes(bits, s, s[read..], read, write, shift)
      decreases |s| - read
    {
      if read == |s| {
        ReadingEnds(bits, s, s[read..], read, write, shift);
        return;
      }
      ReadingFails(bits, s, s[read..], read, write, shift);
      var b := s[read];
      if Overflows(bits - shift, b) {
        return OVERFLOW, write;
      }
      if b == 0 && shift != 0 {
        return REPRESENT, write;
      }
      CompletesStep(bits, s, s[read..], read, write, shift);
      LowSeven(bits, shift, b);
      write := Deposit(bits, digits, write, b % 128, shift);
      assert s[read..][1..] == s[read + 1..];
      read := read + 1;
      if b < 128 {
        return;
      }
      shift := shift + 7;
    }
  }

  /** Reading back what was written, whatever follows it. */
  lemma {:induction false} ReadEncode(n: nat, suffix: seq<int>, left: nat, first: bool)
    requires AllBytes(suffix) && n < Pow(2, left) && (!first ==> n > 0)
    ensures Read(Encode(n) + suffix, left, first) == (|Encode(n)|, n)
    decreases n
  {
    var s := Encode(n) + suffix;
    SevenBits(left);
    if n >= 128 {
      hide Pow;
      assert s[1..] == Encode(n / 128) + suffix;
      ReadEncode(n / 128, suffix, left - 7, false);
    }
  }

  lemma ReadStart(s: seq<int>, left: nat, first: bool)
    requires AllBytes(s) && Read(s, left, first).0 > 0
    ensures s != [] && !Overflows(left, s[0]) && (s[0] == 0 ==> first)
  {
    hide Overflows;
  }

  lemma EncodeLast(d: nat)
    requires d < 128
    ensures Encode(d) == [d]
  {
  }

  lemma EncodeFirst(d: nat, v: nat)
    requires d < 128 && v > 0
    ensures Encode(d + 128 * v) == [d + 128] + Encode(v)
  {
    DivModUnique(d + 128 * v, 128, v, d);
  }

  /** Whatever is accepted is canonical, provided its last byte really ends it. */
  lemma {:induction false} ReadCanonical(s: seq<int>, left: nat, first: bool)
    requires AllBytes(s)
    requires Read(s, left, first).0 > 0 && s[Read(s, left, first).0 - 1] < 128
    ensures var (n, v) := Read(s, left, first);
      Encode(v) == s[..n] && (!first ==> v > 0)
    decreases |s|
  {
    ReadStart(s, left, first);
    hide Read, Overflows, Encode;
    ReadStep(s, left, first);
    if s[0] < 128 {
      EncodeLast(s[0]);
      assert s[..1] == [s[0]];
    } else {
      var (n, v) := Read(s[1..], left - 7, false);
      if n > 0 {
        assert s[1..][n - 1] == s[n];
        ReadCanonical(s[1..], left - 7, false);
        EncodeFirst(s[0] - 128, v);
        assert s[..n + 1] == [s[0]] + s[1..][..n];
      }
    }
  }

  /** A last byte with its high bit set is accepted only where the input runs out. */
  lemma {:induction false} ReadTruncated(s: seq<int>, left: nat, first: bool)
    requires AllBytes(s)
    requires Read(s, left, first).0 > 0 && s[Read(s, left, first).0 - 1] >= 128
    ensures Read(s, left, first).0 == |s|
    decreases |s|
  {
    if |s| > 1 && s[0] >= 128 {
      RoomForMore(left, s[0]);
      var n := Read(s[1..], left - 7, false).0;
      if n > 0 {
        assert s[1..][n - 1] == s[n];
        ReadTruncated(s[1..], left - 7, false);
      }
    }
  }

  /** Some byte has a clear high bit, so a varint can end. */
  ghost predicate Ends(s: seq<int>) { exists i :: 0 <= i < |s| && s[i] < 128 }

  /** An accepted varint ends in a clear high bit exactly when some byte of the whole
      input has one. */
  lemma {:induction false} ReadEnds(s: seq<int>, left: nat, first: bool)
    requires AllBytes(s) && Read(s, left, first).0 > 0
    ensures s[Read(s, left, first).0 - 1] < 128 <==> Ends(s)
    decreases |s|
  {
    if s[0] >= 128 {
      RoomForMore(left, s[0]);
      var t, n := s[1..], Read(s[1..], left - 7, false).0;
      if n > 0 {
        ReadEnds(t, left - 7, false);
        assert t[n - 1] == s[n];
      } else {
        assert t == [];
      }
      EndsLater(s);
    }
  }

  lemma EndsLater(s: seq<int>)
    requires s != [] && s[0] >= 128
    ensures Ends(s) <==> Ends(s[1..])
  {
    if Ends(s) {
      var i :| 0 <= i < |s| && s[i] < 128;
      assert s[1..][i - 1] < 128;
    }
    if Ends(s[1..]) {
      var i :| 0 <= i < |s[1..]| && s[1..][i] < 128;
      assert s[i + 1] < 128;
    }
  }
}
