/** The two signed radix-16 recodings of crypto-ops.c: one byte at a time for
    ge_scalarmult, one nibble at a time for ge_scalarmult_base. */
module Radix16 {
  import opened Numbers

  /** The carry `(x + 8) >> 4`. */
  function CarryOf(x: nat): nat { Shr(x + 8, 4) }

  lemma CarryIs(x: nat)
    ensures CarryOf(x) == (x + 8) / 16 && -8 <= x - 16 * CarryOf(x) < 8
  {
    var y := x + 8;
    assert Shr(y, 4) == Shr(y / 2, 3) && Shr(y / 2, 3) == Shr(y / 2 / 2, 2);
    assert Shr(y / 2 / 2, 2) == Shr(y / 2 / 2 / 2, 1) && Shr(y / 2 / 2 / 2, 1) == Shr(y / 2 / 2 / 2 / 2, 0);
  }

  /** Two digits from a byte and an incoming carry, and the carry out. */
  function ByteStep(x: nat, carry: nat): (int, int, nat) {
    var c := carry + x;
    var c2 := CarryOf(c);
    var c3 := CarryOf(c2);
    (c - 16 * c2, c2 - 16 * c3, c3)
  }

  function FromBytes(a: seq<int>, carry: nat): (e: seq<int>)
    requires a != [] && AllBytes(a)
    ensures |e| == 2 * |a|
  {
    if |a| == 1 then
      var c := carry + a[0];
      [c - 16 * CarryOf(c), CarryOf(c)]
    else
      var (d0, d1, c) := ByteStep(a[0], carry);
      [d0, d1] + FromBytes(a[1..], c)
  }

  function Nibbles(a: seq<int>): (n: seq<int>)
    requires AllBytes(a)
    ensures |n| == 2 * |a| && AllBytes(n)
  {
    if a == [] then [] else [a[0] % 16, a[0] / 16] + Nibbles(a[1..])
  }

  function FromNibbles(n: seq<int>, carry: nat): (e: seq<int>)
    requires n != [] && AllBytes(n)
    ensures |e| == |n|
  {
    if |n| == 1 then [n[0] + carry]
    else
      var c := CarryOf(n[0] + carry);
      [n[0] + carry - 16 * c] + FromNibbles(n[1..], c)
  }

  ghost predicate Balanced(e: seq<int>) { forall i :: 0 <= i < |e| ==> -8 <= e[i] <= 8 }

  lemma EvalPair(x: int, y: int, s: seq<int>)
    ensures Eval(16, [x, y] + s) == x + 16 * y + 256 * Eval(16, s)
  {
    var t := [x, y] + s;
    assert t[0..] == t && t[2..] == s;
    EvalStep(16, t, 0);
    EvalStep(16, t, 1);
  }

  lemma EvalNothing()
    ensures Eval(256, []) == 0 && Eval(16, []) == 0
  {
  }

  lemma StepBounds(x: nat, carry: nat)
    requires IsByte(x) && carry <= 1
    ensures var (d0, d1, c) := ByteStep(x, carry);
            carry + x == d0 + 16 * d1 + 256 * c && -8 <= d0 < 8 && -8 <= d1 < 8 && c <= 1
  {
    hide CarryOf;
    CarryIs(carry + x);
    CarryIs(CarryOf(carry + x));
  }

  lemma {:induction false} FromBytesCorrect(a: seq<int>, carry: nat)
    requires a != [] && AllBytes(a) && a[|a| - 1] <= 127 && carry <= 1
    ensures Eval(16, FromBytes(a, carry)) == carry + Eval(256, a)
    ensures Balanced(FromBytes(a, carry))
  {
    hide Eval;
    EvalStep(256, a, 0);
    assert a[0..] == a && Eval(256, []) == 0 && Eval(16, []) == 0 by {
      EvalNothing();
    }
    if |a| == 1 {
      var c := carry + a[0];
      CarryIs(c);
      hide CarryOf;
      EvalPair(c - 16 * CarryOf(c), CarryOf(c), []);
      assert FromBytes(a, carry) == [c - 16 * CarryOf(c), CarryOf(c)] + [] && a[1..] == [];
    } else {
      StepBounds(a[0], carry);
      hide ByteStep;
      var (d0, d1, c) := ByteStep(a[0], carry);
      FromBytesCorrect(a[1..], c);
      EvalPair(d0, d1, FromBytes(a[1..], c));
    }
  }

  /** Two nibble steps do what one byte step does. */
  lemma NibblePair(hi: nat, lo: nat, carry: nat)
    requires hi < 16 && lo < 16 && carry <= 1
    ensures var c := CarryOf(lo + carry); var c' := CarryOf(hi + c);
            ByteStep(16 * hi + lo, carry) == (lo + carry - 16 * c, hi + c - 16 * c', c')
    ensures CarryOf(carry + (16 * hi + lo)) == hi + CarryOf(lo + carry)
  {
    hide CarryOf;
    CarryShift(hi, lo + carry);
    assert carry + (16 * hi + lo) == 16 * hi + (lo + carry);
  }

  lemma ByteSplits(x: nat)
    requires IsByte(x)
    ensures x / 16 < 16 && x == 16 * (x / 16) + x % 16
  {
  }

  /** Whole sixteens pass through the carry. */
  lemma CarryShift(hi: nat, y: nat)
    ensures CarryOf(16 * hi + y) == hi + CarryOf(y)
  {
    hide CarryOf;
    CarryIs(y);
    CarryIs(16 * hi + y);
    DivModUnique(16 * hi + y + 8, 16, hi + (y + 8) / 16, (y + 8) % 16);
  }

  lemma NibblesUnfold(lo: nat, hi: nat, n: seq<int>, carry: nat)
    requires IsByte(lo) && IsByte(hi) && AllBytes(n)
    ensures AllBytes([lo, hi] + n)
    ensures var c := CarryOf(lo + carry); var c' := CarryOf(hi + c);
            FromNibbles([lo, hi] + n, carry)
            == if n == [] then [lo + carry - 16 * c, hi + c]
               else [lo + carry - 16 * c, hi + c - 16 * c'] + FromNibbles(n, c')
  {
    hide CarryOf;
    var t := [lo, hi] + n;
    assert t[1..] == [hi] + n && ([hi] + n)[1..] == n;
  }

  lemma BytesUnfold(a: seq<int>, carry: nat)
    requires a != [] && AllBytes(a)
    ensures var (d0, d1, c) := ByteStep(a[0], carry);
            FromBytes(a, carry) == if |a| == 1 then [d0, d1 + 16 * c] else [d0, d1] + FromBytes(a[1..], c)
  {
    hide CarryOf;
  }

  lemma NibblesHead(a: seq<int>)
    requires a != [] && AllBytes(a)
    ensures Nibbles(a) == [a[0] % 16, a[0] / 16] + Nibbles(a[1..])
    ensures Nibbles(a[1..]) == [] <==> |a| == 1
  {
  }

  /** Two nibbles at the front of the nibble recoding. */
  lemma NibblesStart(a: seq<int>, carry: nat)
    requires a != [] && AllBytes(a) && carry <= 1
    ensures var (d0, d1, c) := ByteStep(a[0], carry);
            FromNibbles(Nibbles(a), carry)
            == if |a| == 1 then [d0, d1 + 16 * c] else [d0, d1] + FromNibbles(Nibbles(a[1..]), c)
  {
    hide FromNibbles, Nibbles, ByteStep, CarryOf;
    NibblesHead(a);
    ByteSplits(a[0]);
    NibblePair(a[0] / 16, a[0] % 16, carry);
    NibblesUnfold(a[0] % 16, a[0] / 16, Nibbles(a[1..]), carry);
  }

  /** The nibble recoding produces the very same digits as the byte recoding, for the two
      carries that occur. */
  lemma {:induction false} RecodingsAgree(a: seq<int>, carry: nat)
    requires a != [] && AllBytes(a) && carry <= 1
    ensures FromNibbles(Nibbles(a), carry) == FromBytes(a, carry)
  {
    hide FromBytes, FromNibbles, Nibbles, ByteStep;
    StepBounds(a[0], carry);
    NibblesStart(a, carry);
    BytesUnfold(a, carry);
    if |a| > 1 {
      RecodingsAgree(a[1..], ByteStep(a[0], carry).2);
    }
  }

  lemma FromBytesStep(whole: seq<int>, done: seq<int>, rest: seq<int>, carry: nat)
    requires |rest| > 1 && AllBytes(rest) && whole == done + FromBytes(rest, carry)
    ensures var (d0, d1, c) := ByteStep(rest[0], carry);
      whole == (done + [d0, d1]) + FromBytes(rest[1..], c)
  {
    var (d0, d1, c) := ByteStep(rest[0], carry);
    assert FromBytes(rest, carry) == [d0, d1] + FromBytes(rest[1..], c);
    assert done + ([d0, d1] + FromBytes(rest[1..], c)) == (done + [d0, d1]) + FromBytes(rest[1..], c);
  }

  /** The body of the recoding loop: byte x becomes digits 2i and 2i + 1. */
  method RecodeByte(e: array<int>, i: nat, x: nat, carryIn: nat) returns (carry: nat)
    requires 2 * i + 1 < e.Length
    modifies e
    ensures var (d0, d1, c) := ByteStep(x, carryIn);
      carry == c && e[..2 * i + 2] == old(e[..2 * i]) + [d0, d1]
  {
    hide CarryOf;
    carry := carryIn + x;
    var carry2 := CarryOf(carry);
    e[2 * i] := carry - 16 * carry2;
    carry := CarryOf(carry2);
    e[2 * i + 1] := carry2 - 16 * carry;
  }

  /** The recoding loop of ge_scalarmult. */
  method RecodeBytes(a: seq<int>) returns (e: array<int>)
    requires |a| == 32 && AllBytes(a)
    ensures fresh(e) && e.Length == 64 && e[..] == FromBytes(a, 0)
  {
    e := new int[64];
    var carry: nat := 0;
    ghost var done, rest, whole := [], a, FromBytes(a, 0);
    hide FromBytes;
    for i := 0 to 31
      invariant e[..2 * i] == done && rest == a[i..] && AllBytes(rest)
      invariant whole == done + FromBytes(rest, carry)
    {
      FromBytesStep(whole, done, rest, carry);
      done, rest := done + [ByteStep(a[i], carry).0, ByteStep(a[i], carry).1], a[i + 1..];
      carry := RecodeByte(e, i, a[i], carry);
    }
    assert rest == [a[31]];
    RecodeLast(e, a[31], carry);
  }

  /** After the loop: the last byte keeps its whole upper part. */
  method RecodeLast(e: array<int>, x: nat, carryIn: nat)
    requires e.Length == 64 && IsByte(x)
    modifies e
    ensures e[..] == old(e[..62]) + FromBytes([x], carryIn)
  {
    hide CarryOf;
    var carry := carryIn + x;
    var carry2 := CarryOf(carry);
    e[62] := carry - 16 * carry2;
    e[63] := carry2;
    assert e[..] == e[..62] + [e[62], e[63]];
  }

  lemma FromNibblesStep(whole: seq<int>, done: seq<int>, rest: seq<int>, carry: nat)
    requires |rest| > 1 && AllBytes(rest) && whole == done + FromNibbles(rest, carry)
    ensures var c := CarryOf(rest[0] + carry);
      whole == (done + [rest[0] + carry - 16 * c]) + FromNibbles(rest[1..], c)
  {
  }

  /** The body of the carry loop over nibbles. */
  method RecodeNibble(e: array<int>, i: nat, carryIn: nat) returns (carry: nat)
    requires i < e.Length && e[i] >= 0
    modifies e
    ensures carry == CarryOf(old(e[i]) + carryIn)
    ensures e[..i + 1] == old(e[..i]) + [old(e[i]) + carryIn - 16 * carry]
    ensures e[i + 1..] == old(e[i + 1..])
  {
    hide CarryOf;
    e[i] := e[i] + carryIn;
    carry := CarryOf(e[i]);
    e[i] := e[i] - carry * 16;
  }

  /** The carry loop of ge_scalarmult_base; the last digit still lacks the carry. */
  method CarryNibbles(e: array<int>, ghost n: seq<int>) returns (carry: nat)
    requires e.Length == 64 && AllBytes(n) && e[..] == n
    modifies e
    ensures FromNibbles(n, 0) == e[..63] + [e[63] + carry]
  {
    carry := 0;
    ghost var done, rest, whole := [], n, FromNibbles(n, 0);
    hide FromNibbles;
    for i := 0 to 63
      invariant e[..i] == done && e[i..] == rest && AllBytes(rest)
      invariant whole == done + FromNibbles(rest, carry)
    {
      FromNibblesStep(whole, done, rest, carry);
      ghost var c := CarryOf(rest[0] + carry);
      done, rest := done + [rest[0] + carry - 16 * c], rest[1..];
      carry := RecodeNibble(e, i, carry);
    }
    assert rest == [e[63]];
    FromNibblesLast(e[63], carry);
  }

  /** The recoding loops of ge_scalarmult_base: nibbles first, then the carries. */
  method RecodeNibbles(a: seq<int>) returns (e: array<int>)
    requires |a| == 32 && AllBytes(a)
    ensures fresh(e) && e.Length == 64 && e[..] == FromBytes(a, 0)
  {
    e := new int[64];
    LoadNibbles(e, a);
    hide FromNibbles, FromBytes, Nibbles;
    var carry := CarryNibbles(e, Nibbles(a));
    ghost var done := e[..63];
    e[63] := e[63] + carry;
    assert e[..] == done + [e[63]];
    RecodingsAgree(a, 0);
  }

  lemma FromNibblesLast(x: nat, carry: nat)
    requires IsByte(x)
    ensures FromNibbles([x], carry) == [x + carry]
  {
  }

  lemma NibblesStep(whole: seq<int>, done: seq<int>, rest: seq<int>)
    requires rest != [] && AllBytes(rest) && whole == done + Nibbles(rest)
    ensures whole == (done + [rest[0] % 16, rest[0] / 16]) + Nibbles(rest[1..])
  {
  }

  method LoadNibbles(e: array<int>, a: seq<int>)
    requires e.Length == 2 * |a| && AllBytes(a)
    modifies e
    ensures e[..] == Nibbles(a)
  {
    ghost var done, rest, whole := [], a, Nibbles(a);
    hide Nibbles;
    for i := 0 to |a|
      invariant e[..2 * i] == done && a[i..] == rest && AllBytes(rest)
      invariant whole == done + Nibbles(rest)
    {
      NibblesStep(whole, done, rest);
      done, rest := done + [a[i] % 16, a[i] / 16], a[i + 1..];
      e[2 * i] := a[i] % 16;
      e[2 * i + 1] := a[i] / 16 % 16;
    }
    assert e[..] == e[..2 * |a|];
    assert whole == done by {
      NibblesEmpty(rest);
    }
  }

  lemma NibblesEmpty(a: seq<int>)
    requires a == []
    ensures Nibbles(a) == []
  {
  }
}
