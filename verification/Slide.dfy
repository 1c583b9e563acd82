/** slide (crypto-ops.c): rewriting a 256-bit scalar as sparse odd digits in -15..15. */
module Slide {
  import opened Numbers

  function BitsOf(a: seq<int>): (s: seq<int>)
    requires AllBytes(a)
    ensures |s| == 8 * |a| && Binary(s)
  {
    seq(8 * |a|, i requires 0 <= i < 8 * |a| => Shr(a[i / 8], i % 8) % 2)
  }

  function Zeros(n: nat): (z: seq<int>)
    ensures |z| == n
  {
    seq(n, _ => 0)
  }

  predicate Binary(s: seq<int>) { forall i :: 0 <= i < |s| ==> s[i] == 0 || s[i] == 1 }

  ghost predicate AllZero(s: seq<int>) { forall i :: 0 <= i < |s| ==> s[i] == 0 }

  /** What the carry loop does to the bits from the carry position up: a binary
      increment whose last carry falls off the end. */
  function Increment(s: seq<int>): (t: seq<int>)
    ensures |t| == |s|
    ensures Binary(s) ==> Binary(t)
  {
    if s == [] then [] else if s[0] == 0 then [1] + s[1..] else [0] + Increment(s[1..])
  }

  function At(s: seq<int>, i: nat): int { if i < |s| then s[i] else 0 }

  /** The bits below position b, b at most 4, as one digit. */
  function Low(s: seq<int>, b: nat): int {
    At(s, 0) + (if b > 1 then 2 * At(s, 1) else 0) + (if b > 2 then 4 * At(s, 2) else 0)
        + (if b > 3 then 8 * At(s, 3) else 0)
  }

  /** Cutting a sequence at k, or at its end when it is shorter. */
  function From(s: seq<int>, k: nat): seq<int> { if k <= |s| then s[k..] else [] }

  /** What one window leaves of the bits s: four bits become one digit; when the
      fifth bit is set the digit goes negative and the bits above are incremented. */
  function Window(s: seq<int>): (t: seq<int>)
    requires Binary(s) && s != []
    ensures |t| == |s| && Binary(t[1..])
  {
    if s[0] == 0 then s
    else if At(s, 4) == 1 then [Low(s, 4) - 16, 0, 0, 0] + Increment(s[4..])
    else [Low(s, 4)] + Zeros(if |s| < 4 then |s| - 1 else 3) + From(s, 4)
  }

  /** The recoding: one window at each position in turn. */
  function Recode(s: seq<int>): (t: seq<int>)
    requires Binary(s)
    ensures |t| == |s|
    decreases |s|
  {
    if s == [] then [] else [Window(s)[0]] + Recode(Window(s)[1..])
  }

  /** Every nonzero digit is odd and within -15..15, and two of them are at least
      five positions apart. */
  ghost predicate Slid(t: seq<int>) {
    && (forall i :: 0 <= i < |t| && t[i] != 0 ==> t[i] % 2 == 1 && -15 <= t[i] <= 15)
    && (forall i, j :: 0 <= i < j < |t| && t[i] != 0 && t[j] != 0 ==> j - i >= 5)
  }

  /** The low n bits of x below 2^n are its binary digits. */
  lemma {:induction false} BinaryDigits(x: nat, n: nat)
    requires x < Pow(2, n)
    ensures Eval(2, seq(n, k requires 0 <= k < n => Shr(x, k) % 2)) == x
  {
    if n > 0 {
      var s := seq(n, k requires 0 <= k < n => Shr(x, k) % 2);
      var t := seq(n - 1, k requires 0 <= k < n - 1 => Shr(x / 2, k) % 2);
      assert s[1..] == t && s[0] == x % 2;
      BinaryDigits(x / 2, n - 1);
    }
  }

  /** The bits of a byte string have the byte string's little-endian value. */
  lemma {:induction false} BitsValue(a: seq<int>)
    requires AllBytes(a)
    ensures Eval(2, BitsOf(a)) == Eval(256, a)
  {
    if a != [] {
      var lo, hi := BitsOf([a[0]]), BitsOf(a[1..]);
      assert BitsOf(a) == lo + hi by {
        forall i | 0 <= i < 8 * |a| ensures BitsOf(a)[i] == (lo + hi)[i] {
          if i >= 8 {
            assert (i - 8) / 8 == i / 8 - 1 && (i - 8) % 8 == i % 8;
          }
        }
      }
      EvalConcat(2, lo, hi);
      assert Pow(2, 8) == 256;
      assert lo == seq(8, k requires 0 <= k < 8 => Shr(a[0], k) % 2);
      BinaryDigits(a[0], 8);
      BitsValue(a[1..]);
    }
  }

  lemma {:induction false} IncrementValue(s: seq<int>)
    requires Binary(s) && Eval(2, s) + 1 < Pow(2, |s|)
    ensures Eval(2, Increment(s)) == Eval(2, s) + 1
  {
    if s != [] && s[0] == 1 {
      IncrementValue(s[1..]);
    }
  }

  lemma EvalFrom(s: seq<int>)
    requires s != []
    ensures Eval(2, s) == Low(s, 4) + 16 * Eval(2, From(s, 4))
  {
    assert s[0..] == s && s[|s|..] == [];
    EvalStep(2, s, 0);
    if |s| > 1 {
      EvalStep(2, s, 1);
    }
    if |s| > 2 {
      EvalStep(2, s, 2);
    }
    if |s| > 3 {
      EvalStep(2, s, 3);
    }
  }

  lemma Room(low: int, high: int, n: nat)
    requires 1 <= low && low + 16 * high <= Pow(2, n + 4)
    ensures high < Pow(2, n) && high + 1 < Pow(2, n + 1) && Pow(2, n + 4) == 16 * Pow(2, n)
  {
    PowAdd(2, 4, n);
    assert Pow(2, 4) == 16;
    PowPositive(2, n);
  }

  /** The digit and the bits above it after a window that opened on a one. */
  lemma WindowParts(s: seq<int>)
    requires s != [] && Binary(s) && s[0] == 1
    ensures var t := Window(s); var u := From(s, 4);
      && t != [] && Low(t, 4) == t[0]
      && (if At(s, 4) == 1 then t[0] == Low(s, 4) - 16 && From(t, 4) == Increment(u)
          else t[0] == Low(s, 4) && From(t, 4) == u)
    ensures Low(s, 4) >= 1
    ensures |s| <= 4 ==> From(s, 4) == [] && At(s, 4) == 0
    ensures |s| > 4 ==> From(s, 4) == s[4..] && Binary(s[4..])
  {
  }

  /** In the lower half of the range a window keeps the value, and what it leaves
      above position 4 is again in the lower half: the increment has room. */
  lemma WindowValue(s: seq<int>)
    requires s != [] && Binary(s) && s[0] == 1 && Eval(2, s) <= Pow(2, |s| - 1)
    ensures Eval(2, Window(s)) == Eval(2, s)
    ensures |s| > 4 ==> Eval(2, From(Window(s), 4)) <= Pow(2, |s| - 5)
  {
    hide Window, Low, At, From, Eval, Pow, Increment, Binary;
    EvalFrom(s);
    WindowParts(s);
    EvalFrom(Window(s));
    if |s| > 4 {
      Room(Low(s, 4), Eval(2, s[4..]), |s| - 5);
      if At(s, 4) == 1 {
        IncrementValue(s[4..]);
      }
    }
  }

  lemma WindowZeros(s: seq<int>, k: nat)
    requires |s| > 1 && Binary(s) && s[0] == 1 && k == if |s| < 4 then |s| - 1 else 3
    ensures AllZero(Window(s)[1..][..k]) && Window(s)[1..][k..] == From(Window(s), 4)
    ensures |s| <= 4 ==> From(Window(s), 4) == []
  {
  }

  /** Above the digit only position 4 and up count. */
  lemma WindowTop(s: seq<int>)
    requires |s| > 1 && Binary(s) && s[0] == 1
    requires |s| > 4 ==> Eval(2, From(Window(s), 4)) <= Pow(2, |s| - 5)
    ensures Eval(2, Window(s)[1..]) <= Pow(2, |s| - 2)
  {
    var k := if |s| < 4 then |s| - 1 else 3;
    assert Pow(2, 3) == 8;
    assert Eval(2, []) == 0;
    WindowZeros(s, k);
    hide Window, Eval, Pow, From;
    var t := Window(s)[1..];
    EvalSplit(2, t, k);
    EvalZeros(2, t[..k]);
    if |s| > 4 {
      PowAdd(2, 3, |s| - 5);
    } else {
      PowPositive(2, |s| - 2);
    }
  }

  /** The recoding keeps the value of every scalar in the lower half of the range:
      no carry is dropped off the top. */
  lemma {:induction false} RecodeValue(s: seq<int>)
    requires Binary(s) && s != [] && Eval(2, s) <= Pow(2, |s| - 1)
    ensures Eval(2, Recode(s)) == Eval(2, s)
    decreases |s|
  {
    if s[0] == 0 {
      if |s| > 1 {
        RecodeValue(s[1..]);
      }
    } else {
      WindowValue(s);
      if |s| > 1 {
        WindowTop(s);
        RecodeValue(Window(s)[1..]);
      }
    }
  }

  /** Zeros at the bottom are left alone. */
  lemma {:induction false} RecodeSkips(s: seq<int>, k: nat)
    requires Binary(s) && k <= |s| && AllZero(s[..k])
    ensures AllZero(Recode(s)[..k])
    decreases |s|
  {
    if k > 0 {
      assert s[0] == s[..k][0] == 0;
      RecodeSkips(s[1..], k - 1);
    }
  }

  lemma {:induction false} RecodeSlid(s: seq<int>)
    requires Binary(s)
    ensures Slid(Recode(s))
    decreases |s|
  {
    if s != [] {
      var t := Window(s);
      RecodeSlid(t[1..]);
      if s[0] == 1 {
        var k := if |s| <= 4 then |s| - 1 else 4;
        assert AllZero(t[1..][..k]);
        RecodeSkips(t[1..], k);
        var v := Recode(t[1..]);
        assert forall j :: 0 <= j < k ==> v[j] == v[..k][j];
      }
    }
  }

  lemma {:induction false} IncrementOnes(s: seq<int>)
    requires forall i :: 0 <= i < |s| ==> s[i] == 1
    ensures AllZero(Increment(s))
  {
    if s != [] {
      IncrementOnes(s[1..]);
    }
  }

  lemma WindowOnes(s: seq<int>)
    requires |s| > 4 && forall i :: 0 <= i < |s| ==> s[i] == 1
    ensures Window(s)[0] == -1 && AllZero(Window(s)[1..])
  {
    IncrementOnes(s[4..]);
  }

  lemma RecodeHead(s: seq<int>)
    requires Binary(s) && s != []
    ensures Recode(s) == [Window(s)[0]] + Recode(Window(s)[1..])
  {
  }

  /** Above half the range a carry can be lost: all-ones recodes to -1, however long. */
  lemma AllOnesLosesCarry(s: seq<int>)
    requires |s| > 4 && forall i :: 0 <= i < |s| ==> s[i] == 1
    ensures Eval(2, Recode(s)) == -1 && Eval(2, s) >= 0
  {
    EvalBound(2, s);
    WindowOnes(s);
    RecodeHead(s);
    hide Window, Recode, Eval, Pow;
    var v := Recode(Window(s)[1..]);
    RecodeZeros(Window(s)[1..]);
    EvalZeros(2, v);
    EvalHead(2, -1, v);
  }

  lemma {:induction false} RecodeZeros(s: seq<int>)
    requires AllZero(s)
    ensures AllZero(Recode(s))
    decreases |s|
  {
    if s != [] {
      RecodeZeros(s[1..]);
    }
  }

  /** What the carry loop leaves of s when it is entered with carry c. */
  function Carried(s: seq<int>, c: int): (t: seq<int>)
    ensures |t| == |s|
    ensures Binary(s) ==> Binary(t)
  {
    if c == 1 then Increment(s) else s
  }

  /** The carry that leaves the top: one scan over the bits, a window of five opening
      wherever bit and carry make one. */
  function CarryOut(s: seq<int>, c: int): (d: int)
    requires Binary(s) && 0 <= c <= 1
    ensures 0 <= d <= 1
    decreases |s|
  {
    if s == [] then c
    else if s[0] == c then CarryOut(s[1..], c)
    else if |s| <= 4 then 0
    else CarryOut(s[5..], s[4])
  }

  lemma CarriedHead(s: seq<int>, c: int)
    requires Binary(s) && s != [] && 0 <= c <= 1
    ensures Carried(s, c) == if s[0] == c then [0] + Carried(s[1..], c) else [1] + s[1..]
  {
  }

  lemma RecodeZeroHead(s: seq<int>)
    requires Binary(s)
    ensures Binary([0] + s) && Recode([0] + s) == [0] + Recode(s)
  {
    assert ([0] + s)[1..] == s;
  }

  /** Four zeros below u. */
  function Raised(u: seq<int>): seq<int> { [0] + ([0] + ([0] + ([0] + u))) }

  lemma RecodeRaised(u: seq<int>)
    requires Binary(u)
    ensures Binary(Raised(u)) && Recode(Raised(u)) == Raised(Recode(u))
  {
    hide Recode, Binary;
    RecodeZeroHead(u);
    RecodeZeroHead([0] + u);
    RecodeZeroHead([0] + ([0] + u));
    RecodeZeroHead([0] + ([0] + ([0] + u)));
  }

  lemma EvalRaised(d: int, u: seq<int>)
    ensures Eval(2, [d] + Raised(u)) == d + 32 * Eval(2, u)
  {
    hide Eval;
    EvalHead(2, 0, u);
    EvalHead(2, 0, [0] + u);
    EvalHead(2, 0, [0] + ([0] + u));
    EvalHead(2, 0, [0] + ([0] + ([0] + u)));
    EvalHead(2, d, Raised(u));
  }

  lemma WindowFive(t: seq<int>)
    requires Binary(t) && |t| > 4 && t[0] == 1
    ensures Window(t) == [Low(t, 4) - 16 * t[4]] + ([0, 0, 0] + Carried(t[4..], t[4]))
  {
    hide Low, Increment;
    assert [0, 0, 0] == Zeros(3);
  }

  lemma FifthBit(t: seq<int>)
    requires Binary(t) && |t| > 4
    ensures Carried(t[4..], t[4]) == [0] + Carried(t[5..], t[4]) && Binary(Carried(t[5..], t[4]))
  {
    CarriedHead(t[4..], t[4]);
    assert t[4..][1..] == t[5..];
    hide Carried;
  }

  lemma RaisedParts(u: seq<int>)
    ensures [0, 0, 0] + ([0] + u) == Raised(u)
  {
  }

  lemma WindowRest(t: seq<int>)
    requires Binary(t) && |t| > 4 && t[0] == 1
    ensures Window(t)[0] == Low(t, 4) - 16 * t[4]
    ensures Window(t)[1..] == Raised(Carried(t[5..], t[4])) && Binary(Carried(t[5..], t[4]))
  {
    hide *;
    WindowFive(t);
    FifthBit(t);
    RaisedParts(Carried(t[5..], t[4]));
  }

  lemma RecodeWindow(t: seq<int>)
    requires Binary(t) && |t| > 4 && t[0] == 1
    ensures Recode(t) == [Low(t, 4) - 16 * t[4]] + Raised(Recode(Carried(t[5..], t[4])))
  {
    hide *;
    WindowRest(t);
    RecodeHead(t);
    RecodeRaised(Carried(t[5..], t[4]));
  }

  /** A window with all its five bits: digit, fifth bit and carry make up the value. */
  lemma RecodeLong(t: seq<int>)
    requires Binary(t) && |t| > 4 && t[0] == 1
    ensures Eval(2, Recode(t)) == Low(t, 4) - 16 * t[4] + 32 * Eval(2, Recode(Carried(t[5..], t[4])))
    ensures Eval(2, t) == Low(t, 4) + 16 * t[4] + 32 * Eval(2, t[5..])
  {
    RecodeWindow(t);
    EvalFrom(t);
    assert From(t, 4) == t[4..];
    hide Recode, Low, Carried, Eval, Raised;
    EvalStep(2, t, 4);
    EvalRaised(Low(t, 4) - 16 * t[4], Recode(Carried(t[5..], t[4])));
  }

  /** A window cut short by the top is never too large. */
  lemma RecodeShort(t: seq<int>)
    requires Binary(t) && 0 < |t| <= 4 && t[0] == 1
    ensures Eval(2, Recode(t)) == Eval(2, t)
  {
    EvalFrom(t);
    WindowParts(t);
    assert Eval(2, []) == 0;
    assert AllZero(Window(t)[1..]);
    RecodeHead(t);
    hide Window, Recode, Eval, Low;
    var v := Recode(Window(t)[1..]);
    RecodeZeros(Window(t)[1..]);
    EvalZeros(2, v);
    EvalHead(2, Window(t)[0], v);
  }

  /** What recoding does to the value of any bits at all, with a carry coming in: exactly
      the carry that leaves the top is missing. */
  lemma {:induction false} RecodeExact(s: seq<int>, c: int)
    requires Binary(s) && 0 <= c <= 1
    ensures Eval(2, Recode(Carried(s, c))) == Eval(2, s) + c - Pow(2, |s|) * CarryOut(s, c)
    decreases |s|
  {
    if s == [] {
    } else if s[0] == c {
      RecodeExact(s[1..], c);
      ExactSkip(s, c);
    } else {
      CarriedHead(s, c);
      var t := [1] + s[1..];
      assert t[1..] == s[1..];
      if |s| <= 4 {
        RecodeShort(t);
      } else {
        assert t[5..] == s[5..];
        RecodeExact(s[5..], s[4]);
        ExactWindow(s, c);
      }
    }
  }

  /** The recoding, the value and the outgoing carry when no window opens at s[0]. */
  lemma SkipParts(s: seq<int>, c: int)
    requires Binary(s) && s != [] && 0 <= c <= 1 && s[0] == c
    ensures Eval(2, Recode(Carried(s, c))) == 2 * Eval(2, Recode(Carried(s[1..], c)))
    ensures Eval(2, s) == c + 2 * Eval(2, s[1..])
    ensures CarryOut(s, c) == CarryOut(s[1..], c) && Pow(2, |s|) == 2 * Pow(2, |s| - 1)
  {
    CarriedHead(s, c);
    assert Binary(Carried(s[1..], c));
    hide Recode, Binary, Carried;
    RecodeZeroHead(Carried(s[1..], c));
    EvalHead(2, 0, Recode(Carried(s[1..], c)));
  }

  lemma ExactSkip(s: seq<int>, c: int)
    requires Binary(s) && s != [] && 0 <= c <= 1 && s[0] == c
    requires Eval(2, Recode(Carried(s[1..], c))) == Eval(2, s[1..]) + c - Pow(2, |s| - 1) * CarryOut(s[1..], c)
    ensures Eval(2, Recode(Carried(s, c))) == Eval(2, s) + c - Pow(2, |s|) * CarryOut(s, c)
  {
    hide *;
    SkipParts(s, c);
    MulAssoc(2, Pow(2, |s| - 1), CarryOut(s, c));
  }

  lemma ExactWindow(s: seq<int>, c: int)
    requires Binary(s) && |s| > 4 && 0 <= c <= 1 && s[0] != c
    requires Eval(2, Recode(Carried(s[5..], s[4]))) == Eval(2, s[5..]) + s[4] - Pow(2, |s| - 5) * CarryOut(s[5..], s[4])
    ensures Eval(2, Recode(Carried(s, c))) == Eval(2, s) + c - Pow(2, |s|) * CarryOut(s, c)
  {
    CarriedHead(s, c);
    var t := [1] + s[1..];
    assert t[1..] == s[1..] && t[5..] == s[5..] && t[4] == s[4];
    assert CarryOut(s, c) == CarryOut(s[5..], s[4]);
    assert Eval(2, s) + c == Eval(2, t);
    RecodeLong(t);
    hide Recode, Carried, CarryOut, Low, Eval, Pow;
    PowAdd(2, 5, |s| - 5);
    assert Pow(2, |s|) == 32 * Pow(2, |s| - 5) by {
      PowFive();
    }
    MulAssoc(32, Pow(2, |s| - 5), CarryOut(s[5..], s[4]));
  }

  lemma PowFive()
    ensures Pow(2, 5) == 32
  {
  }

  /** slide keeps the value of a byte string exactly when no carry leaves the top. */
  lemma SlideExact(a: seq<int>)
    requires AllBytes(a)
    ensures Eval(2, Recode(BitsOf(a))) == Eval(256, a) <==> CarryOut(BitsOf(a), 0) == 0
    ensures CarryOut(BitsOf(a), 0) == 1 ==>
      Eval(2, Recode(BitsOf(a))) == Eval(256, a) - Pow(2, 8 * |a|)
  {
    hide *;
    BitsValue(a);
    RecodeExact(BitsOf(a), 0);
    CarriedNothing(BitsOf(a));
    PowPositive(2, 8 * |a|);
  }

  lemma CarriedNothing(s: seq<int>)
    ensures Carried(s, 0) == s
  {
  }

  /** Increment clears the run of ones at the bottom and sets the bit that ends it. */
  lemma {:induction false} IncrementRun(s: seq<int>, n: nat, t: seq<int>)
    requires n <= |s| && |t| == |s|
    requires forall i :: 0 <= i < n ==> s[i] == 1 && t[i] == 0
    requires n < |s| ==> s[n] == 0 && t[n] == 1
    requires forall i :: n < i < |s| ==> t[i] == s[i]
    ensures Increment(s) == t
  {
    if n > 0 {
      IncrementRun(s[1..], n - 1, t[1..]);
    }
  }

  /** The innermost loop: add one at position k, dropping the carry past the end. */
  method Carry(r: array<int>, k: nat)
    requires k <= r.Length && Binary(r[k..])
    modifies r
    ensures r[..k] == old(r[..k])
    ensures r[k..] == Increment(old(r[k..]))
  {
    ghost var s := r[..];
    assert forall i :: k <= i < r.Length ==> s[i] == r[k..][i - k];
    var j := k;
    while j < r.Length && r[j] != 0
      invariant k <= j <= r.Length
      invariant r[..k] == old(r[..k])
      invariant forall i :: k <= i < j ==> r[i] == 0 && s[i] == 1
      invariant forall i :: j <= i < r.Length ==> r[i] == s[i]
    {
      r[j] := 0;
      j := j + 1;
    }
    if j < r.Length {
      r[j] := 1;
    }
    IncrementRun(s[k..], j - k, r[k..]);
  }

  /** The digits before lookahead b: the bits below b have been added into the first. */
  function Stage(s: seq<int>, b: nat): (t: seq<int>)
    requires Binary(s) && s != [] && 1 <= b && (b <= 4 ==> b <= |s|)
    ensures |t| == |s|
  {
    if b <= 4 then [Low(s, b)] + Zeros(b - 1) + s[b..] else Window(s)
  }

  lemma LowSnoc(s: seq<int>, b: nat)
    requires Binary(s) && 1 <= b <= 4 && b < |s| && s[0] == 1
    ensures 1 <= Low(s, b) < Pow(2, b) <= 16 && (b == 4 ==> Pow(2, b) == 16)
    ensures b < 4 && s[b] == 0 ==> Low(s, b + 1) == Low(s, b)
    ensures b < 4 && s[b] == 1 ==> Low(s, b + 1) == Low(s, b) + Pow(2, b) <= 15
  {
    assert Pow(2, 1) == 2 && Pow(2, 2) == 4 && Pow(2, 3) == 8 && Pow(2, 4) == 16;
    assert b == 1 || b == 2 || b == 3 || b == 4;
  }

  /** A zero bit within the window changes nothing. */
  lemma StageZero(s: seq<int>, b: nat)
    requires Binary(s) && 1 <= b <= 4 && b < |s| && s[0] == 1 && s[b] == 0
    ensures Stage(s, b + 1) == Stage(s, b)
  {
    LowSnoc(s, b);
    hide Low, Pow;
    if b == 4 {
      assert Zeros(3) + s[4..] == Window(s)[1..];
    } else {
      assert Zeros(b) == Zeros(b - 1) + [0] && s[b..] == [0] + s[b + 1..];
    }
  }

  /** A one bit within the first four positions is added into the digit. */
  lemma StageOne(s: seq<int>, b: nat)
    requires Binary(s) && 1 <= b <= 3 && b < |s| && s[0] == 1 && s[b] == 1
    ensures Stage(s, b + 1) == Stage(s, b)[0 := Low(s, b) + Pow(2, b)][b := 0]
  {
    LowSnoc(s, b);
    hide Low, Pow;
    assert Zeros(b) == Zeros(b - 1) + [0] && s[b..] == [1] + s[b + 1..];
  }

  /** One lookahead within the window: the bit is added, or subtracted with a carry. */
  lemma StageInside(s: seq<int>, b: nat)
    requires Binary(s) && 1 <= b <= 4 && b < |s| && s[0] == 1
    ensures Stage(s, b)[0] == Low(s, b) && Stage(s, b)[b] == s[b]
    ensures 1 <= Low(s, b) < Pow(2, b) <= 16 && (b == 4 ==> Pow(2, b) == 16)
    ensures s[b] == 0 ==> Stage(s, b + 1) == Stage(s, b)
    ensures s[b] == 1 && b < 4 ==> Stage(s, b + 1) == Stage(s, b)[0 := Low(s, b) + Pow(2, b)][b := 0]
    ensures s[b] == 1 && b < 4 ==> Low(s, b) + Pow(2, b) <= 15
  {
    LowSnoc(s, b);
    hide Low, Pow, Window;
    if s[b] == 0 {
      StageZero(s, b);
    } else if b < 4 {
      StageOne(s, b);
    }
  }

  lemma StageCarry(s: seq<int>)
    requires Binary(s) && 4 < |s| && s[0] == 1 && s[4] == 1
    ensures var t := Stage(s, 4); Stage(s, 5) == [t[0] - 16] + t[1..4] + Increment(t[4..])
  {
    assert Stage(s, 4)[4..] == s[4..];
  }

  /** Past the window nothing more can be absorbed: the digit is too small to
      take 2^b either way. */
  lemma StageShut(s: seq<int>, b: nat)
    requires 5 <= b < |s| && Binary(s) && s[0] == 1
    ensures Stage(s, b) == Window(s) == Stage(s, b + 1)
    ensures -15 <= Window(s)[0] <= 15
    ensures Window(s)[b] == 0 || Window(s)[b] == 1
    ensures Pow(2, b) >= 32
  {
    assert Window(s)[1..][b - 1] == Window(s)[b];
    PowMonotonic(2, 5, b);
    assert Pow(2, 5) == 32;
  }

  /** The body of the middle loop; stop is its break. */
  method Lookahead(r: array<int>, i: nat, b: nat, ghost s: seq<int>) returns (stop: bool)
    requires 1 <= b && i + b < r.Length && |s| == r.Length - i && Binary(s) && s[0] == 1
    requires r[i..] == Stage(s, b)
    modifies r
    ensures r[..i] == old(r[..i])
    ensures if stop then b > 4 && r[i..] == Window(s) else r[i..] == Stage(s, b + 1)
  {
    stop := false;
    if b <= 4 {
      StageInside(s, b);
    } else {
      StageShut(s, b);
    }
    assert r[i + b] == r[i..][b] && r[i] == r[i..][0];
    hide Low, Pow, Window, Increment, Stage;
    if r[i + b] != 0 {
      var shifted := r[i + b] * Pow(2, b);
      assert shifted == Pow(2, b);
      if r[i] + shifted <= 15 {
        Add(r, i, b, shifted);
      } else if r[i] - shifted >= -15 {
        Subtract(r, i, b, shifted, s);
      } else {
        stop := true;
      }
    }
  }

  method Add(r: array<int>, i: nat, b: nat, shifted: int)
    requires 0 < b && i + b < r.Length
    modifies r
    ensures r[..i] == old(r[..i])
    ensures r[i..] == old(r[i..])[0 := old(r[i]) + shifted][b := 0]
  {
    r[i], r[i + b] := r[i] + shifted, 0;
  }

  method Subtract(r: array<int>, i: nat, b: nat, shifted: int, ghost s: seq<int>)
    requires b == 4 && i + b < r.Length && |s| == r.Length - i && Binary(s) && s[0] == 1 && s[4] == 1
    requires r[i..] == Stage(s, 4) && shifted == 16
    modifies r
    ensures r[..i] == old(r[..i]) && r[i..] == Stage(s, 5)
  {
    StageCarry(s);
    ghost var t := r[i..];
    assert r[i + b] == t[b];
    r[i] := r[i] - shifted;
    assert r[i + b..] == t[b..];
    Carry(r, i + b);
    assert r[i..] == r[..i + b][i..] + r[i + b..];
  }

  /** The middle loop: fold the following bits into digit i. */
  method AbsorbWindow(r: array<int>, i: nat)
    requires i < r.Length && Binary(r[i..]) && r[i] != 0
    modifies r
    ensures r[..i] == old(r[..i])
    ensures r[i..] == Window(old(r[i..]))
  {
    ghost var s := r[i..];
    assert s[0] == 1 && Stage(s, 1) == s;
    var b, stop := 1, false;
    while !stop && b <= 6 && i + b < r.Length
      invariant 1 <= b <= 7 && i + b <= r.Length
      invariant r[..i] == old(r[..i])
      invariant if stop then r[i..] == Window(s) else r[i..] == Stage(s, b)
      decreases !stop, 7 - b
    {
      stop := Lookahead(r, i, b, s);
      b := if stop then b else b + 1;
    }
    if b <= 4 {
      assert Stage(s, |s|) == Window(s);
    }
  }

  method LoadBits(r: array<int>, a: seq<int>)
    requires |a| == 32 && AllBytes(a) && r.Length == 256
    modifies r
    ensures r[..] == BitsOf(a)
  {
    for i := 0 to 256
      invariant r[..i] == BitsOf(a)[..i]
    {
      r[i] := Shr(a[i / 8], i % 8) % 2;
      assert BitsOf(a)[..i + 1] == BitsOf(a)[..i] + [r[i]];
    }
  }

  /** The outer loop's invariant moves up one position. */
  lemma RecodeStep(bits: seq<int>, done: seq<int>, s: seq<int>)
    requires Binary(bits) && Binary(s) && s != [] && Recode(bits) == done + Recode(s)
    ensures Recode(bits) == (done + [Window(s)[0]]) + Recode(Window(s)[1..])
  {
  }

  /** The outer loop: a window at every position, bottom up. */
  method SlideBits(r: array<int>)
    requires Binary(r[..])
    modifies r
    ensures r[..] == Recode(old(r[..]))
  {
    ghost var bits, done, s := r[..], [], r[..];
    for i := 0 to r.Length
      invariant r[..i] == done && r[i..] == s && Binary(s)
      invariant Recode(bits) == done + Recode(s)
    {
      if r[i] != 0 {
        AbsorbWindow(r, i);
      }
      RecodeStep(bits, done, s);
      done, s := done + [Window(s)[0]], Window(s)[1..];
    }
  }

  /** slide: the digits written are the recoding of the scalar's bits. */
  method Slide(a: seq<int>) returns (r: array<int>)
    requires |a| == 32 && AllBytes(a)
    ensures fresh(r) && r.Length == 256
    ensures r[..] == Recode(BitsOf(a))
  {
    r := new int[256];
    LoadBits(r, a);
    SlideBits(r);
  }

  /** slide on a scalar below 2^255: same value, sparse odd digits. */
  lemma SlideCorrect(a: seq<int>)
    requires a != [] && AllBytes(a) && a[|a| - 1] <= 127
    ensures Eval(2, Recode(BitsOf(a))) == Eval(256, a)
    ensures Slid(Recode(BitsOf(a)))
  {
    BitsValue(a);
    RecodeSlid(BitsOf(a));
    TopBitClear(a);
    RecodeValue(BitsOf(a));
  }

  lemma TopBitClear(a: seq<int>)
    requires a != [] && AllBytes(a) && a[|a| - 1] <= 127
    ensures Eval(256, a) < Pow(2, 8 * |a| - 1)
  {
    var n := |a| - 1;
    assert Eval(256, a[n..]) == a[n];
    assert Pow(2, 7) == 128;
    hide Eval, Pow;
    EvalSplit(256, a, n);
    EvalBound(256, a[..n]);
    MulMonotonic(Pow(256, n), a[n] + 1, 128);
    MulDistributes(Pow(256, n), a[n], 1);
    PowBytes(n);
    PowAdd(2, 7, 8 * n);
  }
}
