/** The block base58 codec of base58.cpp. */
module Base58 {
  import opened Wrappers
  import opened Numbers
  import opened Bits
  import opened Positional
  import opened WideInt

  /** The alphabet, cut where the source's single string skips a letter. */
  const ALPHABET := "123456789" + "ABCDEFGH" + "JKLMN" + "PQRSTUVWXYZ" + "abcdefghijk" + "mnopqrstuvwxyz"

  // ---------------------------------------------------------------- tables

  /** alphabet[d], as ranges of character codes. */
  function Letter(d: nat): char
    requires d < 58
  {
    if d < 9 then '1' + d as char
    else if d < 17 then 'A' + (d - 9) as char
    else if d < 22 then 'J' + (d - 17) as char
    else if d < 33 then 'P' + (d - 22) as char
    else if d < 44 then 'a' + (d - 33) as char
    else 'm' + (d - 44) as char
  }

  lemma AlphabetLetters()
    ensures |ALPHABET| == 58
    ensures forall d :: 0 <= d < 58 ==> ALPHABET[d] == Letter(d)
  {
    Run("123456789", '1', 9);
    Run("ABCDEFGH", 'A', 8);
    Run("JKLMN", 'J', 5);
    Run("PQRSTUVWXYZ", 'P', 11);
    Run("abcdefghijk", 'a', 11);
    Run("mnopqrstuvwxyz", 'm', 14);
  }

  /** A string of consecutive characters. */
  lemma Run(s: string, first: char, n: nat)
    requires |s| == n <= 14 && first <= 'z'
    requires forall i {:trigger s[i]} :: 0 <= i < n ==> s[i] as int == first as int + i
    ensures forall i :: 0 <= i < n ==> s[i] == first + i as char
  {
  }

  /** The reverse table's entry for a character: the first position holding it, or -1. */
  function Find(c: char, i: nat): (d: int)
    requires i <= 58
    ensures -1 <= d < 58 && (d >= 0 ==> d >= i && Letter(d) == c)
    ensures d == -1 ==> forall j :: i <= j < 58 ==> Letter(j) != c
    decreases 58 - i
  {
    if i == 58 then -1 else if Letter(i) == c then i else Find(c, i + 1)
  }

  function Reverse(c: char): (d: int)
    ensures -1 <= d < 58 && (d >= 0 ==> Letter(d) == c)
    ensures d == -1 ==> forall j :: 0 <= j < 58 ==> Letter(j) != c
  {
    Find(c, 0)
  }

  lemma LettersAscend(j: nat, k: nat)
    requires j < k < 58
    ensures Letter(j) < Letter(k)
  {
  }

  /** The two tables are inverse to each other. */
  lemma ReverseLetter(d: nat)
    requires d < 58
    ensures Reverse(Letter(d)) == d
  {
    var e := Reverse(Letter(d));
    if e < d && e >= 0 {
      LettersAscend(e, d);
    } else if e > d {
      LettersAscend(d, e);
    }
  }

  /** The reverse_alphabet constructor: -1 everywhere, then the alphabet's positions. */
  method ReverseAlphabet() returns (table: array<int>)
    ensures fresh(table) && table.Length == 74
    ensures forall k :: 0 <= k < 74 ==> table[k] == Reverse('1' + k as char)
  {
    hide Reverse;
    table := new int[74](_ => -1);
    for i := 0 to 58
      invariant forall j :: 0 <= j < i ==> table[Letter(j) as int - '1' as int] == j
      invariant forall k :: 0 <= k < 74 ==> table[k] == -1 || (0 <= table[k] < i && Letter(table[k]) == '1' + k as char)
    {
      forall j | 0 <= j < i ensures Letter(j) < Letter(i) {
        LettersAscend(j, i);
      }
      table[Letter(i) as int - '1' as int] := i;
    }
    forall k | 0 <= k < 74 ensures table[k] == Reverse('1' + k as char) {
      var d := Reverse('1' + k as char);
      if d >= 0 {
        assert table[Letter(d) as int - '1' as int] == d;
      }
    }
  }

  /** reverse_alphabet::operator(): characters outside the table have no digit. */
  method Lookup(table: array<int>, c: char) returns (d: int)
    requires table.Length == 74 && forall k :: 0 <= k < 74 ==> table[k] == Reverse('1' + k as char)
    ensures d == Reverse(c)
  {
    var idx := c as int - '1' as int;
    d := if 0 <= idx < 74 then table[idx] else -1;
    assert d == -1 || c == '1' + idx as char;
    if !(0 <= idx < 74) {
      assert forall j :: 0 <= j < 58 ==> '1' <= Letter(j) <= 'z';
    }
  }

  /** encoded_block_sizes */
  function EncodedSize(k: nat): nat
    requires k <= 8
  {
    if k == 0 then 0 else if k == 1 then 2 else if k == 2 then 3 else if k == 3 then 5 else if k == 4 then 6
    else if k == 5 then 7 else if k == 6 then 9 else if k == 7 then 10 else 11
  }

  /** decoded_block_sizes, with -1 for the sizes no block has. */
  function DecodedSize(n: nat): int
    requires n <= 11
  {
    if n == 0 then 0 else if n == 2 then 1 else if n == 3 then 2 else if n == 5 then 3 else if n == 6 then 4
    else if n == 7 then 5 else if n == 9 then 6 else if n == 10 then 7 else if n == 11 then 8 else -1
  }

  lemma SizesInverse()
    ensures forall k :: 0 <= k <= 8 ==> DecodedSize(EncodedSize(k)) == k
    ensures forall n :: 0 <= n <= 11 && DecodedSize(n) >= 0 ==> EncodedSize(DecodedSize(n)) == n
  {
  }

  /** A block's characters always have room for its bytes. */
  lemma SizesSuffice(k: nat)
    requires 1 <= k <= 8
    ensures Power(R256, k) <= Power(R58, EncodedSize(k))
  {
    PowersOf58();
    PowersOf256();
  }

  lemma PowersOf58()
    ensures Power(R58, 2) == 3364 && Power(R58, 3) == 195112 && Power(R58, 5) == 656356768
        && Power(R58, 6) == 38068692544
    ensures Power(R58, 7) == 2207984167552 && Power(R58, 9) == 7427658739644928 && Power(R58, 10) == 430804206899405824
    ensures Power(R58, 11) == 24986644000165537792
  {
    assert Power(R58, 4) == 11316496;
    assert Power(R58, 8) == 128063081718016;
  }

  lemma PowersOf256()
    ensures Power(R256, 1) == 0x100 && Power(R256, 2) == 0x1_0000 && Power(R256, 3) == 0x100_0000
    ensures Power(R256, 4) == 0x1_0000_0000 && Power(R256, 5) == 0x100_0000_0000 && Power(R256, 6) == 0x1_0000_0000_0000
    ensures Power(R256, 7) == 0x100_0000_0000_0000 && Power(R256, 8) == 0x1_0000_0000_0000_0000
  {
  }

  // ---------------------------------------------------------------- blocks

  function Letters(s: seq<int>): (t: string)
    requires AreDigits(R58, s)
    ensures |t| == |s|
  {
    seq(|s|, i requires 0 <= i < |s| => Letter(s[i]))
  }

  function DigitsOf(t: string): (s: seq<int>)
    ensures |s| == |t|
  {
    seq(|t|, i requires 0 <= i < |t| => Reverse(t[i]))
  }

  predicate InAlphabet(t: string) { forall i :: 0 <= i < |t| ==> Reverse(t[i]) >= 0 }

  /** A block of bytes as a number of fixed width in base 58. */
  function EncodeBlock(block: seq<int>): (t: string)
    requires 1 <= |block| <= 8 && AllBytes(block)
    ensures |t| == EncodedSize(|block|)
  {
    ValBound(R256, block);
    Letters(Digits(R58, Val(R256, block), EncodedSize(|block|)))
  }

  /** The blocks that stand for bytes: a size some block has, letters of the alphabet,
      and a value the bytes can hold. */
  predicate ValidBlock(t: string)
    requires |t| <= 11
  {
    && DecodedSize(|t|) > 0 && InAlphabet(t)
    && Val(R58, DigitsOf(t)) < Power(R256, DecodedSize(|t|))
  }

  function DecodeBlock(t: string): (r: Option<seq<int>>)
    requires |t| <= 11
    ensures r.Some? ==> |r.value| == DecodedSize(|t|) && AllBytes(r.value)
  {
    if !ValidBlock(t) then None
    else
      ValBound(R58, DigitsOf(t));
      Some(Digits(R256, Val(R58, DigitsOf(t)), DecodedSize(|t|)))
  }

  lemma LettersDigits(s: seq<int>)
    requires AreDigits(R58, s)
    ensures InAlphabet(Letters(s)) && DigitsOf(Letters(s)) == s
  {
    forall i | 0 <= i < |s| ensures Reverse(Letters(s)[i]) == s[i] {
      ReverseLetter(s[i]);
    }
  }

  lemma DigitsLetters(t: string)
    requires InAlphabet(t)
    ensures AreDigits(R58, DigitsOf(t)) && Letters(DigitsOf(t)) == t
  {
  }

  /** The letters of a block are the fewest that hold its bytes. */
  lemma SizesMinimal(n: nat)
    requires 1 <= n <= 8
    ensures EncodedSize(n) > 0
    ensures Power(R58, EncodedSize(n) - 1) < Power(R256, n) <= Power(R58, EncodedSize(n))
  {
    PowersOf58();
    PowersOf256();
    assert Power(R58, 1) == 58 && Power(R58, 4) == 11316496 && Power(R58, 8) == 128063081718016;
    hide Power;
  }

  /** 255 is 4 times 58 and 23; the largest block. */
  lemma BlockExamples()
    ensures EncodeBlock([57]) == "1z" && EncodeBlock([255]) == "5Q"
    ensures EncodeBlock([255, 255, 255, 255, 255, 255, 255, 255]) == "jpXCZedGfVQ"
  {
    LargestBlock();
    assert Val(R256, [57]) == 57 && Val(R256, [255]) == 255;
    assert Digits(R58, 57, 2) == [0, 57] && Digits(R58, 255, 2) == [4, 23];
  }

  lemma LargestBlock()
    ensures EncodeBlock([255, 255, 255, 255, 255, 255, 255, 255]) == "jpXCZedGfVQ"
  {
    hide Val, Digits, Letters;
    LargestValue();
    LargestDigits();
    LargestLetters();
  }

  lemma LargestLetters()
    ensures Letters([42, 47, 30, 11, 32, 37, 36, 15, 38, 28, 23]) == "jpXCZedGfVQ"
  {
    var t := Letters([42, 47, 30, 11, 32, 37, 36, 15, 38, 28, 23]);
    assert t[..6] == "jpXCZe" && t[6..] == "dGfVQ";
    assert t == t[..6] + t[6..] && "jpXCZedGfVQ" == "jpXCZe" + "dGfVQ";
  }

  lemma LargestValue()
    ensures Val(R256, [255, 255, 255, 255, 255, 255, 255, 255]) == 18446744073709551615
  {
    hide Val;
    EmptyValue();
    NextByte([], [255], 0);
    NextByte([255], [255, 255], 255);
    NextByte([255, 255], [255, 255, 255], 65535);
    NextByte([255, 255, 255], [255, 255, 255, 255], 16777215);
    NextByte([255, 255, 255, 255], [255, 255, 255, 255, 255], 4294967295);
    NextByte([255, 255, 255, 255, 255], [255, 255, 255, 255, 255, 255], 1099511627775);
    NextByte([255, 255, 255, 255, 255, 255], [255, 255, 255, 255, 255, 255, 255], 281474976710655);
    NextByte([255, 255, 255, 255, 255, 255, 255], [255, 255, 255, 255, 255, 255, 255, 255], 72057594037927935);
  }

  lemma EmptyValue()
    ensures Val(R256, []) == 0
  {
  }

  lemma NextByte(s: seq<int>, t: seq<int>, v: int)
    requires Val(R256, s) == v && t == s + [255]
    ensures Val(R256, t) == 256 * v + 255
  {
    ValSnoc(R256, s, 255);
  }

  lemma NextDigit(v: nat, n: nat, s: seq<int>, d: nat)
    requires n > 0 && Digits(R58, v / 58, n - 1) == s && v % 58 == d
    ensures Digits(R58, v, n) == s + [d]
  {
  }

  lemma LargestDigits()
    ensures Digits(R58, 18446744073709551615, 11) == [42, 47, 30, 11, 32, 37, 36, 15, 38, 28, 23]
  {
    assert Digits(R58, 0, 0) == [];
    hide Digits;
    NextDigit(42, 1, [], 42);
    NextDigit(2483, 2, [42], 47);
    NextDigit(144044, 3, [42, 47], 30);
    NextDigit(8354563, 4, [42, 47, 30], 11);
    NextDigit(484564686, 5, [42, 47, 30, 11], 32);
    NextDigit(28104751825, 6, [42, 47, 30, 11, 32], 37);
    NextDigit(1630075605886, 7, [42, 47, 30, 11, 32, 37], 36);
    NextDigit(94544385141403, 8, [42, 47, 30, 11, 32, 37, 36], 15);
    NextDigit(5483574338201412, 9, [42, 47, 30, 11, 32, 37, 36, 15], 38);
    NextDigit(318047311615681924, 10, [42, 47, 30, 11, 32, 37, 36, 15, 38], 28);
    NextDigit(18446744073709551615, 11, [42, 47, 30, 11, 32, 37, 36, 15, 38, 28], 23);
  }

  lemma BlockRoundTrip(block: seq<int>)
    requires 1 <= |block| <= 8 && AllBytes(block)
    ensures DecodeBlock(EncodeBlock(block)) == Some(block)
  {
    SizesInverse();
    SizesSuffice(|block|);
    ValBound(R256, block);
    var v, n := Val(R256, block), EncodedSize(|block|);
    hide Letter, Reverse, Letters, DigitsOf, Val, Digits, EncodedSize, DecodedSize, Power, Find;
    LettersDigits(Digits(R58, v, n));
    ValDigits(R58, v, n);
    DigitsVal(R256, block);
  }

  lemma BlockCanonical(t: string)
    requires |t| <= 11 && DecodeBlock(t).Some?
    ensures 1 <= |DecodeBlock(t).value| <= 8 && EncodeBlock(DecodeBlock(t).value) == t
  {
    var size, v := DecodedParts(t);
    hide *;
    BlockOfValue(t, size, v);
  }

  /** What an accepted block decodes to. */
  lemma DecodedParts(t: string) returns (size: nat, v: nat)
    requires |t| <= 11 && DecodeBlock(t).Some?
    ensures InAlphabet(t) && v == Val(R58, DigitsOf(t)) && v < Power(R256, size)
    ensures 1 <= size <= 8 && EncodedSize(size) == |t| && DecodeBlock(t) == Some(Digits(R256, v, size))
  {
    hide Letter, Reverse, Letters, DigitsOf, Val, Digits, EncodedSize, Power, Find;
    SizesInverse();
    DigitsLetters(t);
    ValBound(R58, DigitsOf(t));
    size, v := DecodedSize(|t|), Val(R58, DigitsOf(t));
  }

  lemma BlockOfValue(t: string, size: nat, v: nat)
    requires InAlphabet(t) && v == Val(R58, DigitsOf(t)) && v < Power(R256, size)
    requires 1 <= size <= 8 && EncodedSize(size) == |t|
    ensures AllBytes(Digits(R256, v, size)) && EncodeBlock(Digits(R256, v, size)) == t
  {
    hide Letter, Reverse, Letters, DigitsOf, Val, EncodedSize, Power, Find;
    DigitsLetters(t);
    ValDigits(R256, v, size);
    DigitsVal(R58, DigitsOf(t));
  }

  /** uint_8be_to_64: shift in one byte at a time. */
  method LoadBigEndian(block: seq<int>) returns (res: nat)
    requires 1 <= |block| <= 8 && AllBytes(block)
    ensures res == Val(R256, block)
  {
    res := 0;
    assert block[..0] == [];
    for i := 0 to |block|
      invariant res == Val(R256, block[..i])
    {
      ShiftedByte(res, block[i], block[..i]);
      res := BitOr(Wrap(res * 256), block[i]);
      assert block[..i + 1] == block[..i] + [block[i]];
      ValSnoc(R256, block[..i], block[i]);
    }
    assert block[..|block|] == block;
  }

  lemma OrByte(res: nat, b: int)
    requires IsByte(b)
    ensures BitOr(res * 256, b) == res * 256 + b
  {
    assert Pow(2, 8) == 256;
    hide Pow, BitOr;
    OrDisjoint(b, res, 8);
  }

  lemma WordRoom(s: seq<int>)
    requires AllBytes(s) && |s| <= 7
    ensures 0 <= Val(R256, s) < 0x100_0000_0000_0000
  {
    ValBound(R256, s);
    PowerMonotonic(R256, |s|, 7);
    PowersOf256();
  }

  /** Up to eight bytes no bit is shifted out. */
  lemma ShiftedByte(res: nat, b: int, s: seq<int>)
    requires AllBytes(s) && IsByte(b) && res == Val(R256, s) && |s| <= 7
    ensures BitOr(Wrap(res * 256), b) == res * 256 + b
  {
    hide BitOr, Val, Wrap;
    WordRoom(s);
    OrByte(res, b);
    WrapWord(res * 256);
  }

  /** uint_64_to_8be: the eight bytes in reverse order of memory, and the last `size` of them. */
  method StoreBigEndian(num: nat, size: nat) returns (bytes: seq<int>)
    requires IsWord(num) && 1 <= size <= 8
    ensures bytes == Digits(R256, num, size)
  {
    var be := SwapBytes(num);
    bytes := be[8 - size..];
    DigitsDrop(R256, num, 8, size);
  }

  /** The low byte goes to the last place, and so on upwards. */
  method SwapBytes(num: nat) returns (be: seq<int>)
    ensures be == Digits(R256, num, 8)
  {
    be := [];
    var rest: nat := num;
    for i := 0 to 8
      invariant Digits(R256, num, 8) == Digits(R256, rest, 8 - i) + be
    {
      be := [rest % 256] + be;
      rest := rest / 256;
    }
  }

  /** The digit loop of encode_block, right to left, never left of off. */
  method WriteDigits(num0: nat, n: nat, res: array<char>, off: nat, ghost before: string, ghost after: string)
    requires num0 < Power(R58, n) && |before| == off && res[..] == before + Ones(n) + after
    modifies res
    ensures res[..] == before + Letters(Digits(R58, num0, n)) + after
  {
    hide Ones, Letter, Letters, Digits, Power;
    var num: nat := num0;
    ghost var all, k, tail := Letters(Digits(R58, num, n)), n, "";
    var i: int := n - 1;
    while 0 < num
      invariant 0 <= k <= n && i + 1 == k && num < Power(R58, k)
      invariant all == Letters(Digits(R58, num, k)) + tail
      invariant res[..] == before + Ones(k) + tail + after
      decreases num
    {
      DigitStep(all, num, k, tail);
      var remainder := num % 58;
      num := num / 58;
      OnesStep(before, k, Letter(remainder), tail, after);
      res[off + i] := Letter(remainder);
      tail := [Letter(remainder)] + tail;
      i, k := i - 1, k - 1;
    }
    AllOnes(k);
    assert before + all + after == before + Ones(k) + tail + after;
  }

  /** encode_block, into the characters of res from off on, all of them '1' before. */
  method EncodeBlockInto(block: seq<int>, res: array<char>, off: nat)
    requires 1 <= |block| <= 8 && AllBytes(block) && off + EncodedSize(|block|) <= res.Length
    requires res[off..off + EncodedSize(|block|)] == Ones(EncodedSize(|block|))
    modifies res
    ensures res[..] == old(res[..off]) + EncodeBlock(block) + old(res[off + EncodedSize(|block|)..])
  {
    var num := LoadBigEndian(block);
    var n := EncodedSize(|block|);
    ValBound(R256, block);
    SizesSuffice(|block|);
    ghost var before, after := res[..off], res[off + n..];
    assert res[..] == before + res[off..off + n] + after;
    WriteDigits(num, n, res, off, before, after);
  }

  function Ones(k: nat): (s: string)
    ensures |s| == k
  {
    seq(k, _ => '1')
  }

  lemma OnesStep(before: string, k: nat, c: char, tail: string, after: string)
    requires k > 0
    ensures (before + Ones(k) + tail + after)[|before| + k - 1 := c] == before + Ones(k - 1) + ([c] + tail) + after
  {
  }

  lemma DigitStep(all: string, num: nat, k: nat, tail: string)
    requires num > 0 && num < Power(R58, k) && all == Letters(Digits(R58, num, k)) + tail
    ensures k > 0 && 0 <= num / 58 < Power(R58, k - 1)
    ensures all == Letters(Digits(R58, num / 58, k - 1)) + ([Letter(num % 58)] + tail)
  {
    assert Letters(Digits(R58, num, k)) == Letters(Digits(R58, num / 58, k - 1)) + [Letter(num % 58)];
  }

  lemma AllOnes(k: nat)
    ensures Letters(Digits(R58, 0, k)) == Ones(k)
  {
    DigitsZero(R58, k);
  }

  lemma {:induction false} ValSuffix(s: seq<int>, k: nat)
    requires k <= |s| && AreDigits(R58, s)
    ensures Val(R58, s[k..]) <= Val(R58, s)
  {
    if k > 0 {
      assert s == [s[0]] + s[1..];
      ValCons(R58, s[0], s[1..]);
      MulMonotonic(s[0], 0, Power(R58, |s| - 1));
      ValSuffix(s[1..], k - 1);
      assert s[1..][k - 1..] == s[k..];
    }
  }

  /** The overflow test: the high half and the wrap together catch every sum past 64 bits. */
  lemma OverflowExact(product: nat, lo: nat, hi: nat, sum: nat, tmp: nat)
    requires hi * B64 + lo == product && IsWord(lo) && IsWord(sum) && tmp == Wrap(sum + lo)
    ensures tmp < sum || hi != 0 <==> product + sum >= B64
    ensures !(tmp < sum || hi != 0) ==> tmp == product + sum
  {
  }

  /** A suffix too large for 64 bits makes the block invalid whatever precedes it. */
  lemma TooLarge(t: string, k: nat)
    requires k <= |t| <= 11 && DecodedSize(|t|) > 0 && Val(R58, DigitsOf(t[k..])) >= B64
    ensures DecodeBlock(t).None?
  {
    if InAlphabet(t) {
      assert DigitsOf(t)[k..] == DigitsOf(t[k..]);
      ValSuffix(DigitsOf(t), k);
      PowersOf256();
      PowerMonotonic(R256, DecodedSize(|t|), 8);
    }
  }

  /** The decoding loop with k characters left to read. */
  ghost predicate Read(t: string, k: nat, sum: nat, order: nat)
    requires k <= |t|
  {
    && InAlphabet(t[k..]) && IsWord(sum) && sum == Val(R58, DigitsOf(t[k..]))
    && order == Wrap(Power(R58, |t| - k))
  }

  /** The loop's order wraps from the eleventh multiplication on, the one that follows the
      last letter of a full block. */
  lemma OrderFits(n: nat)
    ensures Wrap(Power(R58, n)) == Power(R58, n) <==> n <= 10
  {
    PowersOf58();
    if n <= 10 {
      PowerMonotonic(R58, n, 10);
    } else {
      PowerMonotonic(R58, 11, n);
    }
  }

  lemma OrderStep(n: nat, order: nat)
    requires n <= 10 && order == Wrap(Power(R58, n))
    ensures order == Power(R58, n) && Wrap(order * 58) == Wrap(Power(R58, n + 1))
  {
    OrderFits(n);
  }

  /** The value of one character more, read on the left. */
  lemma ReadMore(t: string, k: nat, digit: int)
    requires 0 < k <= |t| && digit == Reverse(t[k - 1])
    ensures Val(R58, DigitsOf(t[k - 1..])) == digit * Power(R58, |t| - k) + Val(R58, DigitsOf(t[k..]))
    ensures InAlphabet(t[k..]) && digit >= 0 ==> InAlphabet(t[k - 1..])
  {
    hide Reverse;
    var s := DigitsOf(t[k..]);
    assert DigitsOf(t[k - 1..]) == [digit] + s;
    ValCons(R58, digit, s);
  }

  /** The body of the decoding loop: another digit, or the block is rejected. */
  method ReadDigit(table: array<int>, t: string, k: nat, sum: nat, order: nat)
      returns (ok: bool, sum': nat, order': nat)
    requires table.Length == 74 && forall j :: 0 <= j < 74 ==> table[j] == Reverse('1' + j as char)
    requires 0 < k <= |t| <= 11 && DecodedSize(|t|) > 0 && Read(t, k, sum, order)
    ensures if ok then Read(t, k - 1, sum', order') else DecodeBlock(t).None?
  {
    ok, sum', order' := false, sum, order;
    var digit := Lookup(table, t[k - 1]);
    ReadMore(t, k, digit);
    OrderStep(|t| - k, order);
    if digit < 0 {
      return;
    }
    hide Reverse, DigitsOf, Val, Power, DecodeBlock, Wrap, DecodedSize, InAlphabet;
    var lo, hi := Mul128(order, digit);
    var tmp := Wrap(sum + lo);
    OverflowExact(order * digit, lo, hi, sum, tmp);
    assert order * digit == digit * order;
    if tmp < sum || hi != 0 {
      TooLarge(t, k - 1);
      return;
    }
    ok, sum', order' := true, tmp, Wrap(order * 58);
  }

  lemma {:induction false} PowerIsShift(n: nat)
    ensures Power(R256, n) == Pow(2, 8 * n)
  {
    if n > 0 {
      PowerIsShift(n - 1);
      PowAdd(2, 8, 8 * (n - 1));
      assert Pow(2, 8) == 256;
    }
  }

  /** The loop of decode_block, right to left. */
  method ReadDigits(table: array<int>, t: string) returns (ok: bool, sum: nat)
    requires table.Length == 74 && forall j :: 0 <= j < 74 ==> table[j] == Reverse('1' + j as char)
    requires 1 <= |t| <= 11 && DecodedSize(|t|) > 0
    ensures if ok then InAlphabet(t) && IsWord(sum) && sum == Val(R58, DigitsOf(t)) else DecodeBlock(t).None?
  {
    ok, sum := true, 0;
    var order, k := 1, |t|;
    assert t[|t|..] == "" && t[0..] == t;
    hide Reverse, DecodeBlock, DecodedSize;
    while ok && k > 0
      invariant 0 <= k <= |t|
      invariant if ok then Read(t, k, sum, order) else DecodeBlock(t).None?
      decreases k, ok
    {
      ok, sum, order := ReadDigit(table, t, k, sum, order);
      k := k - 1;
    }
  }

  /** decode_block: accepts exactly the valid blocks. */
  method DecodeBlockFrom(table: array<int>, t: string) returns (r: Option<seq<int>>)
    requires table.Length == 74 && forall j :: 0 <= j < 74 ==> table[j] == Reverse('1' + j as char)
    requires 1 <= |t| <= 11
    ensures r == DecodeBlock(t)
  {
    var size := DecodedSize(|t|);
    if size <= 0 {
      return None;
    }
    var ok, resNum := ReadDigits(table, t);
    if !ok {
      return None;
    }
    PowerIsShift(size);
    if size < 8 && Pow(2, 8 * size) <= resNum {
      return None;
    }
    PowersOf256();
    hide Pow;
    var bytes := StoreBigEndian(resNum, size);
    r := Some(bytes);
  }

  // ---------------------------------------------------------------- strings

  /** Blocks of eight bytes, then what is left. */
  function Encode(data: seq<int>): (t: string)
    requires AllBytes(data)
  {
    if data == [] then ""
    else if |data| < 8 then EncodeBlock(data)
    else EncodeBlock(data[..8]) + Encode(data[8..])
  }

  /** A full block and a rest, each on its own; nothing for nothing. */
  lemma EncodeExample()
    ensures Encode([]) == "" && Encode([255, 255, 255, 255, 255, 255, 255, 255, 57]) == "jpXCZedGfVQ1z"
  {
    var data := [255, 255, 255, 255, 255, 255, 255, 255, 57];
    BlockExamples();
    hide EncodeBlock;
    assert data[..8] == [255, 255, 255, 255, 255, 255, 255, 255] && data[8..] == [57];
    assert "jpXCZedGfVQ" + "1z" == "jpXCZedGfVQ1z";
  }

  function EncodedLength(n: nat): nat {
    n / 8 * 11 + EncodedSize(n % 8)
  }

  lemma {:induction false} EncodeLength(data: seq<int>)
    requires AllBytes(data)
    ensures |Encode(data)| == EncodedLength(|data|)
  {
    hide EncodeBlock;
    if |data| >= 8 {
      EncodeLength(data[8..]);
    }
  }

  /** Blocks of eleven characters, then what is left; every block must be valid. */
  function Decode(t: string): (r: Option<seq<int>>)
    ensures r.Some? ==> AllBytes(r.value)
  {
    if t == "" then Some([])
    else if |t| < 11 then DecodeBlock(t)
    else
      var first, rest := DecodeBlock(t[..11]), Decode(t[11..]);
      if first.None? || rest.None? then None else Some(first.value + rest.value)
  }

  /** Decoding an encoding gives the bytes back, for every byte string. */
  lemma {:induction false} DecodeEncode(data: seq<int>)
    requires AllBytes(data)
    ensures Decode(Encode(data)) == Some(data)
  {
    hide EncodeBlock, DecodeBlock;
    if data != [] && |data| < 8 {
      BlockRoundTrip(data);
      assert |EncodeBlock(data)| < 11;
    } else if |data| >= 8 {
      var block, rest := data[..8], data[8..];
      BlockRoundTrip(block);
      DecodeEncode(rest);
      var t := Encode(data);
      assert t[..11] == EncodeBlock(block) && t[11..] == Encode(rest);
      assert data == block + rest;
    }
  }

  /** Whatever is accepted is the encoding of what it decodes to. */
  lemma {:induction false} EncodeDecode(t: string)
    requires Decode(t).Some?
    ensures Encode(Decode(t).value) == t
  {
    if t != "" && |t| < 11 {
      BlockCanonical(t);
      assert |Decode(t).value| < 8 by {
        SizesInverse();
      }
    } else if |t| >= 11 {
      var first, rest := DecodeBlock(t[..11]).value, Decode(t[11..]).value;
      BlockCanonical(t[..11]);
      EncodeDecode(t[11..]);
      assert (first + rest)[..8] == first && (first + rest)[8..] == rest;
    }
  }

  lemma EncodeStep(whole: string, done: string, rest: seq<int>)
    requires AllBytes(rest) && |rest| >= 8 && whole == done + Encode(rest)
    ensures whole == (done + EncodeBlock(rest[..8])) + Encode(rest[8..])
  {
  }

  /** One more block written behind what is done. */
  method EncodeNext(block: seq<int>, res: array<char>, off: nat, ghost done: string)
    requires 1 <= |block| <= 8 && AllBytes(block) && off + EncodedSize(|block|) <= res.Length
    requires |done| == off && res[..] == done + Ones(res.Length - off)
    modifies res
    ensures res[..] == (done + EncodeBlock(block)) + Ones(res.Length - off - EncodedSize(|block|))
  {
    ghost var n := EncodedSize(|block|);
    assert res[off..off + n] == Ones(n) && res[off + n..] == Ones(res.Length - off - n) && res[..off] == done;
    EncodeBlockInto(block, res, off);
  }

  /** The loop of encode over the full blocks. */
  method EncodeFull(data: seq<int>, fullBlocks: nat, res: array<char>) returns (ghost done: string, rest: seq<int>)
    requires AllBytes(data) && 8 * fullBlocks <= |data| && 11 * fullBlocks <= res.Length && res[..] == Ones(res.Length)
    modifies res
    ensures |done| == 11 * fullBlocks && res[..] == done + Ones(res.Length - 11 * fullBlocks)
    ensures rest == data[8 * fullBlocks..] && Encode(data) == done + Encode(rest)
  {
    ghost var whole := Encode(data);
    done, rest := "", data;
    hide Encode, Ones, EncodeBlock, EncodedSize;
    assert whole == done + Encode(rest) && res[..] == done + Ones(res.Length);
    for i := 0 to fullBlocks
      invariant |done| == 11 * i && res[..] == done + Ones(res.Length - 11 * i)
      invariant rest == data[8 * i..] && whole == done + Encode(rest)
    {
      EncodeStep(whole, done, rest);
      EncodeFullNext(rest[..8], res, 11 * i, done);
      done, rest := done + EncodeBlock(rest[..8]), rest[8..];
    }
  }

  /** encode */
  method EncodeData(data: seq<int>) returns (t: string)
    requires AllBytes(data)
    ensures t == Encode(data)
  {
    if data == [] {
      return "";
    }
    var fullBlocks, last := |data| / 8, |data| % 8;
    EncodeLength(data);
    var res := new char[fullBlocks * 11 + EncodedSize(last)](_ => '1');
    assert res[..] == Ones(res.Length);
    hide Encode, Ones, EncodeBlock, EncodedSize;
    ghost var done;
    var rest;
    done, rest := EncodeFull(data, fullBlocks, res);
    FinishEncoding(rest, res, 11 * fullBlocks, done);
    t := res[..];
  }

  method EncodeFullNext(block: seq<int>, res: array<char>, off: nat, ghost done: string)
    requires |block| == 8 && AllBytes(block) && off + 11 <= res.Length
    requires |done| == off && res[..] == done + Ones(res.Length - off)
    modifies res
    ensures |EncodeBlock(block)| == 11 && res[..] == (done + EncodeBlock(block)) + Ones(res.Length - off - 11)
  {
    EncodeNext(block, res, off, done);
  }

  method FinishEncoding(block: seq<int>, res: array<char>, off: nat, ghost done: string)
    requires |block| < 8 && AllBytes(block) && off + EncodedSize(|block|) == res.Length
    requires |done| == off && res[..] == done + Ones(res.Length - off)
    modifies res
    ensures res[..] == done + Encode(block)
  {
    if 0 < |block| {
      EncodeNext(block, res, off, done);
    }
  }

  lemma DecodeStep(t: string, done: seq<int>, rest: string)
    requires |rest| >= 11
    ensures DecodeBlock(rest[..11]).None? ==> Decode(rest).None?
    ensures DecodeBlock(rest[..11]).Some? ==>
              Joined(done, Decode(rest)) == Joined(done + DecodeBlock(rest[..11]).value, Decode(rest[11..]))
  {
    hide DecodeBlock;
    if DecodeBlock(rest[..11]).Some? && Decode(rest[11..]).Some? {
      var first, more := DecodeBlock(rest[..11]).value, Decode(rest[11..]).value;
      assert done + (first + more) == (done + first) + more;
    }
  }

  function Joined(done: seq<int>, rest: Option<seq<int>>): Option<seq<int>> {
    if rest.None? then None else Some(done + rest.value)
  }

  lemma JoinNothing(r: Option<seq<int>>)
    ensures Joined([], r) == r
  {
    assert r.Some? ==> [] + r.value == r.value;
  }

  /** A leftover whose length no block has makes the whole string invalid. */
  lemma {:induction false} BadLength(t: string)
    requires DecodedSize(|t| % 11) < 0
    ensures Decode(t).None?
  {
    if |t| >= 11 {
      BadLength(t[11..]);
    }
  }

  /** decode */
  method DecodeString(enc: string) returns (r: Option<seq<int>>)
    ensures r == Decode(enc)
  {
    if enc == "" {
      return Some([]);
    }
    var fullBlocks, last := |enc| / 11, |enc| % 11;
    if DecodedSize(last) < 0 {
      BadLength(enc);
      return None;
    }
    var table := ReverseAlphabet();
    var data: seq<int> := [];
    JoinNothing(Decode(enc));
    hide Decode, DecodeBlock, Reverse, DecodedSize;
    for i := 0 to fullBlocks
      invariant forall j :: 0 <= j < 74 ==> table[j] == Reverse('1' + j as char)
      invariant Decode(enc) == Joined(data, Decode(enc[11 * i..]))
    {
      ghost var rest := enc[11 * i..];
      assert enc[11 * i..11 * i + 11] == rest[..11] && rest[11..] == enc[11 * (i + 1)..];
      DecodeStep(enc, data, rest);
      var block := DecodeBlockFrom(table, enc[11 * i..11 * i + 11]);
      if block.None? {
        return None;
      }
      data := data + block.value;
    }
    r := FinishDecoding(table, enc[11 * fullBlocks..], data);
  }

  method FinishDecoding(table: array<int>, t: string, data: seq<int>) returns (r: Option<seq<int>>)
    requires table.Length == 74 && forall j :: 0 <= j < 74 ==> table[j] == Reverse('1' + j as char)
    requires |t| < 11
    ensures r == Joined(data, Decode(t))
  {
    r := Some(data);
    assert data + [] == data;
    if 0 < |t| {
      var block := DecodeBlockFrom(table, t);
      r := if block.None? then None else Some(data + block.value);
    }
  }
}
