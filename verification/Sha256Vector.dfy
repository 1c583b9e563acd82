/** The first example of FIPS 180-4, "abc", through the padding, the schedule and all 64
    rounds one at a time. */
module Sha256Vector {
  import opened Sha256Block
  import opened Sha256
  import opened Rows

  /** The message padded to one block. */
  const PADDED: seq<bv8> := [0x61, 0x62, 0x63, 0x80] + seq(59, _ => 0) + [0x18]

  /** The cube root of p is whole and, to 32 bits, the fraction frac. */
  predicate CubeRoot(p: nat, whole: nat, frac: nat) {
    var c := whole * 0x1_0000_0000 + frac;
    c * c * c <= p * 0x1_0000_0000_0000_0000_0000_0000 < (c + 1) * (c + 1) * (c + 1)
  }

  predicate SquareRoot(p: nat, whole: nat, frac: nat) {
    var c := whole * 0x1_0000_0000 + frac;
    c * c <= p * 0x1_0000_0000_0000_0000 < (c + 1) * (c + 1)
  }

  lemma LengthOfAbc()
    ensures LengthBytes(24) == [0, 0, 0, 0, 0, 0, 0, 0x18]
  {
  }

  lemma PaddedMessage(message: seq<bv8>)
    requires |message| == 3 && message[0] == 0x61 && message[1] == 0x62 && message[2] == 0x63
    ensures Pad(message) == PADDED
  {
    LengthOfAbc();
    hide LengthBytes;
  }

  lemma ThreeWords()
    ensures Word([0x61, 0x62, 0x63, 0x80]) == 0x61626380 && Word([0, 0, 0, 0x18]) == 0x18 && Word([0, 0, 0, 0]) == 0
  {
  }

  lemma FirstWords()
    ensures Schedule(PADDED, 0) == 0x61626380 && Schedule(PADDED, 15) == 0x18
    ensures forall t: nat :: 0 < t < 15 ==> Schedule(PADDED, t) == 0
  {
    hide Word;
    ThreeWords();
    assert PADDED[0..4] == [0x61, 0x62, 0x63, 0x80] && PADDED[60..64] == [0, 0, 0, 0x18];
    forall t: nat | 0 < t < 15 ensures Schedule(PADDED, t) == 0 {
      assert PADDED[4 * t..4 * t + 4] == [0, 0, 0, 0];
    }
  }

  /** Word t of the schedule from the four it is made of. */
  lemma NextWord(t: nat, w2: bv32, w7: bv32, w15: bv32, w16: bv32, w: bv32)
    requires t >= 16 && Extend(w2, w7, w15, w16) == w
    requires Schedule(PADDED, t - 2) == w2 && Schedule(PADDED, t - 7) == w7
    requires Schedule(PADDED, t - 15) == w15 && Schedule(PADDED, t - 16) == w16
    ensures Schedule(PADDED, t) == w
  {
    hide Extend;
  }

  lemma Words16()
    ensures Schedule(PADDED, 16) == 0x61626380 && Schedule(PADDED, 17) == 0x000f0000
    ensures Schedule(PADDED, 18) == 0x7da86405 && Schedule(PADDED, 19) == 0x600003c6
    ensures Schedule(PADDED, 20) == 0x3e9d7b78 && Schedule(PADDED, 21) == 0x0183fc00
    ensures Schedule(PADDED, 22) == 0x12dcbfdb && Schedule(PADDED, 23) == 0xe2e2c38e
  {
    FirstWords();
    hide Schedule;
    NextWord(16, 0x00000000, 0x00000000, 0x00000000, 0x61626380, 0x61626380);
    NextWord(17, 0x00000018, 0x00000000, 0x00000000, 0x00000000, 0x000f0000);
    NextWord(18, 0x61626380, 0x00000000, 0x00000000, 0x00000000, 0x7da86405);
    NextWord(19, 0x000f0000, 0x00000000, 0x00000000, 0x00000000, 0x600003c6);
    NextWord(20, 0x7da86405, 0x00000000, 0x00000000, 0x00000000, 0x3e9d7b78);
    NextWord(21, 0x600003c6, 0x00000000, 0x00000000, 0x00000000, 0x0183fc00);
    NextWord(22, 0x3e9d7b78, 0x00000018, 0x00000000, 0x00000000, 0x12dcbfdb);
    NextWord(23, 0x0183fc00, 0x61626380, 0x00000000, 0x00000000, 0xe2e2c38e);
  }

  lemma Words24()
    ensures Schedule(PADDED, 24) == 0xc8215c1a && Schedule(PADDED, 25) == 0xb73679a2
    ensures Schedule(PADDED, 26) == 0xe5bc3909 && Schedule(PADDED, 27) == 0x32663c5b
    ensures Schedule(PADDED, 28) == 0x9d209d67 && Schedule(PADDED, 29) == 0xec8726cb
    ensures Schedule(PADDED, 30) == 0x702138a4 && Schedule(PADDED, 31) == 0xd3b7973b
  {
    FirstWords();
    Words16();
    hide Schedule;
    NextWord(24, 0x12dcbfdb, 0x000f0000, 0x00000000, 0x00000000, 0xc8215c1a);
    NextWord(25, 0xe2e2c38e, 0x7da86405, 0x00000000, 0x00000000, 0xb73679a2);
    NextWord(26, 0xc8215c1a, 0x600003c6, 0x00000000, 0x00000000, 0xe5bc3909);
    NextWord(27, 0xb73679a2, 0x3e9d7b78, 0x00000000, 0x00000000, 0x32663c5b);
    NextWord(28, 0xe5bc3909, 0x0183fc00, 0x00000000, 0x00000000, 0x9d209d67);
    NextWord(29, 0x32663c5b, 0x12dcbfdb, 0x00000000, 0x00000000, 0xec8726cb);
    NextWord(30, 0x9d209d67, 0xe2e2c38e, 0x00000018, 0x00000000, 0x702138a4);
    NextWord(31, 0xec8726cb, 0xc8215c1a, 0x61626380, 0x00000018, 0xd3b7973b);
  }

  lemma Words32()
    ensures Schedule(PADDED, 32) == 0x93f5997f && Schedule(PADDED, 33) == 0x3b68ba73
    ensures Schedule(PADDED, 34) == 0xaff4ffc1 && Schedule(PADDED, 35) == 0xf10a5c62
    ensures Schedule(PADDED, 36) == 0x0a8b3996 && Schedule(PADDED, 37) == 0x72af830a
    ensures Schedule(PADDED, 38) == 0x9409e33e && Schedule(PADDED, 39) == 0x24641522
  {
    Words16();
    Words24();
    hide Schedule;
    NextWord(32, 0x702138a4, 0xb73679a2, 0x000f0000, 0x61626380, 0x93f5997f);
    NextWord(33, 0xd3b7973b, 0xe5bc3909, 0x7da86405, 0x000f0000, 0x3b68ba73);
    NextWord(34, 0x93f5997f, 0x32663c5b, 0x600003c6, 0x7da86405, 0xaff4ffc1);
    NextWord(35, 0x3b68ba73, 0x9d209d67, 0x3e9d7b78, 0x600003c6, 0xf10a5c62);
    NextWord(36, 0xaff4ffc1, 0xec8726cb, 0x0183fc00, 0x3e9d7b78, 0x0a8b3996);
    NextWord(37, 0xf10a5c62, 0x702138a4, 0x12dcbfdb, 0x0183fc00, 0x72af830a);
    NextWord(38, 0x0a8b3996, 0xd3b7973b, 0xe2e2c38e, 0x12dcbfdb, 0x9409e33e);
    NextWord(39, 0x72af830a, 0x93f5997f, 0xc8215c1a, 0xe2e2c38e, 0x24641522);
  }

  lemma Words40()
    ensures Schedule(PADDED, 40) == 0x9f47bf94 && Schedule(PADDED, 41) == 0xf0a64f5a
    ensures Schedule(PADDED, 42) == 0x3e246a79 && Schedule(PADDED, 43) == 0x27333ba3
    ensures Schedule(PADDED, 44) == 0x0c4763f2 && Schedule(PADDED, 45) == 0x840abf27
    ensures Schedule(PADDED, 46) == 0x7a290d5d && Schedule(PADDED, 47) == 0x065c43da
  {
    Words24();
    Words32();
    hide Schedule;
    NextWord(40, 0x9409e33e, 0x3b68ba73, 0xb73679a2, 0xc8215c1a, 0x9f47bf94);
    NextWord(41, 0x24641522, 0xaff4ffc1, 0xe5bc3909, 0xb73679a2, 0xf0a64f5a);
    NextWord(42, 0x9f47bf94, 0xf10a5c62, 0x32663c5b, 0xe5bc3909, 0x3e246a79);
    NextWord(43, 0xf0a64f5a, 0x0a8b3996, 0x9d209d67, 0x32663c5b, 0x27333ba3);
    NextWord(44, 0x3e246a79, 0x72af830a, 0xec8726cb, 0x9d209d67, 0x0c4763f2);
    NextWord(45, 0x27333ba3, 0x9409e33e, 0x702138a4, 0xec8726cb, 0x840abf27);
    NextWord(46, 0x0c4763f2, 0x24641522, 0xd3b7973b, 0x702138a4, 0x7a290d5d);
    NextWord(47, 0x840abf27, 0x9f47bf94, 0x93f5997f, 0xd3b7973b, 0x065c43da);
  }

  lemma Words48()
    ensures Schedule(PADDED, 48) == 0xfb3e89cb && Schedule(PADDED, 49) == 0xcc7617db
    ensures Schedule(PADDED, 50) == 0xb9e66c34 && Schedule(PADDED, 51) == 0xa9993667
    ensures Schedule(PADDED, 52) == 0x84badedd && Schedule(PADDED, 53) == 0xc21462bc
    ensures Schedule(PADDED, 54) == 0x1487472c && Schedule(PADDED, 55) == 0xb20f7a99
  {
    Words32();
    Words40();
    hide Schedule;
    NextWord(48, 0x7a290d5d, 0xf0a64f5a, 0x3b68ba73, 0x93f5997f, 0xfb3e89cb);
    NextWord(49, 0x065c43da, 0x3e246a79, 0xaff4ffc1, 0x3b68ba73, 0xcc7617db);
    NextWord(50, 0xfb3e89cb, 0x27333ba3, 0xf10a5c62, 0xaff4ffc1, 0xb9e66c34);
    NextWord(51, 0xcc7617db, 0x0c4763f2, 0x0a8b3996, 0xf10a5c62, 0xa9993667);
    NextWord(52, 0xb9e66c34, 0x840abf27, 0x72af830a, 0x0a8b3996, 0x84badedd);
    NextWord(53, 0xa9993667, 0x7a290d5d, 0x9409e33e, 0x72af830a, 0xc21462bc);
    NextWord(54, 0x84badedd, 0x065c43da, 0x24641522, 0x9409e33e, 0x1487472c);
    NextWord(55, 0xc21462bc, 0xfb3e89cb, 0x9f47bf94, 0x24641522, 0xb20f7a99);
  }

  lemma Words56()
    ensures Schedule(PADDED, 56) == 0xef57b9cd && Schedule(PADDED, 57) == 0xebe6b238
    ensures Schedule(PADDED, 58) == 0x9fe3095e && Schedule(PADDED, 59) == 0x78bc8d4b
    ensures Schedule(PADDED, 60) == 0xa43fcf15 && Schedule(PADDED, 61) == 0x668b2ff8
    ensures Schedule(PADDED, 62) == 0xeeaba2cc && Schedule(PADDED, 63) == 0x12b1edeb
  {
    Words40();
    Words48();
    hide Schedule;
    NextWord(56, 0x1487472c, 0xcc7617db, 0xf0a64f5a, 0x9f47bf94, 0xef57b9cd);
    NextWord(57, 0xb20f7a99, 0xb9e66c34, 0x3e246a79, 0xf0a64f5a, 0xebe6b238);
    NextWord(58, 0xef57b9cd, 0xa9993667, 0x27333ba3, 0x3e246a79, 0x9fe3095e);
    NextWord(59, 0xebe6b238, 0x84badedd, 0x0c4763f2, 0x27333ba3, 0x78bc8d4b);
    NextWord(60, 0x9fe3095e, 0xc21462bc, 0x840abf27, 0x0c4763f2, 0xa43fcf15);
    NextWord(61, 0x78bc8d4b, 0x1487472c, 0x7a290d5d, 0x840abf27, 0x668b2ff8);
    NextWord(62, 0xa43fcf15, 0xb20f7a99, 0x065c43da, 0x7a290d5d, 0xeeaba2cc);
    NextWord(63, 0x668b2ff8, 0xef57b9cd, 0xfb3e89cb, 0x065c43da, 0x12b1edeb);
  }

  lemma Constants0()
    ensures CubeRoot(2, 1, 0x428a2f98) && K[0] == 0x428a2f98 && CubeRoot(3, 1, 0x71374491) && K[1] == 0x71374491
    ensures CubeRoot(5, 1, 0xb5c0fbcf) && K[2] == 0xb5c0fbcf && CubeRoot(7, 1, 0xe9b5dba5) && K[3] == 0xe9b5dba5
    ensures CubeRoot(11, 2, 0x3956c25b) && K[4] == 0x3956c25b && CubeRoot(13, 2, 0x59f111f1) && K[5] == 0x59f111f1
    ensures CubeRoot(17, 2, 0x923f82a4) && K[6] == 0x923f82a4 && CubeRoot(19, 2, 0xab1c5ed5) && K[7] == 0xab1c5ed5
  {
  }

  lemma Constants8()
    ensures CubeRoot(23, 2, 0xd807aa98) && K[8] == 0xd807aa98 && CubeRoot(29, 3, 0x12835b01) && K[9] == 0x12835b01
    ensures CubeRoot(31, 3, 0x243185be) && K[10] == 0x243185be && CubeRoot(37, 3, 0x550c7dc3) && K[11] == 0x550c7dc3
    ensures CubeRoot(41, 3, 0x72be5d74) && K[12] == 0x72be5d74 && CubeRoot(43, 3, 0x80deb1fe) && K[13] == 0x80deb1fe
    ensures CubeRoot(47, 3, 0x9bdc06a7) && K[14] == 0x9bdc06a7 && CubeRoot(53, 3, 0xc19bf174) && K[15] == 0xc19bf174
  {
  }

  lemma Constants16()
    ensures CubeRoot(59, 3, 0xe49b69c1) && K[16] == 0xe49b69c1 && CubeRoot(61, 3, 0xefbe4786) && K[17] == 0xefbe4786
    ensures CubeRoot(67, 4, 0x0fc19dc6) && K[18] == 0x0fc19dc6 && CubeRoot(71, 4, 0x240ca1cc) && K[19] == 0x240ca1cc
    ensures CubeRoot(73, 4, 0x2de92c6f) && K[20] == 0x2de92c6f && CubeRoot(79, 4, 0x4a7484aa) && K[21] == 0x4a7484aa
    ensures CubeRoot(83, 4, 0x5cb0a9dc) && K[22] == 0x5cb0a9dc && CubeRoot(89, 4, 0x76f988da) && K[23] == 0x76f988da
  {
  }

  lemma Constants24()
    ensures CubeRoot(97, 4, 0x983e5152) && K[24] == 0x983e5152 && CubeRoot(101, 4, 0xa831c66d) && K[25] == 0xa831c66d
    ensures CubeRoot(103, 4, 0xb00327c8) && K[26] == 0xb00327c8 && CubeRoot(107, 4, 0xbf597fc7) && K[27] == 0xbf597fc7
    ensures CubeRoot(109, 4, 0xc6e00bf3) && K[28] == 0xc6e00bf3 && CubeRoot(113, 4, 0xd5a79147) && K[29] == 0xd5a79147
    ensures CubeRoot(127, 5, 0x06ca6351) && K[30] == 0x06ca6351 && CubeRoot(131, 5, 0x14292967) && K[31] == 0x14292967
  {
  }

  lemma Constants32()
    ensures CubeRoot(137, 5, 0x27b70a85) && K[32] == 0x27b70a85 && CubeRoot(139, 5, 0x2e1b2138) && K[33] == 0x2e1b2138
    ensures CubeRoot(149, 5, 0x4d2c6dfc) && K[34] == 0x4d2c6dfc && CubeRoot(151, 5, 0x53380d13) && K[35] == 0x53380d13
    ensures CubeRoot(157, 5, 0x650a7354) && K[36] == 0x650a7354 && CubeRoot(163, 5, 0x766a0abb) && K[37] == 0x766a0abb
    ensures CubeRoot(167, 5, 0x81c2c92e) && K[38] == 0x81c2c92e && CubeRoot(173, 5, 0x92722c85) && K[39] == 0x92722c85
  {
  }

  lemma Constants40()
    ensures CubeRoot(179, 5, 0xa2bfe8a1) && K[40] == 0xa2bfe8a1 && CubeRoot(181, 5, 0xa81a664b) && K[41] == 0xa81a664b
    ensures CubeRoot(191, 5, 0xc24b8b70) && K[42] == 0xc24b8b70 && CubeRoot(193, 5, 0xc76c51a3) && K[43] == 0xc76c51a3
    ensures CubeRoot(197, 5, 0xd192e819) && K[44] == 0xd192e819 && CubeRoot(199, 5, 0xd6990624) && K[45] == 0xd6990624
    ensures CubeRoot(211, 5, 0xf40e3585) && K[46] == 0xf40e3585 && CubeRoot(223, 6, 0x106aa070) && K[47] == 0x106aa070
  {
  }

  lemma Constants48()
    ensures CubeRoot(227, 6, 0x19a4c116) && K[48] == 0x19a4c116 && CubeRoot(229, 6, 0x1e376c08) && K[49] == 0x1e376c08
    ensures CubeRoot(233, 6, 0x2748774c) && K[50] == 0x2748774c && CubeRoot(239, 6, 0x34b0bcb5) && K[51] == 0x34b0bcb5
    ensures CubeRoot(241, 6, 0x391c0cb3) && K[52] == 0x391c0cb3 && CubeRoot(251, 6, 0x4ed8aa4a) && K[53] == 0x4ed8aa4a
    ensures CubeRoot(257, 6, 0x5b9cca4f) && K[54] == 0x5b9cca4f && CubeRoot(263, 6, 0x682e6ff3) && K[55] == 0x682e6ff3
  {
  }

  lemma Constants56()
    ensures CubeRoot(269, 6, 0x748f82ee) && K[56] == 0x748f82ee && CubeRoot(271, 6, 0x78a5636f) && K[57] == 0x78a5636f
    ensures CubeRoot(277, 6, 0x84c87814) && K[58] == 0x84c87814 && CubeRoot(281, 6, 0x8cc70208) && K[59] == 0x8cc70208
    ensures CubeRoot(283, 6, 0x90befffa) && K[60] == 0x90befffa && CubeRoot(293, 6, 0xa4506ceb) && K[61] == 0xa4506ceb
    ensures CubeRoot(307, 6, 0xbef9a3f7) && K[62] == 0xbef9a3f7 && CubeRoot(311, 6, 0xc67178f2) && K[63] == 0xc67178f2
  {
  }

  lemma InitialState()
    ensures SquareRoot(2, 1, 0x6a09e667) && H0[0] == 0x6a09e667 && SquareRoot(3, 1, 0xbb67ae85) && H0[1] == 0xbb67ae85
    ensures SquareRoot(5, 2, 0x3c6ef372) && H0[2] == 0x3c6ef372 && SquareRoot(7, 2, 0xa54ff53a) && H0[3] == 0xa54ff53a
    ensures SquareRoot(11, 3, 0x510e527f) && H0[4] == 0x510e527f && SquareRoot(13, 3, 0x9b05688c) && H0[5] == 0x9b05688c
    ensures SquareRoot(17, 4, 0x1f83d9ab) && H0[6] == 0x1f83d9ab && SquareRoot(19, 4, 0x5be0cd19) && H0[7] == 0x5be0cd19
  {
  }

  /** The state after round t from the one before it. */
  lemma NextRound(t: nat, k: bv32, w: bv32, v: seq<bv32>)
    requires t < 64 && K[t] == k && Schedule(PADDED, t) == w && Round(Rounds(H0, PADDED, t), k, w) == v
    ensures Rounds(H0, PADDED, t + 1) == v
  {
    hide Round, Schedule;
  }

  lemma StartRounds()
    ensures Rounds(H0, PADDED, 0) == H0
  {
  }

  lemma Rounds8()
    ensures Rounds(H0, PADDED, 8) == [
      0x85a07b5f, 0xe5030380, 0x2b4209f5, 0x04409a6a, 0x0c657a79, 0x9b27a401, 0x714260ad, 0x43ada245]
  {
    StartRounds();
    FirstWords();
    Constants0();
    hide Schedule, Rounds;
    NextRound(0, 0x428a2f98, 0x61626380, [
      0x5d6aebcd, 0x6a09e667, 0xbb67ae85, 0x3c6ef372, 0xfa2a4622, 0x510e527f, 0x9b05688c, 0x1f83d9ab]);
    NextRound(1, 0x71374491, 0x00000000, [
      0x5a6ad9ad, 0x5d6aebcd, 0x6a09e667, 0xbb67ae85, 0x78ce7989, 0xfa2a4622, 0x510e527f, 0x9b05688c]);
    NextRound(2, 0xb5c0fbcf, 0x00000000, [
      0xc8c347a7, 0x5a6ad9ad, 0x5d6aebcd, 0x6a09e667, 0xf92939eb, 0x78ce7989, 0xfa2a4622, 0x510e527f]);
    NextRound(3, 0xe9b5dba5, 0x00000000, [
      0xd550f666, 0xc8c347a7, 0x5a6ad9ad, 0x5d6aebcd, 0x24e00850, 0xf92939eb, 0x78ce7989, 0xfa2a4622]);
    NextRound(4, 0x3956c25b, 0x00000000, [
      0x04409a6a, 0xd550f666, 0xc8c347a7, 0x5a6ad9ad, 0x43ada245, 0x24e00850, 0xf92939eb, 0x78ce7989]);
    NextRound(5, 0x59f111f1, 0x00000000, [
      0x2b4209f5, 0x04409a6a, 0xd550f666, 0xc8c347a7, 0x714260ad, 0x43ada245, 0x24e00850, 0xf92939eb]);
    NextRound(6, 0x923f82a4, 0x00000000, [
      0xe5030380, 0x2b4209f5, 0x04409a6a, 0xd550f666, 0x9b27a401, 0x714260ad, 0x43ada245, 0x24e00850]);
    NextRound(7, 0xab1c5ed5, 0x00000000, [
      0x85a07b5f, 0xe5030380, 0x2b4209f5, 0x04409a6a, 0x0c657a79, 0x9b27a401, 0x714260ad, 0x43ada245]);
  }

  lemma Rounds16()
    ensures Rounds(H0, PADDED, 16) == [
      0xb0fa238e, 0xc0645fde, 0xd932eb16, 0x87912990, 0x07590dcd, 0x0b92f20c, 0x745a48de, 0x1e578218]
  {
    Rounds8();
    FirstWords();
    Constants8();
    hide Schedule, Rounds;
    NextRound(8, 0xd807aa98, 0x00000000, [
      0x8e04ecb9, 0x85a07b5f, 0xe5030380, 0x2b4209f5, 0x32ca2d8c, 0x0c657a79, 0x9b27a401, 0x714260ad]);
    NextRound(9, 0x12835b01, 0x00000000, [
      0x8c87346b, 0x8e04ecb9, 0x85a07b5f, 0xe5030380, 0x1cc92596, 0x32ca2d8c, 0x0c657a79, 0x9b27a401]);
    NextRound(10, 0x243185be, 0x00000000, [
      0x4798a3f4, 0x8c87346b, 0x8e04ecb9, 0x85a07b5f, 0x436b23e8, 0x1cc92596, 0x32ca2d8c, 0x0c657a79]);
    NextRound(11, 0x550c7dc3, 0x00000000, [
      0xf71fc5a9, 0x4798a3f4, 0x8c87346b, 0x8e04ecb9, 0x816fd6e9, 0x436b23e8, 0x1cc92596, 0x32ca2d8c]);
    NextRound(12, 0x72be5d74, 0x00000000, [
      0x87912990, 0xf71fc5a9, 0x4798a3f4, 0x8c87346b, 0x1e578218, 0x816fd6e9, 0x436b23e8, 0x1cc92596]);
    NextRound(13, 0x80deb1fe, 0x00000000, [
      0xd932eb16, 0x87912990, 0xf71fc5a9, 0x4798a3f4, 0x745a48de, 0x1e578218, 0x816fd6e9, 0x436b23e8]);
    NextRound(14, 0x9bdc06a7, 0x00000000, [
      0xc0645fde, 0xd932eb16, 0x87912990, 0xf71fc5a9, 0x0b92f20c, 0x745a48de, 0x1e578218, 0x816fd6e9]);
    NextRound(15, 0xc19bf174, 0x00000018, [
      0xb0fa238e, 0xc0645fde, 0xd932eb16, 0x87912990, 0x07590dcd, 0x0b92f20c, 0x745a48de, 0x1e578218]);
  }

  lemma Rounds24()
    ensures Rounds(H0, PADDED, 24) == [
      0xc5d53d8d, 0xa7a3623f, 0xc2606d6d, 0x9dc68b63, 0xaa47c347, 0x49f5114a, 0xe1257970, 0x8ada8930]
  {
    Rounds16();
    Words16();
    Constants16();
    hide Schedule, Rounds;
    NextRound(16, 0xe49b69c1, 0x61626380, [
      0x21da9a9b, 0xb0fa238e, 0xc0645fde, 0xd932eb16, 0x8034229c, 0x07590dcd, 0x0b92f20c, 0x745a48de]);
    NextRound(17, 0xefbe4786, 0x000f0000, [
      0xc2fbd9d1, 0x21da9a9b, 0xb0fa238e, 0xc0645fde, 0x846ee454, 0x8034229c, 0x07590dcd, 0x0b92f20c]);
    NextRound(18, 0x0fc19dc6, 0x7da86405, [
      0xfe777bbf, 0xc2fbd9d1, 0x21da9a9b, 0xb0fa238e, 0xcc899961, 0x846ee454, 0x8034229c, 0x07590dcd]);
    NextRound(19, 0x240ca1cc, 0x600003c6, [
      0xe1f20c33, 0xfe777bbf, 0xc2fbd9d1, 0x21da9a9b, 0xb0638179, 0xcc899961, 0x846ee454, 0x8034229c]);
    NextRound(20, 0x2de92c6f, 0x3e9d7b78, [
      0x9dc68b63, 0xe1f20c33, 0xfe777bbf, 0xc2fbd9d1, 0x8ada8930, 0xb0638179, 0xcc899961, 0x846ee454]);
    NextRound(21, 0x4a7484aa, 0x0183fc00, [
      0xc2606d6d, 0x9dc68b63, 0xe1f20c33, 0xfe777bbf, 0xe1257970, 0x8ada8930, 0xb0638179, 0xcc899961]);
    NextRound(22, 0x5cb0a9dc, 0x12dcbfdb, [
      0xa7a3623f, 0xc2606d6d, 0x9dc68b63, 0xe1f20c33, 0x49f5114a, 0xe1257970, 0x8ada8930, 0xb0638179]);
    NextRound(23, 0x76f988da, 0xe2e2c38e, [
      0xc5d53d8d, 0xa7a3623f, 0xc2606d6d, 0x9dc68b63, 0xaa47c347, 0x49f5114a, 0xe1257970, 0x8ada8930]);
  }

  lemma Rounds32()
    ensures Rounds(H0, PADDED, 32) == [
      0x73b33bf5, 0xea992a22, 0xa0060b30, 0x363482c9, 0xba591112, 0x0109ab3a, 0xade79437, 0x6112a3b7]
  {
    Rounds24();
    Words24();
    Constants24();
    hide Schedule, Rounds;
    NextRound(24, 0x983e5152, 0xc8215c1a, [
      0x1c2c2838, 0xc5d53d8d, 0xa7a3623f, 0xc2606d6d, 0x2823ef91, 0xaa47c347, 0x49f5114a, 0xe1257970]);
    NextRound(25, 0xa831c66d, 0xb73679a2, [
      0xcde8037d, 0x1c2c2838, 0xc5d53d8d, 0xa7a3623f, 0x14383d8e, 0x2823ef91, 0xaa47c347, 0x49f5114a]);
    NextRound(26, 0xb00327c8, 0xe5bc3909, [
      0xb62ec4bc, 0xcde8037d, 0x1c2c2838, 0xc5d53d8d, 0xc74c6516, 0x14383d8e, 0x2823ef91, 0xaa47c347]);
    NextRound(27, 0xbf597fc7, 0x32663c5b, [
      0x77d37528, 0xb62ec4bc, 0xcde8037d, 0x1c2c2838, 0xedffbff8, 0xc74c6516, 0x14383d8e, 0x2823ef91]);
    NextRound(28, 0xc6e00bf3, 0x9d209d67, [
      0x363482c9, 0x77d37528, 0xb62ec4bc, 0xcde8037d, 0x6112a3b7, 0xedffbff8, 0xc74c6516, 0x14383d8e]);
    NextRound(29, 0xd5a79147, 0xec8726cb, [
      0xa0060b30, 0x363482c9, 0x77d37528, 0xb62ec4bc, 0xade79437, 0x6112a3b7, 0xedffbff8, 0xc74c6516]);
    NextRound(30, 0x06ca6351, 0x702138a4, [
      0xea992a22, 0xa0060b30, 0x363482c9, 0x77d37528, 0x0109ab3a, 0xade79437, 0x6112a3b7, 0xedffbff8]);
    NextRound(31, 0x14292967, 0xd3b7973b, [
      0x73b33bf5, 0xea992a22, 0xa0060b30, 0x363482c9, 0xba591112, 0x0109ab3a, 0xade79437, 0x6112a3b7]);
  }

  lemma Rounds40()
    ensures Rounds(H0, PADDED, 40) == [
      0x79ea687a, 0x6dc57a8a, 0x34df1604, 0x41a65cb1, 0x1efbc0a0, 0xf0781bc8, 0xa507a53d, 0x0772a26b]
  {
    Rounds32();
    Words32();
    Constants32();
    hide Schedule, Rounds;
    NextRound(32, 0x27b70a85, 0x93f5997f, [
      0x98e12507, 0x73b33bf5, 0xea992a22, 0xa0060b30, 0x9cd9f5f6, 0xba591112, 0x0109ab3a, 0xade79437]);
    NextRound(33, 0x2e1b2138, 0x3b68ba73, [
      0xfe604df5, 0x98e12507, 0x73b33bf5, 0xea992a22, 0x59249dd3, 0x9cd9f5f6, 0xba591112, 0x0109ab3a]);
    NextRound(34, 0x4d2c6dfc, 0xaff4ffc1, [
      0xa9a7738c, 0xfe604df5, 0x98e12507, 0x73b33bf5, 0x085f3833, 0x59249dd3, 0x9cd9f5f6, 0xba591112]);
    NextRound(35, 0x53380d13, 0xf10a5c62, [
      0x65a0cfe4, 0xa9a7738c, 0xfe604df5, 0x98e12507, 0xf4b002d6, 0x085f3833, 0x59249dd3, 0x9cd9f5f6]);
    NextRound(36, 0x650a7354, 0x0a8b3996, [
      0x41a65cb1, 0x65a0cfe4, 0xa9a7738c, 0xfe604df5, 0x0772a26b, 0xf4b002d6, 0x085f3833, 0x59249dd3]);
    NextRound(37, 0x766a0abb, 0x72af830a, [
      0x34df1604, 0x41a65cb1, 0x65a0cfe4, 0xa9a7738c, 0xa507a53d, 0x0772a26b, 0xf4b002d6, 0x085f3833]);
    NextRound(38, 0x81c2c92e, 0x9409e33e, [
      0x6dc57a8a, 0x34df1604, 0x41a65cb1, 0x65a0cfe4, 0xf0781bc8, 0xa507a53d, 0x0772a26b, 0xf4b002d6]);
    NextRound(39, 0x92722c85, 0x24641522, [
      0x79ea687a, 0x6dc57a8a, 0x34df1604, 0x41a65cb1, 0x1efbc0a0, 0xf0781bc8, 0xa507a53d, 0x0772a26b]);
  }

  lemma Rounds48()
    ensures Rounds(H0, PADDED, 48) == [
      0x4172328d, 0xa14c14b0, 0x72ab4b91, 0x26628815, 0xfecf0bc6, 0xd57b94a9, 0xb7755da1, 0xa80f11f0]
  {
    Rounds40();
    Words40();
    Constants40();
    hide Schedule, Rounds;
    NextRound(40, 0xa2bfe8a1, 0x9f47bf94, [
      0xd6670766, 0x79ea687a, 0x6dc57a8a, 0x34df1604, 0x26352d63, 0x1efbc0a0, 0xf0781bc8, 0xa507a53d]);
    NextRound(41, 0xa81a664b, 0xf0a64f5a, [
      0xdf46652f, 0xd6670766, 0x79ea687a, 0x6dc57a8a, 0x838b2711, 0x26352d63, 0x1efbc0a0, 0xf0781bc8]);
    NextRound(42, 0xc24b8b70, 0x3e246a79, [
      0x17aa0dfe, 0xdf46652f, 0xd6670766, 0x79ea687a, 0xdecd4715, 0x838b2711, 0x26352d63, 0x1efbc0a0]);
    NextRound(43, 0xc76c51a3, 0x27333ba3, [
      0x9d4baf93, 0x17aa0dfe, 0xdf46652f, 0xd6670766, 0xfda24c2e, 0xdecd4715, 0x838b2711, 0x26352d63]);
    NextRound(44, 0xd192e819, 0x0c4763f2, [
      0x26628815, 0x9d4baf93, 0x17aa0dfe, 0xdf46652f, 0xa80f11f0, 0xfda24c2e, 0xdecd4715, 0x838b2711]);
    NextRound(45, 0xd6990624, 0x840abf27, [
      0x72ab4b91, 0x26628815, 0x9d4baf93, 0x17aa0dfe, 0xb7755da1, 0xa80f11f0, 0xfda24c2e, 0xdecd4715]);
    NextRound(46, 0xf40e3585, 0x7a290d5d, [
      0xa14c14b0, 0x72ab4b91, 0x26628815, 0x9d4baf93, 0xd57b94a9, 0xb7755da1, 0xa80f11f0, 0xfda24c2e]);
    NextRound(47, 0x106aa070, 0x065c43da, [
      0x4172328d, 0xa14c14b0, 0x72ab4b91, 0x26628815, 0xfecf0bc6, 0xd57b94a9, 0xb7755da1, 0xa80f11f0]);
  }

  lemma Rounds56()
    ensures Rounds(H0, PADDED, 56) == [
      0x38cc9913, 0x3ec45cdb, 0xf5702fdb, 0x101fd28f, 0x54cb266b, 0xe50e1b4f, 0x9f4787c3, 0x529e7d00]
  {
    Rounds48();
    Words48();
    Constants48();
    hide Schedule, Rounds;
    NextRound(48, 0x19a4c116, 0xfb3e89cb, [
      0x05757ceb, 0x4172328d, 0xa14c14b0, 0x72ab4b91, 0xbd714038, 0xfecf0bc6, 0xd57b94a9, 0xb7755da1]);
    NextRound(49, 0x1e376c08, 0xcc7617db, [
      0xf11bfaa8, 0x05757ceb, 0x4172328d, 0xa14c14b0, 0x6e5c390c, 0xbd714038, 0xfecf0bc6, 0xd57b94a9]);
    NextRound(50, 0x2748774c, 0xb9e66c34, [
      0x7a0508a1, 0xf11bfaa8, 0x05757ceb, 0x4172328d, 0x52f1ccf7, 0x6e5c390c, 0xbd714038, 0xfecf0bc6]);
    NextRound(51, 0x34b0bcb5, 0xa9993667, [
      0x886e7a22, 0x7a0508a1, 0xf11bfaa8, 0x05757ceb, 0x49231c1e, 0x52f1ccf7, 0x6e5c390c, 0xbd714038]);
    NextRound(52, 0x391c0cb3, 0x84badedd, [
      0x101fd28f, 0x886e7a22, 0x7a0508a1, 0xf11bfaa8, 0x529e7d00, 0x49231c1e, 0x52f1ccf7, 0x6e5c390c]);
    NextRound(53, 0x4ed8aa4a, 0xc21462bc, [
      0xf5702fdb, 0x101fd28f, 0x886e7a22, 0x7a0508a1, 0x9f4787c3, 0x529e7d00, 0x49231c1e, 0x52f1ccf7]);
    NextRound(54, 0x5b9cca4f, 0x1487472c, [
      0x3ec45cdb, 0xf5702fdb, 0x101fd28f, 0x886e7a22, 0xe50e1b4f, 0x9f4787c3, 0x529e7d00, 0x49231c1e]);
    NextRound(55, 0x682e6ff3, 0xb20f7a99, [
      0x38cc9913, 0x3ec45cdb, 0xf5702fdb, 0x101fd28f, 0x54cb266b, 0xe50e1b4f, 0x9f4787c3, 0x529e7d00]);
  }

  lemma Rounds64()
    ensures Rounds(H0, PADDED, 64) == [
      0x506e3058, 0xd39a2165, 0x04d24d6c, 0xb85e2ce9, 0x5ef50f24, 0xfb121210, 0x948d25b6, 0x961f4894]
  {
    Rounds56();
    Words56();
    Constants56();
    hide Schedule, Rounds;
    NextRound(56, 0x748f82ee, 0xef57b9cd, [
      0xfcd1887b, 0x38cc9913, 0x3ec45cdb, 0xf5702fdb, 0x9b5e906c, 0x54cb266b, 0xe50e1b4f, 0x9f4787c3]);
    NextRound(57, 0x78a5636f, 0xebe6b238, [
      0xc062d46f, 0xfcd1887b, 0x38cc9913, 0x3ec45cdb, 0x7e44008e, 0x9b5e906c, 0x54cb266b, 0xe50e1b4f]);
    NextRound(58, 0x84c87814, 0x9fe3095e, [
      0xffb70472, 0xc062d46f, 0xfcd1887b, 0x38cc9913, 0x6d83bfc6, 0x7e44008e, 0x9b5e906c, 0x54cb266b]);
    NextRound(59, 0x8cc70208, 0x78bc8d4b, [
      0xb6ae8fff, 0xffb70472, 0xc062d46f, 0xfcd1887b, 0xb21bad3d, 0x6d83bfc6, 0x7e44008e, 0x9b5e906c]);
    NextRound(60, 0x90befffa, 0xa43fcf15, [
      0xb85e2ce9, 0xb6ae8fff, 0xffb70472, 0xc062d46f, 0x961f4894, 0xb21bad3d, 0x6d83bfc6, 0x7e44008e]);
    NextRound(61, 0xa4506ceb, 0x668b2ff8, [
      0x04d24d6c, 0xb85e2ce9, 0xb6ae8fff, 0xffb70472, 0x948d25b6, 0x961f4894, 0xb21bad3d, 0x6d83bfc6]);
    NextRound(62, 0xbef9a3f7, 0xeeaba2cc, [
      0xd39a2165, 0x04d24d6c, 0xb85e2ce9, 0xb6ae8fff, 0xfb121210, 0x948d25b6, 0x961f4894, 0xb21bad3d]);
    NextRound(63, 0xc67178f2, 0x12b1edeb, [
      0x506e3058, 0xd39a2165, 0x04d24d6c, 0xb85e2ce9, 0x5ef50f24, 0xfb121210, 0x948d25b6, 0x961f4894]);
  }

  lemma Compressed()
    ensures Compress(H0, PADDED) == [
      0xba7816bf, 0x8f01cfea, 0x414140de, 0x5dae2223, 0xb00361a3, 0x96177a9c, 0xb410ff61, 0xf20015ad]
  {
    Rounds64();
    hide Rounds;
  }

  lemma OneBlock()
    ensures |PADDED| == 64 && Fold(H0, PADDED) == Compress(H0, PADDED)
  {
    hide Compress;
    assert PADDED[..64] == PADDED && PADDED[64..] == [];
  }

  lemma DigestWords()
    ensures Bytes(0xba7816bf) == [0xba, 0x78, 0x16, 0xbf]
    ensures Bytes(0x8f01cfea) == [0x8f, 0x01, 0xcf, 0xea]
    ensures Bytes(0x414140de) == [0x41, 0x41, 0x40, 0xde]
    ensures Bytes(0x5dae2223) == [0x5d, 0xae, 0x22, 0x23]
    ensures Bytes(0xb00361a3) == [0xb0, 0x03, 0x61, 0xa3]
    ensures Bytes(0x96177a9c) == [0x96, 0x17, 0x7a, 0x9c]
    ensures Bytes(0xb410ff61) == [0xb4, 0x10, 0xff, 0x61]
    ensures Bytes(0xf20015ad) == [0xf2, 0x00, 0x15, 0xad]
  {
  }

  lemma Quarters<T>(p: seq<seq<T>>)
    requires |p| == 8 && forall k :: 0 <= k < 8 ==> |p[k]| == 4
    ensures var d := p[0] + p[1] + p[2] + p[3] + p[4] + p[5] + p[6] + p[7];
      && d[0..4] == p[0] && d[4..8] == p[1] && d[8..12] == p[2] && d[12..16] == p[3]
      && d[16..20] == p[4] && d[20..24] == p[5] && d[24..28] == p[6] && d[28..32] == p[7]
  {
  }

  lemma QuarterRows<T>(p: seq<seq<T>>)
    requires |p| == 8 && forall k :: 0 <= k < 8 ==> |p[k]| == 4
    ensures forall k: nat :: k < 8 ==> Row(p[0] + p[1] + p[2] + p[3] + p[4] + p[5] + p[6] + p[7], 4, k) == p[k]
  {
    Quarters(p);
  }

  lemma EncodeEight(s: seq<bv32>)
    requires |s| == 8
    ensures EncodeWords(s) == Bytes(s[0]) + Bytes(s[1]) + Bytes(s[2]) + Bytes(s[3])
        + Bytes(s[4]) + Bytes(s[5]) + Bytes(s[6]) + Bytes(s[7])
  {
    hide Bytes, Row;
    var p := seq(8, k requires 0 <= k < 8 => Bytes(s[k]));
    QuarterRows(p);
    FlattenIs(p, 4, p[0] + p[1] + p[2] + p[3] + p[4] + p[5] + p[6] + p[7]);
  }

  /** The digest of "abc". */
  lemma AbcDigest(message: seq<bv8>)
    requires |message| == 3 && message[0] == 0x61 && message[1] == 0x62 && message[2] == 0x63
    ensures Digest(message) ==
      [0xba, 0x78, 0x16, 0xbf] + [0x8f, 0x01, 0xcf, 0xea] + [0x41, 0x41, 0x40, 0xde] + [0x5d, 0xae, 0x22, 0x23]
      + [0xb0, 0x03, 0x61, 0xa3] + [0x96, 0x17, 0x7a, 0x9c] + [0xb4, 0x10, 0xff, 0x61] + [0xf2, 0x00, 0x15, 0xad]
  {
    PaddedMessage(message);
    OneBlock();
    Compressed();
    DigestWords();
    EncodeEight(Compress(H0, PADDED));
    hide Compress, Pad, Fold, Bytes, EncodeWords;
  }
}
