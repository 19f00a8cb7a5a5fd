/**
Test vectors of the standard, computed by the specification: the digests of "abc" and of a message
of two blocks, four rounds at a time.  They tie its functions and constants to concrete bits.
*/
module Sha256Vectors {
  import opened Sha256Spec

  // ---------------------------------------------------------------- steps

  /** One more round. */
  lemma More(b: seq<Byte>, v: Working, t: nat)
    requires |b| == 64 && t < 64
    ensures Rounds(b, v, t + 1) == Round(Rounds(b, v, t), K[t], W(b, t))
  {
    hide Round, W;
  }

  lemma FourMore(b: seq<Byte>, v: Working, t: nat)
    requires |b| == 64 && t + 4 <= 64
    ensures Rounds(b, v, t + 4) ==
            Round(Round(Round(Round(Rounds(b, v, t), K[t], W(b, t)), K[t + 1], W(b, t + 1)),
                        K[t + 2], W(b, t + 2)), K[t + 3], W(b, t + 3))
  {
    hide Round, Rounds, W;
    More(b, v, t);
    More(b, v, t + 1);
    More(b, v, t + 2);
    More(b, v, t + 3);
  }

  /** One word of the schedule from four others. */
  lemma Next(b: seq<Byte>, t: nat, w2: Word, w7: Word, w15: Word, w16: Word, r: Word)
    requires |b| == 64 && 16 <= t < 64
    requires W(b, t - 2) == w2 && W(b, t - 7) == w7 && W(b, t - 15) == w15 && W(b, t - 16) == w16
    requires NextW(w2, w7, w15, w16) == r
    ensures W(b, t) == r
  {
    hide NextW;
  }

  /** Sixteen words of the schedule. */
  predicate Words(b: seq<Byte>, t: nat,
                  w0: Word, w1: Word, w2: Word, w3: Word, w4: Word, w5: Word, w6: Word, w7: Word,
                  w8: Word, w9: Word, w10: Word, w11: Word, w12: Word, w13: Word, w14: Word, w15: Word)
  {
    && |b| == 64 && t + 16 <= 64
    && W(b, t) == w0 && W(b, t + 1) == w1 && W(b, t + 2) == w2 && W(b, t + 3) == w3
    && W(b, t + 4) == w4 && W(b, t + 5) == w5 && W(b, t + 6) == w6 && W(b, t + 7) == w7
    && W(b, t + 8) == w8 && W(b, t + 9) == w9 && W(b, t + 10) == w10 && W(b, t + 11) == w11
    && W(b, t + 12) == w12 && W(b, t + 13) == w13 && W(b, t + 14) == w14 && W(b, t + 15) == w15
  }

  lemma K0Row()
    ensures K[0] == 0x428a2f98 && K[1] == 0x71374491 && K[2] == 0xb5c0fbcf && K[3] == 0xe9b5dba5
    ensures K[4] == 0x3956c25b && K[5] == 0x59f111f1 && K[6] == 0x923f82a4 && K[7] == 0xab1c5ed5
  {
  }

  lemma K1Row()
    ensures K[8] == 0xd807aa98 && K[9] == 0x12835b01 && K[10] == 0x243185be && K[11] == 0x550c7dc3
    ensures K[12] == 0x72be5d74 && K[13] == 0x80deb1fe && K[14] == 0x9bdc06a7 && K[15] == 0xc19bf174
  {
  }

  lemma K2Row()
    ensures K[16] == 0xe49b69c1 && K[17] == 0xefbe4786 && K[18] == 0x0fc19dc6 && K[19] == 0x240ca1cc
    ensures K[20] == 0x2de92c6f && K[21] == 0x4a7484aa && K[22] == 0x5cb0a9dc && K[23] == 0x76f988da
  {
  }

  lemma K3Row()
    ensures K[24] == 0x983e5152 && K[25] == 0xa831c66d && K[26] == 0xb00327c8 && K[27] == 0xbf597fc7
    ensures K[28] == 0xc6e00bf3 && K[29] == 0xd5a79147 && K[30] == 0x06ca6351 && K[31] == 0x14292967
  {
  }

  lemma K4Row()
    ensures K[32] == 0x27b70a85 && K[33] == 0x2e1b2138 && K[34] == 0x4d2c6dfc && K[35] == 0x53380d13
    ensures K[36] == 0x650a7354 && K[37] == 0x766a0abb && K[38] == 0x81c2c92e && K[39] == 0x92722c85
  {
  }

  lemma K5Row()
    ensures K[40] == 0xa2bfe8a1 && K[41] == 0xa81a664b && K[42] == 0xc24b8b70 && K[43] == 0xc76c51a3
    ensures K[44] == 0xd192e819 && K[45] == 0xd6990624 && K[46] == 0xf40e3585 && K[47] == 0x106aa070
  {
  }

  lemma K6Row()
    ensures K[48] == 0x19a4c116 && K[49] == 0x1e376c08 && K[50] == 0x2748774c && K[51] == 0x34b0bcb5
    ensures K[52] == 0x391c0cb3 && K[53] == 0x4ed8aa4a && K[54] == 0x5b9cca4f && K[55] == 0x682e6ff3
  {
  }

  lemma K7Row()
    ensures K[56] == 0x748f82ee && K[57] == 0x78a5636f && K[58] == 0x84c87814 && K[59] == 0x8cc70208
    ensures K[60] == 0x90befffa && K[61] == 0xa4506ceb && K[62] == 0xbef9a3f7 && K[63] == 0xc67178f2
  {
  }

  lemma NoRounds(b: seq<Byte>, v: Working)
    requires |b| == 64
    ensures Rounds(b, v, 0) == v
  {
  }

  /** One of the first sixteen words, from its bytes. */
  lemma FirstWord(b: seq<Byte>, t: nat, x0: Byte, x1: Byte, x2: Byte, x3: Byte, w: Word)
    requires |b| == 64 && t < 16
    requires b[4 * t] == x0 && b[4 * t + 1] == x1 && b[4 * t + 2] == x2 && b[4 * t + 3] == x3
    requires BigEndianWord(x0, x1, x2, x3) == w
    ensures W(b, t) == w
  {
    hide BigEndianWord;
  }

  /** The eight working variables added to the chaining value. */
  lemma Chained(b: seq<Byte>, h: seq<Word>, v: Working, r: seq<Word>)
    requires |b| == 64 && |h| == 8 && Rounds(b, Load(h), 64) == v && AddAll(h, v) == r
    ensures Compress(h, b) == r
  {
    hide Rounds, AddAll;
  }

  lemma EightWords(a: Word, b: Word, c: Word, d: Word, e: Word, f: Word, g: Word, h: Word)
    ensures DigestBytes([a, b, c, d, e, f, g, h]) ==
            WordBytes(a) + WordBytes(b) + WordBytes(c) + WordBytes(d) +
            WordBytes(e) + WordBytes(f) + WordBytes(g) + WordBytes(h)
  {
    hide DigestBytes, WordBytes;
    NoWords();
    assert [] + [a] == [a] && [a] + [b] == [a, b] && [a, b] + [c] == [a, b, c] && [a, b, c] + [d] == [a, b, c, d];
    assert [a, b, c, d] + [e] == [a, b, c, d, e] && [a, b, c, d, e] + [f] == [a, b, c, d, e, f];
    assert [a, b, c, d, e, f] + [g] == [a, b, c, d, e, f, g];
    assert [a, b, c, d, e, f, g] + [h] == [a, b, c, d, e, f, g, h];
    OneWord([], a);
    OneWord([a], b);
    OneWord([a, b], c);
    OneWord([a, b, c], d);
    OneWord([a, b, c, d], e);
    OneWord([a, b, c, d, e], f);
    OneWord([a, b, c, d, e, f], g);
    OneWord([a, b, c, d, e, f, g], h);
    assert [] + WordBytes(a) == WordBytes(a);
  }

  lemma OneWord(h: seq<Word>, w: Word)
    ensures DigestBytes(h + [w]) == DigestBytes(h) + WordBytes(w)
  {
    hide WordBytes;
    assert (h + [w])[..|h|] == h;
  }

  lemma NoWords()
    ensures DigestBytes([]) == []
  {
  }

  // ---------------------------------------------------------------- the block of "abc"

  lemma Abc0()
    ensures Round(Round(Round(Round(
      Working(0x6a09e667, 0xbb67ae85, 0x3c6ef372, 0xa54ff53a, 0x510e527f, 0x9b05688c, 0x1f83d9ab, 0x5be0cd19),
      0x428a2f98, 0x61626380), 0x71374491, 0x00000000), 0xb5c0fbcf, 0x00000000), 0xe9b5dba5, 0x00000000) ==
      Working(0xd550f666, 0xc8c347a7, 0x5a6ad9ad, 0x5d6aebcd, 0x24e00850, 0xf92939eb, 0x78ce7989, 0xfa2a4622)
  {
  }

  lemma Abc1()
    ensures Round(Round(Round(Round(
      Working(0xd550f666, 0xc8c347a7, 0x5a6ad9ad, 0x5d6aebcd, 0x24e00850, 0xf92939eb, 0x78ce7989, 0xfa2a4622),
      0x3956c25b, 0x00000000), 0x59f111f1, 0x00000000), 0x923f82a4, 0x00000000), 0xab1c5ed5, 0x00000000) ==
      Working(0x85a07b5f, 0xe5030380, 0x2b4209f5, 0x04409a6a, 0x0c657a79, 0x9b27a401, 0x714260ad, 0x43ada245)
  {
  }

  lemma Abc2()
    ensures Round(Round(Round(Round(
      Working(0x85a07b5f, 0xe5030380, 0x2b4209f5, 0x04409a6a, 0x0c657a79, 0x9b27a401, 0x714260ad, 0x43ada245),
      0xd807aa98, 0x00000000), 0x12835b01, 0x00000000), 0x243185be, 0x00000000), 0x550c7dc3, 0x00000000) ==
      Working(0xf71fc5a9, 0x4798a3f4, 0x8c87346b, 0x8e04ecb9, 0x816fd6e9, 0x436b23e8, 0x1cc92596, 0x32ca2d8c)
  {
  }

  lemma Abc3()
    ensures Round(Round(Round(Round(
      Working(0xf71fc5a9, 0x4798a3f4, 0x8c87346b, 0x8e04ecb9, 0x816fd6e9, 0x436b23e8, 0x1cc92596, 0x32ca2d8c),
      0x72be5d74, 0x00000000), 0x80deb1fe, 0x00000000), 0x9bdc06a7, 0x00000000), 0xc19bf174, 0x00000018) ==
      Working(0xb0fa238e, 0xc0645fde, 0xd932eb16, 0x87912990, 0x07590dcd, 0x0b92f20c, 0x745a48de, 0x1e578218)
  {
  }

  lemma Abc4()
    ensures Round(Round(Round(Round(
      Working(0xb0fa238e, 0xc0645fde, 0xd932eb16, 0x87912990, 0x07590dcd, 0x0b92f20c, 0x745a48de, 0x1e578218),
      0xe49b69c1, 0x61626380), 0xefbe4786, 0x000f0000), 0x0fc19dc6, 0x7da86405), 0x240ca1cc, 0x600003c6) ==
      Working(0xe1f20c33, 0xfe777bbf, 0xc2fbd9d1, 0x21da9a9b, 0xb0638179, 0xcc899961, 0x846ee454, 0x8034229c)
  {
  }

  lemma Abc5()
    ensures Round(Round(Round(Round(
      Working(0xe1f20c33, 0xfe777bbf, 0xc2fbd9d1, 0x21da9a9b, 0xb0638179, 0xcc899961, 0x846ee454, 0x8034229c),
      0x2de92c6f, 0x3e9d7b78), 0x4a7484aa, 0x0183fc00), 0x5cb0a9dc, 0x12dcbfdb), 0x76f988da, 0xe2e2c38e) ==
      Working(0xc5d53d8d, 0xa7a3623f, 0xc2606d6d, 0x9dc68b63, 0xaa47c347, 0x49f5114a, 0xe1257970, 0x8ada8930)
  {
  }

  lemma Abc6()
    ensures Round(Round(Round(Round(
      Working(0xc5d53d8d, 0xa7a3623f, 0xc2606d6d, 0x9dc68b63, 0xaa47c347, 0x49f5114a, 0xe1257970, 0x8ada8930),
      0x983e5152, 0xc8215c1a), 0xa831c66d, 0xb73679a2), 0xb00327c8, 0xe5bc3909), 0xbf597fc7, 0x32663c5b) ==
      Working(0x77d37528, 0xb62ec4bc, 0xcde8037d, 0x1c2c2838, 0xedffbff8, 0xc74c6516, 0x14383d8e, 0x2823ef91)
  {
  }

  lemma Abc7()
    ensures Round(Round(Round(Round(
      Working(0x77d37528, 0xb62ec4bc, 0xcde8037d, 0x1c2c2838, 0xedffbff8, 0xc74c6516, 0x14383d8e, 0x2823ef91),
      0xc6e00bf3, 0x9d209d67), 0xd5a79147, 0xec8726cb), 0x06ca6351, 0x702138a4), 0x14292967, 0xd3b7973b) ==
      Working(0x73b33bf5, 0xea992a22, 0xa0060b30, 0x363482c9, 0xba591112, 0x0109ab3a, 0xade79437, 0x6112a3b7)
  {
  }

  lemma Abc8()
    ensures Round(Round(Round(Round(
      Working(0x73b33bf5, 0xea992a22, 0xa0060b30, 0x363482c9, 0xba591112, 0x0109ab3a, 0xade79437, 0x6112a3b7),
      0x27b70a85, 0x93f5997f), 0x2e1b2138, 0x3b68ba73), 0x4d2c6dfc, 0xaff4ffc1), 0x53380d13, 0xf10a5c62) ==
      Working(0x65a0cfe4, 0xa9a7738c, 0xfe604df5, 0x98e12507, 0xf4b002d6, 0x085f3833, 0x59249dd3, 0x9cd9f5f6)
  {
  }

  lemma Abc9()
    ensures Round(Round(Round(Round(
      Working(0x65a0cfe4, 0xa9a7738c, 0xfe604df5, 0x98e12507, 0xf4b002d6, 0x085f3833, 0x59249dd3, 0x9cd9f5f6),
      0x650a7354, 0x0a8b3996), 0x766a0abb, 0x72af830a), 0x81c2c92e, 0x9409e33e), 0x92722c85, 0x24641522) ==
      Working(0x79ea687a, 0x6dc57a8a, 0x34df1604, 0x41a65cb1, 0x1efbc0a0, 0xf0781bc8, 0xa507a53d, 0x0772a26b)
  {
  }

  lemma Abc10()
    ensures Round(Round(Round(Round(
      Working(0x79ea687a, 0x6dc57a8a, 0x34df1604, 0x41a65cb1, 0x1efbc0a0, 0xf0781bc8, 0xa507a53d, 0x0772a26b),
      0xa2bfe8a1, 0x9f47bf94), 0xa81a664b, 0xf0a64f5a), 0xc24b8b70, 0x3e246a79), 0xc76c51a3, 0x27333ba3) ==
      Working(0x9d4baf93, 0x17aa0dfe, 0xdf46652f, 0xd6670766, 0xfda24c2e, 0xdecd4715, 0x838b2711, 0x26352d63)
  {
  }

  lemma Abc11()
    ensures Round(Round(Round(Round(
      Working(0x9d4baf93, 0x17aa0dfe, 0xdf46652f, 0xd6670766, 0xfda24c2e, 0xdecd4715, 0x838b2711, 0x26352d63),
      0xd192e819, 0x0c4763f2), 0xd6990624, 0x840abf27), 0xf40e3585, 0x7a290d5d), 0x106aa070, 0x065c43da) ==
      Working(0x4172328d, 0xa14c14b0, 0x72ab4b91, 0x26628815, 0xfecf0bc6, 0xd57b94a9, 0xb7755da1, 0xa80f11f0)
  {
  }

  lemma Abc12()
    ensures Round(Round(Round(Round(
      Working(0x4172328d, 0xa14c14b0, 0x72ab4b91, 0x26628815, 0xfecf0bc6, 0xd57b94a9, 0xb7755da1, 0xa80f11f0),
      0x19a4c116, 0xfb3e89cb), 0x1e376c08, 0xcc7617db), 0x2748774c, 0xb9e66c34), 0x34b0bcb5, 0xa9993667) ==
      Working(0x886e7a22, 0x7a0508a1, 0xf11bfaa8, 0x05757ceb, 0x49231c1e, 0x52f1ccf7, 0x6e5c390c, 0xbd714038)
  {
  }

  lemma Abc13()
    ensures Round(Round(Round(Round(
      Working(0x886e7a22, 0x7a0508a1, 0xf11bfaa8, 0x05757ceb, 0x49231c1e, 0x52f1ccf7, 0x6e5c390c, 0xbd714038),
      0x391c0cb3, 0x84badedd), 0x4ed8aa4a, 0xc21462bc), 0x5b9cca4f, 0x1487472c), 0x682e6ff3, 0xb20f7a99) ==
      Working(0x38cc9913, 0x3ec45cdb, 0xf5702fdb, 0x101fd28f, 0x54cb266b, 0xe50e1b4f, 0x9f4787c3, 0x529e7d00)
  {
  }

  lemma Abc14()
    ensures Round(Round(Round(Round(
      Working(0x38cc9913, 0x3ec45cdb, 0xf5702fdb, 0x101fd28f, 0x54cb266b, 0xe50e1b4f, 0x9f4787c3, 0x529e7d00),
      0x748f82ee, 0xef57b9cd), 0x78a5636f, 0xebe6b238), 0x84c87814, 0x9fe3095e), 0x8cc70208, 0x78bc8d4b) ==
      Working(0xb6ae8fff, 0xffb70472, 0xc062d46f, 0xfcd1887b, 0xb21bad3d, 0x6d83bfc6, 0x7e44008e, 0x9b5e906c)
  {
  }

  lemma Abc15()
    ensures Round(Round(Round(Round(
      Working(0xb6ae8fff, 0xffb70472, 0xc062d46f, 0xfcd1887b, 0xb21bad3d, 0x6d83bfc6, 0x7e44008e, 0x9b5e906c),
      0x90befffa, 0xa43fcf15), 0xa4506ceb, 0x668b2ff8), 0xbef9a3f7, 0xeeaba2cc), 0xc67178f2, 0x12b1edeb) ==
      Working(0x506e3058, 0xd39a2165, 0x04d24d6c, 0xb85e2ce9, 0x5ef50f24, 0xfb121210, 0x948d25b6, 0x961f4894)
  {
  }

  lemma AbcPart0(b: seq<Byte>, v: Working, n: nat)
    requires n == 0
    requires Words(b, n,
      0x61626380, 0x00000000, 0x00000000, 0x00000000, 0x00000000, 0x00000000, 0x00000000, 0x00000000,
      0x00000000, 0x00000000, 0x00000000, 0x00000000, 0x00000000, 0x00000000, 0x00000000, 0x00000018)
    requires Rounds(b, v, n) ==
      Working(0x6a09e667, 0xbb67ae85, 0x3c6ef372, 0xa54ff53a, 0x510e527f, 0x9b05688c, 0x1f83d9ab, 0x5be0cd19)
    ensures Words(b, n + 16,
      0x61626380, 0x000f0000, 0x7da86405, 0x600003c6, 0x3e9d7b78, 0x0183fc00, 0x12dcbfdb, 0xe2e2c38e,
      0xc8215c1a, 0xb73679a2, 0xe5bc3909, 0x32663c5b, 0x9d209d67, 0xec8726cb, 0x702138a4, 0xd3b7973b)
    ensures Rounds(b, v, n + 16) ==
      Working(0xb0fa238e, 0xc0645fde, 0xd932eb16, 0x87912990, 0x07590dcd, 0x0b92f20c, 0x745a48de, 0x1e578218)
  {
    hide W, Rounds, Round, K;
    Next(b, 16, 0x00000000, 0x00000000, 0x00000000, 0x61626380, 0x61626380);
    Next(b, 17, 0x00000018, 0x00000000, 0x00000000, 0x00000000, 0x000f0000);
    Next(b, 18, 0x61626380, 0x00000000, 0x00000000, 0x00000000, 0x7da86405);
    Next(b, 19, 0x000f0000, 0x00000000, 0x00000000, 0x00000000, 0x600003c6);
    Next(b, 20, 0x7da86405, 0x00000000, 0x00000000, 0x00000000, 0x3e9d7b78);
    Next(b, 21, 0x600003c6, 0x00000000, 0x00000000, 0x00000000, 0x0183fc00);
    Next(b, 22, 0x3e9d7b78, 0x00000018, 0x00000000, 0x00000000, 0x12dcbfdb);
    Next(b, 23, 0x0183fc00, 0x61626380, 0x00000000, 0x00000000, 0xe2e2c38e);
    Next(b, 24, 0x12dcbfdb, 0x000f0000, 0x00000000, 0x00000000, 0xc8215c1a);
    Next(b, 25, 0xe2e2c38e, 0x7da86405, 0x00000000, 0x00000000, 0xb73679a2);
    Next(b, 26, 0xc8215c1a, 0x600003c6, 0x00000000, 0x00000000, 0xe5bc3909);
    Next(b, 27, 0xb73679a2, 0x3e9d7b78, 0x00000000, 0x00000000, 0x32663c5b);
    Next(b, 28, 0xe5bc3909, 0x0183fc00, 0x00000000, 0x00000000, 0x9d209d67);
    Next(b, 29, 0x32663c5b, 0x12dcbfdb, 0x00000000, 0x00000000, 0xec8726cb);
    Next(b, 30, 0x9d209d67, 0xe2e2c38e, 0x00000018, 0x00000000, 0x702138a4);
    Next(b, 31, 0xec8726cb, 0xc8215c1a, 0x61626380, 0x00000018, 0xd3b7973b);
    K0Row();
    Abc0();
    FourMore(b, v, 0);
    Abc1();
    FourMore(b, v, 4);
    K1Row();
    Abc2();
    FourMore(b, v, 8);
    Abc3();
    FourMore(b, v, 12);
  }

  lemma AbcPart1(b: seq<Byte>, v: Working, n: nat)
    requires n == 16
    requires Words(b, n,
      0x61626380, 0x000f0000, 0x7da86405, 0x600003c6, 0x3e9d7b78, 0x0183fc00, 0x12dcbfdb, 0xe2e2c38e,
      0xc8215c1a, 0xb73679a2, 0xe5bc3909, 0x32663c5b, 0x9d209d67, 0xec8726cb, 0x702138a4, 0xd3b7973b)
    requires Rounds(b, v, n) ==
      Working(0xb0fa238e, 0xc0645fde, 0xd932eb16, 0x87912990, 0x07590dcd, 0x0b92f20c, 0x745a48de, 0x1e578218)
    ensures Words(b, n + 16,
      0x93f5997f, 0x3b68ba73, 0xaff4ffc1, 0xf10a5c62, 0x0a8b3996, 0x72af830a, 0x9409e33e, 0x24641522,
      0x9f47bf94, 0xf0a64f5a, 0x3e246a79, 0x27333ba3, 0x0c4763f2, 0x840abf27, 0x7a290d5d, 0x065c43da)
    ensures Rounds(b, v, n + 16) ==
      Working(0x73b33bf5, 0xea992a22, 0xa0060b30, 0x363482c9, 0xba591112, 0x0109ab3a, 0xade79437, 0x6112a3b7)
  {
    hide W, Rounds, Round, K;
    Next(b, 32, 0x702138a4, 0xb73679a2, 0x000f0000, 0x61626380, 0x93f5997f);
    Next(b, 33, 0xd3b7973b, 0xe5bc3909, 0x7da86405, 0x000f0000, 0x3b68ba73);
    Next(b, 34, 0x93f5997f, 0x32663c5b, 0x600003c6, 0x7da86405, 0xaff4ffc1);
    Next(b, 35, 0x3b68ba73, 0x9d209d67, 0x3e9d7b78, 0x600003c6, 0xf10a5c62);
    Next(b, 36, 0xaff4ffc1, 0xec8726cb, 0x0183fc00, 0x3e9d7b78, 0x0a8b3996);
    Next(b, 37, 0xf10a5c62, 0x702138a4, 0x12dcbfdb, 0x0183fc00, 0x72af830a);
    Next(b, 38, 0x0a8b3996, 0xd3b7973b, 0xe2e2c38e, 0x12dcbfdb, 0x9409e33e);
    Next(b, 39, 0x72af830a, 0x93f5997f, 0xc8215c1a, 0xe2e2c38e, 0x24641522);
    Next(b, 40, 0x9409e33e, 0x3b68ba73, 0xb73679a2, 0xc8215c1a, 0x9f47bf94);
    Next(b, 41, 0x24641522, 0xaff4ffc1, 0xe5bc3909, 0xb73679a2, 0xf0a64f5a);
    Next(b, 42, 0x9f47bf94, 0xf10a5c62, 0x32663c5b, 0xe5bc3909, 0x3e246a79);
    Next(b, 43, 0xf0a64f5a, 0x0a8b3996, 0x9d209d67, 0x32663c5b, 0x27333ba3);
    Next(b, 44, 0x3e246a79, 0x72af830a, 0xec8726cb, 0x9d209d67, 0x0c4763f2);
    Next(b, 45, 0x27333ba3, 0x9409e33e, 0x702138a4, 0xec8726cb, 0x840abf27);
    Next(b, 46, 0x0c4763f2, 0x24641522, 0xd3b7973b, 0x702138a4, 0x7a290d5d);
    Next(b, 47, 0x840abf27, 0x9f47bf94, 0x93f5997f, 0xd3b7973b, 0x065c43da);
    K2Row();
    Abc4();
    FourMore(b, v, 16);
    Abc5();
    FourMore(b, v, 20);
    K3Row();
    Abc6();
    FourMore(b, v, 24);
    Abc7();
    FourMore(b, v, 28);
  }

  lemma AbcPart2(b: seq<Byte>, v: Working, n: nat)
    requires n == 32
    requires Words(b, n,
      0x93f5997f, 0x3b68ba73, 0xaff4ffc1, 0xf10a5c62, 0x0a8b3996, 0x72af830a, 0x9409e33e, 0x24641522,
      0x9f47bf94, 0xf0a64f5a, 0x3e246a79, 0x27333ba3, 0x0c4763f2, 0x840abf27, 0x7a290d5d, 0x065c43da)
    requires Rounds(b, v, n) ==
      Working(0x73b33bf5, 0xea992a22, 0xa0060b30, 0x363482c9, 0xba591112, 0x0109ab3a, 0xade79437, 0x6112a3b7)
    ensures Words(b, n + 16,
      0xfb3e89cb, 0xcc7617db, 0xb9e66c34, 0xa9993667, 0x84badedd, 0xc21462bc, 0x1487472c, 0xb20f7a99,
      0xef57b9cd, 0xebe6b238, 0x9fe3095e, 0x78bc8d4b, 0xa43fcf15, 0x668b2ff8, 0xeeaba2cc, 0x12b1edeb)
    ensures Rounds(b, v, n + 16) ==
      Working(0x4172328d, 0xa14c14b0, 0x72ab4b91, 0x26628815, 0xfecf0bc6, 0xd57b94a9, 0xb7755da1, 0xa80f11f0)
  {
    hide W, Rounds, Round, K;
    Next(b, 48, 0x7a290d5d, 0xf0a64f5a, 0x3b68ba73, 0x93f5997f, 0xfb3e89cb);
    Next(b, 49, 0x065c43da, 0x3e246a79, 0xaff4ffc1, 0x3b68ba73, 0xcc7617db);
    Next(b, 50, 0xfb3e89cb, 0x27333ba3, 0xf10a5c62, 0xaff4ffc1, 0xb9e66c34);
    Next(b, 51, 0xcc7617db, 0x0c4763f2, 0x0a8b3996, 0xf10a5c62, 0xa9993667);
    Next(b, 52, 0xb9e66c34, 0x840abf27, 0x72af830a, 0x0a8b3996, 0x84badedd);
    Next(b, 53, 0xa9993667, 0x7a290d5d, 0x9409e33e, 0x72af830a, 0xc21462bc);
    Next(b, 54, 0x84badedd, 0x065c43da, 0x24641522, 0x9409e33e, 0x1487472c);
    Next(b, 55, 0xc21462bc, 0xfb3e89cb, 0x9f47bf94, 0x24641522, 0xb20f7a99);
    Next(b, 56, 0x1487472c, 0xcc7617db, 0xf0a64f5a, 0x9f47bf94, 0xef57b9cd);
    Next(b, 57, 0xb20f7a99, 0xb9e66c34, 0x3e246a79, 0xf0a64f5a, 0xebe6b238);
    Next(b, 58, 0xef57b9cd, 0xa9993667, 0x27333ba3, 0x3e246a79, 0x9fe3095e);
    Next(b, 59, 0xebe6b238, 0x84badedd, 0x0c4763f2, 0x27333ba3, 0x78bc8d4b);
    Next(b, 60, 0x9fe3095e, 0xc21462bc, 0x840abf27, 0x0c4763f2, 0xa43fcf15);
    Next(b, 61, 0x78bc8d4b, 0x1487472c, 0x7a290d5d, 0x840abf27, 0x668b2ff8);
    Next(b, 62, 0xa43fcf15, 0xb20f7a99, 0x065c43da, 0x7a290d5d, 0xeeaba2cc);
    Next(b, 63, 0x668b2ff8, 0xef57b9cd, 0xfb3e89cb, 0x065c43da, 0x12b1edeb);
    K4Row();
    Abc8();
    FourMore(b, v, 32);
    Abc9();
    FourMore(b, v, 36);
    K5Row();
    Abc10();
    FourMore(b, v, 40);
    Abc11();
    FourMore(b, v, 44);
  }

  lemma AbcPart3(b: seq<Byte>, v: Working, n: nat)
    requires n == 48
    requires Words(b, n,
      0xfb3e89cb, 0xcc7617db, 0xb9e66c34, 0xa9993667, 0x84badedd, 0xc21462bc, 0x1487472c, 0xb20f7a99,
      0xef57b9cd, 0xebe6b238, 0x9fe3095e, 0x78bc8d4b, 0xa43fcf15, 0x668b2ff8, 0xeeaba2cc, 0x12b1edeb)
    requires Rounds(b, v, n) ==
      Working(0x4172328d, 0xa14c14b0, 0x72ab4b91, 0x26628815, 0xfecf0bc6, 0xd57b94a9, 0xb7755da1, 0xa80f11f0)
    ensures Rounds(b, v, n + 16) ==
      Working(0x506e3058, 0xd39a2165, 0x04d24d6c, 0xb85e2ce9, 0x5ef50f24, 0xfb121210, 0x948d25b6, 0x961f4894)
  {
    hide W, Rounds, Round, K;
    K6Row();
    Abc12();
    FourMore(b, v, 48);
    Abc13();
    FourMore(b, v, 52);
    K7Row();
    Abc14();
    FourMore(b, v, 56);
    Abc15();
    FourMore(b, v, 60);
  }

  lemma AbcRounds(b: seq<Byte>, v: Working)
    requires Words(b, 0,
      0x61626380, 0x00000000, 0x00000000, 0x00000000, 0x00000000, 0x00000000, 0x00000000, 0x00000000,
      0x00000000, 0x00000000, 0x00000000, 0x00000000, 0x00000000, 0x00000000, 0x00000000, 0x00000018)
    requires v ==
      Working(0x6a09e667, 0xbb67ae85, 0x3c6ef372, 0xa54ff53a, 0x510e527f, 0x9b05688c, 0x1f83d9ab, 0x5be0cd19)
    ensures Rounds(b, v, 64) ==
      Working(0x506e3058, 0xd39a2165, 0x04d24d6c, 0xb85e2ce9, 0x5ef50f24, 0xfb121210, 0x948d25b6, 0x961f4894)
  {
    hide W, Rounds;
    NoRounds(b, v);
    AbcPart0(b, v, 0);
    AbcPart1(b, v, 16);
    AbcPart2(b, v, 32);
    AbcPart3(b, v, 48);
  }

  /** The padded message. */
  lemma AbcPadded(b: seq<Byte>)
    requires b == Pad([0x61, 0x62, 0x63])
    ensures |b| == 64 && b[0] == 0x61 && b[1] == 0x62 && b[2] == 0x63 && b[3] == 0x80
    ensures (forall i | 4 <= i < 63 :: b[i] == 0) && b[63] == 24
  {
    LengthBytes(24);
    assert b == [0x61, 0x62, 0x63] + [0x80] + Zeros(52) + BigEndian64(24);
  }

  /** The bytes of a length below 2^16. */
  lemma LengthBytes(n: nat)
    requires n < 65536
    ensures var r := BigEndian64(n);
      (forall i | 0 <= i < 6 :: r[i] == 0) && r[6] == (n / 256) as Byte && r[7] == (n % 256) as Byte
  {
    hide ByteOf;
    LowByte(n, 1);
    LowByte(n, 0);
    forall i | 2 <= i < 8 ensures ByteOf(n, i) == 0 { LowByte(n, i); }
    assert forall i | 0 <= i < 8 :: BigEndian64(n)[i] == ByteOf(n, 7 - i);
  }

  lemma LowByte(n: nat, i: nat)
    requires n < 65536
    ensures ByteOf(n, i) == if i == 0 then (n % 256) as Byte else if i == 1 then (n / 256) as Byte else 0
  {
    if i > 1 {
      assert n / 256 / 256 == 0;
      ZeroByte(i - 2);
    }
  }

  lemma {:induction false} ZeroByte(i: nat)
    ensures ByteOf(0, i) == 0
  {
    if i > 0 { ZeroByte(i - 1); }
  }

  lemma AbcWords(b: seq<Byte>)
    requires b == Pad([0x61, 0x62, 0x63])
    ensures Words(b, 0,
      0x61626380, 0x00000000, 0x00000000, 0x00000000, 0x00000000, 0x00000000, 0x00000000, 0x00000000,
      0x00000000, 0x00000000, 0x00000000, 0x00000000, 0x00000000, 0x00000000, 0x00000000, 0x00000018)
  {
    hide W, Pad;
    AbcPadded(b);
    FirstWord(b, 0, 0x61, 0x62, 0x63, 0x80, 0x61626380);
    FirstWord(b, 1, 0x00, 0x00, 0x00, 0x00, 0x00000000);
    FirstWord(b, 2, 0x00, 0x00, 0x00, 0x00, 0x00000000);
    FirstWord(b, 3, 0x00, 0x00, 0x00, 0x00, 0x00000000);
    FirstWord(b, 4, 0x00, 0x00, 0x00, 0x00, 0x00000000);
    FirstWord(b, 5, 0x00, 0x00, 0x00, 0x00, 0x00000000);
    FirstWord(b, 6, 0x00, 0x00, 0x00, 0x00, 0x00000000);
    FirstWord(b, 7, 0x00, 0x00, 0x00, 0x00, 0x00000000);
    FirstWord(b, 8, 0x00, 0x00, 0x00, 0x00, 0x00000000);
    FirstWord(b, 9, 0x00, 0x00, 0x00, 0x00, 0x00000000);
    FirstWord(b, 10, 0x00, 0x00, 0x00, 0x00, 0x00000000);
    FirstWord(b, 11, 0x00, 0x00, 0x00, 0x00, 0x00000000);
    FirstWord(b, 12, 0x00, 0x00, 0x00, 0x00, 0x00000000);
    FirstWord(b, 13, 0x00, 0x00, 0x00, 0x00, 0x00000000);
    FirstWord(b, 14, 0x00, 0x00, 0x00, 0x00, 0x00000000);
    FirstWord(b, 15, 0x00, 0x00, 0x00, 0x18, 0x00000018);
  }

  lemma AbcBytes()
    ensures WordBytes(0xba7816bf) == [0xba, 0x78, 0x16, 0xbf]
    ensures WordBytes(0x8f01cfea) == [0x8f, 0x01, 0xcf, 0xea]
    ensures WordBytes(0x414140de) == [0x41, 0x41, 0x40, 0xde]
    ensures WordBytes(0x5dae2223) == [0x5d, 0xae, 0x22, 0x23]
    ensures WordBytes(0xb00361a3) == [0xb0, 0x03, 0x61, 0xa3]
    ensures WordBytes(0x96177a9c) == [0x96, 0x17, 0x7a, 0x9c]
    ensures WordBytes(0xb410ff61) == [0xb4, 0x10, 0xff, 0x61]
    ensures WordBytes(0xf20015ad) == [0xf2, 0x00, 0x15, 0xad]
  {
  }

  lemma OneBlock(h: seq<Word>, b: seq<Byte>)
    requires |h| == 8 && |b| == 64
    ensures HashBlocks(h, b) == Compress(h, b)
  {
    hide Compress;
    assert b[..64] == b && b[64..] == [];
    assert HashBlocks(Compress(h, b), []) == Compress(h, b);
  }

  lemma AbcHashed(b: seq<Byte>)
    requires b == Pad([0x61, 0x62, 0x63])
    ensures HashBlocks(INITIAL, b) ==
      [0xba7816bf, 0x8f01cfea, 0x414140de, 0x5dae2223, 0xb00361a3, 0x96177a9c, 0xb410ff61, 0xf20015ad]
  {
    hide W, Rounds, Pad, HashBlocks, Compress;
    AbcWords(b);
    AbcPadded(b);
    AbcRounds(b, Load(INITIAL));
    Chained(b, INITIAL,
      Working(0x506e3058, 0xd39a2165, 0x04d24d6c, 0xb85e2ce9, 0x5ef50f24, 0xfb121210, 0x948d25b6, 0x961f4894),
      [0xba7816bf, 0x8f01cfea, 0x414140de, 0x5dae2223, 0xb00361a3, 0x96177a9c, 0xb410ff61, 0xf20015ad]);
    OneBlock(INITIAL, b);
  }

  /** The first example of the standard: the digest of "abc". */
  lemma DigestOfAbc()
    ensures Sha256([0x61, 0x62, 0x63]) ==
      [0xba, 0x78, 0x16, 0xbf] + [0x8f, 0x01, 0xcf, 0xea] + [0x41, 0x41, 0x40, 0xde] + [0x5d, 0xae, 0x22, 0x23] +
      [0xb0, 0x03, 0x61, 0xa3] + [0x96, 0x17, 0x7a, 0x9c] + [0xb4, 0x10, 0xff, 0x61] + [0xf2, 0x00, 0x15, 0xad]
  {
    hide Pad, HashBlocks, DigestBytes, WordBytes;
    AbcHashed(Pad([0x61, 0x62, 0x63]));
    EightWords(0xba7816bf, 0x8f01cfea, 0x414140de, 0x5dae2223, 0xb00361a3, 0x96177a9c, 0xb410ff61, 0xf20015ad);
    AbcBytes();
  }
}
