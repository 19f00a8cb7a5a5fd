/**
The second example of the standard, a message that is padded to two blocks.
*/
module Sha256TwoBlocks {
  import opened Sha256Spec
  import opened Sha256Vectors

  /** "abcdbcdecdefdefgefghfghighijhijkijkljklmklmnlmnomnopnopq" */
  const M0: seq<Byte> := [0x61, 0x62, 0x63, 0x64, 0x62, 0x63, 0x64, 0x65]
  const M1: seq<Byte> := [0x63, 0x64, 0x65, 0x66, 0x64, 0x65, 0x66, 0x67]
  const M2: seq<Byte> := [0x65, 0x66, 0x67, 0x68, 0x66, 0x67, 0x68, 0x69]
  const M3: seq<Byte> := [0x67, 0x68, 0x69, 0x6a, 0x68, 0x69, 0x6a, 0x6b]
  const M4: seq<Byte> := [0x69, 0x6a, 0x6b, 0x6c, 0x6a, 0x6b, 0x6c, 0x6d]
  const M5: seq<Byte> := [0x6b, 0x6c, 0x6d, 0x6e, 0x6c, 0x6d, 0x6e, 0x6f]
  const M6: seq<Byte> := [0x6d, 0x6e, 0x6f, 0x70, 0x6e, 0x6f, 0x70, 0x71]

  const MESSAGE: seq<Byte> := M0 + M1 + M2 + M3 + M4 + M5 + M6

  lemma M0Row()
    ensures |MESSAGE| == 56
    ensures MESSAGE[0] == 0x61 && MESSAGE[1] == 0x62 && MESSAGE[2] == 0x63 && MESSAGE[3] == 0x64
    ensures MESSAGE[4] == 0x62 && MESSAGE[5] == 0x63 && MESSAGE[6] == 0x64 && MESSAGE[7] == 0x65
  {
  }

  lemma M1Row()
    ensures |MESSAGE| == 56
    ensures MESSAGE[8] == 0x63 && MESSAGE[9] == 0x64 && MESSAGE[10] == 0x65 && MESSAGE[11] == 0x66
    ensures MESSAGE[12] == 0x64 && MESSAGE[13] == 0x65 && MESSAGE[14] == 0x66 && MESSAGE[15] == 0x67
  {
  }

  lemma M2Row()
    ensures |MESSAGE| == 56
    ensures MESSAGE[16] == 0x65 && MESSAGE[17] == 0x66 && MESSAGE[18] == 0x67 && MESSAGE[19] == 0x68
    ensures MESSAGE[20] == 0x66 && MESSAGE[21] == 0x67 && MESSAGE[22] == 0x68 && MESSAGE[23] == 0x69
  {
  }

  lemma M3Row()
    ensures |MESSAGE| == 56
    ensures MESSAGE[24] == 0x67 && MESSAGE[25] == 0x68 && MESSAGE[26] == 0x69 && MESSAGE[27] == 0x6a
    ensures MESSAGE[28] == 0x68 && MESSAGE[29] == 0x69 && MESSAGE[30] == 0x6a && MESSAGE[31] == 0x6b
  {
  }

  lemma M4Row()
    ensures |MESSAGE| == 56
    ensures MESSAGE[32] == 0x69 && MESSAGE[33] == 0x6a && MESSAGE[34] == 0x6b && MESSAGE[35] == 0x6c
    ensures MESSAGE[36] == 0x6a && MESSAGE[37] == 0x6b && MESSAGE[38] == 0x6c && MESSAGE[39] == 0x6d
  {
  }

  lemma M5Row()
    ensures |MESSAGE| == 56
    ensures MESSAGE[40] == 0x6b && MESSAGE[41] == 0x6c && MESSAGE[42] == 0x6d && MESSAGE[43] == 0x6e
    ensures MESSAGE[44] == 0x6c && MESSAGE[45] == 0x6d && MESSAGE[46] == 0x6e && MESSAGE[47] == 0x6f
  {
  }

  lemma M6Row()
    ensures |MESSAGE| == 56
    ensures MESSAGE[48] == 0x6d && MESSAGE[49] == 0x6e && MESSAGE[50] == 0x6f && MESSAGE[51] == 0x70
    ensures MESSAGE[52] == 0x6e && MESSAGE[53] == 0x6f && MESSAGE[54] == 0x70 && MESSAGE[55] == 0x71
  {
  }

  // ---------------------------------------------------------------- the first block

  lemma First0()
    ensures Round(Round(Round(Round(
      Working(0x6a09e667, 0xbb67ae85, 0x3c6ef372, 0xa54ff53a, 0x510e527f, 0x9b05688c, 0x1f83d9ab, 0x5be0cd19),
      0x428a2f98, 0x61626364), 0x71374491, 0x62636465), 0xb5c0fbcf, 0x63646566), 0xe9b5dba5, 0x64656667) ==
      Working(0x4a8d64d5, 0x97651825, 0x2f2d5fcf, 0x5d6aebb1, 0x6494841b, 0x62d5c49e, 0x4eb1cfce, 0xfa2a4606)
  {
  }

  lemma First1()
    ensures Round(Round(Round(Round(
      Working(0x4a8d64d5, 0x97651825, 0x2f2d5fcf, 0x5d6aebb1, 0x6494841b, 0x62d5c49e, 0x4eb1cfce, 0xfa2a4606),
      0x3956c25b, 0x65666768), 0x59f111f1, 0x66676869), 0x923f82a4, 0x6768696a), 0xab1c5ed5, 0x68696a6b) ==
      Working(0xd237e6db, 0x485835b7, 0x55c8ef48, 0xf921c212, 0xa401d211, 0x39a5b2ca, 0x7ff91c94, 0x05c4f88a)
  {
  }

  lemma First2()
    ensures Round(Round(Round(Round(
      Working(0xd237e6db, 0x485835b7, 0x55c8ef48, 0xf921c212, 0xa401d211, 0x39a5b2ca, 0x7ff91c94, 0x05c4f88a),
      0xd807aa98, 0x696a6b6c), 0x12835b01, 0x6a6b6c6d), 0x243185be, 0x6b6c6d6e), 0x550c7dc3, 0x6c6d6e6f) ==
      Working(0x1762215c, 0xb8e2b4cb, 0x3a474b2b, 0x359f2bce, 0xee1c97a8, 0x443ed29e, 0x9037b3b8, 0xc09ffec4)
  {
  }

  lemma First3()
    ensures Round(Round(Round(Round(
      Working(0x1762215c, 0xb8e2b4cb, 0x3a474b2b, 0x359f2bce, 0xee1c97a8, 0x443ed29e, 0x9037b3b8, 0xc09ffec4),
      0x72be5d74, 0x6d6e6f70), 0x80deb1fe, 0x6e6f7071), 0x9bdc06a7, 0x80000000), 0xc19bf174, 0x00000000) ==
      Working(0xc3486194, 0xdd16cbb3, 0xd68e6457, 0x101a4861, 0x1496a54f, 0x9162aded, 0x9243f8af, 0x839a0fc9)
  {
  }

  lemma First4()
    ensures Round(Round(Round(Round(
      Working(0xc3486194, 0xdd16cbb3, 0xd68e6457, 0x101a4861, 0x1496a54f, 0x9162aded, 0x9243f8af, 0x839a0fc9),
      0xe49b69c1, 0xeb8012ad), 0xefbe4786, 0xa7c3ae92), 0x0fc19dc6, 0x76e93ba2), 0x240ca1cc, 0xba42e743) ==
      Working(0x2139187b, 0xf402f058, 0x046a193e, 0xb9dcacb1, 0x7c304206, 0x6f433549, 0x885370b6, 0xd4f64250)
  {
  }

  lemma First5()
    ensures Round(Round(Round(Round(
      Working(0x2139187b, 0xf402f058, 0x046a193e, 0xb9dcacb1, 0x7c304206, 0x6f433549, 0x885370b6, 0xd4f64250),
      0x2de92c6f, 0x92a92204), 0x4a7484aa, 0xd847e75e), 0x5cb0a9dc, 0x9e160036), 0x76f988da, 0xb280a7cb) ==
      Working(0x59fce6b9, 0xae2e2d4f, 0x1b2b66b8, 0xd70ac17d, 0xa2c7d51d, 0xf074fc95, 0xd560b028, 0x7cc6b262)
  {
  }

  lemma First6()
    ensures Round(Round(Round(Round(
      Working(0x59fce6b9, 0xae2e2d4f, 0x1b2b66b8, 0xd70ac17d, 0xa2c7d51d, 0xf074fc95, 0xd560b028, 0x7cc6b262),
      0x983e5152, 0xddeb1516), 0xa831c66d, 0xf36586f4), 0xb00327c8, 0x969cd048), 0xbf597fc7, 0xe959d99d) ==
      Working(0x73f858af, 0x128661da, 0x573221da, 0x4a885065, 0xe77c797f, 0x1162d575, 0x36e74eb4, 0x763597fb)
  {
  }

  lemma First7()
    ensures Round(Round(Round(Round(
      Working(0x73f858af, 0x128661da, 0x573221da, 0x4a885065, 0xe77c797f, 0x1162d575, 0x36e74eb4, 0x763597fb),
      0xc6e00bf3, 0x6accc0ec), 0xd5a79147, 0xf54cb098), 0x06ca6351, 0x2af1b2da), 0x14292967, 0xee59c4c9) ==
      Working(0x5581ab07, 0xeb43f3ed, 0xdf7151a0, 0x74bcf468, 0xdf980085, 0x0635d880, 0x7629c961, 0x72abaecd)
  {
  }

  lemma First8()
    ensures Round(Round(Round(Round(
      Working(0x5581ab07, 0xeb43f3ed, 0xdf7151a0, 0x74bcf468, 0xdf980085, 0x0635d880, 0x7629c961, 0x72abaecd),
      0x27b70a85, 0xa835e16a), 0x2e1b2138, 0x1dff4429), 0x4d2c6dfc, 0xd6e15959), 0x53380d13, 0xc397cd6e) ==
      Working(0x0786dce8, 0x1df8e885, 0x9ce5a62f, 0x9fc905c8, 0xde2a21d1, 0x2a9e048e, 0x6ef3b6bd, 0xa94d2af1)
  {
  }

  lemma First9()
    ensures Round(Round(Round(Round(
      Working(0x0786dce8, 0x1df8e885, 0x9ce5a62f, 0x9fc905c8, 0xde2a21d1, 0x2a9e048e, 0x6ef3b6bd, 0xa94d2af1),
      0x650a7354, 0x6f1801ca), 0x766a0abb, 0x21574205), 0x81c2c92e, 0x35ff7a84), 0x92722c85, 0x9743ee78) ==
      Working(0x7e4d30b8, 0x91ac9d5d, 0xa985b4be, 0x2c55d3a6, 0x9f5b9b6d, 0x68d8d590, 0xf72bf353, 0xb067c1af)
  {
  }

  lemma First10()
    ensures Round(Round(Round(Round(
      Working(0x7e4d30b8, 0x91ac9d5d, 0xa985b4be, 0x2c55d3a6, 0x9f5b9b6d, 0x68d8d590, 0xf72bf353, 0xb067c1af),
      0xa2bfe8a1, 0xe44183e7), 0xa81a664b, 0x0d09f00d), 0xc24b8b70, 0x9c89af54), 0xc76c51a3, 0x042d5bef) ==
      Working(0x167361de, 0xb62c7013, 0x508a16ab, 0x7e056794, 0x41dd3844, 0x80a92a00, 0x45459d97, 0x423b26c0)
  {
  }

  lemma First11()
    ensures Round(Round(Round(Round(
      Working(0x167361de, 0xb62c7013, 0x508a16ab, 0x7e056794, 0x41dd3844, 0x80a92a00, 0x45459d97, 0x423b26c0),
      0xd192e819, 0x71f134d0), 0xd6990624, 0x0f94f463), 0xf40e3585, 0x7e49dc63), 0x106aa070, 0x6f65c997) ==
      Working(0x13d82741, 0x165be9cd, 0x18f0d19d, 0xde71e2f2, 0xa7802a4d, 0xa483f080, 0x6b88472c, 0xff61c636)
  {
  }

  lemma First12()
    ensures Round(Round(Round(Round(
      Working(0x13d82741, 0x165be9cd, 0x18f0d19d, 0xde71e2f2, 0xa7802a4d, 0xa483f080, 0x6b88472c, 0xff61c636),
      0x19a4c116, 0x0b706583), 0x1e376c08, 0x179312ca), 0x2748774c, 0x503054e9), 0x34b0bcb5, 0xba125c39) ==
      Working(0x81c1cde0, 0x758ca97a, 0x543c99a1, 0x017b9d99, 0x5c47eb7b, 0x100cf2ea, 0x16f134b6, 0xaeb10b60)
  {
  }

  lemma First13()
    ensures Round(Round(Round(Round(
      Working(0x81c1cde0, 0x758ca97a, 0x543c99a1, 0x017b9d99, 0x5c47eb7b, 0x100cf2ea, 0x16f134b6, 0xaeb10b60),
      0x391c0cb3, 0x7e9392c9), 0x4ed8aa4a, 0xd5cbaa1e), 0x5b9cca4f, 0x78e0585d), 0x682e6ff3, 0xf6e7611c) ==
      Working(0x9e57c4a0, 0xf907b313, 0x1d6de87a, 0xb8d55619, 0xeec13548, 0x61a41711, 0x3443bed4, 0x1c806a61)
  {
  }

  lemma First14()
    ensures Round(Round(Round(Round(
      Working(0x9e57c4a0, 0xf907b313, 0x1d6de87a, 0xb8d55619, 0xeec13548, 0x61a41711, 0x3443bed4, 0x1c806a61),
      0x748f82ee, 0x8ac830ce), 0x78a5636f, 0x8b47a303), 0x84c87814, 0xfd6e627f), 0x8cc70208, 0x8c6e2c6a) ==
      Working(0xe18f259a, 0x921fccb6, 0x7c015a2c, 0x71629856, 0x51e15869, 0x43d8a034, 0xcb9d3dd0, 0x2f6c8c4e)
  {
  }

  lemma First15()
    ensures Round(Round(Round(Round(
      Working(0xe18f259a, 0x921fccb6, 0x7c015a2c, 0x71629856, 0x51e15869, 0x43d8a034, 0xcb9d3dd0, 0x2f6c8c4e),
      0x90befffa, 0x4001adf1), 0xa4506ceb, 0x1a3dd097), 0xbef9a3f7, 0xa9df6f62), 0xc67178f2, 0x6aa60a39) ==
      Working(0x1bdc6f6f, 0x86126910, 0xf6f443f8, 0xbcfce922, 0x25d2430a, 0x2fc08f85, 0xacc75916, 0x962d8621)
  {
  }

  lemma FirstPart0(b: seq<Byte>, v: Working, n: nat)
    requires n == 0
    requires Words(b, n,
      0x61626364, 0x62636465, 0x63646566, 0x64656667, 0x65666768, 0x66676869, 0x6768696a, 0x68696a6b,
      0x696a6b6c, 0x6a6b6c6d, 0x6b6c6d6e, 0x6c6d6e6f, 0x6d6e6f70, 0x6e6f7071, 0x80000000, 0x00000000)
    requires Rounds(b, v, n) ==
      Working(0x6a09e667, 0xbb67ae85, 0x3c6ef372, 0xa54ff53a, 0x510e527f, 0x9b05688c, 0x1f83d9ab, 0x5be0cd19)
    ensures Words(b, n + 16,
      0xeb8012ad, 0xa7c3ae92, 0x76e93ba2, 0xba42e743, 0x92a92204, 0xd847e75e, 0x9e160036, 0xb280a7cb,
      0xddeb1516, 0xf36586f4, 0x969cd048, 0xe959d99d, 0x6accc0ec, 0xf54cb098, 0x2af1b2da, 0xee59c4c9)
    ensures Rounds(b, v, n + 16) ==
      Working(0xc3486194, 0xdd16cbb3, 0xd68e6457, 0x101a4861, 0x1496a54f, 0x9162aded, 0x9243f8af, 0x839a0fc9)
  {
    hide W, Rounds, Round, K;
    Next(b, 16, 0x80000000, 0x6a6b6c6d, 0x62636465, 0x61626364, 0xeb8012ad);
    Next(b, 17, 0x00000000, 0x6b6c6d6e, 0x63646566, 0x62636465, 0xa7c3ae92);
    Next(b, 18, 0xeb8012ad, 0x6c6d6e6f, 0x64656667, 0x63646566, 0x76e93ba2);
    Next(b, 19, 0xa7c3ae92, 0x6d6e6f70, 0x65666768, 0x64656667, 0xba42e743);
    Next(b, 20, 0x76e93ba2, 0x6e6f7071, 0x66676869, 0x65666768, 0x92a92204);
    Next(b, 21, 0xba42e743, 0x80000000, 0x6768696a, 0x66676869, 0xd847e75e);
    Next(b, 22, 0x92a92204, 0x00000000, 0x68696a6b, 0x6768696a, 0x9e160036);
    Next(b, 23, 0xd847e75e, 0xeb8012ad, 0x696a6b6c, 0x68696a6b, 0xb280a7cb);
    Next(b, 24, 0x9e160036, 0xa7c3ae92, 0x6a6b6c6d, 0x696a6b6c, 0xddeb1516);
    Next(b, 25, 0xb280a7cb, 0x76e93ba2, 0x6b6c6d6e, 0x6a6b6c6d, 0xf36586f4);
    Next(b, 26, 0xddeb1516, 0xba42e743, 0x6c6d6e6f, 0x6b6c6d6e, 0x969cd048);
    Next(b, 27, 0xf36586f4, 0x92a92204, 0x6d6e6f70, 0x6c6d6e6f, 0xe959d99d);
    Next(b, 28, 0x969cd048, 0xd847e75e, 0x6e6f7071, 0x6d6e6f70, 0x6accc0ec);
    Next(b, 29, 0xe959d99d, 0x9e160036, 0x80000000, 0x6e6f7071, 0xf54cb098);
    Next(b, 30, 0x6accc0ec, 0xb280a7cb, 0x00000000, 0x80000000, 0x2af1b2da);
    Next(b, 31, 0xf54cb098, 0xddeb1516, 0xeb8012ad, 0x00000000, 0xee59c4c9);
    K0Row();
    First0();
    FourMore(b, v, 0);
    First1();
    FourMore(b, v, 4);
    K1Row();
    First2();
    FourMore(b, v, 8);
    First3();
    FourMore(b, v, 12);
  }

  lemma FirstPart1(b: seq<Byte>, v: Working, n: nat)
    requires n == 16
    requires Words(b, n,
      0xeb8012ad, 0xa7c3ae92, 0x76e93ba2, 0xba42e743, 0x92a92204, 0xd847e75e, 0x9e160036, 0xb280a7cb,
      0xddeb1516, 0xf36586f4, 0x969cd048, 0xe959d99d, 0x6accc0ec, 0xf54cb098, 0x2af1b2da, 0xee59c4c9)
    requires Rounds(b, v, n) ==
      Working(0xc3486194, 0xdd16cbb3, 0xd68e6457, 0x101a4861, 0x1496a54f, 0x9162aded, 0x9243f8af, 0x839a0fc9)
    ensures Words(b, n + 16,
      0xa835e16a, 0x1dff4429, 0xd6e15959, 0xc397cd6e, 0x6f1801ca, 0x21574205, 0x35ff7a84, 0x9743ee78,
      0xe44183e7, 0x0d09f00d, 0x9c89af54, 0x042d5bef, 0x71f134d0, 0x0f94f463, 0x7e49dc63, 0x6f65c997)
    ensures Rounds(b, v, n + 16) ==
      Working(0x5581ab07, 0xeb43f3ed, 0xdf7151a0, 0x74bcf468, 0xdf980085, 0x0635d880, 0x7629c961, 0x72abaecd)
  {
    hide W, Rounds, Round, K;
    Next(b, 32, 0x2af1b2da, 0xf36586f4, 0xa7c3ae92, 0xeb8012ad, 0xa835e16a);
    Next(b, 33, 0xee59c4c9, 0x969cd048, 0x76e93ba2, 0xa7c3ae92, 0x1dff4429);
    Next(b, 34, 0xa835e16a, 0xe959d99d, 0xba42e743, 0x76e93ba2, 0xd6e15959);
    Next(b, 35, 0x1dff4429, 0x6accc0ec, 0x92a92204, 0xba42e743, 0xc397cd6e);
    Next(b, 36, 0xd6e15959, 0xf54cb098, 0xd847e75e, 0x92a92204, 0x6f1801ca);
    Next(b, 37, 0xc397cd6e, 0x2af1b2da, 0x9e160036, 0xd847e75e, 0x21574205);
    Next(b, 38, 0x6f1801ca, 0xee59c4c9, 0xb280a7cb, 0x9e160036, 0x35ff7a84);
    Next(b, 39, 0x21574205, 0xa835e16a, 0xddeb1516, 0xb280a7cb, 0x9743ee78);
    Next(b, 40, 0x35ff7a84, 0x1dff4429, 0xf36586f4, 0xddeb1516, 0xe44183e7);
    Next(b, 41, 0x9743ee78, 0xd6e15959, 0x969cd048, 0xf36586f4, 0x0d09f00d);
    Next(b, 42, 0xe44183e7, 0xc397cd6e, 0xe959d99d, 0x969cd048, 0x9c89af54);
    Next(b, 43, 0x0d09f00d, 0x6f1801ca, 0x6accc0ec, 0xe959d99d, 0x042d5bef);
    Next(b, 44, 0x9c89af54, 0x21574205, 0xf54cb098, 0x6accc0ec, 0x71f134d0);
    Next(b, 45, 0x042d5bef, 0x35ff7a84, 0x2af1b2da, 0xf54cb098, 0x0f94f463);
    Next(b, 46, 0x71f134d0, 0x9743ee78, 0xee59c4c9, 0x2af1b2da, 0x7e49dc63);
    Next(b, 47, 0x0f94f463, 0xe44183e7, 0xa835e16a, 0xee59c4c9, 0x6f65c997);
    K2Row();
    First4();
    FourMore(b, v, 16);
    First5();
    FourMore(b, v, 20);
    K3Row();
    First6();
    FourMore(b, v, 24);
    First7();
    FourMore(b, v, 28);
  }

  lemma FirstPart2(b: seq<Byte>, v: Working, n: nat)
    requires n == 32
    requires Words(b, n,
      0xa835e16a, 0x1dff4429, 0xd6e15959, 0xc397cd6e, 0x6f1801ca, 0x21574205, 0x35ff7a84, 0x9743ee78,
      0xe44183e7, 0x0d09f00d, 0x9c89af54, 0x042d5bef, 0x71f134d0, 0x0f94f463, 0x7e49dc63, 0x6f65c997)
    requires Rounds(b, v, n) ==
      Working(0x5581ab07, 0xeb43f3ed, 0xdf7151a0, 0x74bcf468, 0xdf980085, 0x0635d880, 0x7629c961, 0x72abaecd)
    ensures Words(b, n + 16,
      0x0b706583, 0x179312ca, 0x503054e9, 0xba125c39, 0x7e9392c9, 0xd5cbaa1e, 0x78e0585d, 0xf6e7611c,
      0x8ac830ce, 0x8b47a303, 0xfd6e627f, 0x8c6e2c6a, 0x4001adf1, 0x1a3dd097, 0xa9df6f62, 0x6aa60a39)
    ensures Rounds(b, v, n + 16) ==
      Working(0x13d82741, 0x165be9cd, 0x18f0d19d, 0xde71e2f2, 0xa7802a4d, 0xa483f080, 0x6b88472c, 0xff61c636)
  {
    hide W, Rounds, Round, K;
    Next(b, 48, 0x7e49dc63, 0x0d09f00d, 0x1dff4429, 0xa835e16a, 0x0b706583);
    Next(b, 49, 0x6f65c997, 0x9c89af54, 0xd6e15959, 0x1dff4429, 0x179312ca);
    Next(b, 50, 0x0b706583, 0x042d5bef, 0xc397cd6e, 0xd6e15959, 0x503054e9);
    Next(b, 51, 0x179312ca, 0x71f134d0, 0x6f1801ca, 0xc397cd6e, 0xba125c39);
    Next(b, 52, 0x503054e9, 0x0f94f463, 0x21574205, 0x6f1801ca, 0x7e9392c9);
    Next(b, 53, 0xba125c39, 0x7e49dc63, 0x35ff7a84, 0x21574205, 0xd5cbaa1e);
    Next(b, 54, 0x7e9392c9, 0x6f65c997, 0x9743ee78, 0x35ff7a84, 0x78e0585d);
    Next(b, 55, 0xd5cbaa1e, 0x0b706583, 0xe44183e7, 0x9743ee78, 0xf6e7611c);
    Next(b, 56, 0x78e0585d, 0x179312ca, 0x0d09f00d, 0xe44183e7, 0x8ac830ce);
    Next(b, 57, 0xf6e7611c, 0x503054e9, 0x9c89af54, 0x0d09f00d, 0x8b47a303);
    Next(b, 58, 0x8ac830ce, 0xba125c39, 0x042d5bef, 0x9c89af54, 0xfd6e627f);
    Next(b, 59, 0x8b47a303, 0x7e9392c9, 0x71f134d0, 0x042d5bef, 0x8c6e2c6a);
    Next(b, 60, 0xfd6e627f, 0xd5cbaa1e, 0x0f94f463, 0x71f134d0, 0x4001adf1);
    Next(b, 61, 0x8c6e2c6a, 0x78e0585d, 0x7e49dc63, 0x0f94f463, 0x1a3dd097);
    Next(b, 62, 0x4001adf1, 0xf6e7611c, 0x6f65c997, 0x7e49dc63, 0xa9df6f62);
    Next(b, 63, 0x1a3dd097, 0x8ac830ce, 0x0b706583, 0x6f65c997, 0x6aa60a39);
    K4Row();
    First8();
    FourMore(b, v, 32);
    First9();
    FourMore(b, v, 36);
    K5Row();
    First10();
    FourMore(b, v, 40);
    First11();
    FourMore(b, v, 44);
  }

  lemma FirstPart3(b: seq<Byte>, v: Working, n: nat)
    requires n == 48
    requires Words(b, n,
      0x0b706583, 0x179312ca, 0x503054e9, 0xba125c39, 0x7e9392c9, 0xd5cbaa1e, 0x78e0585d, 0xf6e7611c,
      0x8ac830ce, 0x8b47a303, 0xfd6e627f, 0x8c6e2c6a, 0x4001adf1, 0x1a3dd097, 0xa9df6f62, 0x6aa60a39)
    requires Rounds(b, v, n) ==
      Working(0x13d82741, 0x165be9cd, 0x18f0d19d, 0xde71e2f2, 0xa7802a4d, 0xa483f080, 0x6b88472c, 0xff61c636)
    ensures Rounds(b, v, n + 16) ==
      Working(0x1bdc6f6f, 0x86126910, 0xf6f443f8, 0xbcfce922, 0x25d2430a, 0x2fc08f85, 0xacc75916, 0x962d8621)
  {
    hide W, Rounds, Round, K;
    K6Row();
    First12();
    FourMore(b, v, 48);
    First13();
    FourMore(b, v, 52);
    K7Row();
    First14();
    FourMore(b, v, 56);
    First15();
    FourMore(b, v, 60);
  }

  lemma FirstRounds(b: seq<Byte>, v: Working)
    requires Words(b, 0,
      0x61626364, 0x62636465, 0x63646566, 0x64656667, 0x65666768, 0x66676869, 0x6768696a, 0x68696a6b,
      0x696a6b6c, 0x6a6b6c6d, 0x6b6c6d6e, 0x6c6d6e6f, 0x6d6e6f70, 0x6e6f7071, 0x80000000, 0x00000000)
    requires v ==
      Working(0x6a09e667, 0xbb67ae85, 0x3c6ef372, 0xa54ff53a, 0x510e527f, 0x9b05688c, 0x1f83d9ab, 0x5be0cd19)
    ensures Rounds(b, v, 64) ==
      Working(0x1bdc6f6f, 0x86126910, 0xf6f443f8, 0xbcfce922, 0x25d2430a, 0x2fc08f85, 0xacc75916, 0x962d8621)
  {
    hide W, Rounds;
    NoRounds(b, v);
    FirstPart0(b, v, 0);
    FirstPart1(b, v, 16);
    FirstPart2(b, v, 32);
    FirstPart3(b, v, 48);
  }

  // ---------------------------------------------------------------- the second block

  lemma Second0()
    ensures Round(Round(Round(Round(
      Working(0x85e655d6, 0x417a1795, 0x3363376a, 0x624cde5c, 0x76e09589, 0xcac5f811, 0xcc4b32c1, 0xf20e533a),
      0x428a2f98, 0x00000000), 0x71374491, 0x00000000), 0xb5c0fbcf, 0x00000000), 0xe9b5dba5, 0x00000000) ==
      Working(0xf268faa9, 0xfd1eebdc, 0x7c3c0f86, 0x7c20c838, 0xe20362ef, 0xaf71b9ea, 0x8c51be64, 0x4670ae6e)
  {
  }

  lemma Second1()
    ensures Round(Round(Round(Round(
      Working(0xf268faa9, 0xfd1eebdc, 0x7c3c0f86, 0x7c20c838, 0xe20362ef, 0xaf71b9ea, 0x8c51be64, 0x4670ae6e),
      0x3956c25b, 0x00000000), 0x59f111f1, 0x00000000), 0x923f82a4, 0x00000000), 0xab1c5ed5, 0x00000000) ==
      Working(0xbf9a93a0, 0x89bba3f1, 0x3eeb6c06, 0x185a5d79, 0x059abdd1, 0x0a34df03, 0xfe20cda6, 0x8dff3001)
  {
  }

  lemma Second2()
    ensures Round(Round(Round(Round(
      Working(0xbf9a93a0, 0x89bba3f1, 0x3eeb6c06, 0x185a5d79, 0x059abdd1, 0x0a34df03, 0xfe20cda6, 0x8dff3001),
      0xd807aa98, 0x00000000), 0x12835b01, 0x00000000), 0x243185be, 0x00000000), 0x550c7dc3, 0x00000000) ==
      Working(0x5eb4ec40, 0x5b35025b, 0x2d964e86, 0x2c096744, 0xe11b4548, 0x10e77723, 0xaa27ed82, 0xabfa465b)
  {
  }

  lemma Second3()
    ensures Round(Round(Round(Round(
      Working(0x5eb4ec40, 0x5b35025b, 0x2d964e86, 0x2c096744, 0xe11b4548, 0x10e77723, 0xaa27ed82, 0xabfa465b),
      0x72be5d74, 0x00000000), 0x80deb1fe, 0x00000000), 0x9bdc06a7, 0x00000000), 0xc19bf174, 0x000001c0) ==
      Working(0x16a8cc79, 0x0cea5cbc, 0xd74080fa, 0x35ee996d, 0x0fcb1f6f, 0x60356548, 0x68aa893f, 0x5c24e2a2)
  {
  }

  lemma Second4()
    ensures Round(Round(Round(Round(
      Working(0x16a8cc79, 0x0cea5cbc, 0xd74080fa, 0x35ee996d, 0x0fcb1f6f, 0x60356548, 0x68aa893f, 0x5c24e2a2),
      0xe49b69c1, 0x00000000), 0xefbe4786, 0x00d80000), 0x0fc19dc6, 0x00000000), 0x240ca1cc, 0x00003677) ==
      Working(0x76f1a2bc, 0xdcff40fd, 0x23dcb6c2, 0xf16f634e, 0x0dc84bb1, 0x69bf7b95, 0xca9182d3, 0x8b21cdc1)
  {
  }

  lemma Second5()
    ensures Round(Round(Round(Round(
      Working(0x76f1a2bc, 0xdcff40fd, 0x23dcb6c2, 0xf16f634e, 0x0dc84bb1, 0x69bf7b95, 0xca9182d3, 0x8b21cdc1),
      0x2de92c6f, 0x00000000), 0x4a7484aa, 0x1df5600d), 0x5cb0a9dc, 0x000001c0), 0x76f988da, 0x1c00501c) ==
      Working(0xa4195b91, 0xf13ae55b, 0xd44dc81a, 0x20aad899, 0xeddbd6ed, 0x966aa287, 0x5bace62d, 0xcc4769f2)
  {
  }

  lemma Second6()
    ensures Round(Round(Round(Round(
      Working(0xa4195b91, 0xf13ae55b, 0xd44dc81a, 0x20aad899, 0xeddbd6ed, 0x966aa287, 0x5bace62d, 0xcc4769f2),
      0x983e5152, 0x01b00000), 0xa831c66d, 0x220a8d94), 0xb00327c8, 0x0000a365), 0xbf597fc7, 0x177017e7) ==
      Working(0x0d936bab, 0x9450fbbc, 0xaa6cb982, 0x4984fa79, 0x6e495d4b, 0x09166dda, 0x0b5eeea4, 0xa530d939)
  {
  }

  lemma Second7()
    ensures Round(Round(Round(Round(
      Working(0x0d936bab, 0x9450fbbc, 0xaa6cb982, 0x4984fa79, 0x6e495d4b, 0x09166dda, 0x0b5eeea4, 0xa530d939),
      0xc6e00bf3, 0x63d38035), 0xd5a79147, 0x090ab713), 0x06ca6351, 0x4c7539ca), 0x14292967, 0x0f19a8c9) ==
      Working(0xb0eab1c5, 0x02ef3a5f, 0x1cfa5eb0, 0xd958b529, 0xf6d93952, 0x5da10665, 0x6c49db9f, 0xc2fa99b1)
  {
  }

  lemma Second8()
    ensures Round(Round(Round(Round(
      Working(0xb0eab1c5, 0x02ef3a5f, 0x1cfa5eb0, 0xd958b529, 0xf6d93952, 0x5da10665, 0x6c49db9f, 0xc2fa99b1),
      0x27b70a85, 0x5df4b0c4), 0x2e1b2138, 0xe257036a), 0x4d2c6dfc, 0xc97bb6f1), 0x53380d13, 0xc5b46f4d) ==
      Working(0xecde4e0d, 0x9907f1b6, 0x4bd1df96, 0x0bfba73c, 0x5dc119e6, 0x66c3043d, 0x905e44ac, 0x8b99e3a9)
  {
  }

  lemma Second9()
    ensures Round(Round(Round(Round(
      Working(0xecde4e0d, 0x9907f1b6, 0x4bd1df96, 0x0bfba73c, 0x5dc119e6, 0x66c3043d, 0x905e44ac, 0x8b99e3a9),
      0x650a7354, 0xf8253c4e), 0x766a0abb, 0xa558d189), 0x81c2c92e, 0x78696285), 0x92722c85, 0xed07117f) ==
      Working(0x221b8a5a, 0xadca7a96, 0xd949682b, 0x2f11c939, 0x0b82c5eb, 0xc6cce4ff, 0x32d99008, 0xfed4ce1d)
  {
  }

  lemma Second10()
    ensures Round(Round(Round(Round(
      Working(0x221b8a5a, 0xadca7a96, 0xd949682b, 0x2f11c939, 0x0b82c5eb, 0xc6cce4ff, 0x32d99008, 0xfed4ce1d),
      0xa2bfe8a1, 0x107358f6), 0xa81a664b, 0x390ae496), 0xc24b8b70, 0x565010a2), 0xc76c51a3, 0xc51d7d44) ==
      Working(0xf2ad6322, 0x8300fca2, 0x2c794876, 0x12d97845, 0xcc48c7f3, 0xe0e3457c, 0xff6759ba, 0xe4213ca2)
  {
  }

  lemma Second11()
    ensures Round(Round(Round(Round(
      Working(0xf2ad6322, 0x8300fca2, 0x2c794876, 0x12d97845, 0xcc48c7f3, 0xe0e3457c, 0xff6759ba, 0xe4213ca2),
      0xd192e819, 0x9e74c972), 0xd6990624, 0x6614b561), 0xf40e3585, 0x30fc129d), 0x106aa070, 0x9ac684a8) ==
      Working(0xd7354d5b, 0x0b3303a7, 0x104a7db4, 0x0f154e11, 0xaad55b6b, 0xbbe1c39a, 0x5348e8f6, 0x6f9517cb)
  {
  }

  lemma Second12()
    ensures Round(Round(Round(Round(
      Working(0xd7354d5b, 0x0b3303a7, 0x104a7db4, 0x0f154e11, 0xaad55b6b, 0xbbe1c39a, 0x5348e8f6, 0x6f9517cb),
      0x19a4c116, 0x2b658dbd), 0x1e376c08, 0xe290f793), 0x2748774c, 0x9eebb24c), 0x34b0bcb5, 0x9713b5de) ==
      Working(0x1a6bcf6a, 0xd8aabcf9, 0x2748e5ec, 0xb736d7a6, 0xff5e99d0, 0x27844711, 0xd4b58576, 0x68f25260)
  {
  }

  lemma Second13()
    ensures Round(Round(Round(Round(
      Working(0x1a6bcf6a, 0xd8aabcf9, 0x2748e5ec, 0xb736d7a6, 0xff5e99d0, 0x27844711, 0xd4b58576, 0x68f25260),
      0x391c0cb3, 0x41061ab7), 0x4ed8aa4a, 0xe022e23b), 0x5b9cca4f, 0x0772079e), 0x682e6ff3, 0x7de22d9c) ==
      Working(0x92952710, 0xd9f0c115, 0xec02560a, 0x4eca6fa0, 0x226806d6, 0x624150c4, 0x7151df8e, 0x989ed071)
  {
  }

  lemma Second14()
    ensures Round(Round(Round(Round(
      Working(0x92952710, 0xd9f0c115, 0xec02560a, 0x4eca6fa0, 0x226806d6, 0x624150c4, 0x7151df8e, 0x989ed071),
      0x748f82ee, 0xc8b83778), 0x78a5636f, 0x75a79849), 0x84c87814, 0xd93dbddb), 0x8cc70208, 0x0a036c9d) ==
      Working(0x1c4cddd9, 0x286fe5f0, 0x4348eb1f, 0x20d4d0e4, 0xf487a853, 0x54076664, 0xc21eddf9, 0x4e515a4d)
  {
  }

  lemma Second15()
    ensures Round(Round(Round(Round(
      Working(0x1c4cddd9, 0x286fe5f0, 0x4348eb1f, 0x20d4d0e4, 0xf487a853, 0x54076664, 0xc21eddf9, 0x4e515a4d),
      0x90befffa, 0xcb4f6ac6), 0xa4506ceb, 0x823f97e2), 0xbef9a3f7, 0xea2f2a7a), 0xc67178f2, 0xb9018b52) ==
      Working(0x9ea7148b, 0x908c2123, 0xb25cef29, 0xa9f181dd, 0x2c5c4ed0, 0x9a392956, 0x2aa1bb13, 0x27ccb387)
  {
  }

  lemma SecondPart0(b: seq<Byte>, v: Working, n: nat)
    requires n == 0
    requires Words(b, n,
      0x00000000, 0x00000000, 0x00000000, 0x00000000, 0x00000000, 0x00000000, 0x00000000, 0x00000000,
      0x00000000, 0x00000000, 0x00000000, 0x00000000, 0x00000000, 0x00000000, 0x00000000, 0x000001c0)
    requires Rounds(b, v, n) ==
      Working(0x85e655d6, 0x417a1795, 0x3363376a, 0x624cde5c, 0x76e09589, 0xcac5f811, 0xcc4b32c1, 0xf20e533a)
    ensures Words(b, n + 16,
      0x00000000, 0x00d80000, 0x00000000, 0x00003677, 0x00000000, 0x1df5600d, 0x000001c0, 0x1c00501c,
      0x01b00000, 0x220a8d94, 0x0000a365, 0x177017e7, 0x63d38035, 0x090ab713, 0x4c7539ca, 0x0f19a8c9)
    ensures Rounds(b, v, n + 16) ==
      Working(0x16a8cc79, 0x0cea5cbc, 0xd74080fa, 0x35ee996d, 0x0fcb1f6f, 0x60356548, 0x68aa893f, 0x5c24e2a2)
  {
    hide W, Rounds, Round, K;
    Next(b, 16, 0x00000000, 0x00000000, 0x00000000, 0x00000000, 0x00000000);
    Next(b, 17, 0x000001c0, 0x00000000, 0x00000000, 0x00000000, 0x00d80000);
    Next(b, 18, 0x00000000, 0x00000000, 0x00000000, 0x00000000, 0x00000000);
    Next(b, 19, 0x00d80000, 0x00000000, 0x00000000, 0x00000000, 0x00003677);
    Next(b, 20, 0x00000000, 0x00000000, 0x00000000, 0x00000000, 0x00000000);
    Next(b, 21, 0x00003677, 0x00000000, 0x00000000, 0x00000000, 0x1df5600d);
    Next(b, 22, 0x00000000, 0x000001c0, 0x00000000, 0x00000000, 0x000001c0);
    Next(b, 23, 0x1df5600d, 0x00000000, 0x00000000, 0x00000000, 0x1c00501c);
    Next(b, 24, 0x000001c0, 0x00d80000, 0x00000000, 0x00000000, 0x01b00000);
    Next(b, 25, 0x1c00501c, 0x00000000, 0x00000000, 0x00000000, 0x220a8d94);
    Next(b, 26, 0x01b00000, 0x00003677, 0x00000000, 0x00000000, 0x0000a365);
    Next(b, 27, 0x220a8d94, 0x00000000, 0x00000000, 0x00000000, 0x177017e7);
    Next(b, 28, 0x0000a365, 0x1df5600d, 0x00000000, 0x00000000, 0x63d38035);
    Next(b, 29, 0x177017e7, 0x000001c0, 0x00000000, 0x00000000, 0x090ab713);
    Next(b, 30, 0x63d38035, 0x1c00501c, 0x000001c0, 0x00000000, 0x4c7539ca);
    Next(b, 31, 0x090ab713, 0x01b00000, 0x00000000, 0x000001c0, 0x0f19a8c9);
    K0Row();
    Second0();
    FourMore(b, v, 0);
    Second1();
    FourMore(b, v, 4);
    K1Row();
    Second2();
    FourMore(b, v, 8);
    Second3();
    FourMore(b, v, 12);
  }

  lemma SecondPart1(b: seq<Byte>, v: Working, n: nat)
    requires n == 16
    requires Words(b, n,
      0x00000000, 0x00d80000, 0x00000000, 0x00003677, 0x00000000, 0x1df5600d, 0x000001c0, 0x1c00501c,
      0x01b00000, 0x220a8d94, 0x0000a365, 0x177017e7, 0x63d38035, 0x090ab713, 0x4c7539ca, 0x0f19a8c9)
    requires Rounds(b, v, n) ==
      Working(0x16a8cc79, 0x0cea5cbc, 0xd74080fa, 0x35ee996d, 0x0fcb1f6f, 0x60356548, 0x68aa893f, 0x5c24e2a2)
    ensures Words(b, n + 16,
      0x5df4b0c4, 0xe257036a, 0xc97bb6f1, 0xc5b46f4d, 0xf8253c4e, 0xa558d189, 0x78696285, 0xed07117f,
      0x107358f6, 0x390ae496, 0x565010a2, 0xc51d7d44, 0x9e74c972, 0x6614b561, 0x30fc129d, 0x9ac684a8)
    ensures Rounds(b, v, n + 16) ==
      Working(0xb0eab1c5, 0x02ef3a5f, 0x1cfa5eb0, 0xd958b529, 0xf6d93952, 0x5da10665, 0x6c49db9f, 0xc2fa99b1)
  {
    hide W, Rounds, Round, K;
    Next(b, 32, 0x4c7539ca, 0x220a8d94, 0x00d80000, 0x00000000, 0x5df4b0c4);
    Next(b, 33, 0x0f19a8c9, 0x0000a365, 0x00000000, 0x00d80000, 0xe257036a);
    Next(b, 34, 0x5df4b0c4, 0x177017e7, 0x00003677, 0x00000000, 0xc97bb6f1);
    Next(b, 35, 0xe257036a, 0x63d38035, 0x00000000, 0x00003677, 0xc5b46f4d);
    Next(b, 36, 0xc97bb6f1, 0x090ab713, 0x1df5600d, 0x00000000, 0xf8253c4e);
    Next(b, 37, 0xc5b46f4d, 0x4c7539ca, 0x000001c0, 0x1df5600d, 0xa558d189);
    Next(b, 38, 0xf8253c4e, 0x0f19a8c9, 0x1c00501c, 0x000001c0, 0x78696285);
    Next(b, 39, 0xa558d189, 0x5df4b0c4, 0x01b00000, 0x1c00501c, 0xed07117f);
    Next(b, 40, 0x78696285, 0xe257036a, 0x220a8d94, 0x01b00000, 0x107358f6);
    Next(b, 41, 0xed07117f, 0xc97bb6f1, 0x0000a365, 0x220a8d94, 0x390ae496);
    Next(b, 42, 0x107358f6, 0xc5b46f4d, 0x177017e7, 0x0000a365, 0x565010a2);
    Next(b, 43, 0x390ae496, 0xf8253c4e, 0x63d38035, 0x177017e7, 0xc51d7d44);
    Next(b, 44, 0x565010a2, 0xa558d189, 0x090ab713, 0x63d38035, 0x9e74c972);
    Next(b, 45, 0xc51d7d44, 0x78696285, 0x4c7539ca, 0x090ab713, 0x6614b561);
    Next(b, 46, 0x9e74c972, 0xed07117f, 0x0f19a8c9, 0x4c7539ca, 0x30fc129d);
    Next(b, 47, 0x6614b561, 0x107358f6, 0x5df4b0c4, 0x0f19a8c9, 0x9ac684a8);
    K2Row();
    Second4();
    FourMore(b, v, 16);
    Second5();
    FourMore(b, v, 20);
    K3Row();
    Second6();
    FourMore(b, v, 24);
    Second7();
    FourMore(b, v, 28);
  }

  lemma SecondPart2(b: seq<Byte>, v: Working, n: nat)
    requires n == 32
    requires Words(b, n,
      0x5df4b0c4, 0xe257036a, 0xc97bb6f1, 0xc5b46f4d, 0xf8253c4e, 0xa558d189, 0x78696285, 0xed07117f,
      0x107358f6, 0x390ae496, 0x565010a2, 0xc51d7d44, 0x9e74c972, 0x6614b561, 0x30fc129d, 0x9ac684a8)
    requires Rounds(b, v, n) ==
      Working(0xb0eab1c5, 0x02ef3a5f, 0x1cfa5eb0, 0xd958b529, 0xf6d93952, 0x5da10665, 0x6c49db9f, 0xc2fa99b1)
    ensures Words(b, n + 16,
      0x2b658dbd, 0xe290f793, 0x9eebb24c, 0x9713b5de, 0x41061ab7, 0xe022e23b, 0x0772079e, 0x7de22d9c,
      0xc8b83778, 0x75a79849, 0xd93dbddb, 0x0a036c9d, 0xcb4f6ac6, 0x823f97e2, 0xea2f2a7a, 0xb9018b52)
    ensures Rounds(b, v, n + 16) ==
      Working(0xd7354d5b, 0x0b3303a7, 0x104a7db4, 0x0f154e11, 0xaad55b6b, 0xbbe1c39a, 0x5348e8f6, 0x6f9517cb)
  {
    hide W, Rounds, Round, K;
    Next(b, 48, 0x30fc129d, 0x390ae496, 0xe257036a, 0x5df4b0c4, 0x2b658dbd);
    Next(b, 49, 0x9ac684a8, 0x565010a2, 0xc97bb6f1, 0xe257036a, 0xe290f793);
    Next(b, 50, 0x2b658dbd, 0xc51d7d44, 0xc5b46f4d, 0xc97bb6f1, 0x9eebb24c);
    Next(b, 51, 0xe290f793, 0x9e74c972, 0xf8253c4e, 0xc5b46f4d, 0x9713b5de);
    Next(b, 52, 0x9eebb24c, 0x6614b561, 0xa558d189, 0xf8253c4e, 0x41061ab7);
    Next(b, 53, 0x9713b5de, 0x30fc129d, 0x78696285, 0xa558d189, 0xe022e23b);
    Next(b, 54, 0x41061ab7, 0x9ac684a8, 0xed07117f, 0x78696285, 0x0772079e);
    Next(b, 55, 0xe022e23b, 0x2b658dbd, 0x107358f6, 0xed07117f, 0x7de22d9c);
    Next(b, 56, 0x0772079e, 0xe290f793, 0x390ae496, 0x107358f6, 0xc8b83778);
    Next(b, 57, 0x7de22d9c, 0x9eebb24c, 0x565010a2, 0x390ae496, 0x75a79849);
    Next(b, 58, 0xc8b83778, 0x9713b5de, 0xc51d7d44, 0x565010a2, 0xd93dbddb);
    Next(b, 59, 0x75a79849, 0x41061ab7, 0x9e74c972, 0xc51d7d44, 0x0a036c9d);
    Next(b, 60, 0xd93dbddb, 0xe022e23b, 0x6614b561, 0x9e74c972, 0xcb4f6ac6);
    Next(b, 61, 0x0a036c9d, 0x0772079e, 0x30fc129d, 0x6614b561, 0x823f97e2);
    Next(b, 62, 0xcb4f6ac6, 0x7de22d9c, 0x9ac684a8, 0x30fc129d, 0xea2f2a7a);
    Next(b, 63, 0x823f97e2, 0xc8b83778, 0x2b658dbd, 0x9ac684a8, 0xb9018b52);
    K4Row();
    Second8();
    FourMore(b, v, 32);
    Second9();
    FourMore(b, v, 36);
    K5Row();
    Second10();
    FourMore(b, v, 40);
    Second11();
    FourMore(b, v, 44);
  }

  lemma SecondPart3(b: seq<Byte>, v: Working, n: nat)
    requires n == 48
    requires Words(b, n,
      0x2b658dbd, 0xe290f793, 0x9eebb24c, 0x9713b5de, 0x41061ab7, 0xe022e23b, 0x0772079e, 0x7de22d9c,
      0xc8b83778, 0x75a79849, 0xd93dbddb, 0x0a036c9d, 0xcb4f6ac6, 0x823f97e2, 0xea2f2a7a, 0xb9018b52)
    requires Rounds(b, v, n) ==
      Working(0xd7354d5b, 0x0b3303a7, 0x104a7db4, 0x0f154e11, 0xaad55b6b, 0xbbe1c39a, 0x5348e8f6, 0x6f9517cb)
    ensures Rounds(b, v, n + 16) ==
      Working(0x9ea7148b, 0x908c2123, 0xb25cef29, 0xa9f181dd, 0x2c5c4ed0, 0x9a392956, 0x2aa1bb13, 0x27ccb387)
  {
    hide W, Rounds, Round, K;
    K6Row();
    Second12();
    FourMore(b, v, 48);
    Second13();
    FourMore(b, v, 52);
    K7Row();
    Second14();
    FourMore(b, v, 56);
    Second15();
    FourMore(b, v, 60);
  }

  lemma SecondRounds(b: seq<Byte>, v: Working)
    requires Words(b, 0,
      0x00000000, 0x00000000, 0x00000000, 0x00000000, 0x00000000, 0x00000000, 0x00000000, 0x00000000,
      0x00000000, 0x00000000, 0x00000000, 0x00000000, 0x00000000, 0x00000000, 0x00000000, 0x000001c0)
    requires v ==
      Working(0x85e655d6, 0x417a1795, 0x3363376a, 0x624cde5c, 0x76e09589, 0xcac5f811, 0xcc4b32c1, 0xf20e533a)
    ensures Rounds(b, v, 64) ==
      Working(0x9ea7148b, 0x908c2123, 0xb25cef29, 0xa9f181dd, 0x2c5c4ed0, 0x9a392956, 0x2aa1bb13, 0x27ccb387)
  {
    hide W, Rounds;
    NoRounds(b, v);
    SecondPart0(b, v, 0);
    SecondPart1(b, v, 16);
    SecondPart2(b, v, 32);
    SecondPart3(b, v, 48);
  }

  // ---------------------------------------------------------------- the digest

  lemma PaddedBlocks(p: seq<Byte>)
    requires p == Pad(MESSAGE)
    ensures |p| == 128 && p[..56] == MESSAGE && p[56] == 0x80 && (forall i | 57 <= i < 126 :: p[i] == 0)
    ensures p[126] == 0x01 && p[127] == 0xc0
  {
    M0Row();
    LengthBytes(448);
    assert p == MESSAGE + [0x80] + Zeros(63) + BigEndian64(448);
  }

  lemma FirstWords(b: seq<Byte>)
    requires b == Pad(MESSAGE)[..64]
    ensures Words(b, 0,
      0x61626364, 0x62636465, 0x63646566, 0x64656667, 0x65666768, 0x66676869, 0x6768696a, 0x68696a6b,
      0x696a6b6c, 0x6a6b6c6d, 0x6b6c6d6e, 0x6c6d6e6f, 0x6d6e6f70, 0x6e6f7071, 0x80000000, 0x00000000)
  {
    hide W, Pad;
    PaddedBlocks(Pad(MESSAGE));
    M0Row();
    M1Row();
    M2Row();
    M3Row();
    M4Row();
    M5Row();
    M6Row();
    assert forall i | 0 <= i < 56 :: b[i] == Pad(MESSAGE)[..56][i];
    FirstWord(b, 0, 0x61, 0x62, 0x63, 0x64, 0x61626364);
    FirstWord(b, 1, 0x62, 0x63, 0x64, 0x65, 0x62636465);
    FirstWord(b, 2, 0x63, 0x64, 0x65, 0x66, 0x63646566);
    FirstWord(b, 3, 0x64, 0x65, 0x66, 0x67, 0x64656667);
    FirstWord(b, 4, 0x65, 0x66, 0x67, 0x68, 0x65666768);
    FirstWord(b, 5, 0x66, 0x67, 0x68, 0x69, 0x66676869);
    FirstWord(b, 6, 0x67, 0x68, 0x69, 0x6a, 0x6768696a);
    FirstWord(b, 7, 0x68, 0x69, 0x6a, 0x6b, 0x68696a6b);
    FirstWord(b, 8, 0x69, 0x6a, 0x6b, 0x6c, 0x696a6b6c);
    FirstWord(b, 9, 0x6a, 0x6b, 0x6c, 0x6d, 0x6a6b6c6d);
    FirstWord(b, 10, 0x6b, 0x6c, 0x6d, 0x6e, 0x6b6c6d6e);
    FirstWord(b, 11, 0x6c, 0x6d, 0x6e, 0x6f, 0x6c6d6e6f);
    FirstWord(b, 12, 0x6d, 0x6e, 0x6f, 0x70, 0x6d6e6f70);
    FirstWord(b, 13, 0x6e, 0x6f, 0x70, 0x71, 0x6e6f7071);
    FirstWord(b, 14, 0x80, 0x00, 0x00, 0x00, 0x80000000);
    FirstWord(b, 15, 0x00, 0x00, 0x00, 0x00, 0x00000000);
  }

  lemma SecondWords(b: seq<Byte>)
    requires b == Pad(MESSAGE)[64..]
    ensures Words(b, 0,
      0x00000000, 0x00000000, 0x00000000, 0x00000000, 0x00000000, 0x00000000, 0x00000000, 0x00000000,
      0x00000000, 0x00000000, 0x00000000, 0x00000000, 0x00000000, 0x00000000, 0x00000000, 0x000001c0)
  {
    hide W, Pad;
    PaddedBlocks(Pad(MESSAGE));
    FirstWord(b, 0, 0x00, 0x00, 0x00, 0x00, 0x00000000);
    FirstWord(b, 1, 0x00, 0x00, 0x00, 0x00, 0x00000000);
    FirstWord(b, 2, 0x00, 0x00, 0x00, 0x00, 0x00000000);
    FirstWord(b, 3, 0x00, 0x00, 0x00, 0x00, 0x00000000);
    FirstWord(b, 4, 0x00, 0x00, 0x00, 0x00, 0x00000000);
    FirstWord(b, 5, 0x00, 0x00, 0x00, 0x00, 0x00000000);
    FirstWord(b, 6, 0x00, 0x00, 0x00, 0x00, 0x00000000);
    FirstWord(b, 7, 0x00, 0x00, 0x00, 0x00, 0x00000000);
    FirstWord(b, 8, 0x00, 0x00, 0x00, 0x00, 0x00000000);
    FirstWord(b, 9, 0x00, 0x00, 0x00, 0x00, 0x00000000);
    FirstWord(b, 10, 0x00, 0x00, 0x00, 0x00, 0x00000000);
    FirstWord(b, 11, 0x00, 0x00, 0x00, 0x00, 0x00000000);
    FirstWord(b, 12, 0x00, 0x00, 0x00, 0x00, 0x00000000);
    FirstWord(b, 13, 0x00, 0x00, 0x00, 0x00, 0x00000000);
    FirstWord(b, 14, 0x00, 0x00, 0x00, 0x00, 0x00000000);
    FirstWord(b, 15, 0x00, 0x00, 0x01, 0xc0, 0x000001c0);
  }

  lemma FirstHashed(b: seq<Byte>)
    requires b == Pad(MESSAGE)[..64]
    ensures |b| == 64 && Compress(INITIAL, b) ==
      [0x85e655d6, 0x417a1795, 0x3363376a, 0x624cde5c, 0x76e09589, 0xcac5f811, 0xcc4b32c1, 0xf20e533a]
  {
    hide W, Rounds, Pad, Compress;
    FirstWords(b);
    FirstRounds(b, Load(INITIAL));
    Chained(b, INITIAL,
      Working(0x1bdc6f6f, 0x86126910, 0xf6f443f8, 0xbcfce922, 0x25d2430a, 0x2fc08f85, 0xacc75916, 0x962d8621),
      [0x85e655d6, 0x417a1795, 0x3363376a, 0x624cde5c, 0x76e09589, 0xcac5f811, 0xcc4b32c1, 0xf20e533a]);
  }

  lemma SecondHashed(b: seq<Byte>, h: seq<Word>)
    requires b == Pad(MESSAGE)[64..]
    requires h ==
      [0x85e655d6, 0x417a1795, 0x3363376a, 0x624cde5c, 0x76e09589, 0xcac5f811, 0xcc4b32c1, 0xf20e533a]
    ensures |b| == 64 && Compress(h, b) ==
      [0x248d6a61, 0xd20638b8, 0xe5c02693, 0x0c3e6039, 0xa33ce459, 0x64ff2167, 0xf6ecedd4, 0x19db06c1]
  {
    hide W, Rounds, Pad, Compress;
    SecondWords(b);
    SecondRounds(b, Load(h));
    Chained(b, h,
      Working(0x9ea7148b, 0x908c2123, 0xb25cef29, 0xa9f181dd, 0x2c5c4ed0, 0x9a392956, 0x2aa1bb13, 0x27ccb387),
      [0x248d6a61, 0xd20638b8, 0xe5c02693, 0x0c3e6039, 0xa33ce459, 0x64ff2167, 0xf6ecedd4, 0x19db06c1]);
  }

  lemma TwoBlocks(h: seq<Word>, b: seq<Byte>)
    requires |h| == 8 && |b| == 128
    ensures HashBlocks(h, b) == Compress(Compress(h, b[..64]), b[64..])
  {
    hide Compress;
    OneBlock(Compress(h, b[..64]), b[64..]);
  }

  lemma DigestRows()
    ensures WordBytes(0x248d6a61) == [0x24, 0x8d, 0x6a, 0x61]
    ensures WordBytes(0xd20638b8) == [0xd2, 0x06, 0x38, 0xb8]
    ensures WordBytes(0xe5c02693) == [0xe5, 0xc0, 0x26, 0x93]
    ensures WordBytes(0x0c3e6039) == [0x0c, 0x3e, 0x60, 0x39]
    ensures WordBytes(0xa33ce459) == [0xa3, 0x3c, 0xe4, 0x59]
    ensures WordBytes(0x64ff2167) == [0x64, 0xff, 0x21, 0x67]
    ensures WordBytes(0xf6ecedd4) == [0xf6, 0xec, 0xed, 0xd4]
    ensures WordBytes(0x19db06c1) == [0x19, 0xdb, 0x06, 0xc1]
  {
  }

  /** The digest of the message. */
  lemma DigestOfTwoBlocks()
    ensures Sha256(MESSAGE) ==
      [0x24, 0x8d, 0x6a, 0x61] + [0xd2, 0x06, 0x38, 0xb8] + [0xe5, 0xc0, 0x26, 0x93] + [0x0c, 0x3e, 0x60, 0x39] +
      [0xa3, 0x3c, 0xe4, 0x59] + [0x64, 0xff, 0x21, 0x67] + [0xf6, 0xec, 0xed, 0xd4] + [0x19, 0xdb, 0x06, 0xc1]
  {
    hide Pad, HashBlocks, DigestBytes, WordBytes, Compress;
    var p := Pad(MESSAGE);
    FirstHashed(p[..64]);
    SecondHashed(p[64..], Compress(INITIAL, p[..64]));
    TwoBlocks(INITIAL, p);
    EightWords(0x248d6a61, 0xd20638b8, 0xe5c02693, 0x0c3e6039, 0xa33ce459, 0x64ff2167, 0xf6ecedd4, 0x19db06c1);
    DigestRows();
  }
}
