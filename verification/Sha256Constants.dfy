/**
Where the constants of the standard come from: the fractional parts of the cube roots and square
roots of the first primes, as inequalities between integers.
*/
module Sha256Constants {
  import opened Sha256Spec
  import opened Sha256Vectors

  const TWO_TO_THE_32 := 0x1_0000_0000

  /** The first 32 bits of the fractional part of the cube root of `p`, whose integer part is `c`. */
  predicate CubeRootBits(p: nat, c: nat, bits: Word) {
    var x := c * TWO_TO_THE_32 + bits as nat;
    x * x * x <= p * (TWO_TO_THE_32 * TWO_TO_THE_32 * TWO_TO_THE_32) < (x + 1) * (x + 1) * (x + 1)
  }

  predicate SquareRootBits(p: nat, c: nat, bits: Word) {
    var x := c * TWO_TO_THE_32 + bits as nat;
    x * x <= p * (TWO_TO_THE_32 * TWO_TO_THE_32) < (x + 1) * (x + 1)
  }

  /** Section 4.2.2, constants 0 to 7. */
  lemma CubeRoots0()
    ensures CubeRootBits(2, 1, K[0])
    ensures CubeRootBits(3, 1, K[1])
    ensures CubeRootBits(5, 1, K[2])
    ensures CubeRootBits(7, 1, K[3])
    ensures CubeRootBits(11, 2, K[4])
    ensures CubeRootBits(13, 2, K[5])
    ensures CubeRootBits(17, 2, K[6])
    ensures CubeRootBits(19, 2, K[7])
  {
    hide K;
    K0Row();
  }

  /** Section 4.2.2, constants 8 to 15. */
  lemma CubeRoots1()
    ensures CubeRootBits(23, 2, K[8])
    ensures CubeRootBits(29, 3, K[9])
    ensures CubeRootBits(31, 3, K[10])
    ensures CubeRootBits(37, 3, K[11])
    ensures CubeRootBits(41, 3, K[12])
    ensures CubeRootBits(43, 3, K[13])
    ensures CubeRootBits(47, 3, K[14])
    ensures CubeRootBits(53, 3, K[15])
  {
    hide K;
    K1Row();
  }

  /** Section 4.2.2, constants 16 to 23. */
  lemma CubeRoots2()
    ensures CubeRootBits(59, 3, K[16])
    ensures CubeRootBits(61, 3, K[17])
    ensures CubeRootBits(67, 4, K[18])
    ensures CubeRootBits(71, 4, K[19])
    ensures CubeRootBits(73, 4, K[20])
    ensures CubeRootBits(79, 4, K[21])
    ensures CubeRootBits(83, 4, K[22])
    ensures CubeRootBits(89, 4, K[23])
  {
    hide K;
    K2Row();
  }

  /** Section 4.2.2, constants 24 to 31. */
  lemma CubeRoots3()
    ensures CubeRootBits(97, 4, K[24])
    ensures CubeRootBits(101, 4, K[25])
    ensures CubeRootBits(103, 4, K[26])
    ensures CubeRootBits(107, 4, K[27])
    ensures CubeRootBits(109, 4, K[28])
    ensures CubeRootBits(113, 4, K[29])
    ensures CubeRootBits(127, 5, K[30])
    ensures CubeRootBits(131, 5, K[31])
  {
    hide K;
    K3Row();
  }

  /** Section 4.2.2, constants 32 to 39. */
  lemma CubeRoots4()
    ensures CubeRootBits(137, 5, K[32])
    ensures CubeRootBits(139, 5, K[33])
    ensures CubeRootBits(149, 5, K[34])
    ensures CubeRootBits(151, 5, K[35])
    ensures CubeRootBits(157, 5, K[36])
    ensures CubeRootBits(163, 5, K[37])
    ensures CubeRootBits(167, 5, K[38])
    ensures CubeRootBits(173, 5, K[39])
  {
    hide K;
    K4Row();
  }

  /** Section 4.2.2, constants 40 to 47. */
  lemma CubeRoots5()
    ensures CubeRootBits(179, 5, K[40])
    ensures CubeRootBits(181, 5, K[41])
    ensures CubeRootBits(191, 5, K[42])
    ensures CubeRootBits(193, 5, K[43])
    ensures CubeRootBits(197, 5, K[44])
    ensures CubeRootBits(199, 5, K[45])
    ensures CubeRootBits(211, 5, K[46])
    ensures CubeRootBits(223, 6, K[47])
  {
    hide K;
    K5Row();
  }

  /** Section 4.2.2, constants 48 to 55. */
  lemma CubeRoots6()
    ensures CubeRootBits(227, 6, K[48])
    ensures CubeRootBits(229, 6, K[49])
    ensures CubeRootBits(233, 6, K[50])
    ensures CubeRootBits(239, 6, K[51])
    ensures CubeRootBits(241, 6, K[52])
    ensures CubeRootBits(251, 6, K[53])
    ensures CubeRootBits(257, 6, K[54])
    ensures CubeRootBits(263, 6, K[55])
  {
    hide K;
    K6Row();
  }

  /** Section 4.2.2, constants 56 to 63. */
  lemma CubeRoots7()
    ensures CubeRootBits(269, 6, K[56])
    ensures CubeRootBits(271, 6, K[57])
    ensures CubeRootBits(277, 6, K[58])
    ensures CubeRootBits(281, 6, K[59])
    ensures CubeRootBits(283, 6, K[60])
    ensures CubeRootBits(293, 6, K[61])
    ensures CubeRootBits(307, 6, K[62])
    ensures CubeRootBits(311, 6, K[63])
  {
    hide K;
    K7Row();
  }

  /** Section 5.3.3. */
  lemma SquareRoots()
    ensures SquareRootBits(2, 1, INITIAL[0])
    ensures SquareRootBits(3, 1, INITIAL[1])
    ensures SquareRootBits(5, 2, INITIAL[2])
    ensures SquareRootBits(7, 2, INITIAL[3])
    ensures SquareRootBits(11, 3, INITIAL[4])
    ensures SquareRootBits(13, 3, INITIAL[5])
    ensures SquareRootBits(17, 4, INITIAL[6])
    ensures SquareRootBits(19, 4, INITIAL[7])
  {
  }
}
