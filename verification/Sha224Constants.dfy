/**
  The constants of SHA-224, tied to the roots of primes that FIPS 180-4 defines them by.
 */
module Sha224Constants {

  // The round constants (section 4.2.2 of FIPS 180-4), eight to a row.
  const K0: seq<bv32> := [0x428a2f98, 0x71374491, 0xb5c0fbcf, 0xe9b5dba5, 0x3956c25b, 0x59f111f1, 0x923f82a4, 0xab1c5ed5]
  const K1: seq<bv32> := [0xd807aa98, 0x12835b01, 0x243185be, 0x550c7dc3, 0x72be5d74, 0x80deb1fe, 0x9bdc06a7, 0xc19bf174]
  const K2: seq<bv32> := [0xe49b69c1, 0xefbe4786, 0x0fc19dc6, 0x240ca1cc, 0x2de92c6f, 0x4a7484aa, 0x5cb0a9dc, 0x76f988da]
  const K3: seq<bv32> := [0x983e5152, 0xa831c66d, 0xb00327c8, 0xbf597fc7, 0xc6e00bf3, 0xd5a79147, 0x06ca6351, 0x14292967]
  const K4: seq<bv32> := [0x27b70a85, 0x2e1b2138, 0x4d2c6dfc, 0x53380d13, 0x650a7354, 0x766a0abb, 0x81c2c92e, 0x92722c85]
  const K5: seq<bv32> := [0xa2bfe8a1, 0xa81a664b, 0xc24b8b70, 0xc76c51a3, 0xd192e819, 0xd6990624, 0xf40e3585, 0x106aa070]
  const K6: seq<bv32> := [0x19a4c116, 0x1e376c08, 0x2748774c, 0x34b0bcb5, 0x391c0cb3, 0x4ed8aa4a, 0x5b9cca4f, 0x682e6ff3]
  const K7: seq<bv32> := [0x748f82ee, 0x78a5636f, 0x84c87814, 0x8cc70208, 0x90befffa, 0xa4506ceb, 0xbef9a3f7, 0xc67178f2]

  const K256: seq<bv32> := K0 + K1 + K2 + K3 + K4 + K5 + K6 + K7

  /** The initial hash value (section 5.3.2 of FIPS 180-4). */
  const H224: seq<bv32> := [
    0xc1059ed8, 0x367cd507, 0x3070dd17, 0xf70e5939, 0xffc00b31, 0x68581511, 0x64f98fa7, 0xbefa4fa4
  ]

  // ----- where the constants come from

  /** `c` is the cube root of `p` scaled by 2 to the 32, rounded down. */
  predicate CubeRoot(p: nat, c: int) {
    c * c * c <= p * 0x1_0000_0000_0000_0000_0000_0000 < (c + 1) * (c + 1) * (c + 1)
  }

  /** `c` is the square root of `p` scaled by 2 to the 64, rounded down. */
  predicate SquareRoot(p: nat, c: int) {
    c * c <= p * 0x1_0000_0000_0000_0000_0000_0000_0000_0000 < (c + 1) * (c + 1)
  }

  /** The scaled cube root of `p` ends in the 32 bits `k`, after a whole part of `n`. */
  predicate Bits(p: nat, n: nat, k: bv32) {
    CubeRoot(p, n * 0x1_0000_0000 + k as int)
  }

  // The round constants are the first 32 bits of the fractional parts of the cube roots of the first 64 primes.

  lemma CubeRoots0()
    ensures CubeRoot(2, 0x1_428a2f98) && CubeRoot(3, 0x1_71374491) && CubeRoot(5, 0x1_b5c0fbcf) && CubeRoot(7, 0x1_e9b5dba5)
         && CubeRoot(11, 0x2_3956c25b) && CubeRoot(13, 0x2_59f111f1) && CubeRoot(17, 0x2_923f82a4) && CubeRoot(19, 0x2_ab1c5ed5)
         && CubeRoot(23, 0x2_d807aa98) && CubeRoot(29, 0x3_12835b01) && CubeRoot(31, 0x3_243185be) && CubeRoot(37, 0x3_550c7dc3)
         && CubeRoot(41, 0x3_72be5d74) && CubeRoot(43, 0x3_80deb1fe) && CubeRoot(47, 0x3_9bdc06a7) && CubeRoot(53, 0x3_c19bf174)
  {
  }

  lemma RoundConstants0()
    ensures Bits(2, 1, K0[0]) && Bits(3, 1, K0[1]) && Bits(5, 1, K0[2]) && Bits(7, 1, K0[3])
         && Bits(11, 2, K0[4]) && Bits(13, 2, K0[5]) && Bits(17, 2, K0[6]) && Bits(19, 2, K0[7])
         && Bits(23, 2, K1[0]) && Bits(29, 3, K1[1]) && Bits(31, 3, K1[2]) && Bits(37, 3, K1[3])
         && Bits(41, 3, K1[4]) && Bits(43, 3, K1[5]) && Bits(47, 3, K1[6]) && Bits(53, 3, K1[7])
  {
    hide CubeRoot;
    CubeRoots0();
  }

  lemma CubeRoots1()
    ensures CubeRoot(59, 0x3_e49b69c1) && CubeRoot(61, 0x3_efbe4786) && CubeRoot(67, 0x4_0fc19dc6) && CubeRoot(71, 0x4_240ca1cc)
         && CubeRoot(73, 0x4_2de92c6f) && CubeRoot(79, 0x4_4a7484aa) && CubeRoot(83, 0x4_5cb0a9dc) && CubeRoot(89, 0x4_76f988da)
         && CubeRoot(97, 0x4_983e5152) && CubeRoot(101, 0x4_a831c66d) && CubeRoot(103, 0x4_b00327c8) && CubeRoot(107, 0x4_bf597fc7)
         && CubeRoot(109, 0x4_c6e00bf3) && CubeRoot(113, 0x4_d5a79147) && CubeRoot(127, 0x5_06ca6351) && CubeRoot(131, 0x5_14292967)
  {
  }

  lemma RoundConstants1()
    ensures Bits(59, 3, K2[0]) && Bits(61, 3, K2[1]) && Bits(67, 4, K2[2]) && Bits(71, 4, K2[3])
         && Bits(73, 4, K2[4]) && Bits(79, 4, K2[5]) && Bits(83, 4, K2[6]) && Bits(89, 4, K2[7])
         && Bits(97, 4, K3[0]) && Bits(101, 4, K3[1]) && Bits(103, 4, K3[2]) && Bits(107, 4, K3[3])
         && Bits(109, 4, K3[4]) && Bits(113, 4, K3[5]) && Bits(127, 5, K3[6]) && Bits(131, 5, K3[7])
  {
    hide CubeRoot;
    CubeRoots1();
  }

  lemma CubeRoots2()
    ensures CubeRoot(137, 0x5_27b70a85) && CubeRoot(139, 0x5_2e1b2138) && CubeRoot(149, 0x5_4d2c6dfc) && CubeRoot(151, 0x5_53380d13)
         && CubeRoot(157, 0x5_650a7354) && CubeRoot(163, 0x5_766a0abb) && CubeRoot(167, 0x5_81c2c92e) && CubeRoot(173, 0x5_92722c85)
         && CubeRoot(179, 0x5_a2bfe8a1) && CubeRoot(181, 0x5_a81a664b) && CubeRoot(191, 0x5_c24b8b70) && CubeRoot(193, 0x5_c76c51a3)
         && CubeRoot(197, 0x5_d192e819) && CubeRoot(199, 0x5_d6990624) && CubeRoot(211, 0x5_f40e3585) && CubeRoot(223, 0x6_106aa070)
  {
  }

  lemma RoundConstants2()
    ensures Bits(137, 5, K4[0]) && Bits(139, 5, K4[1]) && Bits(149, 5, K4[2]) && Bits(151, 5, K4[3])
         && Bits(157, 5, K4[4]) && Bits(163, 5, K4[5]) && Bits(167, 5, K4[6]) && Bits(173, 5, K4[7])
         && Bits(179, 5, K5[0]) && Bits(181, 5, K5[1]) && Bits(191, 5, K5[2]) && Bits(193, 5, K5[3])
         && Bits(197, 5, K5[4]) && Bits(199, 5, K5[5]) && Bits(211, 5, K5[6]) && Bits(223, 6, K5[7])
  {
    hide CubeRoot;
    CubeRoots2();
  }

  lemma CubeRoots3()
    ensures CubeRoot(227, 0x6_19a4c116) && CubeRoot(229, 0x6_1e376c08) && CubeRoot(233, 0x6_2748774c) && CubeRoot(239, 0x6_34b0bcb5)
         && CubeRoot(241, 0x6_391c0cb3) && CubeRoot(251, 0x6_4ed8aa4a) && CubeRoot(257, 0x6_5b9cca4f) && CubeRoot(263, 0x6_682e6ff3)
         && CubeRoot(269, 0x6_748f82ee) && CubeRoot(271, 0x6_78a5636f) && CubeRoot(277, 0x6_84c87814) && CubeRoot(281, 0x6_8cc70208)
         && CubeRoot(283, 0x6_90befffa) && CubeRoot(293, 0x6_a4506ceb) && CubeRoot(307, 0x6_bef9a3f7) && CubeRoot(311, 0x6_c67178f2)
  {
  }

  lemma RoundConstants3()
    ensures Bits(227, 6, K6[0]) && Bits(229, 6, K6[1]) && Bits(233, 6, K6[2]) && Bits(239, 6, K6[3])
         && Bits(241, 6, K6[4]) && Bits(251, 6, K6[5]) && Bits(257, 6, K6[6]) && Bits(263, 6, K6[7])
         && Bits(269, 6, K7[0]) && Bits(271, 6, K7[1]) && Bits(277, 6, K7[2]) && Bits(281, 6, K7[3])
         && Bits(283, 6, K7[4]) && Bits(293, 6, K7[5]) && Bits(307, 6, K7[6]) && Bits(311, 6, K7[7])
  {
    hide CubeRoot;
    CubeRoots3();
  }

  lemma SquareRoots()
    ensures SquareRoot(23, 0x4_cbbb9d5d_c1059ed8) && SquareRoot(29, 0x5_629a292a_367cd507)
         && SquareRoot(31, 0x5_9159015a_3070dd17) && SquareRoot(37, 0x6_152fecd8_f70e5939)
         && SquareRoot(41, 0x6_67332667_ffc00b31) && SquareRoot(43, 0x6_8eb44a87_68581511)
         && SquareRoot(47, 0x6_db0c2e0d_64f98fa7) && SquareRoot(53, 0x7_47b5481d_befa4fa4)
  {
  }

  /** The scaled square root of `p` ends in the 32 bits `h`, after the bits `c`. */
  predicate LowBits(p: nat, c: nat, h: bv32) {
    SquareRoot(p, c * 0x1_0000_0000 + h as int)
  }

  /** The initial value is the second 32 bits of the fractional parts of the square roots of the 9th to 16th primes. */
  lemma InitialValue()
    ensures LowBits(23, 0x4_cbbb9d5d, H224[0]) && LowBits(29, 0x5_629a292a, H224[1])
         && LowBits(31, 0x5_9159015a, H224[2]) && LowBits(37, 0x6_152fecd8, H224[3])
         && LowBits(41, 0x6_67332667, H224[4]) && LowBits(43, 0x6_8eb44a87, H224[5])
         && LowBits(47, 0x6_db0c2e0d, H224[6]) && LowBits(53, 0x7_47b5481d, H224[7])
  {
    hide SquareRoot;
    SquareRoots();
  }
}
