/** Where the constants of SHA-256 come from (FIPS 180-4, sections 4.2.2 and 5.3.3): the first 32 bits of
    the fractional parts of the cube roots of the first sixty-four primes, and of the square roots of the
    first eight. */
module Sha256Roots {
  import opened Sha256

  /** The first sixty-four, eight to a row. */
  const PRIME_ROWS: seq<seq<nat>> := [
    [2, 3, 5, 7, 11, 13, 17, 19],
    [23, 29, 31, 37, 41, 43, 47, 53],
    [59, 61, 67, 71, 73, 79, 83, 89],
    [97, 101, 103, 107, 109, 113, 127, 131],
    [137, 139, 149, 151, 157, 163, 167, 173],
    [179, 181, 191, 193, 197, 199, 211, 223],
    [227, 229, 233, 239, 241, 251, 257, 263],
    [269, 271, 277, 281, 283, 293, 307, 311]]

  function Prime(t: nat): nat
    requires t < 64
  {
    PRIME_ROWS[t / 8][t % 8]
  }

  const TWO_32 := 0x1_0000_0000
  const TWO_96 := 0x1_0000_0000_0000_0000_0000_0000

  /** n is the cube root of p, times 2^32 and rounded down, and k its 32 bits behind the point. */
  predicate CubeRoot(p: nat, n: nat, k: bv32) {
    n * n * n <= p * TWO_96 < (n + 1) * (n + 1) * (n + 1) && k as nat == n % TWO_32
  }

  /** The same of the square root. */
  predicate SquareRoot(p: nat, n: nat, k: bv32) {
    n * n <= p * TWO_64 < (n + 1) * (n + 1) && k as nat == n % TWO_32
  }

  lemma CubeRoots0()
    ensures CubeRoot(2, 0x1_428a2f98, 0x428a2f98)
    ensures CubeRoot(3, 0x1_71374491, 0x71374491)
    ensures CubeRoot(5, 0x1_b5c0fbcf, 0xb5c0fbcf)
    ensures CubeRoot(7, 0x1_e9b5dba5, 0xe9b5dba5)
  {
  }

  lemma CubeRoots1()
    ensures CubeRoot(11, 0x2_3956c25b, 0x3956c25b)
    ensures CubeRoot(13, 0x2_59f111f1, 0x59f111f1)
    ensures CubeRoot(17, 0x2_923f82a4, 0x923f82a4)
    ensures CubeRoot(19, 0x2_ab1c5ed5, 0xab1c5ed5)
  {
  }

  lemma CubeRoots2()
    ensures CubeRoot(23, 0x2_d807aa98, 0xd807aa98)
    ensures CubeRoot(29, 0x3_12835b01, 0x12835b01)
    ensures CubeRoot(31, 0x3_243185be, 0x243185be)
    ensures CubeRoot(37, 0x3_550c7dc3, 0x550c7dc3)
  {
  }

  lemma CubeRoots3()
    ensures CubeRoot(41, 0x3_72be5d74, 0x72be5d74)
    ensures CubeRoot(43, 0x3_80deb1fe, 0x80deb1fe)
    ensures CubeRoot(47, 0x3_9bdc06a7, 0x9bdc06a7)
    ensures CubeRoot(53, 0x3_c19bf174, 0xc19bf174)
  {
  }

  lemma CubeRoots4()
    ensures CubeRoot(59, 0x3_e49b69c1, 0xe49b69c1)
    ensures CubeRoot(61, 0x3_efbe4786, 0xefbe4786)
    ensures CubeRoot(67, 0x4_0fc19dc6, 0x0fc19dc6)
    ensures CubeRoot(71, 0x4_240ca1cc, 0x240ca1cc)
  {
  }

  lemma CubeRoots5()
    ensures CubeRoot(73, 0x4_2de92c6f, 0x2de92c6f)
    ensures CubeRoot(79, 0x4_4a7484aa, 0x4a7484aa)
    ensures CubeRoot(83, 0x4_5cb0a9dc, 0x5cb0a9dc)
    ensures CubeRoot(89, 0x4_76f988da, 0x76f988da)
  {
  }

  lemma CubeRoots6()
    ensures CubeRoot(97, 0x4_983e5152, 0x983e5152)
    ensures CubeRoot(101, 0x4_a831c66d, 0xa831c66d)
    ensures CubeRoot(103, 0x4_b00327c8, 0xb00327c8)
    ensures CubeRoot(107, 0x4_bf597fc7, 0xbf597fc7)
  {
  }

  lemma CubeRoots7()
    ensures CubeRoot(109, 0x4_c6e00bf3, 0xc6e00bf3)
    ensures CubeRoot(113, 0x4_d5a79147, 0xd5a79147)
    ensures CubeRoot(127, 0x5_06ca6351, 0x06ca6351)
    ensures CubeRoot(131, 0x5_14292967, 0x14292967)
  {
  }

  lemma CubeRoots8()
    ensures CubeRoot(137, 0x5_27b70a85, 0x27b70a85)
    ensures CubeRoot(139, 0x5_2e1b2138, 0x2e1b2138)
    ensures CubeRoot(149, 0x5_4d2c6dfc, 0x4d2c6dfc)
    ensures CubeRoot(151, 0x5_53380d13, 0x53380d13)
  {
  }

  lemma CubeRoots9()
    ensures CubeRoot(157, 0x5_650a7354, 0x650a7354)
    ensures CubeRoot(163, 0x5_766a0abb, 0x766a0abb)
    ensures CubeRoot(167, 0x5_81c2c92e, 0x81c2c92e)
    ensures CubeRoot(173, 0x5_92722c85, 0x92722c85)
  {
  }

  lemma CubeRoots10()
    ensures CubeRoot(179, 0x5_a2bfe8a1, 0xa2bfe8a1)
    ensures CubeRoot(181, 0x5_a81a664b, 0xa81a664b)
    ensures CubeRoot(191, 0x5_c24b8b70, 0xc24b8b70)
    ensures CubeRoot(193, 0x5_c76c51a3, 0xc76c51a3)
  {
  }

  lemma CubeRoots11()
    ensures CubeRoot(197, 0x5_d192e819, 0xd192e819)
    ensures CubeRoot(199, 0x5_d6990624, 0xd6990624)
    ensures CubeRoot(211, 0x5_f40e3585, 0xf40e3585)
    ensures CubeRoot(223, 0x6_106aa070, 0x106aa070)
  {
  }

  lemma CubeRoots12()
    ensures CubeRoot(227, 0x6_19a4c116, 0x19a4c116)
    ensures CubeRoot(229, 0x6_1e376c08, 0x1e376c08)
    ensures CubeRoot(233, 0x6_2748774c, 0x2748774c)
    ensures CubeRoot(239, 0x6_34b0bcb5, 0x34b0bcb5)
  {
  }

  lemma CubeRoots13()
    ensures CubeRoot(241, 0x6_391c0cb3, 0x391c0cb3)
    ensures CubeRoot(251, 0x6_4ed8aa4a, 0x4ed8aa4a)
    ensures CubeRoot(257, 0x6_5b9cca4f, 0x5b9cca4f)
    ensures CubeRoot(263, 0x6_682e6ff3, 0x682e6ff3)
  {
  }

  lemma CubeRoots14()
    ensures CubeRoot(269, 0x6_748f82ee, 0x748f82ee)
    ensures CubeRoot(271, 0x6_78a5636f, 0x78a5636f)
    ensures CubeRoot(277, 0x6_84c87814, 0x84c87814)
    ensures CubeRoot(281, 0x6_8cc70208, 0x8cc70208)
  {
  }

  lemma CubeRoots15()
    ensures CubeRoot(283, 0x6_90befffa, 0x90befffa)
    ensures CubeRoot(293, 0x6_a4506ceb, 0xa4506ceb)
    ensures CubeRoot(307, 0x6_bef9a3f7, 0xbef9a3f7)
    ensures CubeRoot(311, 0x6_c67178f2, 0xc67178f2)
  {
  }

  lemma Table0()
    ensures K(0) == 0x428a2f98
    ensures K(1) == 0x71374491
    ensures K(2) == 0xb5c0fbcf
    ensures K(3) == 0xe9b5dba5
  {
  }

  lemma Table1()
    ensures K(4) == 0x3956c25b
    ensures K(5) == 0x59f111f1
    ensures K(6) == 0x923f82a4
    ensures K(7) == 0xab1c5ed5
  {
  }

  lemma Table2()
    ensures K(8) == 0xd807aa98
    ensures K(9) == 0x12835b01
    ensures K(10) == 0x243185be
    ensures K(11) == 0x550c7dc3
  {
  }

  lemma Table3()
    ensures K(12) == 0x72be5d74
    ensures K(13) == 0x80deb1fe
    ensures K(14) == 0x9bdc06a7
    ensures K(15) == 0xc19bf174
  {
  }

  lemma Table4()
    ensures K(16) == 0xe49b69c1
    ensures K(17) == 0xefbe4786
    ensures K(18) == 0x0fc19dc6
    ensures K(19) == 0x240ca1cc
  {
  }

  lemma Table5()
    ensures K(20) == 0x2de92c6f
    ensures K(21) == 0x4a7484aa
    ensures K(22) == 0x5cb0a9dc
    ensures K(23) == 0x76f988da
  {
  }

  lemma Table6()
    ensures K(24) == 0x983e5152
    ensures K(25) == 0xa831c66d
    ensures K(26) == 0xb00327c8
    ensures K(27) == 0xbf597fc7
  {
  }

  lemma Table7()
    ensures K(28) == 0xc6e00bf3
    ensures K(29) == 0xd5a79147
    ensures K(30) == 0x06ca6351
    ensures K(31) == 0x14292967
  {
  }

  lemma Table8()
    ensures K(32) == 0x27b70a85
    ensures K(33) == 0x2e1b2138
    ensures K(34) == 0x4d2c6dfc
    ensures K(35) == 0x53380d13
  {
  }

  lemma Table9()
    ensures K(36) == 0x650a7354
    ensures K(37) == 0x766a0abb
    ensures K(38) == 0x81c2c92e
    ensures K(39) == 0x92722c85
  {
  }

  lemma Table10()
    ensures K(40) == 0xa2bfe8a1
    ensures K(41) == 0xa81a664b
    ensures K(42) == 0xc24b8b70
    ensures K(43) == 0xc76c51a3
  {
  }

  lemma Table11()
    ensures K(44) == 0xd192e819
    ensures K(45) == 0xd6990624
    ensures K(46) == 0xf40e3585
    ensures K(47) == 0x106aa070
  {
  }

  lemma Table12()
    ensures K(48) == 0x19a4c116
    ensures K(49) == 0x1e376c08
    ensures K(50) == 0x2748774c
    ensures K(51) == 0x34b0bcb5
  {
  }

  lemma Table13()
    ensures K(52) == 0x391c0cb3
    ensures K(53) == 0x4ed8aa4a
    ensures K(54) == 0x5b9cca4f
    ensures K(55) == 0x682e6ff3
  {
  }

  lemma Table14()
    ensures K(56) == 0x748f82ee
    ensures K(57) == 0x78a5636f
    ensures K(58) == 0x84c87814
    ensures K(59) == 0x8cc70208
  {
  }

  lemma Table15()
    ensures K(60) == 0x90befffa
    ensures K(61) == 0xa4506ceb
    ensures K(62) == 0xbef9a3f7
    ensures K(63) == 0xc67178f2
  {
  }

  lemma Primes0()
    ensures Prime(0) == 2
    ensures Prime(1) == 3
    ensures Prime(2) == 5
    ensures Prime(3) == 7
    ensures Prime(4) == 11
    ensures Prime(5) == 13
    ensures Prime(6) == 17
    ensures Prime(7) == 19
  {
  }

  lemma Primes1()
    ensures Prime(8) == 23
    ensures Prime(9) == 29
    ensures Prime(10) == 31
    ensures Prime(11) == 37
    ensures Prime(12) == 41
    ensures Prime(13) == 43
    ensures Prime(14) == 47
    ensures Prime(15) == 53
  {
  }

  lemma Primes2()
    ensures Prime(16) == 59
    ensures Prime(17) == 61
    ensures Prime(18) == 67
    ensures Prime(19) == 71
    ensures Prime(20) == 73
    ensures Prime(21) == 79
    ensures Prime(22) == 83
    ensures Prime(23) == 89
  {
  }

  lemma Primes3()
    ensures Prime(24) == 97
    ensures Prime(25) == 101
    ensures Prime(26) == 103
    ensures Prime(27) == 107
    ensures Prime(28) == 109
    ensures Prime(29) == 113
    ensures Prime(30) == 127
    ensures Prime(31) == 131
  {
  }

  lemma Primes4()
    ensures Prime(32) == 137
    ensures Prime(33) == 139
    ensures Prime(34) == 149
    ensures Prime(35) == 151
    ensures Prime(36) == 157
    ensures Prime(37) == 163
    ensures Prime(38) == 167
    ensures Prime(39) == 173
  {
  }

  lemma Primes5()
    ensures Prime(40) == 179
    ensures Prime(41) == 181
    ensures Prime(42) == 191
    ensures Prime(43) == 193
    ensures Prime(44) == 197
    ensures Prime(45) == 199
    ensures Prime(46) == 211
    ensures Prime(47) == 223
  {
  }

  lemma Primes6()
    ensures Prime(48) == 227
    ensures Prime(49) == 229
    ensures Prime(50) == 233
    ensures Prime(51) == 239
    ensures Prime(52) == 241
    ensures Prime(53) == 251
    ensures Prime(54) == 257
    ensures Prime(55) == 263
  {
  }

  lemma Primes7()
    ensures Prime(56) == 269
    ensures Prime(57) == 271
    ensures Prime(58) == 277
    ensures Prime(59) == 281
    ensures Prime(60) == 283
    ensures Prime(61) == 293
    ensures Prime(62) == 307
    ensures Prime(63) == 311
  {
  }

  /** Constant number t is the fraction of the cube root of prime number t. */
  lemma ConstantsAreCubeRoots(t: nat)
    requires t < 64
    ensures exists n: nat :: CubeRoot(Prime(t), n, K(t))
  {
    hide *;
    if t < 4 {
      Table0();
      Primes0();
      CubeRoots0();
    } else if t < 8 {
      Table1();
      Primes0();
      CubeRoots1();
    } else if t < 12 {
      Table2();
      Primes1();
      CubeRoots2();
    } else if t < 16 {
      Table3();
      Primes1();
      CubeRoots3();
    } else if t < 20 {
      Table4();
      Primes2();
      CubeRoots4();
    } else if t < 24 {
      Table5();
      Primes2();
      CubeRoots5();
    } else if t < 28 {
      Table6();
      Primes3();
      CubeRoots6();
    } else if t < 32 {
      Table7();
      Primes3();
      CubeRoots7();
    } else if t < 36 {
      Table8();
      Primes4();
      CubeRoots8();
    } else if t < 40 {
      Table9();
      Primes4();
      CubeRoots9();
    } else if t < 44 {
      Table10();
      Primes5();
      CubeRoots10();
    } else if t < 48 {
      Table11();
      Primes5();
      CubeRoots11();
    } else if t < 52 {
      Table12();
      Primes6();
      CubeRoots12();
    } else if t < 56 {
      Table13();
      Primes6();
      CubeRoots13();
    } else if t < 60 {
      Table14();
      Primes7();
      CubeRoots14();
    } else {
      Table15();
      Primes7();
      CubeRoots15();
    }
  }

  /** The hash value begins with the fractions of the square roots. */
  lemma InitialAreSquareRoots()
    ensures SquareRoot(Prime(0), 0x1_6a09e667, INITIAL.a)
    ensures SquareRoot(Prime(1), 0x1_bb67ae85, INITIAL.b)
    ensures SquareRoot(Prime(2), 0x2_3c6ef372, INITIAL.c)
    ensures SquareRoot(Prime(3), 0x2_a54ff53a, INITIAL.d)
    ensures SquareRoot(Prime(4), 0x3_510e527f, INITIAL.e)
    ensures SquareRoot(Prime(5), 0x3_9b05688c, INITIAL.f)
    ensures SquareRoot(Prime(6), 0x4_1f83d9ab, INITIAL.g)
    ensures SquareRoot(Prime(7), 0x4_5be0cd19, INITIAL.h)
  {
  }
}
