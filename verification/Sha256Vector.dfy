/** The first example the standard's authors give for SHA-256, worked through: the digest of "abc". */
module Sha256Vector {
  import opened Arith
  import opened Sha256

  const ABC: seq<bv8> := [0x61, 0x62, 0x63]

  /** The message and its padding: one block. */
  predicate IsBlock(b: seq<bv8>) {
    && |b| == 64
    && forall i :: 0 <= i < 64 ==>
         b[i] == if i < 3 then ABC[i] else if i == 3 then 0x80 else if i == 63 then 24 else 0
  }

  lemma Quotient(i: nat)
    requires i < 8
    ensures 24 / PLACES[i] % 256 == if i == 7 then 24 else 0
  {
    if i == 7 {
      assert PLACES[7] == 1;
    } else {
      assert PLACES[i] >= 256;
      DivisionIsUnique(24, PLACES[i], 0, 24);
    }
  }

  lemma LengthIs()
    ensures LengthBytes(24) == [0, 0, 0, 0, 0, 0, 0, 24]
  {
    hide PLACES;
    forall i | 0 <= i < 8 ensures LengthBytes(24)[i] == if i == 7 then 24 else 0 {
      Quotient(i);
    }
  }

  lemma BlockIs(m: seq<bv8>)
    requires m == ABC
    ensures |Padding(|m|)| == 61 && IsBlock(m + Padding(|m|))
  {
    PaddingSize(3);
    LengthIs();
    hide LengthBytes;
  }

  /** Word t of the schedule is x. */
  predicate Spells(b: seq<bv8>, t: nat, x: bv32) {
    |b| == 64 && t < 64 && W(b, t) == x
  }

  lemma Words(b: seq<bv8>, t: nat)
    requires IsBlock(b) && t < 16
    ensures Spells(b, t, if t == 0 then 0x61626380 else if t == 15 then 24 else 0)
  {
  }

  // ---------------------------------------------------------------- the schedule

  /** One word from four before it. */
  predicate Follows(x: bv32, a: bv32, b: bv32, c: bv32, d: bv32) {
    x == Sum4(SmallSigma1(a), b, SmallSigma0(c), d)
  }

  lemma WordIs(m: seq<bv8>, t: nat, x: bv32, a: bv32, b: bv32, c: bv32, d: bv32)
    requires 16 <= t < 64 && Follows(x, a, b, c, d)
    requires Spells(m, t - 2, a) && Spells(m, t - 7, b) && Spells(m, t - 15, c) && Spells(m, t - 16, d)
    ensures Spells(m, t, x)
  {
    hide SmallSigma0, SmallSigma1, Sum4;
  }

  lemma Words2(b: seq<bv8>)
    requires IsBlock(b)
    ensures Spells(b, 16, 0x61626380) && Spells(b, 17, 0x000f0000)
    ensures Spells(b, 18, 0x7da86405) && Spells(b, 19, 0x600003c6)
    ensures Spells(b, 20, 0x3e9d7b78) && Spells(b, 21, 0x0183fc00)
    ensures Spells(b, 22, 0x12dcbfdb) && Spells(b, 23, 0xe2e2c38e)
  {
    hide W, IsBlock, Spells;
    Words(b, 0);
    Words(b, 1);
    Words(b, 2);
    Words(b, 3);
    Words(b, 4);
    Words(b, 5);
    Words(b, 6);
    Words(b, 7);
    Words(b, 8);
    Words(b, 9);
    Words(b, 10);
    Words(b, 11);
    Words(b, 12);
    Words(b, 13);
    Words(b, 14);
    Words(b, 15);
    WordIs(b, 16, 0x61626380, 0x00000000, 0x00000000, 0x00000000, 0x61626380);
    WordIs(b, 17, 0x000f0000, 0x00000018, 0x00000000, 0x00000000, 0x00000000);
    WordIs(b, 18, 0x7da86405, 0x61626380, 0x00000000, 0x00000000, 0x00000000);
    WordIs(b, 19, 0x600003c6, 0x000f0000, 0x00000000, 0x00000000, 0x00000000);
    WordIs(b, 20, 0x3e9d7b78, 0x7da86405, 0x00000000, 0x00000000, 0x00000000);
    WordIs(b, 21, 0x0183fc00, 0x600003c6, 0x00000000, 0x00000000, 0x00000000);
    WordIs(b, 22, 0x12dcbfdb, 0x3e9d7b78, 0x00000018, 0x00000000, 0x00000000);
    WordIs(b, 23, 0xe2e2c38e, 0x0183fc00, 0x61626380, 0x00000000, 0x00000000);
  }

  lemma Words3(b: seq<bv8>)
    requires IsBlock(b)
    ensures Spells(b, 24, 0xc8215c1a) && Spells(b, 25, 0xb73679a2)
    ensures Spells(b, 26, 0xe5bc3909) && Spells(b, 27, 0x32663c5b)
    ensures Spells(b, 28, 0x9d209d67) && Spells(b, 29, 0xec8726cb)
    ensures Spells(b, 30, 0x702138a4) && Spells(b, 31, 0xd3b7973b)
  {
    hide W, IsBlock, Spells;
    Words(b, 8);
    Words(b, 9);
    Words(b, 10);
    Words(b, 11);
    Words(b, 12);
    Words(b, 13);
    Words(b, 14);
    Words(b, 15);
    Words2(b);
    WordIs(b, 24, 0xc8215c1a, 0x12dcbfdb, 0x000f0000, 0x00000000, 0x00000000);
    WordIs(b, 25, 0xb73679a2, 0xe2e2c38e, 0x7da86405, 0x00000000, 0x00000000);
    WordIs(b, 26, 0xe5bc3909, 0xc8215c1a, 0x600003c6, 0x00000000, 0x00000000);
    WordIs(b, 27, 0x32663c5b, 0xb73679a2, 0x3e9d7b78, 0x00000000, 0x00000000);
    WordIs(b, 28, 0x9d209d67, 0xe5bc3909, 0x0183fc00, 0x00000000, 0x00000000);
    WordIs(b, 29, 0xec8726cb, 0x32663c5b, 0x12dcbfdb, 0x00000000, 0x00000000);
    WordIs(b, 30, 0x702138a4, 0x9d209d67, 0xe2e2c38e, 0x00000018, 0x00000000);
    WordIs(b, 31, 0xd3b7973b, 0xec8726cb, 0xc8215c1a, 0x61626380, 0x00000018);
  }

  lemma Words4(b: seq<bv8>)
    requires IsBlock(b)
    ensures Spells(b, 32, 0x93f5997f) && Spells(b, 33, 0x3b68ba73)
    ensures Spells(b, 34, 0xaff4ffc1) && Spells(b, 35, 0xf10a5c62)
    ensures Spells(b, 36, 0x0a8b3996) && Spells(b, 37, 0x72af830a)
    ensures Spells(b, 38, 0x9409e33e) && Spells(b, 39, 0x24641522)
  {
    hide W, IsBlock, Spells;
    Words2(b);
    Words3(b);
    WordIs(b, 32, 0x93f5997f, 0x702138a4, 0xb73679a2, 0x000f0000, 0x61626380);
    WordIs(b, 33, 0x3b68ba73, 0xd3b7973b, 0xe5bc3909, 0x7da86405, 0x000f0000);
    WordIs(b, 34, 0xaff4ffc1, 0x93f5997f, 0x32663c5b, 0x600003c6, 0x7da86405);
    WordIs(b, 35, 0xf10a5c62, 0x3b68ba73, 0x9d209d67, 0x3e9d7b78, 0x600003c6);
    WordIs(b, 36, 0x0a8b3996, 0xaff4ffc1, 0xec8726cb, 0x0183fc00, 0x3e9d7b78);
    WordIs(b, 37, 0x72af830a, 0xf10a5c62, 0x702138a4, 0x12dcbfdb, 0x0183fc00);
    WordIs(b, 38, 0x9409e33e, 0x0a8b3996, 0xd3b7973b, 0xe2e2c38e, 0x12dcbfdb);
    WordIs(b, 39, 0x24641522, 0x72af830a, 0x93f5997f, 0xc8215c1a, 0xe2e2c38e);
  }

  lemma Words5(b: seq<bv8>)
    requires IsBlock(b)
    ensures Spells(b, 40, 0x9f47bf94) && Spells(b, 41, 0xf0a64f5a)
    ensures Spells(b, 42, 0x3e246a79) && Spells(b, 43, 0x27333ba3)
    ensures Spells(b, 44, 0x0c4763f2) && Spells(b, 45, 0x840abf27)
    ensures Spells(b, 46, 0x7a290d5d) && Spells(b, 47, 0x065c43da)
  {
    hide W, IsBlock, Spells;
    Words3(b);
    Words4(b);
    WordIs(b, 40, 0x9f47bf94, 0x9409e33e, 0x3b68ba73, 0xb73679a2, 0xc8215c1a);
    WordIs(b, 41, 0xf0a64f5a, 0x24641522, 0xaff4ffc1, 0xe5bc3909, 0xb73679a2);
    WordIs(b, 42, 0x3e246a79, 0x9f47bf94, 0xf10a5c62, 0x32663c5b, 0xe5bc3909);
    WordIs(b, 43, 0x27333ba3, 0xf0a64f5a, 0x0a8b3996, 0x9d209d67, 0x32663c5b);
    WordIs(b, 44, 0x0c4763f2, 0x3e246a79, 0x72af830a, 0xec8726cb, 0x9d209d67);
    WordIs(b, 45, 0x840abf27, 0x27333ba3, 0x9409e33e, 0x702138a4, 0xec8726cb);
    WordIs(b, 46, 0x7a290d5d, 0x0c4763f2, 0x24641522, 0xd3b7973b, 0x702138a4);
    WordIs(b, 47, 0x065c43da, 0x840abf27, 0x9f47bf94, 0x93f5997f, 0xd3b7973b);
  }

  lemma Words6(b: seq<bv8>)
    requires IsBlock(b)
    ensures Spells(b, 48, 0xfb3e89cb) && Spells(b, 49, 0xcc7617db)
    ensures Spells(b, 50, 0xb9e66c34) && Spells(b, 51, 0xa9993667)
    ensures Spells(b, 52, 0x84badedd) && Spells(b, 53, 0xc21462bc)
    ensures Spells(b, 54, 0x1487472c) && Spells(b, 55, 0xb20f7a99)
  {
    hide W, IsBlock, Spells;
    Words4(b);
    Words5(b);
    WordIs(b, 48, 0xfb3e89cb, 0x7a290d5d, 0xf0a64f5a, 0x3b68ba73, 0x93f5997f);
    WordIs(b, 49, 0xcc7617db, 0x065c43da, 0x3e246a79, 0xaff4ffc1, 0x3b68ba73);
    WordIs(b, 50, 0xb9e66c34, 0xfb3e89cb, 0x27333ba3, 0xf10a5c62, 0xaff4ffc1);
    WordIs(b, 51, 0xa9993667, 0xcc7617db, 0x0c4763f2, 0x0a8b3996, 0xf10a5c62);
    WordIs(b, 52, 0x84badedd, 0xb9e66c34, 0x840abf27, 0x72af830a, 0x0a8b3996);
    WordIs(b, 53, 0xc21462bc, 0xa9993667, 0x7a290d5d, 0x9409e33e, 0x72af830a);
    WordIs(b, 54, 0x1487472c, 0x84badedd, 0x065c43da, 0x24641522, 0x9409e33e);
    WordIs(b, 55, 0xb20f7a99, 0xc21462bc, 0xfb3e89cb, 0x9f47bf94, 0x24641522);
  }

  lemma Words7(b: seq<bv8>)
    requires IsBlock(b)
    ensures Spells(b, 56, 0xef57b9cd) && Spells(b, 57, 0xebe6b238)
    ensures Spells(b, 58, 0x9fe3095e) && Spells(b, 59, 0x78bc8d4b)
    ensures Spells(b, 60, 0xa43fcf15) && Spells(b, 61, 0x668b2ff8)
    ensures Spells(b, 62, 0xeeaba2cc) && Spells(b, 63, 0x12b1edeb)
  {
    hide W, IsBlock, Spells;
    Words5(b);
    Words6(b);
    WordIs(b, 56, 0xef57b9cd, 0x1487472c, 0xcc7617db, 0xf0a64f5a, 0x9f47bf94);
    WordIs(b, 57, 0xebe6b238, 0xb20f7a99, 0xb9e66c34, 0x3e246a79, 0xf0a64f5a);
    WordIs(b, 58, 0x9fe3095e, 0xef57b9cd, 0xa9993667, 0x27333ba3, 0x3e246a79);
    WordIs(b, 59, 0x78bc8d4b, 0xebe6b238, 0x84badedd, 0x0c4763f2, 0x27333ba3);
    WordIs(b, 60, 0xa43fcf15, 0x9fe3095e, 0xc21462bc, 0x840abf27, 0x0c4763f2);
    WordIs(b, 61, 0x668b2ff8, 0x78bc8d4b, 0x1487472c, 0x7a290d5d, 0x840abf27);
    WordIs(b, 62, 0xeeaba2cc, 0xa43fcf15, 0xb20f7a99, 0x065c43da, 0x7a290d5d);
    WordIs(b, 63, 0x12b1edeb, 0x668b2ff8, 0xef57b9cd, 0xfb3e89cb, 0x065c43da);
  }

  // ---------------------------------------------------------------- the rounds

  lemma RoundIs(b: seq<bv8>, t: nat, k: bv32, w: bv32)
    requires t < 64 && K(t) == k && Spells(b, t, w)
    ensures Rounds(INITIAL, b, t + 1) == Round(Rounds(INITIAL, b, t), k, w)
  {
    hide W, K, Round;
  }

  lemma NoRounds(b: seq<bv8>)
    requires |b| == 64
    ensures Rounds(INITIAL, b, 0)
            == Hash(0x6a09e667, 0xbb67ae85, 0x3c6ef372, 0xa54ff53a, 0x510e527f, 0x9b05688c, 0x1f83d9ab, 0x5be0cd19)
  {
  }

  lemma KeysAre(i: nat, row: seq<bv32>)
    requires i < 8 && K_ROWS[i] == row && |row| == 8
    ensures forall j :: 0 <= j < 8 ==> K(8 * i + j) == row[j]
  {
    hide K_ROWS;
  }

  lemma Keys0()
    ensures K(0) == 0x428a2f98 && K(1) == 0x71374491
    ensures K(2) == 0xb5c0fbcf && K(3) == 0xe9b5dba5
    ensures K(4) == 0x3956c25b && K(5) == 0x59f111f1
    ensures K(6) == 0x923f82a4 && K(7) == 0xab1c5ed5
  {
    var row := K_ROWS[0];
    assert row == [0x428a2f98, 0x71374491, 0xb5c0fbcf, 0xe9b5dba5, 0x3956c25b, 0x59f111f1, 0x923f82a4, 0xab1c5ed5];
    hide K_ROWS, K;
    KeysAre(0, row);
  }

  lemma Keys1()
    ensures K(8) == 0xd807aa98 && K(9) == 0x12835b01
    ensures K(10) == 0x243185be && K(11) == 0x550c7dc3
    ensures K(12) == 0x72be5d74 && K(13) == 0x80deb1fe
    ensures K(14) == 0x9bdc06a7 && K(15) == 0xc19bf174
  {
    var row := K_ROWS[1];
    assert row == [0xd807aa98, 0x12835b01, 0x243185be, 0x550c7dc3, 0x72be5d74, 0x80deb1fe, 0x9bdc06a7, 0xc19bf174];
    hide K_ROWS, K;
    KeysAre(1, row);
  }

  lemma Keys2()
    ensures K(16) == 0xe49b69c1 && K(17) == 0xefbe4786
    ensures K(18) == 0x0fc19dc6 && K(19) == 0x240ca1cc
    ensures K(20) == 0x2de92c6f && K(21) == 0x4a7484aa
    ensures K(22) == 0x5cb0a9dc && K(23) == 0x76f988da
  {
    var row := K_ROWS[2];
    assert row == [0xe49b69c1, 0xefbe4786, 0x0fc19dc6, 0x240ca1cc, 0x2de92c6f, 0x4a7484aa, 0x5cb0a9dc, 0x76f988da];
    hide K_ROWS, K;
    KeysAre(2, row);
  }

  lemma Keys3()
    ensures K(24) == 0x983e5152 && K(25) == 0xa831c66d
    ensures K(26) == 0xb00327c8 && K(27) == 0xbf597fc7
    ensures K(28) == 0xc6e00bf3 && K(29) == 0xd5a79147
    ensures K(30) == 0x06ca6351 && K(31) == 0x14292967
  {
    var row := K_ROWS[3];
    assert row == [0x983e5152, 0xa831c66d, 0xb00327c8, 0xbf597fc7, 0xc6e00bf3, 0xd5a79147, 0x06ca6351, 0x14292967];
    hide K_ROWS, K;
    KeysAre(3, row);
  }

  lemma Keys4()
    ensures K(32) == 0x27b70a85 && K(33) == 0x2e1b2138
    ensures K(34) == 0x4d2c6dfc && K(35) == 0x53380d13
    ensures K(36) == 0x650a7354 && K(37) == 0x766a0abb
    ensures K(38) == 0x81c2c92e && K(39) == 0x92722c85
  {
    var row := K_ROWS[4];
    assert row == [0x27b70a85, 0x2e1b2138, 0x4d2c6dfc, 0x53380d13, 0x650a7354, 0x766a0abb, 0x81c2c92e, 0x92722c85];
    hide K_ROWS, K;
    KeysAre(4, row);
  }

  lemma Keys5()
    ensures K(40) == 0xa2bfe8a1 && K(41) == 0xa81a664b
    ensures K(42) == 0xc24b8b70 && K(43) == 0xc76c51a3
    ensures K(44) == 0xd192e819 && K(45) == 0xd6990624
    ensures K(46) == 0xf40e3585 && K(47) == 0x106aa070
  {
    var row := K_ROWS[5];
    assert row == [0xa2bfe8a1, 0xa81a664b, 0xc24b8b70, 0xc76c51a3, 0xd192e819, 0xd6990624, 0xf40e3585, 0x106aa070];
    hide K_ROWS, K;
    KeysAre(5, row);
  }

  lemma Keys6()
    ensures K(48) == 0x19a4c116 && K(49) == 0x1e376c08
    ensures K(50) == 0x2748774c && K(51) == 0x34b0bcb5
    ensures K(52) == 0x391c0cb3 && K(53) == 0x4ed8aa4a
    ensures K(54) == 0x5b9cca4f && K(55) == 0x682e6ff3
  {
    var row := K_ROWS[6];
    assert row == [0x19a4c116, 0x1e376c08, 0x2748774c, 0x34b0bcb5, 0x391c0cb3, 0x4ed8aa4a, 0x5b9cca4f, 0x682e6ff3];
    hide K_ROWS, K;
    KeysAre(6, row);
  }

  lemma Keys7()
    ensures K(56) == 0x748f82ee && K(57) == 0x78a5636f
    ensures K(58) == 0x84c87814 && K(59) == 0x8cc70208
    ensures K(60) == 0x90befffa && K(61) == 0xa4506ceb
    ensures K(62) == 0xbef9a3f7 && K(63) == 0xc67178f2
  {
    var row := K_ROWS[7];
    assert row == [0x748f82ee, 0x78a5636f, 0x84c87814, 0x8cc70208, 0x90befffa, 0xa4506ceb, 0xbef9a3f7, 0xc67178f2];
    hide K_ROWS, K;
    KeysAre(7, row);
  }

  lemma Turns0()
    ensures Round(Hash(0x6a09e667, 0xbb67ae85, 0x3c6ef372, 0xa54ff53a, 0x510e527f, 0x9b05688c, 0x1f83d9ab, 0x5be0cd19),
                  0x428a2f98, 0x61626380)
            == Hash(0x5d6aebcd, 0x6a09e667, 0xbb67ae85, 0x3c6ef372, 0xfa2a4622, 0x510e527f, 0x9b05688c, 0x1f83d9ab)
    ensures Round(Hash(0x5d6aebcd, 0x6a09e667, 0xbb67ae85, 0x3c6ef372, 0xfa2a4622, 0x510e527f, 0x9b05688c, 0x1f83d9ab),
                  0x71374491, 0x00000000)
            == Hash(0x5a6ad9ad, 0x5d6aebcd, 0x6a09e667, 0xbb67ae85, 0x78ce7989, 0xfa2a4622, 0x510e527f, 0x9b05688c)
    ensures Round(Hash(0x5a6ad9ad, 0x5d6aebcd, 0x6a09e667, 0xbb67ae85, 0x78ce7989, 0xfa2a4622, 0x510e527f, 0x9b05688c),
                  0xb5c0fbcf, 0x00000000)
            == Hash(0xc8c347a7, 0x5a6ad9ad, 0x5d6aebcd, 0x6a09e667, 0xf92939eb, 0x78ce7989, 0xfa2a4622, 0x510e527f)
    ensures Round(Hash(0xc8c347a7, 0x5a6ad9ad, 0x5d6aebcd, 0x6a09e667, 0xf92939eb, 0x78ce7989, 0xfa2a4622, 0x510e527f),
                  0xe9b5dba5, 0x00000000)
            == Hash(0xd550f666, 0xc8c347a7, 0x5a6ad9ad, 0x5d6aebcd, 0x24e00850, 0xf92939eb, 0x78ce7989, 0xfa2a4622)
  {
  }

  lemma Turns1()
    ensures Round(Hash(0xd550f666, 0xc8c347a7, 0x5a6ad9ad, 0x5d6aebcd, 0x24e00850, 0xf92939eb, 0x78ce7989, 0xfa2a4622),
                  0x3956c25b, 0x00000000)
            == Hash(0x04409a6a, 0xd550f666, 0xc8c347a7, 0x5a6ad9ad, 0x43ada245, 0x24e00850, 0xf92939eb, 0x78ce7989)
    ensures Round(Hash(0x04409a6a, 0xd550f666, 0xc8c347a7, 0x5a6ad9ad, 0x43ada245, 0x24e00850, 0xf92939eb, 0x78ce7989),
                  0x59f111f1, 0x00000000)
            == Hash(0x2b4209f5, 0x04409a6a, 0xd550f666, 0xc8c347a7, 0x714260ad, 0x43ada245, 0x24e00850, 0xf92939eb)
    ensures Round(Hash(0x2b4209f5, 0x04409a6a, 0xd550f666, 0xc8c347a7, 0x714260ad, 0x43ada245, 0x24e00850, 0xf92939eb),
                  0x923f82a4, 0x00000000)
            == Hash(0xe5030380, 0x2b4209f5, 0x04409a6a, 0xd550f666, 0x9b27a401, 0x714260ad, 0x43ada245, 0x24e00850)
    ensures Round(Hash(0xe5030380, 0x2b4209f5, 0x04409a6a, 0xd550f666, 0x9b27a401, 0x714260ad, 0x43ada245, 0x24e00850),
                  0xab1c5ed5, 0x00000000)
            == Hash(0x85a07b5f, 0xe5030380, 0x2b4209f5, 0x04409a6a, 0x0c657a79, 0x9b27a401, 0x714260ad, 0x43ada245)
  {
  }

  lemma Turns2()
    ensures Round(Hash(0x85a07b5f, 0xe5030380, 0x2b4209f5, 0x04409a6a, 0x0c657a79, 0x9b27a401, 0x714260ad, 0x43ada245),
                  0xd807aa98, 0x00000000)
            == Hash(0x8e04ecb9, 0x85a07b5f, 0xe5030380, 0x2b4209f5, 0x32ca2d8c, 0x0c657a79, 0x9b27a401, 0x714260ad)
    ensures Round(Hash(0x8e04ecb9, 0x85a07b5f, 0xe5030380, 0x2b4209f5, 0x32ca2d8c, 0x0c657a79, 0x9b27a401, 0x714260ad),
                  0x12835b01, 0x00000000)
            == Hash(0x8c87346b, 0x8e04ecb9, 0x85a07b5f, 0xe5030380, 0x1cc92596, 0x32ca2d8c, 0x0c657a79, 0x9b27a401)
    ensures Round(Hash(0x8c87346b, 0x8e04ecb9, 0x85a07b5f, 0xe5030380, 0x1cc92596, 0x32ca2d8c, 0x0c657a79, 0x9b27a401),
                  0x243185be, 0x00000000)
            == Hash(0x4798a3f4, 0x8c87346b, 0x8e04ecb9, 0x85a07b5f, 0x436b23e8, 0x1cc92596, 0x32ca2d8c, 0x0c657a79)
    ensures Round(Hash(0x4798a3f4, 0x8c87346b, 0x8e04ecb9, 0x85a07b5f, 0x436b23e8, 0x1cc92596, 0x32ca2d8c, 0x0c657a79),
                  0x550c7dc3, 0x00000000)
            == Hash(0xf71fc5a9, 0x4798a3f4, 0x8c87346b, 0x8e04ecb9, 0x816fd6e9, 0x436b23e8, 0x1cc92596, 0x32ca2d8c)
  {
  }

  lemma Turns3()
    ensures Round(Hash(0xf71fc5a9, 0x4798a3f4, 0x8c87346b, 0x8e04ecb9, 0x816fd6e9, 0x436b23e8, 0x1cc92596, 0x32ca2d8c),
                  0x72be5d74, 0x00000000)
            == Hash(0x87912990, 0xf71fc5a9, 0x4798a3f4, 0x8c87346b, 0x1e578218, 0x816fd6e9, 0x436b23e8, 0x1cc92596)
    ensures Round(Hash(0x87912990, 0xf71fc5a9, 0x4798a3f4, 0x8c87346b, 0x1e578218, 0x816fd6e9, 0x436b23e8, 0x1cc92596),
                  0x80deb1fe, 0x00000000)
            == Hash(0xd932eb16, 0x87912990, 0xf71fc5a9, 0x4798a3f4, 0x745a48de, 0x1e578218, 0x816fd6e9, 0x436b23e8)
    ensures Round(Hash(0xd932eb16, 0x87912990, 0xf71fc5a9, 0x4798a3f4, 0x745a48de, 0x1e578218, 0x816fd6e9, 0x436b23e8),
                  0x9bdc06a7, 0x00000000)
            == Hash(0xc0645fde, 0xd932eb16, 0x87912990, 0xf71fc5a9, 0x0b92f20c, 0x745a48de, 0x1e578218, 0x816fd6e9)
    ensures Round(Hash(0xc0645fde, 0xd932eb16, 0x87912990, 0xf71fc5a9, 0x0b92f20c, 0x745a48de, 0x1e578218, 0x816fd6e9),
                  0xc19bf174, 0x00000018)
            == Hash(0xb0fa238e, 0xc0645fde, 0xd932eb16, 0x87912990, 0x07590dcd, 0x0b92f20c, 0x745a48de, 0x1e578218)
  {
  }

  lemma Turns4()
    ensures Round(Hash(0xb0fa238e, 0xc0645fde, 0xd932eb16, 0x87912990, 0x07590dcd, 0x0b92f20c, 0x745a48de, 0x1e578218),
                  0xe49b69c1, 0x61626380)
            == Hash(0x21da9a9b, 0xb0fa238e, 0xc0645fde, 0xd932eb16, 0x8034229c, 0x07590dcd, 0x0b92f20c, 0x745a48de)
    ensures Round(Hash(0x21da9a9b, 0xb0fa238e, 0xc0645fde, 0xd932eb16, 0x8034229c, 0x07590dcd, 0x0b92f20c, 0x745a48de),
                  0xefbe4786, 0x000f0000)
            == Hash(0xc2fbd9d1, 0x21da9a9b, 0xb0fa238e, 0xc0645fde, 0x846ee454, 0x8034229c, 0x07590dcd, 0x0b92f20c)
    ensures Round(Hash(0xc2fbd9d1, 0x21da9a9b, 0xb0fa238e, 0xc0645fde, 0x846ee454, 0x8034229c, 0x07590dcd, 0x0b92f20c),
                  0x0fc19dc6, 0x7da86405)
            == Hash(0xfe777bbf, 0xc2fbd9d1, 0x21da9a9b, 0xb0fa238e, 0xcc899961, 0x846ee454, 0x8034229c, 0x07590dcd)
    ensures Round(Hash(0xfe777bbf, 0xc2fbd9d1, 0x21da9a9b, 0xb0fa238e, 0xcc899961, 0x846ee454, 0x8034229c, 0x07590dcd),
                  0x240ca1cc, 0x600003c6)
            == Hash(0xe1f20c33, 0xfe777bbf, 0xc2fbd9d1, 0x21da9a9b, 0xb0638179, 0xcc899961, 0x846ee454, 0x8034229c)
  {
  }

  lemma Turns5()
    ensures Round(Hash(0xe1f20c33, 0xfe777bbf, 0xc2fbd9d1, 0x21da9a9b, 0xb0638179, 0xcc899961, 0x846ee454, 0x8034229c),
                  0x2de92c6f, 0x3e9d7b78)
            == Hash(0x9dc68b63, 0xe1f20c33, 0xfe777bbf, 0xc2fbd9d1, 0x8ada8930, 0xb0638179, 0xcc899961, 0x846ee454)
    ensures Round(Hash(0x9dc68b63, 0xe1f20c33, 0xfe777bbf, 0xc2fbd9d1, 0x8ada8930, 0xb0638179, 0xcc899961, 0x846ee454),
                  0x4a7484aa, 0x0183fc00)
            == Hash(0xc2606d6d, 0x9dc68b63, 0xe1f20c33, 0xfe777bbf, 0xe1257970, 0x8ada8930, 0xb0638179, 0xcc899961)
    ensures Round(Hash(0xc2606d6d, 0x9dc68b63, 0xe1f20c33, 0xfe777bbf, 0xe1257970, 0x8ada8930, 0xb0638179, 0xcc899961),
                  0x5cb0a9dc, 0x12dcbfdb)
            == Hash(0xa7a3623f, 0xc2606d6d, 0x9dc68b63, 0xe1f20c33, 0x49f5114a, 0xe1257970, 0x8ada8930, 0xb0638179)
    ensures Round(Hash(0xa7a3623f, 0xc2606d6d, 0x9dc68b63, 0xe1f20c33, 0x49f5114a, 0xe1257970, 0x8ada8930, 0xb0638179),
                  0x76f988da, 0xe2e2c38e)
            == Hash(0xc5d53d8d, 0xa7a3623f, 0xc2606d6d, 0x9dc68b63, 0xaa47c347, 0x49f5114a, 0xe1257970, 0x8ada8930)
  {
  }

  lemma Turns6()
    ensures Round(Hash(0xc5d53d8d, 0xa7a3623f, 0xc2606d6d, 0x9dc68b63, 0xaa47c347, 0x49f5114a, 0xe1257970, 0x8ada8930),
                  0x983e5152, 0xc8215c1a)
            == Hash(0x1c2c2838, 0xc5d53d8d, 0xa7a3623f, 0xc2606d6d, 0x2823ef91, 0xaa47c347, 0x49f5114a, 0xe1257970)
    ensures Round(Hash(0x1c2c2838, 0xc5d53d8d, 0xa7a3623f, 0xc2606d6d, 0x2823ef91, 0xaa47c347, 0x49f5114a, 0xe1257970),
                  0xa831c66d, 0xb73679a2)
            == Hash(0xcde8037d, 0x1c2c2838, 0xc5d53d8d, 0xa7a3623f, 0x14383d8e, 0x2823ef91, 0xaa47c347, 0x49f5114a)
    ensures Round(Hash(0xcde8037d, 0x1c2c2838, 0xc5d53d8d, 0xa7a3623f, 0x14383d8e, 0x2823ef91, 0xaa47c347, 0x49f5114a),
                  0xb00327c8, 0xe5bc3909)
            == Hash(0xb62ec4bc, 0xcde8037d, 0x1c2c2838, 0xc5d53d8d, 0xc74c6516, 0x14383d8e, 0x2823ef91, 0xaa47c347)
    ensures Round(Hash(0xb62ec4bc, 0xcde8037d, 0x1c2c2838, 0xc5d53d8d, 0xc74c6516, 0x14383d8e, 0x2823ef91, 0xaa47c347),
                  0xbf597fc7, 0x32663c5b)
            == Hash(0x77d37528, 0xb62ec4bc, 0xcde8037d, 0x1c2c2838, 0xedffbff8, 0xc74c6516, 0x14383d8e, 0x2823ef91)
  {
  }

  lemma Turns7()
    ensures Round(Hash(0x77d37528, 0xb62ec4bc, 0xcde8037d, 0x1c2c2838, 0xedffbff8, 0xc74c6516, 0x14383d8e, 0x2823ef91),
                  0xc6e00bf3, 0x9d209d67)
            == Hash(0x363482c9, 0x77d37528, 0xb62ec4bc, 0xcde8037d, 0x6112a3b7, 0xedffbff8, 0xc74c6516, 0x14383d8e)
    ensures Round(Hash(0x363482c9, 0x77d37528, 0xb62ec4bc, 0xcde8037d, 0x6112a3b7, 0xedffbff8, 0xc74c6516, 0x14383d8e),
                  0xd5a79147, 0xec8726cb)
            == Hash(0xa0060b30, 0x363482c9, 0x77d37528, 0xb62ec4bc, 0xade79437, 0x6112a3b7, 0xedffbff8, 0xc74c6516)
    ensures Round(Hash(0xa0060b30, 0x363482c9, 0x77d37528, 0xb62ec4bc, 0xade79437, 0x6112a3b7, 0xedffbff8, 0xc74c6516),
                  0x06ca6351, 0x702138a4)
            == Hash(0xea992a22, 0xa0060b30, 0x363482c9, 0x77d37528, 0x0109ab3a, 0xade79437, 0x6112a3b7, 0xedffbff8)
    ensures Round(Hash(0xea992a22, 0xa0060b30, 0x363482c9, 0x77d37528, 0x0109ab3a, 0xade79437, 0x6112a3b7, 0xedffbff8),
                  0x14292967, 0xd3b7973b)
            == Hash(0x73b33bf5, 0xea992a22, 0xa0060b30, 0x363482c9, 0xba591112, 0x0109ab3a, 0xade79437, 0x6112a3b7)
  {
  }

  lemma Turns8()
    ensures Round(Hash(0x73b33bf5, 0xea992a22, 0xa0060b30, 0x363482c9, 0xba591112, 0x0109ab3a, 0xade79437, 0x6112a3b7),
                  0x27b70a85, 0x93f5997f)
            == Hash(0x98e12507, 0x73b33bf5, 0xea992a22, 0xa0060b30, 0x9cd9f5f6, 0xba591112, 0x0109ab3a, 0xade79437)
    ensures Round(Hash(0x98e12507, 0x73b33bf5, 0xea992a22, 0xa0060b30, 0x9cd9f5f6, 0xba591112, 0x0109ab3a, 0xade79437),
                  0x2e1b2138, 0x3b68ba73)
            == Hash(0xfe604df5, 0x98e12507, 0x73b33bf5, 0xea992a22, 0x59249dd3, 0x9cd9f5f6, 0xba591112, 0x0109ab3a)
    ensures Round(Hash(0xfe604df5, 0x98e12507, 0x73b33bf5, 0xea992a22, 0x59249dd3, 0x9cd9f5f6, 0xba591112, 0x0109ab3a),
                  0x4d2c6dfc, 0xaff4ffc1)
            == Hash(0xa9a7738c, 0xfe604df5, 0x98e12507, 0x73b33bf5, 0x085f3833, 0x59249dd3, 0x9cd9f5f6, 0xba591112)
    ensures Round(Hash(0xa9a7738c, 0xfe604df5, 0x98e12507, 0x73b33bf5, 0x085f3833, 0x59249dd3, 0x9cd9f5f6, 0xba591112),
                  0x53380d13, 0xf10a5c62)
            == Hash(0x65a0cfe4, 0xa9a7738c, 0xfe604df5, 0x98e12507, 0xf4b002d6, 0x085f3833, 0x59249dd3, 0x9cd9f5f6)
  {
  }

  lemma Turns9()
    ensures Round(Hash(0x65a0cfe4, 0xa9a7738c, 0xfe604df5, 0x98e12507, 0xf4b002d6, 0x085f3833, 0x59249dd3, 0x9cd9f5f6),
                  0x650a7354, 0x0a8b3996)
            == Hash(0x41a65cb1, 0x65a0cfe4, 0xa9a7738c, 0xfe604df5, 0x0772a26b, 0xf4b002d6, 0x085f3833, 0x59249dd3)
    ensures Round(Hash(0x41a65cb1, 0x65a0cfe4, 0xa9a7738c, 0xfe604df5, 0x0772a26b, 0xf4b002d6, 0x085f3833, 0x59249dd3),
                  0x766a0abb, 0x72af830a)
            == Hash(0x34df1604, 0x41a65cb1, 0x65a0cfe4, 0xa9a7738c, 0xa507a53d, 0x0772a26b, 0xf4b002d6, 0x085f3833)
    ensures Round(Hash(0x34df1604, 0x41a65cb1, 0x65a0cfe4, 0xa9a7738c, 0xa507a53d, 0x0772a26b, 0xf4b002d6, 0x085f3833),
                  0x81c2c92e, 0x9409e33e)
            == Hash(0x6dc57a8a, 0x34df1604, 0x41a65cb1, 0x65a0cfe4, 0xf0781bc8, 0xa507a53d, 0x0772a26b, 0xf4b002d6)
    ensures Round(Hash(0x6dc57a8a, 0x34df1604, 0x41a65cb1, 0x65a0cfe4, 0xf0781bc8, 0xa507a53d, 0x0772a26b, 0xf4b002d6),
                  0x92722c85, 0x24641522)
            == Hash(0x79ea687a, 0x6dc57a8a, 0x34df1604, 0x41a65cb1, 0x1efbc0a0, 0xf0781bc8, 0xa507a53d, 0x0772a26b)
  {
  }

  lemma Turns10()
    ensures Round(Hash(0x79ea687a, 0x6dc57a8a, 0x34df1604, 0x41a65cb1, 0x1efbc0a0, 0xf0781bc8, 0xa507a53d, 0x0772a26b),
                  0xa2bfe8a1, 0x9f47bf94)
            == Hash(0xd6670766, 0x79ea687a, 0x6dc57a8a, 0x34df1604, 0x26352d63, 0x1efbc0a0, 0xf0781bc8, 0xa507a53d)
    ensures Round(Hash(0xd6670766, 0x79ea687a, 0x6dc57a8a, 0x34df1604, 0x26352d63, 0x1efbc0a0, 0xf0781bc8, 0xa507a53d),
                  0xa81a664b, 0xf0a64f5a)
            == Hash(0xdf46652f, 0xd6670766, 0x79ea687a, 0x6dc57a8a, 0x838b2711, 0x26352d63, 0x1efbc0a0, 0xf0781bc8)
    ensures Round(Hash(0xdf46652f, 0xd6670766, 0x79ea687a, 0x6dc57a8a, 0x838b2711, 0x26352d63, 0x1efbc0a0, 0xf0781bc8),
                  0xc24b8b70, 0x3e246a79)
            == Hash(0x17aa0dfe, 0xdf46652f, 0xd6670766, 0x79ea687a, 0xdecd4715, 0x838b2711, 0x26352d63, 0x1efbc0a0)
    ensures Round(Hash(0x17aa0dfe, 0xdf46652f, 0xd6670766, 0x79ea687a, 0xdecd4715, 0x838b2711, 0x26352d63, 0x1efbc0a0),
                  0xc76c51a3, 0x27333ba3)
            == Hash(0x9d4baf93, 0x17aa0dfe, 0xdf46652f, 0xd6670766, 0xfda24c2e, 0xdecd4715, 0x838b2711, 0x26352d63)
  {
  }

  lemma Turns11()
    ensures Round(Hash(0x9d4baf93, 0x17aa0dfe, 0xdf46652f, 0xd6670766, 0xfda24c2e, 0xdecd4715, 0x838b2711, 0x26352d63),
                  0xd192e819, 0x0c4763f2)
            == Hash(0x26628815, 0x9d4baf93, 0x17aa0dfe, 0xdf46652f, 0xa80f11f0, 0xfda24c2e, 0xdecd4715, 0x838b2711)
    ensures Round(Hash(0x26628815, 0x9d4baf93, 0x17aa0dfe, 0xdf46652f, 0xa80f11f0, 0xfda24c2e, 0xdecd4715, 0x838b2711),
                  0xd6990624, 0x840abf27)
            == Hash(0x72ab4b91, 0x26628815, 0x9d4baf93, 0x17aa0dfe, 0xb7755da1, 0xa80f11f0, 0xfda24c2e, 0xdecd4715)
    ensures Round(Hash(0x72ab4b91, 0x26628815, 0x9d4baf93, 0x17aa0dfe, 0xb7755da1, 0xa80f11f0, 0xfda24c2e, 0xdecd4715),
                  0xf40e3585, 0x7a290d5d)
            == Hash(0xa14c14b0, 0x72ab4b91, 0x26628815, 0x9d4baf93, 0xd57b94a9, 0xb7755da1, 0xa80f11f0, 0xfda24c2e)
    ensures Round(Hash(0xa14c14b0, 0x72ab4b91, 0x26628815, 0x9d4baf93, 0xd57b94a9, 0xb7755da1, 0xa80f11f0, 0xfda24c2e),
                  0x106aa070, 0x065c43da)
            == Hash(0x4172328d, 0xa14c14b0, 0x72ab4b91, 0x26628815, 0xfecf0bc6, 0xd57b94a9, 0xb7755da1, 0xa80f11f0)
  {
  }

  lemma Turns12()
    ensures Round(Hash(0x4172328d, 0xa14c14b0, 0x72ab4b91, 0x26628815, 0xfecf0bc6, 0xd57b94a9, 0xb7755da1, 0xa80f11f0),
                  0x19a4c116, 0xfb3e89cb)
            == Hash(0x05757ceb, 0x4172328d, 0xa14c14b0, 0x72ab4b91, 0xbd714038, 0xfecf0bc6, 0xd57b94a9, 0xb7755da1)
    ensures Round(Hash(0x05757ceb, 0x4172328d, 0xa14c14b0, 0x72ab4b91, 0xbd714038, 0xfecf0bc6, 0xd57b94a9, 0xb7755da1),
                  0x1e376c08, 0xcc7617db)
            == Hash(0xf11bfaa8, 0x05757ceb, 0x4172328d, 0xa14c14b0, 0x6e5c390c, 0xbd714038, 0xfecf0bc6, 0xd57b94a9)
    ensures Round(Hash(0xf11bfaa8, 0x05757ceb, 0x4172328d, 0xa14c14b0, 0x6e5c390c, 0xbd714038, 0xfecf0bc6, 0xd57b94a9),
                  0x2748774c, 0xb9e66c34)
            == Hash(0x7a0508a1, 0xf11bfaa8, 0x05757ceb, 0x4172328d, 0x52f1ccf7, 0x6e5c390c, 0xbd714038, 0xfecf0bc6)
    ensures Round(Hash(0x7a0508a1, 0xf11bfaa8, 0x05757ceb, 0x4172328d, 0x52f1ccf7, 0x6e5c390c, 0xbd714038, 0xfecf0bc6),
                  0x34b0bcb5, 0xa9993667)
            == Hash(0x886e7a22, 0x7a0508a1, 0xf11bfaa8, 0x05757ceb, 0x49231c1e, 0x52f1ccf7, 0x6e5c390c, 0xbd714038)
  {
  }

  lemma Turns13()
    ensures Round(Hash(0x886e7a22, 0x7a0508a1, 0xf11bfaa8, 0x05757ceb, 0x49231c1e, 0x52f1ccf7, 0x6e5c390c, 0xbd714038),
                  0x391c0cb3, 0x84badedd)
            == Hash(0x101fd28f, 0x886e7a22, 0x7a0508a1, 0xf11bfaa8, 0x529e7d00, 0x49231c1e, 0x52f1ccf7, 0x6e5c390c)
    ensures Round(Hash(0x101fd28f, 0x886e7a22, 0x7a0508a1, 0xf11bfaa8, 0x529e7d00, 0x49231c1e, 0x52f1ccf7, 0x6e5c390c),
                  0x4ed8aa4a, 0xc21462bc)
            == Hash(0xf5702fdb, 0x101fd28f, 0x886e7a22, 0x7a0508a1, 0x9f4787c3, 0x529e7d00, 0x49231c1e, 0x52f1ccf7)
    ensures Round(Hash(0xf5702fdb, 0x101fd28f, 0x886e7a22, 0x7a0508a1, 0x9f4787c3, 0x529e7d00, 0x49231c1e, 0x52f1ccf7),
                  0x5b9cca4f, 0x1487472c)
            == Hash(0x3ec45cdb, 0xf5702fdb, 0x101fd28f, 0x886e7a22, 0xe50e1b4f, 0x9f4787c3, 0x529e7d00, 0x49231c1e)
    ensures Round(Hash(0x3ec45cdb, 0xf5702fdb, 0x101fd28f, 0x886e7a22, 0xe50e1b4f, 0x9f4787c3, 0x529e7d00, 0x49231c1e),
                  0x682e6ff3, 0xb20f7a99)
            == Hash(0x38cc9913, 0x3ec45cdb, 0xf5702fdb, 0x101fd28f, 0x54cb266b, 0xe50e1b4f, 0x9f4787c3, 0x529e7d00)
  {
  }

  lemma Turns14()
    ensures Round(Hash(0x38cc9913, 0x3ec45cdb, 0xf5702fdb, 0x101fd28f, 0x54cb266b, 0xe50e1b4f, 0x9f4787c3, 0x529e7d00),
                  0x748f82ee, 0xef57b9cd)
            == Hash(0xfcd1887b, 0x38cc9913, 0x3ec45cdb, 0xf5702fdb, 0x9b5e906c, 0x54cb266b, 0xe50e1b4f, 0x9f4787c3)
    ensures Round(Hash(0xfcd1887b, 0x38cc9913, 0x3ec45cdb, 0xf5702fdb, 0x9b5e906c, 0x54cb266b, 0xe50e1b4f, 0x9f4787c3),
                  0x78a5636f, 0xebe6b238)
            == Hash(0xc062d46f, 0xfcd1887b, 0x38cc9913, 0x3ec45cdb, 0x7e44008e, 0x9b5e906c, 0x54cb266b, 0xe50e1b4f)
    ensures Round(Hash(0xc062d46f, 0xfcd1887b, 0x38cc9913, 0x3ec45cdb, 0x7e44008e, 0x9b5e906c, 0x54cb266b, 0xe50e1b4f),
                  0x84c87814, 0x9fe3095e)
            == Hash(0xffb70472, 0xc062d46f, 0xfcd1887b, 0x38cc9913, 0x6d83bfc6, 0x7e44008e, 0x9b5e906c, 0x54cb266b)
    ensures Round(Hash(0xffb70472, 0xc062d46f, 0xfcd1887b, 0x38cc9913, 0x6d83bfc6, 0x7e44008e, 0x9b5e906c, 0x54cb266b),
                  0x8cc70208, 0x78bc8d4b)
            == Hash(0xb6ae8fff, 0xffb70472, 0xc062d46f, 0xfcd1887b, 0xb21bad3d, 0x6d83bfc6, 0x7e44008e, 0x9b5e906c)
  {
  }

  lemma Turns15()
    ensures Round(Hash(0xb6ae8fff, 0xffb70472, 0xc062d46f, 0xfcd1887b, 0xb21bad3d, 0x6d83bfc6, 0x7e44008e, 0x9b5e906c),
                  0x90befffa, 0xa43fcf15)
            == Hash(0xb85e2ce9, 0xb6ae8fff, 0xffb70472, 0xc062d46f, 0x961f4894, 0xb21bad3d, 0x6d83bfc6, 0x7e44008e)
    ensures Round(Hash(0xb85e2ce9, 0xb6ae8fff, 0xffb70472, 0xc062d46f, 0x961f4894, 0xb21bad3d, 0x6d83bfc6, 0x7e44008e),
                  0xa4506ceb, 0x668b2ff8)
            == Hash(0x04d24d6c, 0xb85e2ce9, 0xb6ae8fff, 0xffb70472, 0x948d25b6, 0x961f4894, 0xb21bad3d, 0x6d83bfc6)
    ensures Round(Hash(0x04d24d6c, 0xb85e2ce9, 0xb6ae8fff, 0xffb70472, 0x948d25b6, 0x961f4894, 0xb21bad3d, 0x6d83bfc6),
                  0xbef9a3f7, 0xeeaba2cc)
            == Hash(0xd39a2165, 0x04d24d6c, 0xb85e2ce9, 0xb6ae8fff, 0xfb121210, 0x948d25b6, 0x961f4894, 0xb21bad3d)
    ensures Round(Hash(0xd39a2165, 0x04d24d6c, 0xb85e2ce9, 0xb6ae8fff, 0xfb121210, 0x948d25b6, 0x961f4894, 0xb21bad3d),
                  0xc67178f2, 0x12b1edeb)
            == Hash(0x506e3058, 0xd39a2165, 0x04d24d6c, 0xb85e2ce9, 0x5ef50f24, 0xfb121210, 0x948d25b6, 0x961f4894)
  {
  }

  lemma Rounds0(b: seq<bv8>)
    requires |b| == 64 && IsBlock(b)
    ensures Rounds(INITIAL, b, 8)
            == Hash(0x85a07b5f, 0xe5030380, 0x2b4209f5, 0x04409a6a, 0x0c657a79, 0x9b27a401, 0x714260ad, 0x43ada245)
  {
    hide *;
    NoRounds(b);
    Keys0();
    Words(b, 0);
    Words(b, 1);
    Words(b, 2);
    Words(b, 3);
    Words(b, 4);
    Words(b, 5);
    Words(b, 6);
    Words(b, 7);
    Turns0();
    Turns1();
    RoundIs(b, 0, 0x428a2f98, 0x61626380);
    RoundIs(b, 1, 0x71374491, 0x00000000);
    RoundIs(b, 2, 0xb5c0fbcf, 0x00000000);
    RoundIs(b, 3, 0xe9b5dba5, 0x00000000);
    RoundIs(b, 4, 0x3956c25b, 0x00000000);
    RoundIs(b, 5, 0x59f111f1, 0x00000000);
    RoundIs(b, 6, 0x923f82a4, 0x00000000);
    RoundIs(b, 7, 0xab1c5ed5, 0x00000000);
  }

  lemma Rounds1(b: seq<bv8>)
    requires |b| == 64 && IsBlock(b)
    ensures Rounds(INITIAL, b, 16)
            == Hash(0xb0fa238e, 0xc0645fde, 0xd932eb16, 0x87912990, 0x07590dcd, 0x0b92f20c, 0x745a48de, 0x1e578218)
  {
    hide *;
    Rounds0(b);
    Keys1();
    Words(b, 8);
    Words(b, 9);
    Words(b, 10);
    Words(b, 11);
    Words(b, 12);
    Words(b, 13);
    Words(b, 14);
    Words(b, 15);
    Turns2();
    Turns3();
    RoundIs(b, 8, 0xd807aa98, 0x00000000);
    RoundIs(b, 9, 0x12835b01, 0x00000000);
    RoundIs(b, 10, 0x243185be, 0x00000000);
    RoundIs(b, 11, 0x550c7dc3, 0x00000000);
    RoundIs(b, 12, 0x72be5d74, 0x00000000);
    RoundIs(b, 13, 0x80deb1fe, 0x00000000);
    RoundIs(b, 14, 0x9bdc06a7, 0x00000000);
    RoundIs(b, 15, 0xc19bf174, 0x00000018);
  }

  lemma Rounds2(b: seq<bv8>)
    requires |b| == 64 && IsBlock(b)
    ensures Rounds(INITIAL, b, 24)
            == Hash(0xc5d53d8d, 0xa7a3623f, 0xc2606d6d, 0x9dc68b63, 0xaa47c347, 0x49f5114a, 0xe1257970, 0x8ada8930)
  {
    hide *;
    Rounds1(b);
    Keys2();
    Words2(b);
    Turns4();
    Turns5();
    RoundIs(b, 16, 0xe49b69c1, 0x61626380);
    RoundIs(b, 17, 0xefbe4786, 0x000f0000);
    RoundIs(b, 18, 0x0fc19dc6, 0x7da86405);
    RoundIs(b, 19, 0x240ca1cc, 0x600003c6);
    RoundIs(b, 20, 0x2de92c6f, 0x3e9d7b78);
    RoundIs(b, 21, 0x4a7484aa, 0x0183fc00);
    RoundIs(b, 22, 0x5cb0a9dc, 0x12dcbfdb);
    RoundIs(b, 23, 0x76f988da, 0xe2e2c38e);
  }

  lemma Rounds3(b: seq<bv8>)
    requires |b| == 64 && IsBlock(b)
    ensures Rounds(INITIAL, b, 32)
            == Hash(0x73b33bf5, 0xea992a22, 0xa0060b30, 0x363482c9, 0xba591112, 0x0109ab3a, 0xade79437, 0x6112a3b7)
  {
    hide *;
    Rounds2(b);
    Keys3();
    Words3(b);
    Turns6();
    Turns7();
    RoundIs(b, 24, 0x983e5152, 0xc8215c1a);
    RoundIs(b, 25, 0xa831c66d, 0xb73679a2);
    RoundIs(b, 26, 0xb00327c8, 0xe5bc3909);
    RoundIs(b, 27, 0xbf597fc7, 0x32663c5b);
    RoundIs(b, 28, 0xc6e00bf3, 0x9d209d67);
    RoundIs(b, 29, 0xd5a79147, 0xec8726cb);
    RoundIs(b, 30, 0x06ca6351, 0x702138a4);
    RoundIs(b, 31, 0x14292967, 0xd3b7973b);
  }

  lemma Rounds4(b: seq<bv8>)
    requires |b| == 64 && IsBlock(b)
    ensures Rounds(INITIAL, b, 40)
            == Hash(0x79ea687a, 0x6dc57a8a, 0x34df1604, 0x41a65cb1, 0x1efbc0a0, 0xf0781bc8, 0xa507a53d, 0x0772a26b)
  {
    hide *;
    Rounds3(b);
    Keys4();
    Words4(b);
    Turns8();
    Turns9();
    RoundIs(b, 32, 0x27b70a85, 0x93f5997f);
    RoundIs(b, 33, 0x2e1b2138, 0x3b68ba73);
    RoundIs(b, 34, 0x4d2c6dfc, 0xaff4ffc1);
    RoundIs(b, 35, 0x53380d13, 0xf10a5c62);
    RoundIs(b, 36, 0x650a7354, 0x0a8b3996);
    RoundIs(b, 37, 0x766a0abb, 0x72af830a);
    RoundIs(b, 38, 0x81c2c92e, 0x9409e33e);
    RoundIs(b, 39, 0x92722c85, 0x24641522);
  }

  lemma Rounds5(b: seq<bv8>)
    requires |b| == 64 && IsBlock(b)
    ensures Rounds(INITIAL, b, 48)
            == Hash(0x4172328d, 0xa14c14b0, 0x72ab4b91, 0x26628815, 0xfecf0bc6, 0xd57b94a9, 0xb7755da1, 0xa80f11f0)
  {
    hide *;
    Rounds4(b);
    Keys5();
    Words5(b);
    Turns10();
    Turns11();
    RoundIs(b, 40, 0xa2bfe8a1, 0x9f47bf94);
    RoundIs(b, 41, 0xa81a664b, 0xf0a64f5a);
    RoundIs(b, 42, 0xc24b8b70, 0x3e246a79);
    RoundIs(b, 43, 0xc76c51a3, 0x27333ba3);
    RoundIs(b, 44, 0xd192e819, 0x0c4763f2);
    RoundIs(b, 45, 0xd6990624, 0x840abf27);
    RoundIs(b, 46, 0xf40e3585, 0x7a290d5d);
    RoundIs(b, 47, 0x106aa070, 0x065c43da);
  }

  lemma Rounds6(b: seq<bv8>)
    requires |b| == 64 && IsBlock(b)
    ensures Rounds(INITIAL, b, 56)
            == Hash(0x38cc9913, 0x3ec45cdb, 0xf5702fdb, 0x101fd28f, 0x54cb266b, 0xe50e1b4f, 0x9f4787c3, 0x529e7d00)
  {
    hide *;
    Rounds5(b);
    Keys6();
    Words6(b);
    Turns12();
    Turns13();
    RoundIs(b, 48, 0x19a4c116, 0xfb3e89cb);
    RoundIs(b, 49, 0x1e376c08, 0xcc7617db);
    RoundIs(b, 50, 0x2748774c, 0xb9e66c34);
    RoundIs(b, 51, 0x34b0bcb5, 0xa9993667);
    RoundIs(b, 52, 0x391c0cb3, 0x84badedd);
    RoundIs(b, 53, 0x4ed8aa4a, 0xc21462bc);
    RoundIs(b, 54, 0x5b9cca4f, 0x1487472c);
    RoundIs(b, 55, 0x682e6ff3, 0xb20f7a99);
  }

  lemma Rounds7(b: seq<bv8>)
    requires |b| == 64 && IsBlock(b)
    ensures Rounds(INITIAL, b, 64)
            == Hash(0x506e3058, 0xd39a2165, 0x04d24d6c, 0xb85e2ce9, 0x5ef50f24, 0xfb121210, 0x948d25b6, 0x961f4894)
  {
    hide *;
    Rounds6(b);
    Keys7();
    Words7(b);
    Turns14();
    Turns15();
    RoundIs(b, 56, 0x748f82ee, 0xef57b9cd);
    RoundIs(b, 57, 0x78a5636f, 0xebe6b238);
    RoundIs(b, 58, 0x84c87814, 0x9fe3095e);
    RoundIs(b, 59, 0x8cc70208, 0x78bc8d4b);
    RoundIs(b, 60, 0x90befffa, 0xa43fcf15);
    RoundIs(b, 61, 0xa4506ceb, 0x668b2ff8);
    RoundIs(b, 62, 0xbef9a3f7, 0xeeaba2cc);
    RoundIs(b, 63, 0xc67178f2, 0x12b1edeb);
  }

  lemma Compressed(b: seq<bv8>)
    requires |b| == 64 && IsBlock(b)
    ensures Compress(INITIAL, b)
            == Hash(0xba7816bf, 0x8f01cfea, 0x414140de, 0x5dae2223, 0xb00361a3, 0x96177a9c, 0xb410ff61, 0xf20015ad)
  {
    hide IsBlock, Rounds;
    Rounds7(b);
  }

  lemma Printed()
    ensures WordBytes(0xba7816bf) == [0xba, 0x78, 0x16, 0xbf]
    ensures WordBytes(0x8f01cfea) == [0x8f, 0x01, 0xcf, 0xea]
    ensures WordBytes(0x414140de) == [0x41, 0x41, 0x40, 0xde]
    ensures WordBytes(0x5dae2223) == [0x5d, 0xae, 0x22, 0x23]
    ensures WordBytes(0xb00361a3) == [0xb0, 0x03, 0x61, 0xa3]
    ensures WordBytes(0x96177a9c) == [0x96, 0x17, 0x7a, 0x9c]
    ensures WordBytes(0xb410ff61) == [0xb4, 0x10, 0xff, 0x61]
    ensures WordBytes(0xf20015ad) == [0xf2, 0x00, 0x15, 0xad]
  {
  }

  lemma Finals()
    ensures Final(Hash(0xba7816bf, 0x8f01cfea, 0x414140de, 0x5dae2223, 0xb00361a3, 0x96177a9c, 0xb410ff61, 0xf20015ad))
            == [0xba, 0x78, 0x16, 0xbf, 0x8f, 0x01, 0xcf, 0xea, 0x41, 0x41, 0x40, 0xde, 0x5d, 0xae, 0x22, 0x23,
                0xb0, 0x03, 0x61, 0xa3, 0x96, 0x17, 0x7a, 0x9c, 0xb4, 0x10, 0xff, 0x61, 0xf2, 0x00, 0x15, 0xad]
  {
    Printed();
    hide WordBytes;
  }

  lemma OneBlock(m: seq<bv8>)
    requires |m + Padding(|m|)| == 64
    ensures Digest(m) == Final(Compress(INITIAL, m + Padding(|m|)))
  {
    hide Compress, Padding, LengthBytes, Final, INITIAL;
    AbsorbOne(INITIAL, m + Padding(|m|));
  }

  /** The digest of "abc". */
  lemma DigestOfAbc(m: seq<bv8>)
    requires m == [0x61, 0x62, 0x63]
    ensures Digest(m)
            == [0xba, 0x78, 0x16, 0xbf, 0x8f, 0x01, 0xcf, 0xea, 0x41, 0x41, 0x40, 0xde, 0x5d, 0xae, 0x22, 0x23,
                0xb0, 0x03, 0x61, 0xa3, 0x96, 0x17, 0x7a, 0x9c, 0xb4, 0x10, 0xff, 0x61, 0xf2, 0x00, 0x15, 0xad]
  {
    assert m == ABC;
    hide *;
    BlockIs(m);
    OneBlock(m);
    Compressed(m + Padding(|m|));
    Finals();
  }
}
