/**
  The known answer of FIPS 180-4 for the message "abc": the definition, taken through its schedule and its 64 rounds,
  gives the published digest, so that every rotation, shift, constant and sum of it counts.
 */
module Sha224Example {
  import opened Sha224Constants
  import opened Sha224Words
  import opened Sha224Padding
  import opened Sha224

  const ABC: seq<bv8> := [0x61, 0x62, 0x63]

  // ----- the padded message

  const BLOCK: Block := [0x61, 0x62, 0x63, 0x80] + Zeros(52) + [0, 0, 0, 0, 0, 0, 0, 24]

  lemma PaddedAbc()
    ensures Padded(ABC) == BLOCK
  {
    hide Zeros, BigEndian;
    assert ZeroCount(3) == 52;
    LengthIs24();
    assert ABC + ([0x80] + Zeros(52) + BigEndian(24, 8)) == [0x61, 0x62, 0x63, 0x80] + Zeros(52) + BigEndian(24, 8);
  }

  lemma LengthIs24()
    ensures BigEndian(24, 8) == [0, 0, 0, 0, 0, 0, 0, 24]
  {
    assert LowByte(24) == 24 && LowByte(0) == 0;
    hide LowByte;
    ZeroBytes();
    assert BigEndian(24, 8) == BigEndian(0, 7) + [LowByte(24)];
  }

  lemma ZeroBytes()
    ensures BigEndian(0, 7) == [0, 0, 0, 0, 0, 0, 0]
  {
    assert LowByte(0) == 0;
    hide LowByte;
    assert BigEndian(0, 2) == BigEndian(0, 1) + [0] == [0, 0];
    assert BigEndian(0, 3) == BigEndian(0, 2) + [0] == [0, 0, 0];
    assert BigEndian(0, 4) == BigEndian(0, 3) + [0] == [0, 0, 0, 0];
    assert BigEndian(0, 5) == BigEndian(0, 4) + [0] == [0, 0, 0, 0, 0];
    assert BigEndian(0, 6) == BigEndian(0, 5) + [0] == [0, 0, 0, 0, 0, 0];
  }

  /** The words between the message and its length. */
  lemma ZeroWord(t: nat)
    requires 0 < t < 15
    ensures Schedule(BLOCK, t) == 0
  {
    hide Schedule, Zeros;
    FirstWords(BLOCK, t);
    assert forall i :: 4 <= i < 60 ==> BLOCK[i] == 0;
  }

  lemma OuterWords()
    ensures Schedule(BLOCK, 0) == 0x61626380 && Schedule(BLOCK, 15) == 24
  {
    hide Schedule, Zeros;
    FirstWords(BLOCK, 0);
    FirstWords(BLOCK, 15);
    assert BLOCK[0] == 0x61 && BLOCK[1] == 0x62 && BLOCK[2] == 0x63 && BLOCK[3] == 0x80;
    assert BLOCK[60] == 0 && BLOCK[61] == 0 && BLOCK[62] == 0 && BLOCK[63] == 24;
  }

  // ----- the schedule

  lemma Words0()
    ensures Schedule(BLOCK, 0) == 0x61626380 && Schedule(BLOCK, 1) == 0x00000000 && Schedule(BLOCK, 2) == 0x00000000
         && Schedule(BLOCK, 3) == 0x00000000 && Schedule(BLOCK, 4) == 0x00000000 && Schedule(BLOCK, 5) == 0x00000000
         && Schedule(BLOCK, 6) == 0x00000000 && Schedule(BLOCK, 7) == 0x00000000 && Schedule(BLOCK, 8) == 0x00000000
         && Schedule(BLOCK, 9) == 0x00000000 && Schedule(BLOCK, 10) == 0x00000000 && Schedule(BLOCK, 11) == 0x00000000
         && Schedule(BLOCK, 12) == 0x00000000 && Schedule(BLOCK, 13) == 0x00000000 && Schedule(BLOCK, 14) == 0x00000000
         && Schedule(BLOCK, 15) == 0x00000018
  {
    hide Schedule;
    OuterWords();
    ZeroWord(1);
    ZeroWord(2);
    ZeroWord(3);
    ZeroWord(4);
    ZeroWord(5);
    ZeroWord(6);
    ZeroWord(7);
    ZeroWord(8);
    ZeroWord(9);
    ZeroWord(10);
    ZeroWord(11);
    ZeroWord(12);
    ZeroWord(13);
    ZeroWord(14);
  }

  lemma Words1()
    ensures Schedule(BLOCK, 16) == 0x61626380 && Schedule(BLOCK, 17) == 0x000f0000 && Schedule(BLOCK, 18) == 0x7da86405
         && Schedule(BLOCK, 19) == 0x600003c6 && Schedule(BLOCK, 20) == 0x3e9d7b78 && Schedule(BLOCK, 21) == 0x0183fc00
         && Schedule(BLOCK, 22) == 0x12dcbfdb && Schedule(BLOCK, 23) == 0xe2e2c38e && Schedule(BLOCK, 24) == 0xc8215c1a
         && Schedule(BLOCK, 25) == 0xb73679a2 && Schedule(BLOCK, 26) == 0xe5bc3909 && Schedule(BLOCK, 27) == 0x32663c5b
         && Schedule(BLOCK, 28) == 0x9d209d67 && Schedule(BLOCK, 29) == 0xec8726cb && Schedule(BLOCK, 30) == 0x702138a4
         && Schedule(BLOCK, 31) == 0xd3b7973b
  {
    hide Schedule;
    Words0();
    NextWord(BLOCK, 16);
    NextWord(BLOCK, 17);
    NextWord(BLOCK, 18);
    NextWord(BLOCK, 19);
    NextWord(BLOCK, 20);
    NextWord(BLOCK, 21);
    NextWord(BLOCK, 22);
    NextWord(BLOCK, 23);
    NextWord(BLOCK, 24);
    NextWord(BLOCK, 25);
    NextWord(BLOCK, 26);
    NextWord(BLOCK, 27);
    NextWord(BLOCK, 28);
    NextWord(BLOCK, 29);
    NextWord(BLOCK, 30);
    NextWord(BLOCK, 31);
  }

  lemma Words2()
    ensures Schedule(BLOCK, 32) == 0x93f5997f && Schedule(BLOCK, 33) == 0x3b68ba73 && Schedule(BLOCK, 34) == 0xaff4ffc1
         && Schedule(BLOCK, 35) == 0xf10a5c62 && Schedule(BLOCK, 36) == 0x0a8b3996 && Schedule(BLOCK, 37) == 0x72af830a
         && Schedule(BLOCK, 38) == 0x9409e33e && Schedule(BLOCK, 39) == 0x24641522 && Schedule(BLOCK, 40) == 0x9f47bf94
         && Schedule(BLOCK, 41) == 0xf0a64f5a && Schedule(BLOCK, 42) == 0x3e246a79 && Schedule(BLOCK, 43) == 0x27333ba3
         && Schedule(BLOCK, 44) == 0x0c4763f2 && Schedule(BLOCK, 45) == 0x840abf27 && Schedule(BLOCK, 46) == 0x7a290d5d
         && Schedule(BLOCK, 47) == 0x065c43da
  {
    hide Schedule;
    Words1();
    NextWord(BLOCK, 32);
    NextWord(BLOCK, 33);
    NextWord(BLOCK, 34);
    NextWord(BLOCK, 35);
    NextWord(BLOCK, 36);
    NextWord(BLOCK, 37);
    NextWord(BLOCK, 38);
    NextWord(BLOCK, 39);
    NextWord(BLOCK, 40);
    NextWord(BLOCK, 41);
    NextWord(BLOCK, 42);
    NextWord(BLOCK, 43);
    NextWord(BLOCK, 44);
    NextWord(BLOCK, 45);
    NextWord(BLOCK, 46);
    NextWord(BLOCK, 47);
  }

  lemma Words3()
    ensures Schedule(BLOCK, 48) == 0xfb3e89cb && Schedule(BLOCK, 49) == 0xcc7617db && Schedule(BLOCK, 50) == 0xb9e66c34
         && Schedule(BLOCK, 51) == 0xa9993667 && Schedule(BLOCK, 52) == 0x84badedd && Schedule(BLOCK, 53) == 0xc21462bc
         && Schedule(BLOCK, 54) == 0x1487472c && Schedule(BLOCK, 55) == 0xb20f7a99 && Schedule(BLOCK, 56) == 0xef57b9cd
         && Schedule(BLOCK, 57) == 0xebe6b238 && Schedule(BLOCK, 58) == 0x9fe3095e && Schedule(BLOCK, 59) == 0x78bc8d4b
         && Schedule(BLOCK, 60) == 0xa43fcf15 && Schedule(BLOCK, 61) == 0x668b2ff8 && Schedule(BLOCK, 62) == 0xeeaba2cc
         && Schedule(BLOCK, 63) == 0x12b1edeb
  {
    hide Schedule;
    Words2();
    NextWord(BLOCK, 48);
    NextWord(BLOCK, 49);
    NextWord(BLOCK, 50);
    NextWord(BLOCK, 51);
    NextWord(BLOCK, 52);
    NextWord(BLOCK, 53);
    NextWord(BLOCK, 54);
    NextWord(BLOCK, 55);
    NextWord(BLOCK, 56);
    NextWord(BLOCK, 57);
    NextWord(BLOCK, 58);
    NextWord(BLOCK, 59);
    NextWord(BLOCK, 60);
    NextWord(BLOCK, 61);
    NextWord(BLOCK, 62);
    NextWord(BLOCK, 63);
  }

  // ----- the rounds

  lemma Row0(t: nat)
    requires t < 8
    ensures K(t) == K0[t]
  {
  }

  lemma Row1(t: nat)
    requires t < 8
    ensures K(8 + t) == K1[t]
  {
  }

  lemma Row2(t: nat)
    requires t < 8
    ensures K(16 + t) == K2[t]
  {
  }

  lemma Row3(t: nat)
    requires t < 8
    ensures K(24 + t) == K3[t]
  {
  }

  lemma Row4(t: nat)
    requires t < 8
    ensures K(32 + t) == K4[t]
  {
  }

  lemma Row5(t: nat)
    requires t < 8
    ensures K(40 + t) == K5[t]
  {
  }

  lemma Row6(t: nat)
    requires t < 8
    ensures K(48 + t) == K6[t]
  {
  }

  lemma Row7(t: nat)
    requires t < 8
    ensures K(56 + t) == K7[t]
  {
  }

  lemma Constants0()
    ensures K(0) == 0x428a2f98 && K(1) == 0x71374491 && K(2) == 0xb5c0fbcf && K(3) == 0xe9b5dba5
         && K(4) == 0x3956c25b && K(5) == 0x59f111f1 && K(6) == 0x923f82a4 && K(7) == 0xab1c5ed5
  {
    hide K;
    Row0(0);
    Row0(1);
    Row0(2);
    Row0(3);
    Row0(4);
    Row0(5);
    Row0(6);
    Row0(7);
  }

  lemma Constants1()
    ensures K(8) == 0xd807aa98 && K(9) == 0x12835b01 && K(10) == 0x243185be && K(11) == 0x550c7dc3
         && K(12) == 0x72be5d74 && K(13) == 0x80deb1fe && K(14) == 0x9bdc06a7 && K(15) == 0xc19bf174
  {
    hide K;
    Row1(0);
    Row1(1);
    Row1(2);
    Row1(3);
    Row1(4);
    Row1(5);
    Row1(6);
    Row1(7);
  }

  lemma Constants2()
    ensures K(16) == 0xe49b69c1 && K(17) == 0xefbe4786 && K(18) == 0x0fc19dc6 && K(19) == 0x240ca1cc
         && K(20) == 0x2de92c6f && K(21) == 0x4a7484aa && K(22) == 0x5cb0a9dc && K(23) == 0x76f988da
  {
    hide K;
    Row2(0);
    Row2(1);
    Row2(2);
    Row2(3);
    Row2(4);
    Row2(5);
    Row2(6);
    Row2(7);
  }

  lemma Constants3()
    ensures K(24) == 0x983e5152 && K(25) == 0xa831c66d && K(26) == 0xb00327c8 && K(27) == 0xbf597fc7
         && K(28) == 0xc6e00bf3 && K(29) == 0xd5a79147 && K(30) == 0x06ca6351 && K(31) == 0x14292967
  {
    hide K;
    Row3(0);
    Row3(1);
    Row3(2);
    Row3(3);
    Row3(4);
    Row3(5);
    Row3(6);
    Row3(7);
  }

  lemma Constants4()
    ensures K(32) == 0x27b70a85 && K(33) == 0x2e1b2138 && K(34) == 0x4d2c6dfc && K(35) == 0x53380d13
         && K(36) == 0x650a7354 && K(37) == 0x766a0abb && K(38) == 0x81c2c92e && K(39) == 0x92722c85
  {
    hide K;
    Row4(0);
    Row4(1);
    Row4(2);
    Row4(3);
    Row4(4);
    Row4(5);
    Row4(6);
    Row4(7);
  }

  lemma Constants5()
    ensures K(40) == 0xa2bfe8a1 && K(41) == 0xa81a664b && K(42) == 0xc24b8b70 && K(43) == 0xc76c51a3
         && K(44) == 0xd192e819 && K(45) == 0xd6990624 && K(46) == 0xf40e3585 && K(47) == 0x106aa070
  {
    hide K;
    Row5(0);
    Row5(1);
    Row5(2);
    Row5(3);
    Row5(4);
    Row5(5);
    Row5(6);
    Row5(7);
  }

  lemma Constants6()
    ensures K(48) == 0x19a4c116 && K(49) == 0x1e376c08 && K(50) == 0x2748774c && K(51) == 0x34b0bcb5
         && K(52) == 0x391c0cb3 && K(53) == 0x4ed8aa4a && K(54) == 0x5b9cca4f && K(55) == 0x682e6ff3
  {
    hide K;
    Row6(0);
    Row6(1);
    Row6(2);
    Row6(3);
    Row6(4);
    Row6(5);
    Row6(6);
    Row6(7);
  }

  lemma Constants7()
    ensures K(56) == 0x748f82ee && K(57) == 0x78a5636f && K(58) == 0x84c87814 && K(59) == 0x8cc70208
         && K(60) == 0x90befffa && K(61) == 0xa4506ceb && K(62) == 0xbef9a3f7 && K(63) == 0xc67178f2
  {
    hide K;
    Row7(0);
    Row7(1);
    Row7(2);
    Row7(3);
    Row7(4);
    Row7(5);
    Row7(6);
    Row7(7);
  }

  const START: Working := Working(0xc1059ed8, 0x367cd507, 0x3070dd17, 0xf70e5939, 0xffc00b31, 0x68581511, 0x64f98fa7, 0xbefa4fa4)

  lemma Rounds0()
    ensures Rounds(START, BLOCK, 8)
         == Working(0xf09d116d, 0x0b6b9023, 0xb2ca3a91, 0x08a0dc0c, 0x7a84120d, 0xa2e49147, 0x898dc7bb, 0x05b557db)
  {
    hide Rounds, Schedule, K;
    StartRounds(START, BLOCK);
    Words0();
    Constants0();
    NextRound(START, BLOCK, 0);
    NextRound(START, BLOCK, 1);
    NextRound(START, BLOCK, 2);
    NextRound(START, BLOCK, 3);
    NextRound(START, BLOCK, 4);
    NextRound(START, BLOCK, 5);
    NextRound(START, BLOCK, 6);
    NextRound(START, BLOCK, 7);
  }

  lemma Rounds1()
    ensures Rounds(START, BLOCK, 16)
         == Working(0x9f341a45, 0x1d80d178, 0xbe316902, 0xfc4f023e, 0x6a61c411, 0x4545f53a, 0x65141125, 0x87bea51a)
  {
    hide Rounds, Schedule, K;
    Rounds0();
    Words0();
    Constants1();
    NextRound(START, BLOCK, 8);
    NextRound(START, BLOCK, 9);
    NextRound(START, BLOCK, 10);
    NextRound(START, BLOCK, 11);
    NextRound(START, BLOCK, 12);
    NextRound(START, BLOCK, 13);
    NextRound(START, BLOCK, 14);
    NextRound(START, BLOCK, 15);
  }

  lemma Rounds2()
    ensures Rounds(START, BLOCK, 24)
         == Working(0x57206fb8, 0xe62a812e, 0xdece98a4, 0x07d55ccb, 0xc76084ea, 0x28fe0fd9, 0x293ffb5d, 0x9ba5a6ea)
  {
    hide Rounds, Schedule, K;
    Rounds1();
    Words1();
    Constants2();
    NextRound(START, BLOCK, 16);
    NextRound(START, BLOCK, 17);
    NextRound(START, BLOCK, 18);
    NextRound(START, BLOCK, 19);
    NextRound(START, BLOCK, 20);
    NextRound(START, BLOCK, 21);
    NextRound(START, BLOCK, 22);
    NextRound(START, BLOCK, 23);
  }

  lemma Rounds3()
    ensures Rounds(START, BLOCK, 32)
         == Working(0xcce1951d, 0x0d7cce07, 0xfe3c8658, 0x2d1576c4, 0x4be9475c, 0xa4a4a3a4, 0xfc4b36c5, 0x01641929)
  {
    hide Rounds, Schedule, K;
    Rounds2();
    Words1();
    Constants3();
    NextRound(START, BLOCK, 24);
    NextRound(START, BLOCK, 25);
    NextRound(START, BLOCK, 26);
    NextRound(START, BLOCK, 27);
    NextRound(START, BLOCK, 28);
    NextRound(START, BLOCK, 29);
    NextRound(START, BLOCK, 30);
    NextRound(START, BLOCK, 31);
  }

  lemma Rounds4()
    ensures Rounds(START, BLOCK, 40)
         == Working(0xf3c80288, 0x7902369c, 0x0d275ca8, 0x2a2e32f4, 0x00e3a7bb, 0xd9f8c2e0, 0xf6c39382, 0x22e15c59)
  {
    hide Rounds, Schedule, K;
    Rounds3();
    Words2();
    Constants4();
    NextRound(START, BLOCK, 32);
    NextRound(START, BLOCK, 33);
    NextRound(START, BLOCK, 34);
    NextRound(START, BLOCK, 35);
    NextRound(START, BLOCK, 36);
    NextRound(START, BLOCK, 37);
    NextRound(START, BLOCK, 38);
    NextRound(START, BLOCK, 39);
  }

  lemma Rounds5()
    ensures Rounds(START, BLOCK, 48)
         == Working(0x847ea00e, 0xfb3777d9, 0x131d4c09, 0xa3701bd9, 0x503a7b95, 0x1d601f44, 0xecb77e1b, 0xaf1bef5f)
  {
    hide Rounds, Schedule, K;
    Rounds4();
    Words2();
    Constants5();
    NextRound(START, BLOCK, 40);
    NextRound(START, BLOCK, 41);
    NextRound(START, BLOCK, 42);
    NextRound(START, BLOCK, 43);
    NextRound(START, BLOCK, 44);
    NextRound(START, BLOCK, 45);
    NextRound(START, BLOCK, 46);
    NextRound(START, BLOCK, 47);
  }

  lemma Rounds6()
    ensures Rounds(START, BLOCK, 56)
         == Working(0x8d25bd94, 0x909cc059, 0x308b8799, 0x0df9857a, 0x1273c622, 0x6f2a444a, 0x02524f02, 0x2d864d9f)
  {
    hide Rounds, Schedule, K;
    Rounds5();
    Words3();
    Constants6();
    NextRound(START, BLOCK, 48);
    NextRound(START, BLOCK, 49);
    NextRound(START, BLOCK, 50);
    NextRound(START, BLOCK, 51);
    NextRound(START, BLOCK, 52);
    NextRound(START, BLOCK, 53);
    NextRound(START, BLOCK, 54);
    NextRound(START, BLOCK, 55);
  }

  lemma Rounds7()
    ensures Rounds(START, BLOCK, 64)
         == Working(0x6203de4a, 0xfd89031b, 0x55d1c760, 0xc693fc7a, 0x2aedb1b3, 0x55489ee6, 0x7e730e00, 0x13dfb889)
  {
    hide Rounds, Schedule, K;
    Rounds6();
    Words3();
    Constants7();
    NextRound(START, BLOCK, 56);
    NextRound(START, BLOCK, 57);
    NextRound(START, BLOCK, 58);
    NextRound(START, BLOCK, 59);
    NextRound(START, BLOCK, 60);
    NextRound(START, BLOCK, 61);
    NextRound(START, BLOCK, 62);
    NextRound(START, BLOCK, 63);
  }

  // ----- the digest

  lemma StartsThere()
    ensures WorkingOf(Initial()) == START
  {
  }

  lemma Folded()
    ensures Compressed(Initial(), BLOCK) == [
              0x23097d22, 0x3405d822, 0x8642a477, 0xbda255b3,
              0x2aadbce4, 0xbda0b3f7, 0xe36c9da7, 0xd2da082d]
  {
    hide Rounds;
    StartsThere();
    Rounds7();
  }

  lemma OneBlock(padded: seq<bv8>)
    requires |padded| == 64
    ensures Chained(Initial(), padded, |padded| / 64) == Compressed(Initial(), padded)
  {
    hide Compressed, Initial;
    NoBlocks(padded);
    NextBlock(padded, 0);
    assert BlockAt(padded, 0) == padded;
  }

  lemma SpellSeven(h: Hash)
    ensures Spell(h, 7)
         == BytesOf(h[0]) + BytesOf(h[1]) + BytesOf(h[2]) + BytesOf(h[3]) + BytesOf(h[4]) + BytesOf(h[5]) + BytesOf(h[6])
  {
    hide BytesOf;
    assert Spell(h, 1) == [] + BytesOf(h[0]) == BytesOf(h[0]);
    assert Spell(h, 3) == Spell(h, 2) + BytesOf(h[2]);
    assert Spell(h, 5) == Spell(h, 4) + BytesOf(h[4]);
    assert Spell(h, 6) == Spell(h, 5) + BytesOf(h[5]);
  }

  lemma AnswerBytes()
    ensures BytesOf(0x23097d22) == [0x23, 0x09, 0x7d, 0x22]
    ensures BytesOf(0x3405d822) == [0x34, 0x05, 0xd8, 0x22]
    ensures BytesOf(0x8642a477) == [0x86, 0x42, 0xa4, 0x77]
    ensures BytesOf(0xbda255b3) == [0xbd, 0xa2, 0x55, 0xb3]
    ensures BytesOf(0x2aadbce4) == [0x2a, 0xad, 0xbc, 0xe4]
    ensures BytesOf(0xbda0b3f7) == [0xbd, 0xa0, 0xb3, 0xf7]
    ensures BytesOf(0xe36c9da7) == [0xe3, 0x6c, 0x9d, 0xa7]
  {
  }

  lemma AnswerJoined()
    ensures BytesOf(0x23097d22) + BytesOf(0x3405d822) + BytesOf(0x8642a477) + BytesOf(0xbda255b3)
            + BytesOf(0x2aadbce4) + BytesOf(0xbda0b3f7) + BytesOf(0xe36c9da7)
         == [0x23, 0x09, 0x7d, 0x22, 0x34, 0x05, 0xd8, 0x22, 0x86, 0x42, 0xa4, 0x77, 0xbd, 0xa2,
             0x55, 0xb3, 0x2a, 0xad, 0xbc, 0xe4, 0xbd, 0xa0, 0xb3, 0xf7, 0xe3, 0x6c, 0x9d, 0xa7]
  {
    hide BytesOf;
    AnswerBytes();
  }

  /** The digest of "abc", by the standard's own example. */
  lemma KnownAnswer()
    ensures Digest(ABC) == [
              0x23, 0x09, 0x7d, 0x22, 0x34, 0x05, 0xd8, 0x22, 0x86, 0x42, 0xa4, 0x77, 0xbd, 0xa2,
              0x55, 0xb3, 0x2a, 0xad, 0xbc, 0xe4, 0xbd, 0xa0, 0xb3, 0xf7, 0xe3, 0x6c, 0x9d, 0xa7]
  {
    hide Compressed, Chained, Initial, Padded, Spell, BytesOf;
    PaddedAbc();
    OneBlock(BLOCK);
    Folded();
    SpellSeven(Compressed(Initial(), BLOCK));
    AnswerJoined();
  }
}
