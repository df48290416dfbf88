/** A known answer, word by word and round by round: the digest of the message "sha". */
module Sha1Answers {
  import opened Bytes
  import opened Sha1

  /** Marks the places where the recurrences below are looked at. */
  predicate Here(t: nat) { true }

  /** The words of the schedule and the working variables, as values. */
  ghost predicate IsSchedule(w: nat -> word) {
    forall t: nat {:trigger Here(t)} | Here(t) && t >= 16 :: w(t) == Mix(w(t - 3), w(t - 8), w(t - 14), w(t - 16))
  }

  ghost predicate IsTrace(w: nat -> word, s: nat -> State) {
    forall t: nat {:trigger Here(t)} | Here(t) :: s(t + 1) == Round(t, w(t), s(t))
  }

  predicate IsExample(m: Block) {
    && m[0] == 0x73686180 && m[15] == 0x00000018
    && forall t | 0 < t < 15 :: m[t] == 0
  }

  lemma {:induction false} Words16To31(w: nat -> word)
    requires IsSchedule(w)
    requires && w(0) == 0x73686180 && w(1) == 0x00000000 && w(2) == 0x00000000 && w(3) == 0x00000000
             && w(4) == 0x00000000 && w(5) == 0x00000000 && w(6) == 0x00000000 && w(7) == 0x00000000
             && w(8) == 0x00000000 && w(9) == 0x00000000 && w(10) == 0x00000000 && w(11) == 0x00000000
             && w(12) == 0x00000000 && w(13) == 0x00000000 && w(14) == 0x00000000 && w(15) == 0x00000018
    ensures && w(16) == 0xe6d0c300 && w(17) == 0x00000000 && w(18) == 0x00000030 && w(19) == 0xcda18601
            && w(20) == 0x00000000 && w(21) == 0x00000060 && w(22) == 0x9b430c03 && w(23) == 0x00000030
            && w(24) == 0xcda186c1 && w(25) == 0x36861807 && w(26) == 0x00000000 && w(27) == 0x00000180
            && w(28) == 0x6d0c300e && w(29) == 0x000000f0 && w(30) == 0xfb279d06 && w(31) == 0xda18604c
  {
    assert Here(16) && w(16) == 0xe6d0c300;
    assert Here(17) && w(17) == 0x00000000;
    assert Here(18) && w(18) == 0x00000030;
    assert Here(19) && w(19) == 0xcda18601;
    assert Here(20) && w(20) == 0x00000000;
    assert Here(21) && w(21) == 0x00000060;
    assert Here(22) && w(22) == 0x9b430c03;
    assert Here(23) && w(23) == 0x00000030;
    assert Here(24) && w(24) == 0xcda186c1;
    assert Here(25) && w(25) == 0x36861807;
    assert Here(26) && w(26) == 0x00000000;
    assert Here(27) && w(27) == 0x00000180;
    assert Here(28) && w(28) == 0x6d0c300e;
    assert Here(29) && w(29) == 0x000000f0;
    assert Here(30) && w(30) == 0xfb279d06;
    assert Here(31) && w(31) == 0xda18604c;
  }

  lemma {:induction false} Words32To47(w: nat -> word)
    requires IsSchedule(w)
    requires && w(16) == 0xe6d0c300 && w(17) == 0x00000000 && w(18) == 0x00000030 && w(19) == 0xcda18601
             && w(20) == 0x00000000 && w(21) == 0x00000060 && w(22) == 0x9b430c03 && w(23) == 0x00000030
             && w(24) == 0xcda186c1 && w(25) == 0x36861807 && w(26) == 0x00000000 && w(27) == 0x00000180
             && w(28) == 0x6d0c300e && w(29) == 0x000000f0 && w(30) == 0xfb279d06 && w(31) == 0xda18604c
    ensures && w(32) == 0x56e28a02 && w(33) == 0x00000600 && w(34) == 0xb430c0f9 && w(35) == 0x36861bc7
            && w(36) == 0xec9e741b && w(37) == 0x686180b3 && w(38) == 0x36861807 && w(39) == 0x000018c0
            && w(40) == 0xe64518e1 && w(41) == 0x00000f00 && w(42) == 0xb279d06f && w(43) == 0xa18604ad
            && w(44) == 0xf56bac26 && w(45) == 0x000060c0 && w(46) == 0x758a175c && w(47) == 0x5ee7a554
  {
    assert Here(32) && w(32) == 0x56e28a02;
    assert Here(33) && w(33) == 0x00000600;
    assert Here(34) && w(34) == 0xb430c0f9;
    assert Here(35) && w(35) == 0x36861bc7;
    assert Here(36) && w(36) == 0xec9e741b;
    assert Here(37) && w(37) == 0x686180b3;
    assert Here(38) && w(38) == 0x36861807;
    assert Here(39) && w(39) == 0x000018c0;
    assert Here(40) && w(40) == 0xe64518e1;
    assert Here(41) && w(41) == 0x00000f00;
    assert Here(42) && w(42) == 0xb279d06f;
    assert Here(43) && w(43) == 0xa18604ad;
    assert Here(44) && w(44) == 0xf56bac26;
    assert Here(45) && w(45) == 0x000060c0;
    assert Here(46) && w(46) == 0x758a175c;
    assert Here(47) && w(47) == 0x5ee7a554;
  }

  lemma {:induction false} Words48To63(w: nat -> word)
    requires IsSchedule(w)
    requires && w(32) == 0x56e28a02 && w(33) == 0x00000600 && w(34) == 0xb430c0f9 && w(35) == 0x36861bc7
             && w(36) == 0xec9e741b && w(37) == 0x686180b3 && w(38) == 0x36861807 && w(39) == 0x000018c0
             && w(40) == 0xe64518e1 && w(41) == 0x00000f00 && w(42) == 0xb279d06f && w(43) == 0xa18604ad
             && w(44) == 0xf56bac26 && w(45) == 0x000060c0 && w(46) == 0x758a175c && w(47) == 0x5ee7a554
    ensures && w(48) == 0x092e65b4 && w(49) == 0x86180b36 && w(50) == 0x686183b3 && w(51) == 0xec9ff4db
            && w(52) == 0x52d79619 && w(53) == 0x0000f600 && w(54) == 0x93adc6c2 && w(55) == 0x1860491a
            && w(56) == 0xba24b674 && w(57) == 0x68678cb3 && w(58) == 0x6e276dc0 && w(59) == 0xee7a4d85
            && w(60) == 0x74a343a1 && w(61) == 0x6180bca8 && w(62) == 0x02e7f35e && w(63) == 0x687949b3
  {
    assert Here(48) && w(48) == 0x092e65b4;
    assert Here(49) && w(49) == 0x86180b36;
    assert Here(50) && w(50) == 0x686183b3;
    assert Here(51) && w(51) == 0xec9ff4db;
    assert Here(52) && w(52) == 0x52d79619;
    assert Here(53) && w(53) == 0x0000f600;
    assert Here(54) && w(54) == 0x93adc6c2;
    assert Here(55) && w(55) == 0x1860491a;
    assert Here(56) && w(56) == 0xba24b674;
    assert Here(57) && w(57) == 0x68678cb3;
    assert Here(58) && w(58) == 0x6e276dc0;
    assert Here(59) && w(59) == 0xee7a4d85;
    assert Here(60) && w(60) == 0x74a343a1;
    assert Here(61) && w(61) == 0x6180bca8;
    assert Here(62) && w(62) == 0x02e7f35e;
    assert Here(63) && w(63) == 0x687949b3;
  }

  lemma {:induction false} Words64To79(w: nat -> word)
    requires IsSchedule(w)
    requires && w(48) == 0x092e65b4 && w(49) == 0x86180b36 && w(50) == 0x686183b3 && w(51) == 0xec9ff4db
             && w(52) == 0x52d79619 && w(53) == 0x0000f600 && w(54) == 0x93adc6c2 && w(55) == 0x1860491a
             && w(56) == 0xba24b674 && w(57) == 0x68678cb3 && w(58) == 0x6e276dc0 && w(59) == 0xee7a4d85
             && w(60) == 0x74a343a1 && w(61) == 0x6180bca8 && w(62) == 0x02e7f35e && w(63) == 0x687949b3
    ensures && w(64) == 0x75d7d9b7 && w(65) == 0x000f0000 && w(66) == 0x79d063b2 && w(67) == 0xee652dd2
            && w(68) == 0x6bac26f5 && w(69) == 0x0060c000 && w(70) == 0x8a175c75 && w(71) == 0xe7a555de
            && w(72) == 0x43698407 && w(73) == 0x180b3a86 && w(74) == 0x09e2301b && w(75) == 0x45ecb1f0
            && w(76) == 0x0bc75918 && w(77) == 0x00f60a00 && w(78) == 0x71978ed9 && w(79) == 0x08288aeb
  {
    assert Here(64) && w(64) == 0x75d7d9b7;
    assert Here(65) && w(65) == 0x000f0000;
    assert Here(66) && w(66) == 0x79d063b2;
    assert Here(67) && w(67) == 0xee652dd2;
    assert Here(68) && w(68) == 0x6bac26f5;
    assert Here(69) && w(69) == 0x0060c000;
    assert Here(70) && w(70) == 0x8a175c75;
    assert Here(71) && w(71) == 0xe7a555de;
    assert Here(72) && w(72) == 0x43698407;
    assert Here(73) && w(73) == 0x180b3a86;
    assert Here(74) && w(74) == 0x09e2301b;
    assert Here(75) && w(75) == 0x45ecb1f0;
    assert Here(76) && w(76) == 0x0bc75918;
    assert Here(77) && w(77) == 0x00f60a00;
    assert Here(78) && w(78) == 0x71978ed9;
    assert Here(79) && w(79) == 0x08288aeb;
  }

  lemma {:induction false} Rounds0To9(w: nat -> word, s: nat -> State)
    requires IsTrace(w, s)
    requires && w(0) == 0x73686180 && w(1) == 0x00000000 && w(2) == 0x00000000 && w(3) == 0x00000000
             && w(4) == 0x00000000 && w(5) == 0x00000000 && w(6) == 0x00000000 && w(7) == 0x00000000
             && w(8) == 0x00000000 && w(9) == 0x00000000
    requires s(0) == State(0x67452301, 0xefcdab89, 0x98badcfe, 0x10325476, 0xc3d2e1f0)
    ensures s(10) == State(0xf9f19360, 0xf278f26c, 0xa32e70f0, 0x90f9acc9, 0xb91e86b2)
  {
    assert Here(0) && s(1) == State(0x131cfa33, 0x67452301, 0x7bf36ae2, 0x98badcfe, 0x10325476);
    assert Here(1) && s(2) == State(0xca50136f, 0x131cfa33, 0x59d148c0, 0x7bf36ae2, 0x98badcfe);
    assert Here(2) && s(3) == State(0xb7330d50, 0xca50136f, 0xc4c73e8c, 0x59d148c0, 0x7bf36ae2);
    assert Here(3) && s(4) == State(0x8e98e91d, 0xb7330d50, 0xf29404db, 0xc4c73e8c, 0x59d148c0);
    assert Here(4) && s(5) == State(0x7a451ce6, 0x8e98e91d, 0x2dccc354, 0xf29404db, 0xc4c73e8c);
    assert Here(5) && s(6) == State(0xe47a1aca, 0x7a451ce6, 0x63a63a47, 0x2dccc354, 0xf29404db);
    assert Here(6) && s(7) == State(0x43e6b326, 0xe47a1aca, 0x9e914739, 0x63a63a47, 0x2dccc354);
    assert Here(7) && s(8) == State(0x8cb9c3c2, 0x43e6b326, 0xb91e86b2, 0x9e914739, 0x63a63a47);
    assert Here(8) && s(9) == State(0xf278f26c, 0x8cb9c3c2, 0x90f9acc9, 0xb91e86b2, 0x9e914739);
    assert Here(9) && s(10) == State(0xf9f19360, 0xf278f26c, 0xa32e70f0, 0x90f9acc9, 0xb91e86b2);
  }

  lemma {:induction false} Rounds10To19(w: nat -> word, s: nat -> State)
    requires IsTrace(w, s)
    requires && w(10) == 0x00000000 && w(11) == 0x00000000 && w(12) == 0x00000000 && w(13) == 0x00000000
             && w(14) == 0x00000000 && w(15) == 0x00000018 && w(16) == 0xe6d0c300 && w(17) == 0x00000000
             && w(18) == 0x00000030 && w(19) == 0xcda18601
    requires s(10) == State(0xf9f19360, 0xf278f26c, 0xa32e70f0, 0x90f9acc9, 0xb91e86b2)
    ensures s(20) == State(0x4a14e117, 0x61a40074, 0xe8b68d5b, 0x2551e4fc, 0x606f7a39)
  {
    assert Here(10) && s(11) == State(0xf47ce94b, 0xf9f19360, 0x3c9e3c9b, 0xa32e70f0, 0x90f9acc9);
    assert Here(11) && s(12) == State(0xb5b7c070, 0xf47ce94b, 0x3e7c64d8, 0x3c9e3c9b, 0xa32e70f0);
    assert Here(12) && s(13) == State(0xf1a76d77, 0xb5b7c070, 0xfd1f3a52, 0x3e7c64d8, 0x3c9e3c9b);
    assert Here(13) && s(14) == State(0x8b6d8a0a, 0xf1a76d77, 0x2d6df01c, 0xfd1f3a52, 0x3e7c64d8);
    assert Here(14) && s(15) == State(0x33ed91d6, 0x8b6d8a0a, 0xfc69db5d, 0x2d6df01c, 0xfd1f3a52);
    assert Here(15) && s(16) == State(0x81bde8e5, 0x33ed91d6, 0xa2db6282, 0xfc69db5d, 0x2d6df01c);
    assert Here(16) && s(17) == State(0x954793f0, 0x81bde8e5, 0x8cfb6475, 0xa2db6282, 0xfc69db5d);
    assert Here(17) && s(18) == State(0xa2da356f, 0x954793f0, 0x606f7a39, 0x8cfb6475, 0xa2db6282);
    assert Here(18) && s(19) == State(0x61a40074, 0xa2da356f, 0x2551e4fc, 0x606f7a39, 0x8cfb6475);
    assert Here(19) && s(20) == State(0x4a14e117, 0x61a40074, 0xe8b68d5b, 0x2551e4fc, 0x606f7a39);
  }

  lemma {:induction false} Rounds20To29(w: nat -> word, s: nat -> State)
    requires IsTrace(w, s)
    requires && w(20) == 0x00000000 && w(21) == 0x00000060 && w(22) == 0x9b430c03 && w(23) == 0x00000030
             && w(24) == 0xcda186c1 && w(25) == 0x36861807 && w(26) == 0x00000000 && w(27) == 0x00000180
             && w(28) == 0x6d0c300e && w(29) == 0x000000f0
    requires s(20) == State(0x4a14e117, 0x61a40074, 0xe8b68d5b, 0x2551e4fc, 0x606f7a39)
    ensures s(30) == State(0x35be3745, 0x5c46f5d3, 0xe20c973f, 0xb9e70b97, 0xdd06fb85)
  {
    assert Here(20) && s(21) == State(0xbe28f296, 0x4a14e117, 0x1869001d, 0xe8b68d5b, 0x2551e4fc);
    assert Here(21) && s(22) == State(0x14159025, 0xbe28f296, 0xd2853845, 0x1869001d, 0xe8b68d5b);
    assert Here(22) && s(23) == State(0xea4a546f, 0x14159025, 0xaf8a3ca5, 0xd2853845, 0x1869001d);
    assert Here(23) && s(24) == State(0x39a80eb0, 0xea4a546f, 0x45056409, 0xaf8a3ca5, 0xd2853845);
    assert Here(24) && s(25) == State(0x44c78d71, 0x39a80eb0, 0xfa92951b, 0x45056409, 0xaf8a3ca5);
    assert Here(25) && s(26) == State(0x741bee17, 0x44c78d71, 0x0e6a03ac, 0xfa92951b, 0x45056409);
    assert Here(26) && s(27) == State(0xe79c2e5e, 0x741bee17, 0x5131e35c, 0x0e6a03ac, 0xfa92951b);
    assert Here(27) && s(28) == State(0x88325cff, 0xe79c2e5e, 0xdd06fb85, 0x5131e35c, 0x0e6a03ac);
    assert Here(28) && s(29) == State(0x5c46f5d3, 0x88325cff, 0xb9e70b97, 0xdd06fb85, 0x5131e35c);
    assert Here(29) && s(30) == State(0x35be3745, 0x5c46f5d3, 0xe20c973f, 0xb9e70b97, 0xdd06fb85);
  }

  lemma {:induction false} Rounds30To39(w: nat -> word, s: nat -> State)
    requires IsTrace(w, s)
    requires && w(30) == 0xfb279d06 && w(31) == 0xda18604c && w(32) == 0x56e28a02 && w(33) == 0x00000600
             && w(34) == 0xb430c0f9 && w(35) == 0x36861bc7 && w(36) == 0xec9e741b && w(37) == 0x686180b3
             && w(38) == 0x36861807 && w(39) == 0x000018c0
    requires s(30) == State(0x35be3745, 0x5c46f5d3, 0xe20c973f, 0xb9e70b97, 0xdd06fb85)
    ensures s(40) == State(0xffdee366, 0x6ec79caa, 0xc967da96, 0x7ea56554, 0x3f9e9530)
  {
    assert Here(30) && s(31) == State(0x067cd64d, 0x35be3745, 0xd711bd74, 0xe20c973f, 0xb9e70b97);
    assert Here(31) && s(32) == State(0xd3173e32, 0x067cd64d, 0x4d6f8dd1, 0xd711bd74, 0xe20c973f);
    assert Here(32) && s(33) == State(0xa6b3ba24, 0xd3173e32, 0x419f3593, 0x4d6f8dd1, 0xd711bd74);
    assert Here(33) && s(34) == State(0xfc4a7a19, 0xa6b3ba24, 0xb4c5cf8c, 0x419f3593, 0x4d6f8dd1);
    assert Here(34) && s(35) == State(0x4db2bde5, 0xfc4a7a19, 0x29acee89, 0xb4c5cf8c, 0x419f3593);
    assert Here(35) && s(36) == State(0xfe7a54c0, 0x4db2bde5, 0x7f129e86, 0x29acee89, 0xb4c5cf8c);
    assert Here(36) && s(37) == State(0xfa959551, 0xfe7a54c0, 0x536caf79, 0x7f129e86, 0x29acee89);
    assert Here(37) && s(38) == State(0x259f6a5b, 0xfa959551, 0x3f9e9530, 0x536caf79, 0x7f129e86);
    assert Here(38) && s(39) == State(0x6ec79caa, 0x259f6a5b, 0x7ea56554, 0x3f9e9530, 0x536caf79);
    assert Here(39) && s(40) == State(0xffdee366, 0x6ec79caa, 0xc967da96, 0x7ea56554, 0x3f9e9530);
  }

  lemma {:induction false} Rounds40To49(w: nat -> word, s: nat -> State)
    requires IsTrace(w, s)
    requires && w(40) == 0xe64518e1 && w(41) == 0x00000f00 && w(42) == 0xb279d06f && w(43) == 0xa18604ad
             && w(44) == 0xf56bac26 && w(45) == 0x000060c0 && w(46) == 0x758a175c && w(47) == 0x5ee7a554
             && w(48) == 0x092e65b4 && w(49) == 0x86180b36
    requires s(40) == State(0xffdee366, 0x6ec79caa, 0xc967da96, 0x7ea56554, 0x3f9e9530)
    ensures s(50) == State(0x6a3ff49e, 0x00f1618e, 0x987f6930, 0x63e5a148, 0x203c56e0)
  {
    assert Here(40) && s(41) == State(0x1fc3b462, 0xffdee366, 0x9bb1e72a, 0xc967da96, 0x7ea56554);
    assert Here(41) && s(42) == State(0xe22fa099, 0x1fc3b462, 0xbff7b8d9, 0x9bb1e72a, 0xc967da96);
    assert Here(42) && s(43) == State(0xf0e52f87, 0xe22fa099, 0x87f0ed18, 0xbff7b8d9, 0x9bb1e72a);
    assert Here(43) && s(44) == State(0x90f1424a, 0xf0e52f87, 0x788be826, 0x87f0ed18, 0xbff7b8d9);
    assert Here(44) && s(45) == State(0x53895833, 0x90f1424a, 0xfc394be1, 0x788be826, 0x87f0ed18);
    assert Here(45) && s(46) == State(0x80f15b80, 0x53895833, 0xa43c5092, 0xfc394be1, 0x788be826);
    assert Here(46) && s(47) == State(0x8f968521, 0x80f15b80, 0xd4e2560c, 0xa43c5092, 0xfc394be1);
    assert Here(47) && s(48) == State(0x61fda4c2, 0x8f968521, 0x203c56e0, 0xd4e2560c, 0xa43c5092);
    assert Here(48) && s(49) == State(0x00f1618e, 0x61fda4c2, 0x63e5a148, 0x203c56e0, 0xd4e2560c);
    assert Here(49) && s(50) == State(0x6a3ff49e, 0x00f1618e, 0x987f6930, 0x63e5a148, 0x203c56e0);
  }

  lemma {:induction false} Rounds50To59(w: nat -> word, s: nat -> State)
    requires IsTrace(w, s)
    requires && w(50) == 0x686183b3 && w(51) == 0xec9ff4db && w(52) == 0x52d79619 && w(53) == 0x0000f600
             && w(54) == 0x93adc6c2 && w(55) == 0x1860491a && w(56) == 0xba24b674 && w(57) == 0x68678cb3
             && w(58) == 0x6e276dc0 && w(59) == 0xee7a4d85
    requires s(50) == State(0x6a3ff49e, 0x00f1618e, 0x987f6930, 0x63e5a148, 0x203c56e0)
    ensures s(60) == State(0x7dc07d1d, 0x63c70d8f, 0xbc989998, 0xefbb5d4e, 0x8465ed51)
  {
    assert Here(50) && s(51) == State(0x60ad8c44, 0x6a3ff49e, 0x803c5863, 0x987f6930, 0x63e5a148);
    assert Here(51) && s(52) == State(0x7d9253bd, 0x60ad8c44, 0x9a8ffd27, 0x803c5863, 0x987f6930);
    assert Here(52) && s(53) == State(0xad6b103b, 0x7d9253bd, 0x182b6311, 0x9a8ffd27, 0x803c5863);
    assert Here(53) && s(54) == State(0xd54685e9, 0xad6b103b, 0x5f6494ef, 0x182b6311, 0x9a8ffd27);
    assert Here(54) && s(55) == State(0x83954e3a, 0xd54685e9, 0xeb5ac40e, 0x5f6494ef, 0x182b6311);
    assert Here(55) && s(56) == State(0x1197b546, 0x83954e3a, 0x7551a17a, 0xeb5ac40e, 0x5f6494ef);
    assert Here(56) && s(57) == State(0xbeed753b, 0x1197b546, 0xa0e5538e, 0x7551a17a, 0xeb5ac40e);
    assert Here(57) && s(58) == State(0xf2626662, 0xbeed753b, 0x8465ed51, 0xa0e5538e, 0x7551a17a);
    assert Here(58) && s(59) == State(0x63c70d8f, 0xf2626662, 0xefbb5d4e, 0x8465ed51, 0xa0e5538e);
    assert Here(59) && s(60) == State(0x7dc07d1d, 0x63c70d8f, 0xbc989998, 0xefbb5d4e, 0x8465ed51);
  }

  lemma {:induction false} Rounds60To69(w: nat -> word, s: nat -> State)
    requires IsTrace(w, s)
    requires && w(60) == 0x74a343a1 && w(61) == 0x6180bca8 && w(62) == 0x02e7f35e && w(63) == 0x687949b3
             && w(64) == 0x75d7d9b7 && w(65) == 0x000f0000 && w(66) == 0x79d063b2 && w(67) == 0xee652dd2
             && w(68) == 0x6bac26f5 && w(69) == 0x0060c000
    requires s(60) == State(0x7dc07d1d, 0x63c70d8f, 0xbc989998, 0xefbb5d4e, 0x8465ed51)
    ensures s(70) == State(0x477629d9, 0xbd593e84, 0xc12eee18, 0xe411111a, 0xaeae9d7b)
  {
    assert Here(60) && s(61) == State(0xac605fd0, 0x7dc07d1d, 0xd8f1c363, 0xbc989998, 0xefbb5d4e);
    assert Here(61) && s(62) == State(0xc153fdc7, 0xac605fd0, 0x5f701f47, 0xd8f1c363, 0xbc989998);
    assert Here(62) && s(63) == State(0xe0448bb8, 0xc153fdc7, 0x2b1817f4, 0x5f701f47, 0xd8f1c363);
    assert Here(63) && s(64) == State(0xc99b3b7c, 0xe0448bb8, 0xf054ff71, 0x2b1817f4, 0x5f701f47);
    assert Here(64) && s(65) == State(0x0e1a8daa, 0xc99b3b7c, 0x381122ee, 0xf054ff71, 0x2b1817f4);
    assert Here(65) && s(66) == State(0xbaba75ee, 0x0e1a8daa, 0x3266cedf, 0x381122ee, 0xf054ff71);
    assert Here(66) && s(67) == State(0x9044446b, 0xbaba75ee, 0x8386a36a, 0x3266cedf, 0x381122ee);
    assert Here(67) && s(68) == State(0x04bbb863, 0x9044446b, 0xaeae9d7b, 0x8386a36a, 0x3266cedf);
    assert Here(68) && s(69) == State(0xbd593e84, 0x04bbb863, 0xe411111a, 0xaeae9d7b, 0x8386a36a);
    assert Here(69) && s(70) == State(0x477629d9, 0xbd593e84, 0xc12eee18, 0xe411111a, 0xaeae9d7b);
  }

  lemma {:induction false} Rounds70To79(w: nat -> word, s: nat -> State)
    requires IsTrace(w, s)
    requires && w(70) == 0x8a175c75 && w(71) == 0xe7a555de && w(72) == 0x43698407 && w(73) == 0x180b3a86
             && w(74) == 0x09e2301b && w(75) == 0x45ecb1f0 && w(76) == 0x0bc75918 && w(77) == 0x00f60a00
             && w(78) == 0x71978ed9 && w(79) == 0x08288aeb
    requires s(70) == State(0x477629d9, 0xbd593e84, 0xc12eee18, 0xe411111a, 0xaeae9d7b)
    ensures s(80) == State(0x71af3602, 0x311388b1, 0xf8a08696, 0x06d3fc32, 0x2f8a8736)
  {
    assert Here(70) && s(71) == State(0x8a54b874, 0x477629d9, 0x2f564fa1, 0xc12eee18, 0xe411111a);
    assert Here(71) && s(72) == State(0x89bebfbf, 0x8a54b874, 0x51dd8a76, 0x2f564fa1, 0xc12eee18);
    assert Here(72) && s(73) == State(0xfbb2a989, 0x89bebfbf, 0x22952e1d, 0x51dd8a76, 0x2f564fa1);
    assert Here(73) && s(74) == State(0x830f9910, 0xfbb2a989, 0xe26fafef, 0x22952e1d, 0x51dd8a76);
    assert Here(74) && s(75) == State(0xc35dc6f2, 0x830f9910, 0x7eecaa62, 0xe26fafef, 0x22952e1d);
    assert Here(75) && s(76) == State(0xbe2a1cd8, 0xc35dc6f2, 0x20c3e644, 0x7eecaa62, 0xe26fafef);
    assert Here(76) && s(77) == State(0x1b4ff0c8, 0xbe2a1cd8, 0xb0d771bc, 0x20c3e644, 0x7eecaa62);
    assert Here(77) && s(78) == State(0xe2821a5b, 0x1b4ff0c8, 0x2f8a8736, 0xb0d771bc, 0x20c3e644);
    assert Here(78) && s(79) == State(0x311388b1, 0xe2821a5b, 0x06d3fc32, 0x2f8a8736, 0xb0d771bc);
    assert Here(79) && s(80) == State(0x71af3602, 0x311388b1, 0xf8a08696, 0x06d3fc32, 0x2f8a8736);
  }

  lemma {:induction false} AllRounds(w: nat -> word, s: nat -> State)
    requires IsSchedule(w) && IsTrace(w, s) && s(0) == State(0x67452301, 0xefcdab89, 0x98badcfe, 0x10325476, 0xc3d2e1f0)
    requires && w(0) == 0x73686180 && w(1) == 0x00000000 && w(2) == 0x00000000 && w(3) == 0x00000000
             && w(4) == 0x00000000 && w(5) == 0x00000000 && w(6) == 0x00000000 && w(7) == 0x00000000
             && w(8) == 0x00000000 && w(9) == 0x00000000 && w(10) == 0x00000000 && w(11) == 0x00000000
             && w(12) == 0x00000000 && w(13) == 0x00000000 && w(14) == 0x00000000 && w(15) == 0x00000018
    ensures s(80) == State(0x71af3602, 0x311388b1, 0xf8a08696, 0x06d3fc32, 0x2f8a8736)
  {
    Words16To31(w);
    Words32To47(w);
    Words48To63(w);
    Words64To79(w);
    Rounds0To9(w, s);
    Rounds10To19(w, s);
    Rounds20To29(w, s);
    Rounds30To39(w, s);
    Rounds40To49(w, s);
    Rounds50To59(w, s);
    Rounds60To69(w, s);
    Rounds70To79(w, s);
  }

  lemma {:induction false} ExampleCompressed(m: Block, digest: State)
    requires IsExample(m) && digest == State(0x67452301, 0xefcdab89, 0x98badcfe, 0x10325476, 0xc3d2e1f0)
    ensures Compress(digest, m) == State(0xd8f45903, 0x20e1343a, 0x915b6394, 0x170650a8, 0xf35d6926)
  {
    var w := ScheduleOf(m);
    var s := TraceOf(m, digest, w);
    AllRounds(w, s);
  }

  ghost predicate IsW(w: nat -> word, m: Block) {
    forall t: nat {:trigger W(m, t)} :: w(t) == W(m, t)
  }

  lemma {:induction false} ScheduleOf(m: Block) returns (w: nat -> word)
    ensures IsSchedule(w) && IsW(w, m) && forall t: nat | t < 16 :: w(t) == m[t]
  {
    w := (t: nat) => W(m, t);
  }

  lemma {:induction false} TraceOf(m: Block, digest: State, w: nat -> word) returns (s: nat -> State)
    requires IsW(w, m)
    ensures IsTrace(w, s) && s(0) == digest && Compress(digest, m) == Sum(digest, s(80))
  {
    s := (t: nat) => Rounds(m, digest, t);
  }

  const MESSAGE: seq<byte> := [0x73, 0x68, 0x61]

  lemma PaddedMessage()
    ensures var p := Padded(MESSAGE);
            && |p| == 64 && p[..4] == [0x73, 0x68, 0x61, 0x80] && p[60..] == [0, 0, 0, 0x18]
            && forall i | 4 <= i < 60 :: p[i] == 0
  {
    LengthField();
    assert Padded(MESSAGE) == MESSAGE + [0x80] + Zeros(52) + BigEndian(24, 8);
  }

  lemma LengthField()
    ensures BigEndian(24, 8) == [0, 0, 0, 0, 0, 0, 0, 24]
  {
    ZerosBigEndian(7);
    assert BigEndian(24, 8) == BigEndian(0, 7) + [24];
  }

  lemma {:induction false} ZerosBigEndian(n: nat)
    ensures BigEndian(0, n) == Zeros(n)
  {
    if n > 0 {
      ZerosBigEndian(n - 1);
    }
  }

  lemma WordOfBytes(p: seq<byte>, t: nat, b0: byte, b1: byte, b2: byte, b3: byte)
    requires 4 * t + 4 <= |p| && p[4 * t] == b0 && p[4 * t + 1] == b1 && p[4 * t + 2] == b2 && p[4 * t + 3] == b3
    ensures WordAt(p, t) == WordOf(b0, b1, b2, b3)
  {
  }

  lemma ExampleWords()
    ensures WordOf(0x73, 0x68, 0x61, 0x80) == 0x73686180 && WordOf(0, 0, 0, 0x18) == 0x18 && WordOf(0, 0, 0, 0) == 0
  {
  }

  lemma ExampleBlock(p: seq<byte>)
    requires |p| == 64 && p[..4] == [0x73, 0x68, 0x61, 0x80] && p[60..] == [0, 0, 0, 0x18]
    requires forall i | 4 <= i < 60 :: p[i] == 0
    ensures IsExample(WordsOf(p))
  {
    var m := WordsOf(p);
    ExampleWords();
    assert p[0] == p[..4][0] && p[1] == p[..4][1] && p[2] == p[..4][2] && p[3] == p[..4][3];
    WordOfBytes(p, 0, 0x73, 0x68, 0x61, 0x80);
    assert p[60] == p[60..][0] && p[61] == p[60..][1] && p[62] == p[60..][2] && p[63] == p[60..][3];
    WordOfBytes(p, 15, 0, 0, 0, 0x18);
    forall t | 0 < t < 15
      ensures m[t] == 0
    {
      WordOfBytes(p, t, 0, 0, 0, 0);
    }
  }

  /** The digest of "sha" is d8f45903 20e1343a 915b6394 170650a8 f35d6926. */
  lemma {:induction false} KnownAnswer()
    ensures Digest(MESSAGE) == State(0xd8f45903, 0x20e1343a, 0x915b6394, 0x170650a8, 0xf35d6926)
  {
    var p := Padded(MESSAGE);
    PaddedMessage();
    ExampleBlock(p);
    assert p[..0] == [] && p[0..] == p;
    ExampleCompressed(WordsOf(p), INITIAL);
  }
}
