/** The published test vector of the standard: SHA-256 of "abc" (FIPS 180-4, one-block example),
    computed step by step.  It fixes every part of the definition by value. */
module Fips180Vector {
  import opened Words
  import opened Fips180

  const ABC: seq<byte> := [0x61, 0x62, 0x63]

  /** The message, the marker, zeros, and the length of 24 bits. */
  predicate IsBlock(b: seq<byte>) {
    && |b| == 64
    && b[0] == 0x61 && b[1] == 0x62 && b[2] == 0x63 && b[3] == 0x80 && b[63] == 0x18
    && forall k | 4 <= k < 63 :: b[k] == 0
  }

  lemma SmallNumbers()
    ensures NatOfByte(0) == 0 && NatOfByte(0x18) == 24
  {}

  lemma CountBytes(n: nat)
    requires n == 24
    ensures U64Be(n) == [0, 0, 0, 0, 0, 0, 0, 0x18]
  {
    hide ByteOf, NatOfByte;
    SmallNumbers();
    var b := U64Be(n);
    NatOfByteInjective(b[7], 0x18);
    forall k | 0 <= k < 7
      ensures b[k] == 0
    {
      assert NatOfByte(b[k]) == 0;
      NatOfByteInjective(b[k], 0);
    }
  }

  lemma PaddedAbc()
    ensures IsBlock(Pad(ABC))
  {
    hide U64Be, PadZeros;
    CountBytes(8 * |ABC|);
    ZeroRun();
    assert Pad(ABC) == ABC + ([0x80] + Zeros(52) + [0, 0, 0, 0, 0, 0, 0, 0x18]);
  }

  lemma ZeroRun()
    ensures PadZeros(|ABC|) == 52
  {}

  // -------------------------------------------------------------------------
  // The message schedule
  // -------------------------------------------------------------------------

  lemma FirstWord(b: seq<byte>, t: nat)
    requires |b| == 64 && t < 16
    ensures Schedule(b, t) == BeWord([b[4 * t], b[4 * t + 1], b[4 * t + 2], b[4 * t + 3]])
  {
    hide BeWord;
    assert b[4 * t..4 * t + 4] == [b[4 * t], b[4 * t + 1], b[4 * t + 2], b[4 * t + 3]];
  }

  lemma NextWord(b: seq<byte>, t: nat)
    requires |b| == 64 && 16 <= t < 64
    ensures Schedule(b, t)
            == Add(Add(Add(SmallSigma1(Schedule(b, t - 2)), Schedule(b, t - 7)), SmallSigma0(Schedule(b, t - 15))),
                   Schedule(b, t - 16))
  {}

  lemma WordValues()
    ensures BeWord([0x61, 0x62, 0x63, 0x80]) == 0x6162_6380
    ensures BeWord([0, 0, 0, 0]) == 0
    ensures BeWord([0, 0, 0, 0x18]) == 0x18
  {}

  lemma MessageWords(b: seq<byte>, t: nat)
    requires IsBlock(b) && t < 16
    ensures Schedule(b, t) == if t == 0 then 0x6162_6380 else if t == 15 then 0x18 else 0
  {
    hide Schedule, BeWord;
    FirstWord(b, t);
    WordValues();
  }

  lemma Words_0(b: seq<byte>, t: nat)
    requires IsBlock(b) && t == 0
    ensures Schedule(b, t) == 0x6162_6380
    ensures Schedule(b, t + 1) == 0x0000_0000
    ensures Schedule(b, t + 2) == 0x0000_0000
    ensures Schedule(b, t + 3) == 0x0000_0000
    ensures Schedule(b, t + 4) == 0x0000_0000
    ensures Schedule(b, t + 5) == 0x0000_0000
    ensures Schedule(b, t + 6) == 0x0000_0000
    ensures Schedule(b, t + 7) == 0x0000_0000
  {
    hide Schedule;
    MessageWords(b, t);
    MessageWords(b, t + 1);
    MessageWords(b, t + 2);
    MessageWords(b, t + 3);
    MessageWords(b, t + 4);
    MessageWords(b, t + 5);
    MessageWords(b, t + 6);
    MessageWords(b, t + 7);
  }

  lemma Words_1(b: seq<byte>, t: nat)
    requires IsBlock(b) && t == 8
    ensures Schedule(b, t) == 0x0000_0000
    ensures Schedule(b, t + 1) == 0x0000_0000
    ensures Schedule(b, t + 2) == 0x0000_0000
    ensures Schedule(b, t + 3) == 0x0000_0000
    ensures Schedule(b, t + 4) == 0x0000_0000
    ensures Schedule(b, t + 5) == 0x0000_0000
    ensures Schedule(b, t + 6) == 0x0000_0000
    ensures Schedule(b, t + 7) == 0x0000_0018
  {
    hide Schedule;
    MessageWords(b, t);
    MessageWords(b, t + 1);
    MessageWords(b, t + 2);
    MessageWords(b, t + 3);
    MessageWords(b, t + 4);
    MessageWords(b, t + 5);
    MessageWords(b, t + 6);
    MessageWords(b, t + 7);
  }

  lemma Words_2(b: seq<byte>, t: nat)
    requires IsBlock(b) && t == 16
    ensures Schedule(b, t) == 0x6162_6380
    ensures Schedule(b, t + 1) == 0x000F_0000
    ensures Schedule(b, t + 2) == 0x7DA8_6405
    ensures Schedule(b, t + 3) == 0x6000_03C6
    ensures Schedule(b, t + 4) == 0x3E9D_7B78
    ensures Schedule(b, t + 5) == 0x0183_FC00
    ensures Schedule(b, t + 6) == 0x12DC_BFDB
    ensures Schedule(b, t + 7) == 0xE2E2_C38E
  {
    hide Schedule;
    Words_0(b, t - 16);
    Words_1(b, t - 8);
    NextWord(b, t);
    assert Add(Add(Add(SmallSigma1(0x0000_0000), 0x0000_0000), SmallSigma0(0x0000_0000)), 0x6162_6380) == 0x6162_6380;
    NextWord(b, t + 1);
    assert Add(Add(Add(SmallSigma1(0x0000_0018), 0x0000_0000), SmallSigma0(0x0000_0000)), 0x0000_0000) == 0x000F_0000;
    NextWord(b, t + 2);
    assert Add(Add(Add(SmallSigma1(0x6162_6380), 0x0000_0000), SmallSigma0(0x0000_0000)), 0x0000_0000) == 0x7DA8_6405;
    NextWord(b, t + 3);
    assert Add(Add(Add(SmallSigma1(0x000F_0000), 0x0000_0000), SmallSigma0(0x0000_0000)), 0x0000_0000) == 0x6000_03C6;
    NextWord(b, t + 4);
    assert Add(Add(Add(SmallSigma1(0x7DA8_6405), 0x0000_0000), SmallSigma0(0x0000_0000)), 0x0000_0000) == 0x3E9D_7B78;
    NextWord(b, t + 5);
    assert Add(Add(Add(SmallSigma1(0x6000_03C6), 0x0000_0000), SmallSigma0(0x0000_0000)), 0x0000_0000) == 0x0183_FC00;
    NextWord(b, t + 6);
    assert Add(Add(Add(SmallSigma1(0x3E9D_7B78), 0x0000_0018), SmallSigma0(0x0000_0000)), 0x0000_0000) == 0x12DC_BFDB;
    NextWord(b, t + 7);
    assert Add(Add(Add(SmallSigma1(0x0183_FC00), 0x6162_6380), SmallSigma0(0x0000_0000)), 0x0000_0000) == 0xE2E2_C38E;
  }

  lemma Words_3(b: seq<byte>, t: nat)
    requires IsBlock(b) && t == 24
    ensures Schedule(b, t) == 0xC821_5C1A
    ensures Schedule(b, t + 1) == 0xB736_79A2
    ensures Schedule(b, t + 2) == 0xE5BC_3909
    ensures Schedule(b, t + 3) == 0x3266_3C5B
    ensures Schedule(b, t + 4) == 0x9D20_9D67
    ensures Schedule(b, t + 5) == 0xEC87_26CB
    ensures Schedule(b, t + 6) == 0x7021_38A4
    ensures Schedule(b, t + 7) == 0xD3B7_973B
  {
    hide Schedule;
    Words_1(b, t - 16);
    Words_2(b, t - 8);
    NextWord(b, t);
    assert Add(Add(Add(SmallSigma1(0x12DC_BFDB), 0x000F_0000), SmallSigma0(0x0000_0000)), 0x0000_0000) == 0xC821_5C1A;
    NextWord(b, t + 1);
    assert Add(Add(Add(SmallSigma1(0xE2E2_C38E), 0x7DA8_6405), SmallSigma0(0x0000_0000)), 0x0000_0000) == 0xB736_79A2;
    NextWord(b, t + 2);
    assert Add(Add(Add(SmallSigma1(0xC821_5C1A), 0x6000_03C6), SmallSigma0(0x0000_0000)), 0x0000_0000) == 0xE5BC_3909;
    NextWord(b, t + 3);
    assert Add(Add(Add(SmallSigma1(0xB736_79A2), 0x3E9D_7B78), SmallSigma0(0x0000_0000)), 0x0000_0000) == 0x3266_3C5B;
    NextWord(b, t + 4);
    assert Add(Add(Add(SmallSigma1(0xE5BC_3909), 0x0183_FC00), SmallSigma0(0x0000_0000)), 0x0000_0000) == 0x9D20_9D67;
    NextWord(b, t + 5);
    assert Add(Add(Add(SmallSigma1(0x3266_3C5B), 0x12DC_BFDB), SmallSigma0(0x0000_0000)), 0x0000_0000) == 0xEC87_26CB;
    NextWord(b, t + 6);
    assert Add(Add(Add(SmallSigma1(0x9D20_9D67), 0xE2E2_C38E), SmallSigma0(0x0000_0018)), 0x0000_0000) == 0x7021_38A4;
    NextWord(b, t + 7);
    assert Add(Add(Add(SmallSigma1(0xEC87_26CB), 0xC821_5C1A), SmallSigma0(0x6162_6380)), 0x0000_0018) == 0xD3B7_973B;
  }

  lemma Words_4(b: seq<byte>, t: nat)
    requires IsBlock(b) && t == 32
    ensures Schedule(b, t) == 0x93F5_997F
    ensures Schedule(b, t + 1) == 0x3B68_BA73
    ensures Schedule(b, t + 2) == 0xAFF4_FFC1
    ensures Schedule(b, t + 3) == 0xF10A_5C62
    ensures Schedule(b, t + 4) == 0x0A8B_3996
    ensures Schedule(b, t + 5) == 0x72AF_830A
    ensures Schedule(b, t + 6) == 0x9409_E33E
    ensures Schedule(b, t + 7) == 0x2464_1522
  {
    hide Schedule;
    Words_2(b, t - 16);
    Words_3(b, t - 8);
    NextWord(b, t);
    assert Add(Add(Add(SmallSigma1(0x7021_38A4), 0xB736_79A2), SmallSigma0(0x000F_0000)), 0x6162_6380) == 0x93F5_997F;
    NextWord(b, t + 1);
    assert Add(Add(Add(SmallSigma1(0xD3B7_973B), 0xE5BC_3909), SmallSigma0(0x7DA8_6405)), 0x000F_0000) == 0x3B68_BA73;
    NextWord(b, t + 2);
    assert Add(Add(Add(SmallSigma1(0x93F5_997F), 0x3266_3C5B), SmallSigma0(0x6000_03C6)), 0x7DA8_6405) == 0xAFF4_FFC1;
    NextWord(b, t + 3);
    assert Add(Add(Add(SmallSigma1(0x3B68_BA73), 0x9D20_9D67), SmallSigma0(0x3E9D_7B78)), 0x6000_03C6) == 0xF10A_5C62;
    NextWord(b, t + 4);
    assert Add(Add(Add(SmallSigma1(0xAFF4_FFC1), 0xEC87_26CB), SmallSigma0(0x0183_FC00)), 0x3E9D_7B78) == 0x0A8B_3996;
    NextWord(b, t + 5);
    assert Add(Add(Add(SmallSigma1(0xF10A_5C62), 0x7021_38A4), SmallSigma0(0x12DC_BFDB)), 0x0183_FC00) == 0x72AF_830A;
    NextWord(b, t + 6);
    assert Add(Add(Add(SmallSigma1(0x0A8B_3996), 0xD3B7_973B), SmallSigma0(0xE2E2_C38E)), 0x12DC_BFDB) == 0x9409_E33E;
    NextWord(b, t + 7);
    assert Add(Add(Add(SmallSigma1(0x72AF_830A), 0x93F5_997F), SmallSigma0(0xC821_5C1A)), 0xE2E2_C38E) == 0x2464_1522;
  }

  lemma Words_5(b: seq<byte>, t: nat)
    requires IsBlock(b) && t == 40
    ensures Schedule(b, t) == 0x9F47_BF94
    ensures Schedule(b, t + 1) == 0xF0A6_4F5A
    ensures Schedule(b, t + 2) == 0x3E24_6A79
    ensures Schedule(b, t + 3) == 0x2733_3BA3
    ensures Schedule(b, t + 4) == 0x0C47_63F2
    ensures Schedule(b, t + 5) == 0x840A_BF27
    ensures Schedule(b, t + 6) == 0x7A29_0D5D
    ensures Schedule(b, t + 7) == 0x065C_43DA
  {
    hide Schedule;
    Words_3(b, t - 16);
    Words_4(b, t - 8);
    NextWord(b, t);
    assert Add(Add(Add(SmallSigma1(0x9409_E33E), 0x3B68_BA73), SmallSigma0(0xB736_79A2)), 0xC821_5C1A) == 0x9F47_BF94;
    NextWord(b, t + 1);
    assert Add(Add(Add(SmallSigma1(0x2464_1522), 0xAFF4_FFC1), SmallSigma0(0xE5BC_3909)), 0xB736_79A2) == 0xF0A6_4F5A;
    NextWord(b, t + 2);
    assert Add(Add(Add(SmallSigma1(0x9F47_BF94), 0xF10A_5C62), SmallSigma0(0x3266_3C5B)), 0xE5BC_3909) == 0x3E24_6A79;
    NextWord(b, t + 3);
    assert Add(Add(Add(SmallSigma1(0xF0A6_4F5A), 0x0A8B_3996), SmallSigma0(0x9D20_9D67)), 0x3266_3C5B) == 0x2733_3BA3;
    NextWord(b, t + 4);
    assert Add(Add(Add(SmallSigma1(0x3E24_6A79), 0x72AF_830A), SmallSigma0(0xEC87_26CB)), 0x9D20_9D67) == 0x0C47_63F2;
    NextWord(b, t + 5);
    assert Add(Add(Add(SmallSigma1(0x2733_3BA3), 0x9409_E33E), SmallSigma0(0x7021_38A4)), 0xEC87_26CB) == 0x840A_BF27;
    NextWord(b, t + 6);
    assert Add(Add(Add(SmallSigma1(0x0C47_63F2), 0x2464_1522), SmallSigma0(0xD3B7_973B)), 0x7021_38A4) == 0x7A29_0D5D;
    NextWord(b, t + 7);
    assert Add(Add(Add(SmallSigma1(0x840A_BF27), 0x9F47_BF94), SmallSigma0(0x93F5_997F)), 0xD3B7_973B) == 0x065C_43DA;
  }

  lemma Words_6(b: seq<byte>, t: nat)
    requires IsBlock(b) && t == 48
    ensures Schedule(b, t) == 0xFB3E_89CB
    ensures Schedule(b, t + 1) == 0xCC76_17DB
    ensures Schedule(b, t + 2) == 0xB9E6_6C34
    ensures Schedule(b, t + 3) == 0xA999_3667
    ensures Schedule(b, t + 4) == 0x84BA_DEDD
    ensures Schedule(b, t + 5) == 0xC214_62BC
    ensures Schedule(b, t + 6) == 0x1487_472C
    ensures Schedule(b, t + 7) == 0xB20F_7A99
  {
    hide Schedule;
    Words_4(b, t - 16);
    Words_5(b, t - 8);
    NextWord(b, t);
    assert Add(Add(Add(SmallSigma1(0x7A29_0D5D), 0xF0A6_4F5A), SmallSigma0(0x3B68_BA73)), 0x93F5_997F) == 0xFB3E_89CB;
    NextWord(b, t + 1);
    assert Add(Add(Add(SmallSigma1(0x065C_43DA), 0x3E24_6A79), SmallSigma0(0xAFF4_FFC1)), 0x3B68_BA73) == 0xCC76_17DB;
    NextWord(b, t + 2);
    assert Add(Add(Add(SmallSigma1(0xFB3E_89CB), 0x2733_3BA3), SmallSigma0(0xF10A_5C62)), 0xAFF4_FFC1) == 0xB9E6_6C34;
    NextWord(b, t + 3);
    assert Add(Add(Add(SmallSigma1(0xCC76_17DB), 0x0C47_63F2), SmallSigma0(0x0A8B_3996)), 0xF10A_5C62) == 0xA999_3667;
    NextWord(b, t + 4);
    assert Add(Add(Add(SmallSigma1(0xB9E6_6C34), 0x840A_BF27), SmallSigma0(0x72AF_830A)), 0x0A8B_3996) == 0x84BA_DEDD;
    NextWord(b, t + 5);
    assert Add(Add(Add(SmallSigma1(0xA999_3667), 0x7A29_0D5D), SmallSigma0(0x9409_E33E)), 0x72AF_830A) == 0xC214_62BC;
    NextWord(b, t + 6);
    assert Add(Add(Add(SmallSigma1(0x84BA_DEDD), 0x065C_43DA), SmallSigma0(0x2464_1522)), 0x9409_E33E) == 0x1487_472C;
    NextWord(b, t + 7);
    assert Add(Add(Add(SmallSigma1(0xC214_62BC), 0xFB3E_89CB), SmallSigma0(0x9F47_BF94)), 0x2464_1522) == 0xB20F_7A99;
  }

  lemma Words_7(b: seq<byte>, t: nat)
    requires IsBlock(b) && t == 56
    ensures Schedule(b, t) == 0xEF57_B9CD
    ensures Schedule(b, t + 1) == 0xEBE6_B238
    ensures Schedule(b, t + 2) == 0x9FE3_095E
    ensures Schedule(b, t + 3) == 0x78BC_8D4B
    ensures Schedule(b, t + 4) == 0xA43F_CF15
    ensures Schedule(b, t + 5) == 0x668B_2FF8
    ensures Schedule(b, t + 6) == 0xEEAB_A2CC
    ensures Schedule(b, t + 7) == 0x12B1_EDEB
  {
    hide Schedule;
    Words_5(b, t - 16);
    Words_6(b, t - 8);
    NextWord(b, t);
    assert Add(Add(Add(SmallSigma1(0x1487_472C), 0xCC76_17DB), SmallSigma0(0xF0A6_4F5A)), 0x9F47_BF94) == 0xEF57_B9CD;
    NextWord(b, t + 1);
    assert Add(Add(Add(SmallSigma1(0xB20F_7A99), 0xB9E6_6C34), SmallSigma0(0x3E24_6A79)), 0xF0A6_4F5A) == 0xEBE6_B238;
    NextWord(b, t + 2);
    assert Add(Add(Add(SmallSigma1(0xEF57_B9CD), 0xA999_3667), SmallSigma0(0x2733_3BA3)), 0x3E24_6A79) == 0x9FE3_095E;
    NextWord(b, t + 3);
    assert Add(Add(Add(SmallSigma1(0xEBE6_B238), 0x84BA_DEDD), SmallSigma0(0x0C47_63F2)), 0x2733_3BA3) == 0x78BC_8D4B;
    NextWord(b, t + 4);
    assert Add(Add(Add(SmallSigma1(0x9FE3_095E), 0xC214_62BC), SmallSigma0(0x840A_BF27)), 0x0C47_63F2) == 0xA43F_CF15;
    NextWord(b, t + 5);
    assert Add(Add(Add(SmallSigma1(0x78BC_8D4B), 0x1487_472C), SmallSigma0(0x7A29_0D5D)), 0x840A_BF27) == 0x668B_2FF8;
    NextWord(b, t + 6);
    assert Add(Add(Add(SmallSigma1(0xA43F_CF15), 0xB20F_7A99), SmallSigma0(0x065C_43DA)), 0x7A29_0D5D) == 0xEEAB_A2CC;
    NextWord(b, t + 7);
    assert Add(Add(Add(SmallSigma1(0x668B_2FF8), 0xEF57_B9CD), SmallSigma0(0xFB3E_89CB)), 0x065C_43DA) == 0x12B1_EDEB;
  }

  // -------------------------------------------------------------------------
  // The rounds
  // -------------------------------------------------------------------------

  lemma Constants_0()
    ensures RoundConstant(0) == 0x428A_2F98
    ensures RoundConstant(1) == 0x7137_4491
    ensures RoundConstant(2) == 0xB5C0_FBCF
    ensures RoundConstant(3) == 0xE9B5_DBA5
    ensures RoundConstant(4) == 0x3956_C25B
    ensures RoundConstant(5) == 0x59F1_11F1
    ensures RoundConstant(6) == 0x923F_82A4
    ensures RoundConstant(7) == 0xAB1C_5ED5
  {}

  lemma Constants_1()
    ensures RoundConstant(8) == 0xD807_AA98
    ensures RoundConstant(9) == 0x1283_5B01
    ensures RoundConstant(10) == 0x2431_85BE
    ensures RoundConstant(11) == 0x550C_7DC3
    ensures RoundConstant(12) == 0x72BE_5D74
    ensures RoundConstant(13) == 0x80DE_B1FE
    ensures RoundConstant(14) == 0x9BDC_06A7
    ensures RoundConstant(15) == 0xC19B_F174
  {}

  lemma Constants_2()
    ensures RoundConstant(16) == 0xE49B_69C1
    ensures RoundConstant(17) == 0xEFBE_4786
    ensures RoundConstant(18) == 0x0FC1_9DC6
    ensures RoundConstant(19) == 0x240C_A1CC
    ensures RoundConstant(20) == 0x2DE9_2C6F
    ensures RoundConstant(21) == 0x4A74_84AA
    ensures RoundConstant(22) == 0x5CB0_A9DC
    ensures RoundConstant(23) == 0x76F9_88DA
  {}

  lemma Constants_3()
    ensures RoundConstant(24) == 0x983E_5152
    ensures RoundConstant(25) == 0xA831_C66D
    ensures RoundConstant(26) == 0xB003_27C8
    ensures RoundConstant(27) == 0xBF59_7FC7
    ensures RoundConstant(28) == 0xC6E0_0BF3
    ensures RoundConstant(29) == 0xD5A7_9147
    ensures RoundConstant(30) == 0x06CA_6351
    ensures RoundConstant(31) == 0x1429_2967
  {}

  lemma Constants_4()
    ensures RoundConstant(32) == 0x27B7_0A85
    ensures RoundConstant(33) == 0x2E1B_2138
    ensures RoundConstant(34) == 0x4D2C_6DFC
    ensures RoundConstant(35) == 0x5338_0D13
    ensures RoundConstant(36) == 0x650A_7354
    ensures RoundConstant(37) == 0x766A_0ABB
    ensures RoundConstant(38) == 0x81C2_C92E
    ensures RoundConstant(39) == 0x9272_2C85
  {}

  lemma Constants_5()
    ensures RoundConstant(40) == 0xA2BF_E8A1
    ensures RoundConstant(41) == 0xA81A_664B
    ensures RoundConstant(42) == 0xC24B_8B70
    ensures RoundConstant(43) == 0xC76C_51A3
    ensures RoundConstant(44) == 0xD192_E819
    ensures RoundConstant(45) == 0xD699_0624
    ensures RoundConstant(46) == 0xF40E_3585
    ensures RoundConstant(47) == 0x106A_A070
  {}

  lemma Constants_6()
    ensures RoundConstant(48) == 0x19A4_C116
    ensures RoundConstant(49) == 0x1E37_6C08
    ensures RoundConstant(50) == 0x2748_774C
    ensures RoundConstant(51) == 0x34B0_BCB5
    ensures RoundConstant(52) == 0x391C_0CB3
    ensures RoundConstant(53) == 0x4ED8_AA4A
    ensures RoundConstant(54) == 0x5B9C_CA4F
    ensures RoundConstant(55) == 0x682E_6FF3
  {}

  lemma Constants_7()
    ensures RoundConstant(56) == 0x748F_82EE
    ensures RoundConstant(57) == 0x78A5_636F
    ensures RoundConstant(58) == 0x84C8_7814
    ensures RoundConstant(59) == 0x8CC7_0208
    ensures RoundConstant(60) == 0x90BE_FFFA
    ensures RoundConstant(61) == 0xA450_6CEB
    ensures RoundConstant(62) == 0xBEF9_A3F7
    ensures RoundConstant(63) == 0xC671_78F2
  {}

  lemma NextRound(v: Vars, b: seq<byte>, t: nat)
    requires |b| == 64 && t < 64
    ensures Rounds(v, b, t + 1) == Round(Rounds(v, b, t), RoundConstant(t), Schedule(b, t))
  {
    hide Round, RoundConstant, Schedule;
  }

  const START: Vars :=
    Vars(0x6A09_E667, 0xBB67_AE85, 0x3C6E_F372, 0xA54F_F53A, 0x510E_527F, 0x9B05_688C, 0x1F83_D9AB, 0x5BE0_CD19)

  lemma StartIsInitialHash(b: seq<byte>)
    requires |b| == 64
    ensures Load(InitialHash()) == START && Rounds(START, b, 0) == START
  {}

  lemma Rounds_4(b: seq<byte>, t: nat)
    requires IsBlock(b) && t == 0
    ensures Rounds(START, b, t + 4)
            == Vars(0xD550_F666, 0xC8C3_47A7, 0x5A6A_D9AD, 0x5D6A_EBCD, 0x24E0_0850, 0xF929_39EB, 0x78CE_7989, 0xFA2A_4622)
  {
    hide Rounds, Schedule, RoundConstant, Load, InitialHash;
    StartIsInitialHash(b);
    Words_0(b, t);
    Constants_0();
    NextRound(START, b, t);
    assert Round(Vars(0x6A09_E667, 0xBB67_AE85, 0x3C6E_F372, 0xA54F_F53A, 0x510E_527F, 0x9B05_688C, 0x1F83_D9AB, 0x5BE0_CD19), 0x428A_2F98, 0x6162_6380)
           == Vars(0x5D6A_EBCD, 0x6A09_E667, 0xBB67_AE85, 0x3C6E_F372, 0xFA2A_4622, 0x510E_527F, 0x9B05_688C, 0x1F83_D9AB);
    NextRound(START, b, t + 1);
    assert Round(Vars(0x5D6A_EBCD, 0x6A09_E667, 0xBB67_AE85, 0x3C6E_F372, 0xFA2A_4622, 0x510E_527F, 0x9B05_688C, 0x1F83_D9AB), 0x7137_4491, 0x0000_0000)
           == Vars(0x5A6A_D9AD, 0x5D6A_EBCD, 0x6A09_E667, 0xBB67_AE85, 0x78CE_7989, 0xFA2A_4622, 0x510E_527F, 0x9B05_688C);
    NextRound(START, b, t + 2);
    assert Round(Vars(0x5A6A_D9AD, 0x5D6A_EBCD, 0x6A09_E667, 0xBB67_AE85, 0x78CE_7989, 0xFA2A_4622, 0x510E_527F, 0x9B05_688C), 0xB5C0_FBCF, 0x0000_0000)
           == Vars(0xC8C3_47A7, 0x5A6A_D9AD, 0x5D6A_EBCD, 0x6A09_E667, 0xF929_39EB, 0x78CE_7989, 0xFA2A_4622, 0x510E_527F);
    NextRound(START, b, t + 3);
    assert Round(Vars(0xC8C3_47A7, 0x5A6A_D9AD, 0x5D6A_EBCD, 0x6A09_E667, 0xF929_39EB, 0x78CE_7989, 0xFA2A_4622, 0x510E_527F), 0xE9B5_DBA5, 0x0000_0000)
           == Vars(0xD550_F666, 0xC8C3_47A7, 0x5A6A_D9AD, 0x5D6A_EBCD, 0x24E0_0850, 0xF929_39EB, 0x78CE_7989, 0xFA2A_4622);
  }

  lemma Rounds_8(b: seq<byte>, t: nat)
    requires IsBlock(b) && t == 4
    ensures Rounds(START, b, t + 4)
            == Vars(0x85A0_7B5F, 0xE503_0380, 0x2B42_09F5, 0x0440_9A6A, 0x0C65_7A79, 0x9B27_A401, 0x7142_60AD, 0x43AD_A245)
  {
    hide Rounds, Schedule, RoundConstant, Load, InitialHash;
    Rounds_4(b, t - 4);
    Words_0(b, t - 4);
    Constants_0();
    NextRound(START, b, t);
    assert Round(Vars(0xD550_F666, 0xC8C3_47A7, 0x5A6A_D9AD, 0x5D6A_EBCD, 0x24E0_0850, 0xF929_39EB, 0x78CE_7989, 0xFA2A_4622), 0x3956_C25B, 0x0000_0000)
           == Vars(0x0440_9A6A, 0xD550_F666, 0xC8C3_47A7, 0x5A6A_D9AD, 0x43AD_A245, 0x24E0_0850, 0xF929_39EB, 0x78CE_7989);
    NextRound(START, b, t + 1);
    assert Round(Vars(0x0440_9A6A, 0xD550_F666, 0xC8C3_47A7, 0x5A6A_D9AD, 0x43AD_A245, 0x24E0_0850, 0xF929_39EB, 0x78CE_7989), 0x59F1_11F1, 0x0000_0000)
           == Vars(0x2B42_09F5, 0x0440_9A6A, 0xD550_F666, 0xC8C3_47A7, 0x7142_60AD, 0x43AD_A245, 0x24E0_0850, 0xF929_39EB);
    NextRound(START, b, t + 2);
    assert Round(Vars(0x2B42_09F5, 0x0440_9A6A, 0xD550_F666, 0xC8C3_47A7, 0x7142_60AD, 0x43AD_A245, 0x24E0_0850, 0xF929_39EB), 0x923F_82A4, 0x0000_0000)
           == Vars(0xE503_0380, 0x2B42_09F5, 0x0440_9A6A, 0xD550_F666, 0x9B27_A401, 0x7142_60AD, 0x43AD_A245, 0x24E0_0850);
    NextRound(START, b, t + 3);
    assert Round(Vars(0xE503_0380, 0x2B42_09F5, 0x0440_9A6A, 0xD550_F666, 0x9B27_A401, 0x7142_60AD, 0x43AD_A245, 0x24E0_0850), 0xAB1C_5ED5, 0x0000_0000)
           == Vars(0x85A0_7B5F, 0xE503_0380, 0x2B42_09F5, 0x0440_9A6A, 0x0C65_7A79, 0x9B27_A401, 0x7142_60AD, 0x43AD_A245);
  }

  lemma Rounds_12(b: seq<byte>, t: nat)
    requires IsBlock(b) && t == 8
    ensures Rounds(START, b, t + 4)
            == Vars(0xF71F_C5A9, 0x4798_A3F4, 0x8C87_346B, 0x8E04_ECB9, 0x816F_D6E9, 0x436B_23E8, 0x1CC9_2596, 0x32CA_2D8C)
  {
    hide Rounds, Schedule, RoundConstant, Load, InitialHash;
    Rounds_8(b, t - 4);
    Words_1(b, t);
    Constants_1();
    NextRound(START, b, t);
    assert Round(Vars(0x85A0_7B5F, 0xE503_0380, 0x2B42_09F5, 0x0440_9A6A, 0x0C65_7A79, 0x9B27_A401, 0x7142_60AD, 0x43AD_A245), 0xD807_AA98, 0x0000_0000)
           == Vars(0x8E04_ECB9, 0x85A0_7B5F, 0xE503_0380, 0x2B42_09F5, 0x32CA_2D8C, 0x0C65_7A79, 0x9B27_A401, 0x7142_60AD);
    NextRound(START, b, t + 1);
    assert Round(Vars(0x8E04_ECB9, 0x85A0_7B5F, 0xE503_0380, 0x2B42_09F5, 0x32CA_2D8C, 0x0C65_7A79, 0x9B27_A401, 0x7142_60AD), 0x1283_5B01, 0x0000_0000)
           == Vars(0x8C87_346B, 0x8E04_ECB9, 0x85A0_7B5F, 0xE503_0380, 0x1CC9_2596, 0x32CA_2D8C, 0x0C65_7A79, 0x9B27_A401);
    NextRound(START, b, t + 2);
    assert Round(Vars(0x8C87_346B, 0x8E04_ECB9, 0x85A0_7B5F, 0xE503_0380, 0x1CC9_2596, 0x32CA_2D8C, 0x0C65_7A79, 0x9B27_A401), 0x2431_85BE, 0x0000_0000)
           == Vars(0x4798_A3F4, 0x8C87_346B, 0x8E04_ECB9, 0x85A0_7B5F, 0x436B_23E8, 0x1CC9_2596, 0x32CA_2D8C, 0x0C65_7A79);
    NextRound(START, b, t + 3);
    assert Round(Vars(0x4798_A3F4, 0x8C87_346B, 0x8E04_ECB9, 0x85A0_7B5F, 0x436B_23E8, 0x1CC9_2596, 0x32CA_2D8C, 0x0C65_7A79), 0x550C_7DC3, 0x0000_0000)
           == Vars(0xF71F_C5A9, 0x4798_A3F4, 0x8C87_346B, 0x8E04_ECB9, 0x816F_D6E9, 0x436B_23E8, 0x1CC9_2596, 0x32CA_2D8C);
  }

  lemma Rounds_16(b: seq<byte>, t: nat)
    requires IsBlock(b) && t == 12
    ensures Rounds(START, b, t + 4)
            == Vars(0xB0FA_238E, 0xC064_5FDE, 0xD932_EB16, 0x8791_2990, 0x0759_0DCD, 0x0B92_F20C, 0x745A_48DE, 0x1E57_8218)
  {
    hide Rounds, Schedule, RoundConstant, Load, InitialHash;
    Rounds_12(b, t - 4);
    Words_1(b, t - 4);
    Constants_1();
    NextRound(START, b, t);
    assert Round(Vars(0xF71F_C5A9, 0x4798_A3F4, 0x8C87_346B, 0x8E04_ECB9, 0x816F_D6E9, 0x436B_23E8, 0x1CC9_2596, 0x32CA_2D8C), 0x72BE_5D74, 0x0000_0000)
           == Vars(0x8791_2990, 0xF71F_C5A9, 0x4798_A3F4, 0x8C87_346B, 0x1E57_8218, 0x816F_D6E9, 0x436B_23E8, 0x1CC9_2596);
    NextRound(START, b, t + 1);
    assert Round(Vars(0x8791_2990, 0xF71F_C5A9, 0x4798_A3F4, 0x8C87_346B, 0x1E57_8218, 0x816F_D6E9, 0x436B_23E8, 0x1CC9_2596), 0x80DE_B1FE, 0x0000_0000)
           == Vars(0xD932_EB16, 0x8791_2990, 0xF71F_C5A9, 0x4798_A3F4, 0x745A_48DE, 0x1E57_8218, 0x816F_D6E9, 0x436B_23E8);
    NextRound(START, b, t + 2);
    assert Round(Vars(0xD932_EB16, 0x8791_2990, 0xF71F_C5A9, 0x4798_A3F4, 0x745A_48DE, 0x1E57_8218, 0x816F_D6E9, 0x436B_23E8), 0x9BDC_06A7, 0x0000_0000)
           == Vars(0xC064_5FDE, 0xD932_EB16, 0x8791_2990, 0xF71F_C5A9, 0x0B92_F20C, 0x745A_48DE, 0x1E57_8218, 0x816F_D6E9);
    NextRound(START, b, t + 3);
    assert Round(Vars(0xC064_5FDE, 0xD932_EB16, 0x8791_2990, 0xF71F_C5A9, 0x0B92_F20C, 0x745A_48DE, 0x1E57_8218, 0x816F_D6E9), 0xC19B_F174, 0x0000_0018)
           == Vars(0xB0FA_238E, 0xC064_5FDE, 0xD932_EB16, 0x8791_2990, 0x0759_0DCD, 0x0B92_F20C, 0x745A_48DE, 0x1E57_8218);
  }

  lemma Rounds_20(b: seq<byte>, t: nat)
    requires IsBlock(b) && t == 16
    ensures Rounds(START, b, t + 4)
            == Vars(0xE1F2_0C33, 0xFE77_7BBF, 0xC2FB_D9D1, 0x21DA_9A9B, 0xB063_8179, 0xCC89_9961, 0x846E_E454, 0x8034_229C)
  {
    hide Rounds, Schedule, RoundConstant, Load, InitialHash;
    Rounds_16(b, t - 4);
    Words_2(b, t);
    Constants_2();
    NextRound(START, b, t);
    assert Round(Vars(0xB0FA_238E, 0xC064_5FDE, 0xD932_EB16, 0x8791_2990, 0x0759_0DCD, 0x0B92_F20C, 0x745A_48DE, 0x1E57_8218), 0xE49B_69C1, 0x6162_6380)
           == Vars(0x21DA_9A9B, 0xB0FA_238E, 0xC064_5FDE, 0xD932_EB16, 0x8034_229C, 0x0759_0DCD, 0x0B92_F20C, 0x745A_48DE);
    NextRound(START, b, t + 1);
    assert Round(Vars(0x21DA_9A9B, 0xB0FA_238E, 0xC064_5FDE, 0xD932_EB16, 0x8034_229C, 0x0759_0DCD, 0x0B92_F20C, 0x745A_48DE), 0xEFBE_4786, 0x000F_0000)
           == Vars(0xC2FB_D9D1, 0x21DA_9A9B, 0xB0FA_238E, 0xC064_5FDE, 0x846E_E454, 0x8034_229C, 0x0759_0DCD, 0x0B92_F20C);
    NextRound(START, b, t + 2);
    assert Round(Vars(0xC2FB_D9D1, 0x21DA_9A9B, 0xB0FA_238E, 0xC064_5FDE, 0x846E_E454, 0x8034_229C, 0x0759_0DCD, 0x0B92_F20C), 0x0FC1_9DC6, 0x7DA8_6405)
           == Vars(0xFE77_7BBF, 0xC2FB_D9D1, 0x21DA_9A9B, 0xB0FA_238E, 0xCC89_9961, 0x846E_E454, 0x8034_229C, 0x0759_0DCD);
    NextRound(START, b, t + 3);
    assert Round(Vars(0xFE77_7BBF, 0xC2FB_D9D1, 0x21DA_9A9B, 0xB0FA_238E, 0xCC89_9961, 0x846E_E454, 0x8034_229C, 0x0759_0DCD), 0x240C_A1CC, 0x6000_03C6)
           == Vars(0xE1F2_0C33, 0xFE77_7BBF, 0xC2FB_D9D1, 0x21DA_9A9B, 0xB063_8179, 0xCC89_9961, 0x846E_E454, 0x8034_229C);
  }

  lemma Rounds_24(b: seq<byte>, t: nat)
    requires IsBlock(b) && t == 20
    ensures Rounds(START, b, t + 4)
            == Vars(0xC5D5_3D8D, 0xA7A3_623F, 0xC260_6D6D, 0x9DC6_8B63, 0xAA47_C347, 0x49F5_114A, 0xE125_7970, 0x8ADA_8930)
  {
    hide Rounds, Schedule, RoundConstant, Load, InitialHash;
    Rounds_20(b, t - 4);
    Words_2(b, t - 4);
    Constants_2();
    NextRound(START, b, t);
    assert Round(Vars(0xE1F2_0C33, 0xFE77_7BBF, 0xC2FB_D9D1, 0x21DA_9A9B, 0xB063_8179, 0xCC89_9961, 0x846E_E454, 0x8034_229C), 0x2DE9_2C6F, 0x3E9D_7B78)
           == Vars(0x9DC6_8B63, 0xE1F2_0C33, 0xFE77_7BBF, 0xC2FB_D9D1, 0x8ADA_8930, 0xB063_8179, 0xCC89_9961, 0x846E_E454);
    NextRound(START, b, t + 1);
    assert Round(Vars(0x9DC6_8B63, 0xE1F2_0C33, 0xFE77_7BBF, 0xC2FB_D9D1, 0x8ADA_8930, 0xB063_8179, 0xCC89_9961, 0x846E_E454), 0x4A74_84AA, 0x0183_FC00)
           == Vars(0xC260_6D6D, 0x9DC6_8B63, 0xE1F2_0C33, 0xFE77_7BBF, 0xE125_7970, 0x8ADA_8930, 0xB063_8179, 0xCC89_9961);
    NextRound(START, b, t + 2);
    assert Round(Vars(0xC260_6D6D, 0x9DC6_8B63, 0xE1F2_0C33, 0xFE77_7BBF, 0xE125_7970, 0x8ADA_8930, 0xB063_8179, 0xCC89_9961), 0x5CB0_A9DC, 0x12DC_BFDB)
           == Vars(0xA7A3_623F, 0xC260_6D6D, 0x9DC6_8B63, 0xE1F2_0C33, 0x49F5_114A, 0xE125_7970, 0x8ADA_8930, 0xB063_8179);
    NextRound(START, b, t + 3);
    assert Round(Vars(0xA7A3_623F, 0xC260_6D6D, 0x9DC6_8B63, 0xE1F2_0C33, 0x49F5_114A, 0xE125_7970, 0x8ADA_8930, 0xB063_8179), 0x76F9_88DA, 0xE2E2_C38E)
           == Vars(0xC5D5_3D8D, 0xA7A3_623F, 0xC260_6D6D, 0x9DC6_8B63, 0xAA47_C347, 0x49F5_114A, 0xE125_7970, 0x8ADA_8930);
  }

  lemma Rounds_28(b: seq<byte>, t: nat)
    requires IsBlock(b) && t == 24
    ensures Rounds(START, b, t + 4)
            == Vars(0x77D3_7528, 0xB62E_C4BC, 0xCDE8_037D, 0x1C2C_2838, 0xEDFF_BFF8, 0xC74C_6516, 0x1438_3D8E, 0x2823_EF91)
  {
    hide Rounds, Schedule, RoundConstant, Load, InitialHash;
    Rounds_24(b, t - 4);
    Words_3(b, t);
    Constants_3();
    NextRound(START, b, t);
    assert Round(Vars(0xC5D5_3D8D, 0xA7A3_623F, 0xC260_6D6D, 0x9DC6_8B63, 0xAA47_C347, 0x49F5_114A, 0xE125_7970, 0x8ADA_8930), 0x983E_5152, 0xC821_5C1A)
           == Vars(0x1C2C_2838, 0xC5D5_3D8D, 0xA7A3_623F, 0xC260_6D6D, 0x2823_EF91, 0xAA47_C347, 0x49F5_114A, 0xE125_7970);
    NextRound(START, b, t + 1);
    assert Round(Vars(0x1C2C_2838, 0xC5D5_3D8D, 0xA7A3_623F, 0xC260_6D6D, 0x2823_EF91, 0xAA47_C347, 0x49F5_114A, 0xE125_7970), 0xA831_C66D, 0xB736_79A2)
           == Vars(0xCDE8_037D, 0x1C2C_2838, 0xC5D5_3D8D, 0xA7A3_623F, 0x1438_3D8E, 0x2823_EF91, 0xAA47_C347, 0x49F5_114A);
    NextRound(START, b, t + 2);
    assert Round(Vars(0xCDE8_037D, 0x1C2C_2838, 0xC5D5_3D8D, 0xA7A3_623F, 0x1438_3D8E, 0x2823_EF91, 0xAA47_C347, 0x49F5_114A), 0xB003_27C8, 0xE5BC_3909)
           == Vars(0xB62E_C4BC, 0xCDE8_037D, 0x1C2C_2838, 0xC5D5_3D8D, 0xC74C_6516, 0x1438_3D8E, 0x2823_EF91, 0xAA47_C347);
    NextRound(START, b, t + 3);
    assert Round(Vars(0xB62E_C4BC, 0xCDE8_037D, 0x1C2C_2838, 0xC5D5_3D8D, 0xC74C_6516, 0x1438_3D8E, 0x2823_EF91, 0xAA47_C347), 0xBF59_7FC7, 0x3266_3C5B)
           == Vars(0x77D3_7528, 0xB62E_C4BC, 0xCDE8_037D, 0x1C2C_2838, 0xEDFF_BFF8, 0xC74C_6516, 0x1438_3D8E, 0x2823_EF91);
  }

  lemma Rounds_32(b: seq<byte>, t: nat)
    requires IsBlock(b) && t == 28
    ensures Rounds(START, b, t + 4)
            == Vars(0x73B3_3BF5, 0xEA99_2A22, 0xA006_0B30, 0x3634_82C9, 0xBA59_1112, 0x0109_AB3A, 0xADE7_9437, 0x6112_A3B7)
  {
    hide Rounds, Schedule, RoundConstant, Load, InitialHash;
    Rounds_28(b, t - 4);
    Words_3(b, t - 4);
    Constants_3();
    NextRound(START, b, t);
    assert Round(Vars(0x77D3_7528, 0xB62E_C4BC, 0xCDE8_037D, 0x1C2C_2838, 0xEDFF_BFF8, 0xC74C_6516, 0x1438_3D8E, 0x2823_EF91), 0xC6E0_0BF3, 0x9D20_9D67)
           == Vars(0x3634_82C9, 0x77D3_7528, 0xB62E_C4BC, 0xCDE8_037D, 0x6112_A3B7, 0xEDFF_BFF8, 0xC74C_6516, 0x1438_3D8E);
    NextRound(START, b, t + 1);
    assert Round(Vars(0x3634_82C9, 0x77D3_7528, 0xB62E_C4BC, 0xCDE8_037D, 0x6112_A3B7, 0xEDFF_BFF8, 0xC74C_6516, 0x1438_3D8E), 0xD5A7_9147, 0xEC87_26CB)
           == Vars(0xA006_0B30, 0x3634_82C9, 0x77D3_7528, 0xB62E_C4BC, 0xADE7_9437, 0x6112_A3B7, 0xEDFF_BFF8, 0xC74C_6516);
    NextRound(START, b, t + 2);
    assert Round(Vars(0xA006_0B30, 0x3634_82C9, 0x77D3_7528, 0xB62E_C4BC, 0xADE7_9437, 0x6112_A3B7, 0xEDFF_BFF8, 0xC74C_6516), 0x06CA_6351, 0x7021_38A4)
           == Vars(0xEA99_2A22, 0xA006_0B30, 0x3634_82C9, 0x77D3_7528, 0x0109_AB3A, 0xADE7_9437, 0x6112_A3B7, 0xEDFF_BFF8);
    NextRound(START, b, t + 3);
    assert Round(Vars(0xEA99_2A22, 0xA006_0B30, 0x3634_82C9, 0x77D3_7528, 0x0109_AB3A, 0xADE7_9437, 0x6112_A3B7, 0xEDFF_BFF8), 0x1429_2967, 0xD3B7_973B)
           == Vars(0x73B3_3BF5, 0xEA99_2A22, 0xA006_0B30, 0x3634_82C9, 0xBA59_1112, 0x0109_AB3A, 0xADE7_9437, 0x6112_A3B7);
  }

  lemma Rounds_36(b: seq<byte>, t: nat)
    requires IsBlock(b) && t == 32
    ensures Rounds(START, b, t + 4)
            == Vars(0x65A0_CFE4, 0xA9A7_738C, 0xFE60_4DF5, 0x98E1_2507, 0xF4B0_02D6, 0x085F_3833, 0x5924_9DD3, 0x9CD9_F5F6)
  {
    hide Rounds, Schedule, RoundConstant, Load, InitialHash;
    Rounds_32(b, t - 4);
    Words_4(b, t);
    Constants_4();
    NextRound(START, b, t);
    assert Round(Vars(0x73B3_3BF5, 0xEA99_2A22, 0xA006_0B30, 0x3634_82C9, 0xBA59_1112, 0x0109_AB3A, 0xADE7_9437, 0x6112_A3B7), 0x27B7_0A85, 0x93F5_997F)
           == Vars(0x98E1_2507, 0x73B3_3BF5, 0xEA99_2A22, 0xA006_0B30, 0x9CD9_F5F6, 0xBA59_1112, 0x0109_AB3A, 0xADE7_9437);
    NextRound(START, b, t + 1);
    assert Round(Vars(0x98E1_2507, 0x73B3_3BF5, 0xEA99_2A22, 0xA006_0B30, 0x9CD9_F5F6, 0xBA59_1112, 0x0109_AB3A, 0xADE7_9437), 0x2E1B_2138, 0x3B68_BA73)
           == Vars(0xFE60_4DF5, 0x98E1_2507, 0x73B3_3BF5, 0xEA99_2A22, 0x5924_9DD3, 0x9CD9_F5F6, 0xBA59_1112, 0x0109_AB3A);
    NextRound(START, b, t + 2);
    assert Round(Vars(0xFE60_4DF5, 0x98E1_2507, 0x73B3_3BF5, 0xEA99_2A22, 0x5924_9DD3, 0x9CD9_F5F6, 0xBA59_1112, 0x0109_AB3A), 0x4D2C_6DFC, 0xAFF4_FFC1)
           == Vars(0xA9A7_738C, 0xFE60_4DF5, 0x98E1_2507, 0x73B3_3BF5, 0x085F_3833, 0x5924_9DD3, 0x9CD9_F5F6, 0xBA59_1112);
    NextRound(START, b, t + 3);
    assert Round(Vars(0xA9A7_738C, 0xFE60_4DF5, 0x98E1_2507, 0x73B3_3BF5, 0x085F_3833, 0x5924_9DD3, 0x9CD9_F5F6, 0xBA59_1112), 0x5338_0D13, 0xF10A_5C62)
           == Vars(0x65A0_CFE4, 0xA9A7_738C, 0xFE60_4DF5, 0x98E1_2507, 0xF4B0_02D6, 0x085F_3833, 0x5924_9DD3, 0x9CD9_F5F6);
  }

  lemma Rounds_40(b: seq<byte>, t: nat)
    requires IsBlock(b) && t == 36
    ensures Rounds(START, b, t + 4)
            == Vars(0x79EA_687A, 0x6DC5_7A8A, 0x34DF_1604, 0x41A6_5CB1, 0x1EFB_C0A0, 0xF078_1BC8, 0xA507_A53D, 0x0772_A26B)
  {
    hide Rounds, Schedule, RoundConstant, Load, InitialHash;
    Rounds_36(b, t - 4);
    Words_4(b, t - 4);
    Constants_4();
    NextRound(START, b, t);
    assert Round(Vars(0x65A0_CFE4, 0xA9A7_738C, 0xFE60_4DF5, 0x98E1_2507, 0xF4B0_02D6, 0x085F_3833, 0x5924_9DD3, 0x9CD9_F5F6), 0x650A_7354, 0x0A8B_3996)
           == Vars(0x41A6_5CB1, 0x65A0_CFE4, 0xA9A7_738C, 0xFE60_4DF5, 0x0772_A26B, 0xF4B0_02D6, 0x085F_3833, 0x5924_9DD3);
    NextRound(START, b, t + 1);
    assert Round(Vars(0x41A6_5CB1, 0x65A0_CFE4, 0xA9A7_738C, 0xFE60_4DF5, 0x0772_A26B, 0xF4B0_02D6, 0x085F_3833, 0x5924_9DD3), 0x766A_0ABB, 0x72AF_830A)
           == Vars(0x34DF_1604, 0x41A6_5CB1, 0x65A0_CFE4, 0xA9A7_738C, 0xA507_A53D, 0x0772_A26B, 0xF4B0_02D6, 0x085F_3833);
    NextRound(START, b, t + 2);
    assert Round(Vars(0x34DF_1604, 0x41A6_5CB1, 0x65A0_CFE4, 0xA9A7_738C, 0xA507_A53D, 0x0772_A26B, 0xF4B0_02D6, 0x085F_3833), 0x81C2_C92E, 0x9409_E33E)
           == Vars(0x6DC5_7A8A, 0x34DF_1604, 0x41A6_5CB1, 0x65A0_CFE4, 0xF078_1BC8, 0xA507_A53D, 0x0772_A26B, 0xF4B0_02D6);
    NextRound(START, b, t + 3);
    assert Round(Vars(0x6DC5_7A8A, 0x34DF_1604, 0x41A6_5CB1, 0x65A0_CFE4, 0xF078_1BC8, 0xA507_A53D, 0x0772_A26B, 0xF4B0_02D6), 0x9272_2C85, 0x2464_1522)
           == Vars(0x79EA_687A, 0x6DC5_7A8A, 0x34DF_1604, 0x41A6_5CB1, 0x1EFB_C0A0, 0xF078_1BC8, 0xA507_A53D, 0x0772_A26B);
  }

  lemma Rounds_44(b: seq<byte>, t: nat)
    requires IsBlock(b) && t == 40
    ensures Rounds(START, b, t + 4)
            == Vars(0x9D4B_AF93, 0x17AA_0DFE, 0xDF46_652F, 0xD667_0766, 0xFDA2_4C2E, 0xDECD_4715, 0x838B_2711, 0x2635_2D63)
  {
    hide Rounds, Schedule, RoundConstant, Load, InitialHash;
    Rounds_40(b, t - 4);
    Words_5(b, t);
    Constants_5();
    NextRound(START, b, t);
    assert Round(Vars(0x79EA_687A, 0x6DC5_7A8A, 0x34DF_1604, 0x41A6_5CB1, 0x1EFB_C0A0, 0xF078_1BC8, 0xA507_A53D, 0x0772_A26B), 0xA2BF_E8A1, 0x9F47_BF94)
           == Vars(0xD667_0766, 0x79EA_687A, 0x6DC5_7A8A, 0x34DF_1604, 0x2635_2D63, 0x1EFB_C0A0, 0xF078_1BC8, 0xA507_A53D);
    NextRound(START, b, t + 1);
    assert Round(Vars(0xD667_0766, 0x79EA_687A, 0x6DC5_7A8A, 0x34DF_1604, 0x2635_2D63, 0x1EFB_C0A0, 0xF078_1BC8, 0xA507_A53D), 0xA81A_664B, 0xF0A6_4F5A)
           == Vars(0xDF46_652F, 0xD667_0766, 0x79EA_687A, 0x6DC5_7A8A, 0x838B_2711, 0x2635_2D63, 0x1EFB_C0A0, 0xF078_1BC8);
    NextRound(START, b, t + 2);
    assert Round(Vars(0xDF46_652F, 0xD667_0766, 0x79EA_687A, 0x6DC5_7A8A, 0x838B_2711, 0x2635_2D63, 0x1EFB_C0A0, 0xF078_1BC8), 0xC24B_8B70, 0x3E24_6A79)
           == Vars(0x17AA_0DFE, 0xDF46_652F, 0xD667_0766, 0x79EA_687A, 0xDECD_4715, 0x838B_2711, 0x2635_2D63, 0x1EFB_C0A0);
    NextRound(START, b, t + 3);
    assert Round(Vars(0x17AA_0DFE, 0xDF46_652F, 0xD667_0766, 0x79EA_687A, 0xDECD_4715, 0x838B_2711, 0x2635_2D63, 0x1EFB_C0A0), 0xC76C_51A3, 0x2733_3BA3)
           == Vars(0x9D4B_AF93, 0x17AA_0DFE, 0xDF46_652F, 0xD667_0766, 0xFDA2_4C2E, 0xDECD_4715, 0x838B_2711, 0x2635_2D63);
  }

  lemma Rounds_48(b: seq<byte>, t: nat)
    requires IsBlock(b) && t == 44
    ensures Rounds(START, b, t + 4)
            == Vars(0x4172_328D, 0xA14C_14B0, 0x72AB_4B91, 0x2662_8815, 0xFECF_0BC6, 0xD57B_94A9, 0xB775_5DA1, 0xA80F_11F0)
  {
    hide Rounds, Schedule, RoundConstant, Load, InitialHash;
    Rounds_44(b, t - 4);
    Words_5(b, t - 4);
    Constants_5();
    NextRound(START, b, t);
    assert Round(Vars(0x9D4B_AF93, 0x17AA_0DFE, 0xDF46_652F, 0xD667_0766, 0xFDA2_4C2E, 0xDECD_4715, 0x838B_2711, 0x2635_2D63), 0xD192_E819, 0x0C47_63F2)
           == Vars(0x2662_8815, 0x9D4B_AF93, 0x17AA_0DFE, 0xDF46_652F, 0xA80F_11F0, 0xFDA2_4C2E, 0xDECD_4715, 0x838B_2711);
    NextRound(START, b, t + 1);
    assert Round(Vars(0x2662_8815, 0x9D4B_AF93, 0x17AA_0DFE, 0xDF46_652F, 0xA80F_11F0, 0xFDA2_4C2E, 0xDECD_4715, 0x838B_2711), 0xD699_0624, 0x840A_BF27)
           == Vars(0x72AB_4B91, 0x2662_8815, 0x9D4B_AF93, 0x17AA_0DFE, 0xB775_5DA1, 0xA80F_11F0, 0xFDA2_4C2E, 0xDECD_4715);
    NextRound(START, b, t + 2);
    assert Round(Vars(0x72AB_4B91, 0x2662_8815, 0x9D4B_AF93, 0x17AA_0DFE, 0xB775_5DA1, 0xA80F_11F0, 0xFDA2_4C2E, 0xDECD_4715), 0xF40E_3585, 0x7A29_0D5D)
           == Vars(0xA14C_14B0, 0x72AB_4B91, 0x2662_8815, 0x9D4B_AF93, 0xD57B_94A9, 0xB775_5DA1, 0xA80F_11F0, 0xFDA2_4C2E);
    NextRound(START, b, t + 3);
    assert Round(Vars(0xA14C_14B0, 0x72AB_4B91, 0x2662_8815, 0x9D4B_AF93, 0xD57B_94A9, 0xB775_5DA1, 0xA80F_11F0, 0xFDA2_4C2E), 0x106A_A070, 0x065C_43DA)
           == Vars(0x4172_328D, 0xA14C_14B0, 0x72AB_4B91, 0x2662_8815, 0xFECF_0BC6, 0xD57B_94A9, 0xB775_5DA1, 0xA80F_11F0);
  }

  lemma Rounds_52(b: seq<byte>, t: nat)
    requires IsBlock(b) && t == 48
    ensures Rounds(START, b, t + 4)
            == Vars(0x886E_7A22, 0x7A05_08A1, 0xF11B_FAA8, 0x0575_7CEB, 0x4923_1C1E, 0x52F1_CCF7, 0x6E5C_390C, 0xBD71_4038)
  {
    hide Rounds, Schedule, RoundConstant, Load, InitialHash;
    Rounds_48(b, t - 4);
    Words_6(b, t);
    Constants_6();
    NextRound(START, b, t);
    assert Round(Vars(0x4172_328D, 0xA14C_14B0, 0x72AB_4B91, 0x2662_8815, 0xFECF_0BC6, 0xD57B_94A9, 0xB775_5DA1, 0xA80F_11F0), 0x19A4_C116, 0xFB3E_89CB)
           == Vars(0x0575_7CEB, 0x4172_328D, 0xA14C_14B0, 0x72AB_4B91, 0xBD71_4038, 0xFECF_0BC6, 0xD57B_94A9, 0xB775_5DA1);
    NextRound(START, b, t + 1);
    assert Round(Vars(0x0575_7CEB, 0x4172_328D, 0xA14C_14B0, 0x72AB_4B91, 0xBD71_4038, 0xFECF_0BC6, 0xD57B_94A9, 0xB775_5DA1), 0x1E37_6C08, 0xCC76_17DB)
           == Vars(0xF11B_FAA8, 0x0575_7CEB, 0x4172_328D, 0xA14C_14B0, 0x6E5C_390C, 0xBD71_4038, 0xFECF_0BC6, 0xD57B_94A9);
    NextRound(START, b, t + 2);
    assert Round(Vars(0xF11B_FAA8, 0x0575_7CEB, 0x4172_328D, 0xA14C_14B0, 0x6E5C_390C, 0xBD71_4038, 0xFECF_0BC6, 0xD57B_94A9), 0x2748_774C, 0xB9E6_6C34)
           == Vars(0x7A05_08A1, 0xF11B_FAA8, 0x0575_7CEB, 0x4172_328D, 0x52F1_CCF7, 0x6E5C_390C, 0xBD71_4038, 0xFECF_0BC6);
    NextRound(START, b, t + 3);
    assert Round(Vars(0x7A05_08A1, 0xF11B_FAA8, 0x0575_7CEB, 0x4172_328D, 0x52F1_CCF7, 0x6E5C_390C, 0xBD71_4038, 0xFECF_0BC6), 0x34B0_BCB5, 0xA999_3667)
           == Vars(0x886E_7A22, 0x7A05_08A1, 0xF11B_FAA8, 0x0575_7CEB, 0x4923_1C1E, 0x52F1_CCF7, 0x6E5C_390C, 0xBD71_4038);
  }

  lemma Rounds_56(b: seq<byte>, t: nat)
    requires IsBlock(b) && t == 52
    ensures Rounds(START, b, t + 4)
            == Vars(0x38CC_9913, 0x3EC4_5CDB, 0xF570_2FDB, 0x101F_D28F, 0x54CB_266B, 0xE50E_1B4F, 0x9F47_87C3, 0x529E_7D00)
  {
    hide Rounds, Schedule, RoundConstant, Load, InitialHash;
    Rounds_52(b, t - 4);
    Words_6(b, t - 4);
    Constants_6();
    NextRound(START, b, t);
    assert Round(Vars(0x886E_7A22, 0x7A05_08A1, 0xF11B_FAA8, 0x0575_7CEB, 0x4923_1C1E, 0x52F1_CCF7, 0x6E5C_390C, 0xBD71_4038), 0x391C_0CB3, 0x84BA_DEDD)
           == Vars(0x101F_D28F, 0x886E_7A22, 0x7A05_08A1, 0xF11B_FAA8, 0x529E_7D00, 0x4923_1C1E, 0x52F1_CCF7, 0x6E5C_390C);
    NextRound(START, b, t + 1);
    assert Round(Vars(0x101F_D28F, 0x886E_7A22, 0x7A05_08A1, 0xF11B_FAA8, 0x529E_7D00, 0x4923_1C1E, 0x52F1_CCF7, 0x6E5C_390C), 0x4ED8_AA4A, 0xC214_62BC)
           == Vars(0xF570_2FDB, 0x101F_D28F, 0x886E_7A22, 0x7A05_08A1, 0x9F47_87C3, 0x529E_7D00, 0x4923_1C1E, 0x52F1_CCF7);
    NextRound(START, b, t + 2);
    assert Round(Vars(0xF570_2FDB, 0x101F_D28F, 0x886E_7A22, 0x7A05_08A1, 0x9F47_87C3, 0x529E_7D00, 0x4923_1C1E, 0x52F1_CCF7), 0x5B9C_CA4F, 0x1487_472C)
           == Vars(0x3EC4_5CDB, 0xF570_2FDB, 0x101F_D28F, 0x886E_7A22, 0xE50E_1B4F, 0x9F47_87C3, 0x529E_7D00, 0x4923_1C1E);
    NextRound(START, b, t + 3);
    assert Round(Vars(0x3EC4_5CDB, 0xF570_2FDB, 0x101F_D28F, 0x886E_7A22, 0xE50E_1B4F, 0x9F47_87C3, 0x529E_7D00, 0x4923_1C1E), 0x682E_6FF3, 0xB20F_7A99)
           == Vars(0x38CC_9913, 0x3EC4_5CDB, 0xF570_2FDB, 0x101F_D28F, 0x54CB_266B, 0xE50E_1B4F, 0x9F47_87C3, 0x529E_7D00);
  }

  lemma Rounds_60(b: seq<byte>, t: nat)
    requires IsBlock(b) && t == 56
    ensures Rounds(START, b, t + 4)
            == Vars(0xB6AE_8FFF, 0xFFB7_0472, 0xC062_D46F, 0xFCD1_887B, 0xB21B_AD3D, 0x6D83_BFC6, 0x7E44_008E, 0x9B5E_906C)
  {
    hide Rounds, Schedule, RoundConstant, Load, InitialHash;
    Rounds_56(b, t - 4);
    Words_7(b, t);
    Constants_7();
    NextRound(START, b, t);
    assert Round(Vars(0x38CC_9913, 0x3EC4_5CDB, 0xF570_2FDB, 0x101F_D28F, 0x54CB_266B, 0xE50E_1B4F, 0x9F47_87C3, 0x529E_7D00), 0x748F_82EE, 0xEF57_B9CD)
           == Vars(0xFCD1_887B, 0x38CC_9913, 0x3EC4_5CDB, 0xF570_2FDB, 0x9B5E_906C, 0x54CB_266B, 0xE50E_1B4F, 0x9F47_87C3);
    NextRound(START, b, t + 1);
    assert Round(Vars(0xFCD1_887B, 0x38CC_9913, 0x3EC4_5CDB, 0xF570_2FDB, 0x9B5E_906C, 0x54CB_266B, 0xE50E_1B4F, 0x9F47_87C3), 0x78A5_636F, 0xEBE6_B238)
           == Vars(0xC062_D46F, 0xFCD1_887B, 0x38CC_9913, 0x3EC4_5CDB, 0x7E44_008E, 0x9B5E_906C, 0x54CB_266B, 0xE50E_1B4F);
    NextRound(START, b, t + 2);
    assert Round(Vars(0xC062_D46F, 0xFCD1_887B, 0x38CC_9913, 0x3EC4_5CDB, 0x7E44_008E, 0x9B5E_906C, 0x54CB_266B, 0xE50E_1B4F), 0x84C8_7814, 0x9FE3_095E)
           == Vars(0xFFB7_0472, 0xC062_D46F, 0xFCD1_887B, 0x38CC_9913, 0x6D83_BFC6, 0x7E44_008E, 0x9B5E_906C, 0x54CB_266B);
    NextRound(START, b, t + 3);
    assert Round(Vars(0xFFB7_0472, 0xC062_D46F, 0xFCD1_887B, 0x38CC_9913, 0x6D83_BFC6, 0x7E44_008E, 0x9B5E_906C, 0x54CB_266B), 0x8CC7_0208, 0x78BC_8D4B)
           == Vars(0xB6AE_8FFF, 0xFFB7_0472, 0xC062_D46F, 0xFCD1_887B, 0xB21B_AD3D, 0x6D83_BFC6, 0x7E44_008E, 0x9B5E_906C);
  }

  lemma Rounds_64(b: seq<byte>, t: nat)
    requires IsBlock(b) && t == 60
    ensures Rounds(START, b, t + 4)
            == Vars(0x506E_3058, 0xD39A_2165, 0x04D2_4D6C, 0xB85E_2CE9, 0x5EF5_0F24, 0xFB12_1210, 0x948D_25B6, 0x961F_4894)
  {
    hide Rounds, Schedule, RoundConstant, Load, InitialHash;
    Rounds_60(b, t - 4);
    Words_7(b, t - 4);
    Constants_7();
    NextRound(START, b, t);
    assert Round(Vars(0xB6AE_8FFF, 0xFFB7_0472, 0xC062_D46F, 0xFCD1_887B, 0xB21B_AD3D, 0x6D83_BFC6, 0x7E44_008E, 0x9B5E_906C), 0x90BE_FFFA, 0xA43F_CF15)
           == Vars(0xB85E_2CE9, 0xB6AE_8FFF, 0xFFB7_0472, 0xC062_D46F, 0x961F_4894, 0xB21B_AD3D, 0x6D83_BFC6, 0x7E44_008E);
    NextRound(START, b, t + 1);
    assert Round(Vars(0xB85E_2CE9, 0xB6AE_8FFF, 0xFFB7_0472, 0xC062_D46F, 0x961F_4894, 0xB21B_AD3D, 0x6D83_BFC6, 0x7E44_008E), 0xA450_6CEB, 0x668B_2FF8)
           == Vars(0x04D2_4D6C, 0xB85E_2CE9, 0xB6AE_8FFF, 0xFFB7_0472, 0x948D_25B6, 0x961F_4894, 0xB21B_AD3D, 0x6D83_BFC6);
    NextRound(START, b, t + 2);
    assert Round(Vars(0x04D2_4D6C, 0xB85E_2CE9, 0xB6AE_8FFF, 0xFFB7_0472, 0x948D_25B6, 0x961F_4894, 0xB21B_AD3D, 0x6D83_BFC6), 0xBEF9_A3F7, 0xEEAB_A2CC)
           == Vars(0xD39A_2165, 0x04D2_4D6C, 0xB85E_2CE9, 0xB6AE_8FFF, 0xFB12_1210, 0x948D_25B6, 0x961F_4894, 0xB21B_AD3D);
    NextRound(START, b, t + 3);
    assert Round(Vars(0xD39A_2165, 0x04D2_4D6C, 0xB85E_2CE9, 0xB6AE_8FFF, 0xFB12_1210, 0x948D_25B6, 0x961F_4894, 0xB21B_AD3D), 0xC671_78F2, 0x12B1_EDEB)
           == Vars(0x506E_3058, 0xD39A_2165, 0x04D2_4D6C, 0xB85E_2CE9, 0x5EF5_0F24, 0xFB12_1210, 0x948D_25B6, 0x961F_4894);
  }

  lemma CompressedAbc(b: seq<byte>)
    requires IsBlock(b)
    ensures Compress(InitialHash(), b)
            == [0xBA78_16BF, 0x8F01_CFEA, 0x4141_40DE, 0x5DAE_2223,
                0xB003_61A3, 0x9617_7A9C, 0xB410_FF61, 0xF200_15AD]
  {
    hide Rounds;
    StartIsInitialHash(b);
    Rounds_64(b, 60);
  }

  /** The published digest. */
  const ABC_DIGEST: seq<byte> := [
    0xBA, 0x78, 0x16, 0xBF,
    0x8F, 0x01, 0xCF, 0xEA,
    0x41, 0x41, 0x40, 0xDE,
    0x5D, 0xAE, 0x22, 0x23,
    0xB0, 0x03, 0x61, 0xA3,
    0x96, 0x17, 0x7A, 0x9C,
    0xB4, 0x10, 0xFF, 0x61,
    0xF2, 0x00, 0x15, 0xAD]

  lemma WordBytes()
    ensures WordBe(0xBA78_16BF) == [0xBA, 0x78, 0x16, 0xBF]
    ensures WordBe(0x8F01_CFEA) == [0x8F, 0x01, 0xCF, 0xEA]
    ensures WordBe(0x4141_40DE) == [0x41, 0x41, 0x40, 0xDE]
    ensures WordBe(0x5DAE_2223) == [0x5D, 0xAE, 0x22, 0x23]
    ensures WordBe(0xB003_61A3) == [0xB0, 0x03, 0x61, 0xA3]
    ensures WordBe(0x9617_7A9C) == [0x96, 0x17, 0x7A, 0x9C]
    ensures WordBe(0xB410_FF61) == [0xB4, 0x10, 0xFF, 0x61]
    ensures WordBe(0xF200_15AD) == [0xF2, 0x00, 0x15, 0xAD]
  {}

  /** SHA-256 of "abc". */
  lemma AbcVector()
    ensures Sha256(ABC) == ABC_DIGEST
  {
    hide Compress, InitialHash, WordBe, Pad, IsBlock;
    PaddedAbc();
    BlockLength(Pad(ABC));
    OneBlock(InitialHash(), Pad(ABC));
    CompressedAbc(Pad(ABC));
    WordBytes();
  }

  lemma BlockLength(b: seq<byte>)
    requires IsBlock(b)
    ensures |b| == 64
  {}
}
