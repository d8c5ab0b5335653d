/**
  The one-block example that the standard's authors publish for SHA-1: the message "abc", round by round. It fixes
  every constant, rotation and function of module Sha1 by its effect.
 */
module Sha1Example {
  import opened Bytes
  import opened Numeric
  import opened Sha1

  const ABC: bytes := [0x61, 0x62, 0x63]

  // ----- constants by their meaning

  /** The square root of `n` scaled by 2^30 and rounded down. */
  predicate IsScaledRoot(k: nat, n: nat) {
    k * k <= n * 0x1000_0000_0000_0000 < (k + 1) * (k + 1)
  }

  /** The bytes of a word, low byte first. */
  function Reversed4(x: word): bytes {
    var bs := WordBytes(x);
    [bs[3], bs[2], bs[1], bs[0]]
  }

  /** The round constants are the roots of 2, 3, 5 and 10, and the initial value counts its nibbles up and down in
      little-endian order. */
  lemma ConstantsMean()
    ensures IsScaledRoot(0x5A82_7999, 2) && forall t: nat :: t < 20 ==> K(t) == 0x5A82_7999
    ensures IsScaledRoot(0x6ED9_EBA1, 3) && forall t: nat :: 20 <= t < 40 ==> K(t) == 0x6ED9_EBA1
    ensures IsScaledRoot(0x8F1B_BCDC, 5) && forall t: nat :: 40 <= t < 60 ==> K(t) == 0x8F1B_BCDC
    ensures IsScaledRoot(0xCA62_C1D6, 10) && forall t: nat :: 60 <= t < 80 ==> K(t) == 0xCA62_C1D6
    ensures Reversed4(INITIAL.a) == [0x01, 0x23, 0x45, 0x67] && Reversed4(INITIAL.b) == [0x89, 0xAB, 0xCD, 0xEF]
    ensures Reversed4(INITIAL.c) == [0xFE, 0xDC, 0xBA, 0x98] && Reversed4(INITIAL.d) == [0x76, 0x54, 0x32, 0x10]
    ensures Reversed4(INITIAL.e) == [0xF0, 0xE1, 0xD2, 0xC3]
  {
  }

  // ----- the schedule

  /** The 80 words of the schedule, five in a row. */
  function WordRow(row: nat): seq<word> {
    match row
    case 0 => [0x6162_6380, 0x0000_0000, 0x0000_0000, 0x0000_0000, 0x0000_0000]
    case 1 => [0x0000_0000, 0x0000_0000, 0x0000_0000, 0x0000_0000, 0x0000_0000]
    case 2 => [0x0000_0000, 0x0000_0000, 0x0000_0000, 0x0000_0000, 0x0000_0000]
    case 3 => [0x0000_0018, 0xC2C4_C700, 0x0000_0000, 0x0000_0030, 0x8589_8E01]
    case 4 => [0x0000_0000, 0x0000_0060, 0x0B13_1C03, 0x0000_0030, 0x8589_8EC1]
    case 5 => [0x1626_3806, 0x0000_0000, 0x0000_0180, 0x2C4C_700C, 0x0000_00F0]
    case 6 => [0x93AF_B507, 0x5898_E048, 0x8E9A_9202, 0x0000_0600, 0xB131_C0F0]
    case 7 => [0x1626_3BC6, 0x4EBE_D41E, 0x6263_80A1, 0x1626_3806, 0x0000_18C0]
    case 8 => [0xD2E1_38C4, 0x0000_0F00, 0x3AFB_5079, 0x898E_04E5, 0xE2BA_3C2B]
    case 9 => [0x0000_60C0, 0x053A_37CD, 0x7445_8547, 0xDA94_15ED, 0x2638_0A16]
    case 10 => [0x6263_83A1, 0x4EBF_54DE, 0x3835_B44B, 0x0000_F600, 0x1E84_C7A3]
    case 11 => [0x98E0_4D98, 0x651D_16A0, 0x6265_8CA1, 0x4585_44D6, 0x4458_4CB7]
    case 12 => [0x7BA0_6619, 0x6380_AEA2, 0x0AE5_5269, 0x627B_49A1, 0x7CD4_5C9D]
    case 13 => [0x000F_0000, 0xFB50_753A, 0xEC67_65E8, 0xBA3C_2BE2, 0x0060_C000]
    case 14 => [0x3A37_CD05, 0x4585_46F4, 0xB859_9DD6, 0x380A_1A26, 0x01E0_2203]
    case 15 => [0xE7CC_3456, 0xE6E6_0B69, 0x00F6_0A00, 0x5795_EF4F, 0x822E_0879]
    case _ => [0, 0, 0, 0, 0]
  }

  function Word(t: nat): word {
    WordRow(t / 5)[t % 5]
  }

  /** Word `t` follows from those before it. */
  predicate Follows(t: nat)
    requires t >= 16
  {
    Word(t) == Rotl1(Xor4(Word(t - 3), Word(t - 8), Word(t - 14), Word(t - 16)))
  }

  predicate AllFollow(from: nat, end: nat)
    requires from >= 16
    decreases if from < end then end - from else 0
  {
    from >= end || (Follows(from) && AllFollow(from + 1, end))
  }

  function Block(): (b: bytes)
    ensures |b| == 64
  {
    ABC + [0x80] + Zeros(52) + [0, 0, 0, 0, 0, 0, 0, 0x18]
  }

  lemma PaddedMessage()
    ensures ABC + Padding(|ABC|) == Block()
  {
    assert Length64(24) == [0, 0, 0, 0, 0, 0, 0, 0x18];
  }

  lemma WordOfBytes(block: bytes, t: nat)
    requires |block| == 64 && t < 16
    ensures block[4 * t..4 * t + 4] == [0, 0, 0, 0] ==> BlockWord(block, t) == 0
    ensures block[4 * t..4 * t + 4] == [0, 0, 0, 0x18] ==> BlockWord(block, t) == 0x18
    ensures block[4 * t..4 * t + 4] == [0x61, 0x62, 0x63, 0x80] ==> BlockWord(block, t) == 0x6162_6380
  {
    var bs := block[4 * t..4 * t + 4];
    assert bs[0] == block[4 * t] && bs[1] == block[4 * t + 1] && bs[2] == block[4 * t + 2] && bs[3] == block[4 * t + 3];
  }

  lemma FirstWords()
    ensures Word(0) == 0x6162_6380 && Word(15) == 0x18
    ensures Word(1) == Word(2) == Word(3) == Word(4) == Word(5) == Word(6) == Word(7) == 0
    ensures Word(8) == Word(9) == Word(10) == Word(11) == Word(12) == Word(13) == Word(14) == 0
  {
  }

  /** The first sixteen words of the table are those of the block. */
  lemma BlockWords(t: nat)
    requires t < 16
    ensures BlockWord(Block(), t) == Word(t)
  {
    hide BlockWord, Word;
    var b := Block();
    WordOfBytes(b, t);
    FirstWords();
    if t == 0 {
      assert b[0..4] == [0x61, 0x62, 0x63, 0x80];
    } else if t == 15 {
      assert b[60..64] == [0, 0, 0, 0x18];
    } else {
      assert b[4 * t..4 * t + 4] == [0, 0, 0, 0];
    }
  }

  lemma {:induction false} ScheduleStarts(n: nat)
    requires n <= 16
    ensures forall t: nat :: t < n ==> Schedule(Block(), n)[t] == Word(t)
  {
    hide Word, BlockWord, Block, Rotl1, Xor4;
    if n == 0 {
    } else {
      ScheduleStarts(n - 1);
      BlockWords(n - 1);
    }
  }

  lemma {:induction false} ScheduleFollows(n: nat, end: nat)
    requires 16 <= n <= end <= 80 && AllFollow(n, end)
    requires forall t: nat :: t < n ==> Schedule(Block(), n)[t] == Word(t)
    ensures forall t: nat :: t < end ==> Schedule(Block(), end)[t] == Word(t)
    decreases end - n
  {
    hide Word, Rotl1, Xor4, BlockWord, Block;
    if n < end {
      assert Follows(n);
      ScheduleFollows(n + 1, end);
    }
  }

  lemma WordsFollow16()
    ensures AllFollow(16, 24)
  {
  }

  lemma WordsFollow24()
    ensures AllFollow(24, 32)
  {
  }

  lemma WordsFollow32()
    ensures AllFollow(32, 40)
  {
  }

  lemma WordsFollow40()
    ensures AllFollow(40, 48)
  {
  }

  lemma WordsFollow48()
    ensures AllFollow(48, 56)
  {
  }

  lemma WordsFollow56()
    ensures AllFollow(56, 64)
  {
  }

  lemma WordsFollow64()
    ensures AllFollow(64, 72)
  {
  }

  lemma WordsFollow72()
    ensures AllFollow(72, 76)
  {
  }

  lemma WordsFollow76()
    ensures AllFollow(76, 80)
  {
  }

  lemma ScheduleIsTable()
    ensures forall t: nat :: t < 80 ==> Schedule(Block(), 80)[t] == Word(t)
  {
    hide Schedule, Word, Block, AllFollow;
    ScheduleStarts(16);
    WordsFollow16();
    ScheduleFollows(16, 24);
    WordsFollow24();
    ScheduleFollows(24, 32);
    WordsFollow32();
    ScheduleFollows(32, 40);
    WordsFollow40();
    ScheduleFollows(40, 48);
    WordsFollow48();
    ScheduleFollows(48, 56);
    WordsFollow56();
    ScheduleFollows(56, 64);
    WordsFollow64();
    ScheduleFollows(64, 72);
    WordsFollow72();
    ScheduleFollows(72, 76);
    WordsFollow76();
    ScheduleFollows(76, 80);
  }

  // ----- the rounds

  /** The first word of the state before round 0 and after each round, five in a row, behind those of four earlier
      rounds that the initial value could come from. */
  function TurnRow(row: nat): seq<word> {
    match row
    case 0 => [0x0F4B_87C3, 0x40C9_51D8, 0x62EB_73FA, 0xEFCD_AB89, 0x6745_2301]
    case 1 => [0x0116_FC33, 0x8990_536D, 0xA139_0F08, 0xCDD8_E11B, 0xCFD4_99DE]
    case 2 => [0x3FC7_CA40, 0x993E_30C1, 0x9E8C_07D4, 0x4B6A_E328, 0x8351_F929]
    case 3 => [0xFBDA_9E89, 0x6318_8FE4, 0x4607_B664, 0x9128_F695, 0x196B_EE77]
    case 4 => [0x20BD_D62F, 0x4E92_5823, 0x82AA_6728, 0xDC64_901D, 0xFD9E_1D7D]
    case 5 => [0x1A37_B0CA, 0x33A2_3BFC, 0x2128_3486, 0xD541_F12D, 0xC756_7DC6]
    case 6 => [0x4841_3BA4, 0xBE35_FBD5, 0x4AA8_4D97, 0x8370_B52E, 0xC5FB_AF5D]
    case 7 => [0x1267_B407, 0x3B84_5D33, 0x046F_AA0A, 0x2C0E_BC11, 0x2179_6AD4]
    case 8 => [0xDCBB_B0CB, 0x0F51_1FD8, 0xDC63_973F, 0x4C98_6405, 0x32DE_1CBA]
    case 9 => [0xFC87_DEDF, 0x970A_0D5C, 0x7F19_3DC5, 0xEE1B_1AAF, 0x40F2_8E09]
    case 10 => [0x1C51_E1F2, 0xA01B_846C, 0xBEAD_02CA, 0xBAF3_9337, 0x1207_31C5]
    case 11 => [0x641D_B2CE, 0x3847_AD66, 0xE490_436D, 0x27E9_F1D8, 0x7B71_F76D]
    case 12 => [0x5E64_56AF, 0xC846_093F, 0xD262_FF50, 0x09D7_85FD, 0x3F52_DE5A]
    case 13 => [0xD756_C147, 0x548C_9CB2, 0xB66C_020B, 0x6B61_C9E1, 0x19DF_A7AC]
    case 14 => [0x1016_55F9, 0x0C3D_F2B4, 0x78DD_4D2B, 0x4970_93C0, 0x3F25_88C2]
    case 15 => [0xC199_F8C7, 0x3985_9DE7, 0xEDB4_2DE4, 0x1179_3F6F, 0x5EE7_6897]
    case _ => [0x63F7_DAB7, 0xA079_B7D9, 0x860D_21CC, 0x5738_D5E1, 0x4254_1B35]
  }

  function Turn(i: nat): word {
    TurnRow(i / 5)[i % 5]
  }

  /** The state before round `t`: all its words are first words of earlier states, the last three rotated. */
  function State(t: nat): Digest {
    Digest(Turn(t + 4), Turn(t + 3), Rotl30(Turn(t + 2)), Rotl30(Turn(t + 1)), Rotl30(Turn(t)))
  }

  predicate AllTurn(from: nat, end: nat)
    decreases if from < end then end - from else 0
  {
    from >= end || (Round(State(from), from, Word(from)) == State(from + 1) && AllTurn(from + 1, end))
  }

  lemma {:induction false} RoundsTurn(w: seq<word>, n: nat, end: nat)
    requires n <= end <= |w| && AllTurn(n, end) && Rounds(INITIAL, w, n) == State(n)
    requires forall t: nat :: t < |w| ==> w[t] == Word(t)
    ensures Rounds(INITIAL, w, end) == State(end)
    decreases end - n
  {
    hide Word, State, Round;
    if n < end {
      RoundsTurn(w, n + 1, end);
    }
  }

  lemma StatesTurn0()
    ensures AllTurn(0, 10)
  {
  }

  lemma StatesTurn10()
    ensures AllTurn(10, 20)
  {
  }

  lemma StatesTurn20()
    ensures AllTurn(20, 30)
  {
  }

  lemma StatesTurn30()
    ensures AllTurn(30, 40)
  {
  }

  lemma StatesTurn40()
    ensures AllTurn(40, 50)
  {
  }

  lemma StatesTurn50()
    ensures AllTurn(50, 60)
  {
  }

  lemma StatesTurn60()
    ensures AllTurn(60, 70)
  {
  }

  lemma StatesTurn70()
    ensures AllTurn(70, 80)
  {
  }

  lemma StartAndEnd()
    ensures State(0) == INITIAL
    ensures State(80) == Digest(0x4254_1B35, 0x5738_D5E1, 0x2183_4873, 0x681E_6DF6, 0xD8FD_F6AD)
  {
  }

  lemma StartsThere(w: seq<word>)
    ensures Rounds(INITIAL, w, 0) == INITIAL
  {
  }

  lemma RoundsOfAbc()
    ensures Rounds(INITIAL, Schedule(Block(), 80), 80)
            == Digest(0x4254_1B35, 0x5738_D5E1, 0x2183_4873, 0x681E_6DF6, 0xD8FD_F6AD)
  {
    hide Schedule, Rounds, Word, State, AllTurn, Block;
    var w := Schedule(Block(), 80);
    ScheduleIsTable();
    StartAndEnd();
    StartsThere(w);
    StatesTurn0();
    RoundsTurn(w, 0, 10);
    StatesTurn10();
    RoundsTurn(w, 10, 20);
    StatesTurn20();
    RoundsTurn(w, 20, 30);
    StatesTurn30();
    RoundsTurn(w, 30, 40);
    StatesTurn40();
    RoundsTurn(w, 40, 50);
    StatesTurn50();
    RoundsTurn(w, 50, 60);
    StatesTurn60();
    RoundsTurn(w, 60, 70);
    StatesTurn70();
    RoundsTurn(w, 70, 80);
  }

  /** The digest of "abc". */
  lemma HashOfAbc()
    ensures Hash(ABC) == Digest(0xA999_3E36, 0x4706_816A, 0xBA3E_2571, 0x7850_C26C, 0x9CD0_D89D)
  {
    hide Schedule, Rounds, Block, Padding;
    RoundsOfAbc();
    PaddedMessage();
    assert Block()[..64] == Block() && Block()[64..] == [];
    AbsorbNothing(Compress(INITIAL, Block()));
  }

  // ----- lengths and digests as bytes

  /** The padding ends in the number of bits of the message, 64 bits of it, highest byte first. */
  lemma LengthBytes(n: nat, i: nat)
    requires i < 8
    ensures Length64(n)[i] == n / Range(7 - i) % 256
  {
    assert Range(7) == 0x100_0000_0000_0000 && Range(6) == 0x1_0000_0000_0000 && Range(5) == 0x100_0000_0000;
    assert Range(4) == 0x1_0000_0000 && Range(3) == 0x100_0000 && Range(2) == 0x1_0000;
  }

  /** The bytes of the digest of "abc". */
  lemma DigestBytesOfAbc()
    ensures DigestBytes(Hash(ABC)) == [0xA9, 0x99, 0x3E, 0x36, 0x47, 0x06, 0x81, 0x6A, 0xBA, 0x3E, 0x25, 0x71,
                                       0x78, 0x50, 0xC2, 0x6C, 0x9C, 0xD0, 0xD8, 0x9D]
  {
    hide Hash;
    HashOfAbc();
  }
}
