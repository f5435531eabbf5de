/**
 Known answers of both hashes: values published for xxHash, and values under a seed, for inputs that
 pass through every part of the definitions.
 */
module Xxh32Answers {
  import opened XxhBytes
  import opened Xxh32

  // "Nobody inspects the spammish repetition", in parts
  const NOBODY_INSPECTS: seq<bv8> := [78, 111, 98, 111, 100, 121, 32, 105, 110, 115, 112, 101, 99, 116, 115, 32]

  const THE_SPAMMISH_REP: seq<bv8> := [116, 104, 101, 32, 115, 112, 97, 109, 109, 105, 115, 104, 32, 114, 101, 112]

  const ETITION: seq<bv8> := [101, 116, 105, 116, 105, 111, 110]

  const PHRASE := NOBODY_INSPECTS + THE_SPAMMISH_REP + ETITION

  const ABC: seq<bv8> := [97, 98, 99]

  const ZEROS: seq<bv8> := [0, 0, 0, 0, 0, 0, 0, 0, 0, 0, 0, 0, 0, 0, 0, 0]

  lemma PhraseParts()
    ensures |PHRASE| == 39 && SameBytes(PHRASE, 0, NOBODY_INSPECTS, 0, 16)
    ensures SameBytes(PHRASE, 16, THE_SPAMMISH_REP, 0, 16) && SameBytes(PHRASE, 32, ETITION, 0, 7)
  {
  }

  lemma NothingTail()
    ensures Start(false, InitLanes(0), 0, 0) == 0x165667B1
    ensures Avalanche(0x165667B1) == 0x02CC5D05
  {
  }

  // No input at all.
  lemma Nothing()
    ensures Hash32(0, []) == 0x02CC5D05
  {
    hide Stripe, InitLanes, Start, Avalanche, Process4, Process1, ReadLE32, Tail, Absorb, Stripes;
    AbsorbStep(0, [], 0);
    StripesUnique(0, 0);
    NothingTail();
    TailStep(0x165667B1, [], 0, 0);
  }

  lemma AbcTail()
    ensures Start(false, InitLanes(0), 0, 3) == 0x165667B4
    ensures Process1(0x165667B4, ABC[0]) == 0xDCA1DBE8
    ensures Process1(0xDCA1DBE8, ABC[1]) == 0x4F80FD3D
    ensures Process1(0x4F80FD3D, ABC[2]) == 0x760A1E67
    ensures Avalanche(0x760A1E67) == 0x32D153FF
  {
  }

  // Single bytes only.
  lemma Abc()
    ensures Hash32(0, ABC) == 0x32D153FF
  {
    hide Stripe, InitLanes, Start, Avalanche, Process4, Process1, ReadLE32, Tail, Absorb, Stripes;
    AbsorbStep(0, ABC, 0);
    StripesUnique(0, 3);
    AbcTail();
    TailStep(0x165667B4, ABC, 0, 3);
    TailStep(0xDCA1DBE8, ABC, 1, 2);
    TailStep(0x4F80FD3D, ABC, 2, 1);
    TailStep(0x760A1E67, ABC, 3, 0);
  }

  lemma SeededAbcTail()
    ensures Start(false, InitLanes(0x9E3779B1), 0x9E3779B1, 3) == 0xB48DE165
    ensures Process1(0xB48DE165, ABC[0]) == 0xC58F293A
    ensures Process1(0xC58F293A, ABC[1]) == 0x795F1605
    ensures Process1(0x795F1605, ABC[2]) == 0xB2271506
    ensures Avalanche(0xB2271506) == 0xA1AE7709
  {
  }

  lemma SeededAbc()
    ensures Hash32(0x9E3779B1, ABC) == 0xA1AE7709
  {
    hide Stripe, InitLanes, Start, Avalanche, Process4, Process1, ReadLE32, Tail, Absorb, Stripes;
    AbsorbStep(0x9E3779B1, ABC, 0);
    StripesUnique(0, 3);
    SeededAbcTail();
    TailStep(0xB48DE165, ABC, 0, 3);
    TailStep(0xC58F293A, ABC, 1, 2);
    TailStep(0x795F1605, ABC, 2, 1);
    TailStep(0xB2271506, ABC, 3, 0);
  }

  lemma ZerosStripe()
    ensures Stripe(InitLanes(0), ZEROS, 0) ==
            Lanes(0x93768344, 0x8DF8C7AD, 0, 0xFA824469)
  {
  }

  lemma ZerosStart()
    ensures Start(true, Lanes(0x93768344, 0x8DF8C7AD, 0, 0xFA824469), 0, 16) == 0x34F8C768
  {
  }

  lemma ZerosTail()
    ensures Avalanche(0x34F8C768) == 0x8E022B3A
  {
  }

  // One stripe, no tail.
  lemma Zeros()
    ensures Hash32(0, ZEROS) == 0x8E022B3A
  {
    hide Stripe, InitLanes, Start, Avalanche, Process4, Process1, ReadLE32, Tail, Absorb, Stripes;
    AbsorbStep(0, ZEROS, 0);
    ZerosStripe();
    StripesUnique(16, 16);
    ZerosStart();
    ZerosTail();
    TailStep(0x34F8C768, ZEROS, 16, 0);
  }

  lemma PhraseStripe1()
    ensures Stripe(InitLanes(0), NOBODY_INSPECTS, 0) ==
            Lanes(0x046A700A, 0xBFADF8E3, 0x5B32B4AA, 0x137E5555)
  {
  }

  lemma PhraseStripe2()
    ensures Stripe(Lanes(0x046A700A, 0xBFADF8E3, 0x5B32B4AA, 0x137E5555), THE_SPAMMISH_REP, 0) ==
            Lanes(0x719A836E, 0x514C1DE8, 0x97FA4BA2, 0x242A97A2)
  {
  }

  lemma PhraseStart()
    ensures Start(true, Lanes(0x719A836E, 0x514C1DE8, 0x97FA4BA2, 0x242A97A2), 0, 39) == 0x8C86B554
  {
  }

  lemma PhraseTail()
    ensures Process4(0x8C86B554, ReadLE32(ETITION, 0)) == 0x09B51544
    ensures Process1(0x09B51544, ETITION[4]) == 0xCDEFD3C9
    ensures Process1(0xCDEFD3C9, ETITION[5]) == 0x3852087B
    ensures Process1(0x3852087B, ETITION[6]) == 0xB3A7011B
    ensures Avalanche(0xB3A7011B) == 0xE2293B2F
  {
  }

  // Two stripes, a word and three bytes.
  lemma Phrase()
    ensures Hash32(0, PHRASE) == 0xE2293B2F
  {
    hide Stripe, InitLanes, Start, Avalanche, Process4, Process1, ReadLE32, Tail, Absorb, Stripes, SameBytes;
    PhraseParts();
    AbsorbStep(0, PHRASE, 0);
    SameStripe(InitLanes(0), PHRASE, 0, NOBODY_INSPECTS, 0);
    PhraseStripe1();
    AbsorbStep(0, PHRASE, 16);
    SameStripe(Lanes(0x046A700A, 0xBFADF8E3, 0x5B32B4AA, 0x137E5555), PHRASE, 16, THE_SPAMMISH_REP, 0);
    PhraseStripe2();
    StripesUnique(32, 39);
    PhraseStart();
    SameTail(0x8C86B554, PHRASE, 32, ETITION, 0, 7);
    PhraseTail();
    TailStep(0x8C86B554, ETITION, 0, 7);
    TailStep(0x09B51544, ETITION, 4, 3);
    TailStep(0xCDEFD3C9, ETITION, 5, 2);
    TailStep(0x3852087B, ETITION, 6, 1);
    TailStep(0xB3A7011B, ETITION, 7, 0);
  }

  lemma SeededPhraseStripe1()
    ensures Stripe(InitLanes(0x9E3779B1), NOBODY_INSPECTS, 0) ==
            Lanes(0xF91E4BA1, 0xC52BB47A, 0x60B07041, 0x18FC10EC)
  {
  }

  lemma SeededPhraseStripe2()
    ensures Stripe(Lanes(0xF91E4BA1, 0xC52BB47A, 0x60B07041, 0x18FC10EC), THE_SPAMMISH_REP, 0) ==
            Lanes(0x1BACC8D5, 0x59BCA798, 0xA06AD552, 0x2C9B2152)
  {
  }

  lemma SeededPhraseStart()
    ensures Start(true, Lanes(0x1BACC8D5, 0x59BCA798, 0xA06AD552, 0x2C9B2152), 0x9E3779B1, 39) == 0x484B3A6F
  {
  }

  lemma SeededPhraseTail()
    ensures Process4(0x484B3A6F, ReadLE32(ETITION, 0)) == 0xDAB4CA6B
    ensures Process1(0xDAB4CA6B, ETITION[4]) == 0xD1ECCFD1
    ensures Process1(0xD1ECCFD1, ETITION[5]) == 0x0F8D7E9B
    ensures Process1(0x0F8D7E9B, ETITION[6]) == 0xC76309B5
    ensures Avalanche(0xC76309B5) == 0xC9E89E68
  {
  }

  lemma SeededPhrase()
    ensures Hash32(0x9E3779B1, PHRASE) == 0xC9E89E68
  {
    hide Stripe, InitLanes, Start, Avalanche, Process4, Process1, ReadLE32, Tail, Absorb, Stripes, SameBytes;
    PhraseParts();
    AbsorbStep(0x9E3779B1, PHRASE, 0);
    SameStripe(InitLanes(0x9E3779B1), PHRASE, 0, NOBODY_INSPECTS, 0);
    SeededPhraseStripe1();
    AbsorbStep(0x9E3779B1, PHRASE, 16);
    SameStripe(Lanes(0xF91E4BA1, 0xC52BB47A, 0x60B07041, 0x18FC10EC), PHRASE, 16, THE_SPAMMISH_REP, 0);
    SeededPhraseStripe2();
    StripesUnique(32, 39);
    SeededPhraseStart();
    SameTail(0x484B3A6F, PHRASE, 32, ETITION, 0, 7);
    SeededPhraseTail();
    TailStep(0x484B3A6F, ETITION, 0, 7);
    TailStep(0xDAB4CA6B, ETITION, 4, 3);
    TailStep(0xD1ECCFD1, ETITION, 5, 2);
    TailStep(0x0F8D7E9B, ETITION, 6, 1);
    TailStep(0xC76309B5, ETITION, 7, 0);
  }
}

module Xxh64Answers {
  import opened XxhBytes
  import opened Xxh64

  // "Nobody inspects the spammish repetition" in parts, and its first 15 bytes
  const STRIPE: seq<bv8> := [
    78, 111, 98, 111, 100, 121, 32, 105, 110, 115, 112, 101, 99, 116, 115, 32, 116, 104, 101, 32, 115, 112,
    97, 109, 109, 105, 115, 104, 32, 114, 101, 112
  ]

  const ETITION: seq<bv8> := [101, 116, 105, 116, 105, 111, 110]

  const PHRASE := STRIPE + ETITION

  const NOBODY_INSPECTS: seq<bv8> := [78, 111, 98, 111, 100, 121, 32, 105, 110, 115, 112, 101, 99, 116, 115]

  // 0, 1, 2, ..., 78 in parts
  const RAMP_0: seq<bv8> := [
    0, 1, 2, 3, 4, 5, 6, 7, 8, 9, 10, 11, 12, 13, 14, 15, 16, 17, 18, 19, 20, 21, 22, 23, 24, 25, 26, 27,
    28, 29, 30, 31
  ]

  const RAMP_32: seq<bv8> := [
    32, 33, 34, 35, 36, 37, 38, 39, 40, 41, 42, 43, 44, 45, 46, 47, 48, 49, 50, 51, 52, 53, 54, 55, 56, 57,
    58, 59, 60, 61, 62, 63
  ]

  const RAMP_64: seq<bv8> := [64, 65, 66, 67, 68, 69, 70, 71, 72, 73, 74, 75, 76, 77, 78]

  function Ramp(): seq<bv8> {
    RAMP_0 + RAMP_32 + RAMP_64
  }

  lemma PhraseParts()
    ensures |PHRASE| == 39 && SameBytes(PHRASE, 0, STRIPE, 0, 32) && SameBytes(PHRASE, 32, ETITION, 0, 7)
  {
  }

  lemma RampParts()
    ensures |Ramp()| == 79 && SameBytes(Ramp(), 0, RAMP_0, 0, 32)
    ensures SameBytes(Ramp(), 32, RAMP_32, 0, 32) && SameBytes(Ramp(), 64, RAMP_64, 0, 15)
  {
  }

  lemma StripeWord1()
    ensures ReadLE64(STRIPE, 0) == 0x692079646F626F4E
  {
    assert ReadLE32(STRIPE, 0) == 0x6F626F4E && ReadLE32(STRIPE, 4) == 0x69207964;
    hide ReadLE32;
  }

  lemma StripeWord2()
    ensures ReadLE64(STRIPE, 8) == 0x207374636570736E
  {
    assert ReadLE32(STRIPE, 8) == 0x6570736E && ReadLE32(STRIPE, 12) == 0x20737463;
    hide ReadLE32;
  }

  lemma StripeWord3()
    ensures ReadLE64(STRIPE, 16) == 0x6D61707320656874
  {
    assert ReadLE32(STRIPE, 16) == 0x20656874 && ReadLE32(STRIPE, 20) == 0x6D617073;
    hide ReadLE32;
  }

  lemma StripeWord4()
    ensures ReadLE64(STRIPE, 24) == 0x706572206873696D
  {
    assert ReadLE32(STRIPE, 24) == 0x6873696D && ReadLE32(STRIPE, 28) == 0x70657220;
    hide ReadLE32;
  }

  lemma Ramp0Word1()
    ensures ReadLE64(RAMP_0, 0) == 0x0706050403020100
  {
    assert ReadLE32(RAMP_0, 0) == 0x03020100 && ReadLE32(RAMP_0, 4) == 0x07060504;
    hide ReadLE32;
  }

  lemma Ramp0Word2()
    ensures ReadLE64(RAMP_0, 8) == 0x0F0E0D0C0B0A0908
  {
    assert ReadLE32(RAMP_0, 8) == 0x0B0A0908 && ReadLE32(RAMP_0, 12) == 0x0F0E0D0C;
    hide ReadLE32;
  }

  lemma Ramp0Word3()
    ensures ReadLE64(RAMP_0, 16) == 0x1716151413121110
  {
    assert ReadLE32(RAMP_0, 16) == 0x13121110 && ReadLE32(RAMP_0, 20) == 0x17161514;
    hide ReadLE32;
  }

  lemma Ramp0Word4()
    ensures ReadLE64(RAMP_0, 24) == 0x1F1E1D1C1B1A1918
  {
    assert ReadLE32(RAMP_0, 24) == 0x1B1A1918 && ReadLE32(RAMP_0, 28) == 0x1F1E1D1C;
    hide ReadLE32;
  }

  lemma Ramp32Word1()
    ensures ReadLE64(RAMP_32, 0) == 0x2726252423222120
  {
    assert ReadLE32(RAMP_32, 0) == 0x23222120 && ReadLE32(RAMP_32, 4) == 0x27262524;
    hide ReadLE32;
  }

  lemma Ramp32Word2()
    ensures ReadLE64(RAMP_32, 8) == 0x2F2E2D2C2B2A2928
  {
    assert ReadLE32(RAMP_32, 8) == 0x2B2A2928 && ReadLE32(RAMP_32, 12) == 0x2F2E2D2C;
    hide ReadLE32;
  }

  lemma Ramp32Word3()
    ensures ReadLE64(RAMP_32, 16) == 0x3736353433323130
  {
    assert ReadLE32(RAMP_32, 16) == 0x33323130 && ReadLE32(RAMP_32, 20) == 0x37363534;
    hide ReadLE32;
  }

  lemma Ramp32Word4()
    ensures ReadLE64(RAMP_32, 24) == 0x3F3E3D3C3B3A3938
  {
    assert ReadLE32(RAMP_32, 24) == 0x3B3A3938 && ReadLE32(RAMP_32, 28) == 0x3F3E3D3C;
    hide ReadLE32;
  }

  lemma NothingTail()
    ensures Start(false, InitLanes(0), 0, 0) == 0x27D4EB2F165667C5
    ensures Avalanche(0x27D4EB2F165667C5) == 0xEF46DB3751D8E999
  {
  }

  // No input at all.
  lemma Nothing()
    ensures Hash64(0, []) == 0xEF46DB3751D8E999
  {
    hide Stripe, InitLanes, Start, Avalanche, Mix8, Mix4, Mix1, ReadLE64, ReadLE32, Tail, Absorb, Stripes, Converge;
    AbsorbStep(0, [], 0);
    StripesUnique(0, 0);
    NothingTail();
    TailDone(0x27D4EB2F165667C5, [], 0);
  }

  lemma NobodyOctets()
    ensures ReadLE64(NOBODY_INSPECTS, 0) == 0x692079646F626F4E
    ensures ReadLE32(NOBODY_INSPECTS, 8) == 0x6570736E
    ensures NOBODY_INSPECTS[12] == 99
    ensures NOBODY_INSPECTS[13] == 116
    ensures NOBODY_INSPECTS[14] == 115
  {
  }

  lemma NobodyTail()
    ensures Start(false, InitLanes(0), 0, 15) == 0x27D4EB2F165667D4
    ensures Mix8(0x27D4EB2F165667D4, 0x692079646F626F4E) == 0xF74FFFE758BE3ED8
    ensures Mix4(0xF74FFFE758BE3ED8, 0x6570736E) == 0x8210F1474EFCF48D
    ensures Mix1(0x8210F1474EFCF48D, 99) == 0x4F2A1E6FFF1C5B26
    ensures Mix1(0x4F2A1E6FFF1C5B26, 116) == 0x2C3BB44162550FB6
    ensures Mix1(0x2C3BB44162550FB6, 115) == 0x8515C2394970EDDC
    ensures Avalanche(0x8515C2394970EDDC) == 0xBBB5DF1CA276FF74
  {
  }

  // Below one stripe: eight bytes, four, and three single ones.
  lemma Nobody()
    ensures Hash64(0, NOBODY_INSPECTS) == 0xBBB5DF1CA276FF74
  {
    hide Stripe, InitLanes, Start, Avalanche, Mix8, Mix4, Mix1, ReadLE64, ReadLE32, Tail, Absorb, Stripes, Converge;
    AbsorbStep(0, NOBODY_INSPECTS, 0);
    StripesUnique(0, 15);
    NobodyOctets();
    NobodyTail();
    TailLong(0x27D4EB2F165667D4, 0x692079646F626F4E, NOBODY_INSPECTS, 0, 15);
    TailWord(0xF74FFFE758BE3ED8, 0x6570736E, NOBODY_INSPECTS, 8, 7);
    TailByte(0x8210F1474EFCF48D, 99, NOBODY_INSPECTS, 12, 3);
    TailByte(0x4F2A1E6FFF1C5B26, 116, NOBODY_INSPECTS, 13, 2);
    TailByte(0x2C3BB44162550FB6, 115, NOBODY_INSPECTS, 14, 1);
    TailDone(0x8515C2394970EDDC, NOBODY_INSPECTS, 15);
  }

  lemma PhraseStripe()
    ensures Stripe(InitLanes(0), STRIPE, 0) ==
            Lanes(0x37245127A4067E4B, 0x1B302B0A818F92CF, 0xCD62D843D0580FCA, 0x1C16E43EF2142A4A)
  {
    hide ReadLE32, ReadLE64;
    StripeWord1();
    StripeWord2();
    StripeWord3();
    StripeWord4();
  }

  lemma PhraseStart()
    ensures Start(true,
                  Lanes(0x37245127A4067E4B, 0x1B302B0A818F92CF, 0xCD62D843D0580FCA, 0x1C16E43EF2142A4A),
                  0, 39) == 0x84F22C421A11A8DC
  {
  }

  lemma PhraseOctets()
    ensures ReadLE32(ETITION, 0) == 0x74697465
    ensures ETITION[4] == 105
    ensures ETITION[5] == 111
    ensures ETITION[6] == 110
  {
  }

  lemma PhraseTail()
    ensures Mix4(0x84F22C421A11A8DC, 0x74697465) == 0x9FCA0F5D0AAA110F
    ensures Mix1(0x9FCA0F5D0AAA110F, 105) == 0x769671546F21BA14
    ensures Mix1(0x769671546F21BA14, 111) == 0xEAE9B643C5F94E52
    ensures Mix1(0xEAE9B643C5F94E52, 110) == 0x1D0A47483B37CC24
    ensures Avalanche(0x1D0A47483B37CC24) == 0xFBCEA83C8A378BF1
  {
  }

  // One stripe, four bytes and three single ones.
  lemma Phrase()
    ensures Hash64(0, PHRASE) == 0xFBCEA83C8A378BF1
  {
    hide Stripe, InitLanes, Start, Avalanche, Mix8, Mix4, Mix1, ReadLE64, ReadLE32, Tail, Absorb, Stripes, Converge,
         SameBytes;
    PhraseParts();
    AbsorbStep(0, PHRASE, 0);
    SameStripe(InitLanes(0), PHRASE, 0, STRIPE, 0);
    PhraseStripe();
    StripesUnique(32, 39);
    PhraseStart();
    SameTail(0x84F22C421A11A8DC, PHRASE, 32, ETITION, 0, 7);
    PhraseOctets();
    PhraseTail();
    TailWord(0x84F22C421A11A8DC, 0x74697465, ETITION, 0, 7);
    TailByte(0x9FCA0F5D0AAA110F, 105, ETITION, 4, 3);
    TailByte(0x769671546F21BA14, 111, ETITION, 5, 2);
    TailByte(0xEAE9B643C5F94E52, 110, ETITION, 6, 1);
    TailDone(0x1D0A47483B37CC24, ETITION, 7);
  }

  lemma RampedStripe1()
    ensures Stripe(InitLanes(0x000000009E3779B1), RAMP_0, 0) ==
            Lanes(0xE4962682C06B5E99, 0xB3B4367C9FC32561, 0xBB07AB3348A1553F, 0x8A25BB2D27F91C07)
  {
    hide ReadLE32, ReadLE64;
    Ramp0Word1();
    Ramp0Word2();
    Ramp0Word3();
    Ramp0Word4();
  }

  lemma RampedStripe2()
    ensures Stripe(Lanes(0xE4962682C06B5E99, 0xB3B4367C9FC32561, 0xBB07AB3348A1553F, 0x8A25BB2D27F91C07), RAMP_32, 0) ==
            Lanes(0x0C95F364E171F4F4, 0x6C49CEEEB29A6496, 0x17B0AAE878DF0FCA, 0x776486724A077F6C)
  {
    hide ReadLE32, ReadLE64;
    Ramp32Word1();
    Ramp32Word2();
    Ramp32Word3();
    Ramp32Word4();
  }

  lemma RampedStart()
    ensures Start(true,
                  Lanes(0x0C95F364E171F4F4, 0x6C49CEEEB29A6496, 0x17B0AAE878DF0FCA, 0x776486724A077F6C),
                  0x000000009E3779B1, 79) == 0xD43182D4685CB3BA
  {
  }

  lemma RampedOctets()
    ensures ReadLE64(RAMP_64, 0) == 0x4746454443424140
    ensures ReadLE32(RAMP_64, 8) == 0x4B4A4948
    ensures RAMP_64[12] == 76
    ensures RAMP_64[13] == 77
    ensures RAMP_64[14] == 78
  {
  }

  lemma RampedTail()
    ensures Mix8(0xD43182D4685CB3BA, 0x4746454443424140) == 0xED3880960E821A01
    ensures Mix4(0xED3880960E821A01, 0x4B4A4948) == 0x82698B13430A7938
    ensures Mix1(0x82698B13430A7938, 76) == 0x221AC7C6EB171AC6
    ensures Mix1(0x221AC7C6EB171AC6, 77) == 0x223112208EFEEB78
    ensures Mix1(0x223112208EFEEB78, 78) == 0xBF8306316C7E19B1
    ensures Avalanche(0xBF8306316C7E19B1) == 0x42784C1F1F233F8D
  {
  }

  // Two stripes, eight bytes, four, and three single ones, under a seed.
  lemma Ramped()
    ensures Hash64(0x000000009E3779B1, Ramp()) == 0x42784C1F1F233F8D
  {
    hide Stripe, InitLanes, Start, Avalanche, Mix8, Mix4, Mix1, ReadLE64, ReadLE32, Tail, Absorb, Stripes, Converge,
         Ramp, SameBytes;
    RampParts();
    AbsorbStep(0x000000009E3779B1, Ramp(), 0);
    SameStripe(InitLanes(0x000000009E3779B1), Ramp(), 0, RAMP_0, 0);
    RampedStripe1();
    AbsorbStep(0x000000009E3779B1, Ramp(), 32);
    SameStripe(Lanes(0xE4962682C06B5E99, 0xB3B4367C9FC32561, 0xBB07AB3348A1553F, 0x8A25BB2D27F91C07), Ramp(), 32,
               RAMP_32, 0);
    RampedStripe2();
    StripesUnique(64, 79);
    RampedStart();
    SameTail(0xD43182D4685CB3BA, Ramp(), 64, RAMP_64, 0, 15);
    RampedOctets();
    RampedTail();
    TailLong(0xD43182D4685CB3BA, 0x4746454443424140, RAMP_64, 0, 15);
    TailWord(0xED3880960E821A01, 0x4B4A4948, RAMP_64, 8, 7);
    TailByte(0x82698B13430A7938, 76, RAMP_64, 12, 3);
    TailByte(0x221AC7C6EB171AC6, 77, RAMP_64, 13, 2);
    TailByte(0x223112208EFEEB78, 78, RAMP_64, 14, 1);
    TailDone(0xBF8306316C7E19B1, RAMP_64, 15);
  }
}
