/** The digest of the three-letter message of FIPS 180-4's example, worked out round by round. */
module Sha1KnownAnswer {
  import opened Sha1Spec
  import opened Sha1Octets
  import opened Sha1Rounds
  import opened Sha1Transform
  import opened Sha1
  import opened Sha1TwoBlocks

  /** The bytes of "abc". */
  const ABC: seq<Byte> := [0x61, 0x62, 0x63]

  /** The only block of its padded form. */
  predicate IsAbcBlock(m: seq<bv32>)
    requires |m| == 16
  {
    m[0] == 0x61626380 && m[15] == 0x18 && forall i :: 1 <= i < 15 ==> m[i] == 0
  }

  lemma AbcWords0(m: seq<bv32>)
    requires |m| == 16 && IsAbcBlock(m)
    ensures W(m, 0) == 0x61626380 && W(m, 1) == 0 && W(m, 2) == 0 && W(m, 3) == 0
    ensures W(m, 4) == 0 && W(m, 5) == 0 && W(m, 6) == 0 && W(m, 7) == 0
  {
  }

  lemma AbcWords8(m: seq<bv32>)
    requires |m| == 16 && IsAbcBlock(m)
    ensures W(m, 8) == 0 && W(m, 9) == 0 && W(m, 10) == 0 && W(m, 11) == 0
    ensures W(m, 12) == 0 && W(m, 13) == 0 && W(m, 14) == 0 && W(m, 15) == 0x00000018
  {
  }

  lemma AbcWords16(m: seq<bv32>)
    requires |m| == 16 && IsAbcBlock(m)
    ensures W(m, 16) == 0xC2C4C700 && W(m, 17) == 0 && W(m, 18) == 0x00000030 && W(m, 19) == 0x85898E01
    ensures W(m, 20) == 0 && W(m, 21) == 0x00000060 && W(m, 22) == 0x0B131C03 && W(m, 23) == 0x00000030
  {
    AbcWords0(m);
    AbcWords8(m);
    forall t: nat | 16 <= t < 24 {
      ScheduleStep(m, t);
    }
    hide W;
  }

  lemma AbcWords24(m: seq<bv32>)
    requires |m| == 16 && IsAbcBlock(m)
    ensures W(m, 24) == 0x85898EC1 && W(m, 25) == 0x16263806 && W(m, 26) == 0 && W(m, 27) == 0x00000180
    ensures W(m, 28) == 0x2C4C700C && W(m, 29) == 0x000000F0 && W(m, 30) == 0x93AFB507 && W(m, 31) == 0x5898E048
  {
    AbcWords8(m);
    AbcWords16(m);
    forall t: nat | 24 <= t < 32 {
      ScheduleStep(m, t);
    }
    hide W;
  }

  lemma AbcWords32(m: seq<bv32>)
    requires |m| == 16 && IsAbcBlock(m)
    ensures W(m, 32) == 0x8E9A9202 && W(m, 33) == 0x00000600 && W(m, 34) == 0xB131C0F0 && W(m, 35) == 0x16263BC6
    ensures W(m, 36) == 0x4EBED41E && W(m, 37) == 0x626380A1 && W(m, 38) == 0x16263806 && W(m, 39) == 0x000018C0
  {
    AbcWords16(m);
    AbcWords24(m);
    forall t: nat | 32 <= t < 40 {
      ScheduleStep(m, t);
    }
    hide W;
  }

  lemma AbcWords40(m: seq<bv32>)
    requires |m| == 16 && IsAbcBlock(m)
    ensures W(m, 40) == 0xD2E138C4 && W(m, 41) == 0x00000F00 && W(m, 42) == 0x3AFB5079 && W(m, 43) == 0x898E04E5
    ensures W(m, 44) == 0xE2BA3C2B && W(m, 45) == 0x000060C0 && W(m, 46) == 0x053A37CD && W(m, 47) == 0x74458547
  {
    AbcWords24(m);
    AbcWords32(m);
    forall t: nat | 40 <= t < 48 {
      ScheduleStep(m, t);
    }
    hide W;
  }

  lemma AbcWords48(m: seq<bv32>)
    requires |m| == 16 && IsAbcBlock(m)
    ensures W(m, 48) == 0xDA9415ED && W(m, 49) == 0x26380A16 && W(m, 50) == 0x626383A1 && W(m, 51) == 0x4EBF54DE
    ensures W(m, 52) == 0x3835B44B && W(m, 53) == 0x0000F600 && W(m, 54) == 0x1E84C7A3 && W(m, 55) == 0x98E04D98
  {
    AbcWords32(m);
    AbcWords40(m);
    forall t: nat | 48 <= t < 56 {
      ScheduleStep(m, t);
    }
    hide W;
  }

  lemma AbcWords56(m: seq<bv32>)
    requires |m| == 16 && IsAbcBlock(m)
    ensures W(m, 56) == 0x651D16A0 && W(m, 57) == 0x62658CA1 && W(m, 58) == 0x458544D6 && W(m, 59) == 0x44584CB7
    ensures W(m, 60) == 0x7BA06619 && W(m, 61) == 0x6380AEA2 && W(m, 62) == 0x0AE55269 && W(m, 63) == 0x627B49A1
  {
    AbcWords40(m);
    AbcWords48(m);
    forall t: nat | 56 <= t < 64 {
      ScheduleStep(m, t);
    }
    hide W;
  }

  lemma AbcWords64(m: seq<bv32>)
    requires |m| == 16 && IsAbcBlock(m)
    ensures W(m, 64) == 0x7CD45C9D && W(m, 65) == 0x000F0000 && W(m, 66) == 0xFB50753A && W(m, 67) == 0xEC6765E8
    ensures W(m, 68) == 0xBA3C2BE2 && W(m, 69) == 0x0060C000 && W(m, 70) == 0x3A37CD05 && W(m, 71) == 0x458546F4
  {
    AbcWords48(m);
    AbcWords56(m);
    forall t: nat | 64 <= t < 72 {
      ScheduleStep(m, t);
    }
    hide W;
  }

  lemma AbcWords72(m: seq<bv32>)
    requires |m| == 16 && IsAbcBlock(m)
    ensures W(m, 72) == 0xB8599DD6 && W(m, 73) == 0x380A1A26 && W(m, 74) == 0x01E02203 && W(m, 75) == 0xE7CC3456
    ensures W(m, 76) == 0xE6E60B69 && W(m, 77) == 0x00F60A00 && W(m, 78) == 0x5795EF4F && W(m, 79) == 0x822E0879
  {
    AbcWords56(m);
    AbcWords64(m);
    forall t: nat | 72 <= t < 80 {
      ScheduleStep(m, t);
    }
    hide W;
  }

  lemma Abc0()
    ensures Ten(State(0x67452301, 0xEFCDAB89, 0x98BADCFE, 0x10325476, 0xC3D2E1F0), 0,
                0x61626380, 0, 0, 0, 0,
                0, 0, 0, 0, 0) ==
            State(0x8351F929, 0x4B6AE328, 0x27A301F5, 0x664F8C30, 0x0FF1F290)
    ensures Ten(State(0x8351F929, 0x4B6AE328, 0x27A301F5, 0x664F8C30, 0x0FF1F290), 10,
                0, 0, 0, 0, 0,
                0x00000018, 0xC2C4C700, 0, 0x00000030, 0x85898E01) ==
            State(0xFD9E1D7D, 0xDC64901D, 0x20AA99CA, 0xD3A49608, 0xC82F758B)
    ensures Ten(State(0xFD9E1D7D, 0xDC64901D, 0x20AA99CA, 0xD3A49608, 0xC82F758B), 20,
                0, 0x00000060, 0x0B131C03, 0x00000030, 0x85898EC1,
                0x16263806, 0, 0x00000180, 0x2C4C700C, 0x000000F0) ==
            State(0xC5FBAF5D, 0x8370B52E, 0xD2AA1365, 0x6F8D7EF5, 0x12104EE9)
    ensures Ten(State(0xC5FBAF5D, 0x8370B52E, 0xD2AA1365, 0x6F8D7EF5, 0x12104EE9), 30,
                0x93AFB507, 0x5898E048, 0x8E9A9202, 0x00000600, 0xB131C0F0,
                0x16263BC6, 0x4EBED41E, 0x626380A1, 0x16263806, 0x000018C0) ==
            State(0x32DE1CBA, 0x4C986405, 0xF718E5CF, 0x03D447F6, 0xF72EEC32)
  {
  }

  lemma Abc40()
    ensures Ten(State(0x32DE1CBA, 0x4C986405, 0xF718E5CF, 0x03D447F6, 0xF72EEC32), 40,
                0xD2E138C4, 0x00000F00, 0x3AFB5079, 0x898E04E5, 0xE2BA3C2B,
                0x000060C0, 0x053A37CD, 0x74458547, 0xDA9415ED, 0x26380A16) ==
            State(0x120731C5, 0xBAF39337, 0xAFAB40B2, 0x2806E11B, 0x8714787C)
    ensures Ten(State(0x120731C5, 0xBAF39337, 0xAFAB40B2, 0x2806E11B, 0x8714787C), 50,
                0x626383A1, 0x4EBF54DE, 0x3835B44B, 0x0000F600, 0x1E84C7A3,
                0x98E04D98, 0x651D16A0, 0x62658CA1, 0x458544D6, 0x44584CB7) ==
            State(0x3F52DE5A, 0x09D785FD, 0x3498BFD4, 0xF211824F, 0xD79915AB)
    ensures Ten(State(0x3F52DE5A, 0x09D785FD, 0x3498BFD4, 0xF211824F, 0xD79915AB), 60,
                0x7BA06619, 0x6380AEA2, 0x0AE55269, 0x627B49A1, 0x7CD45C9D,
                0x000F0000, 0xFB50753A, 0xEC6765E8, 0xBA3C2BE2, 0x0060C000) ==
            State(0x3F2588C2, 0x497093C0, 0xDE37534A, 0x030F7CAD, 0x4405957E)
    ensures Ten(State(0x3F2588C2, 0x497093C0, 0xDE37534A, 0x030F7CAD, 0x4405957E), 70,
                0x3A37CD05, 0x458546F4, 0xB8599DD6, 0x380A1A26, 0x01E02203,
                0xE7CC3456, 0xE6E60B69, 0x00F60A00, 0x5795EF4F, 0x822E0879) ==
            State(0x42541B35, 0x5738D5E1, 0x21834873, 0x681E6DF6, 0xD8FDF6AD)
  {
  }

  lemma AbcRun(m: seq<bv32>)
    requires |m| == 16 && IsAbcBlock(m)
    ensures Run(INITIAL, m, 80) ==
            State(0x42541B35, 0x5738D5E1, 0x21834873, 0x681E6DF6, 0xD8FDF6AD)
  {
    hide *;
    InitialIs();
    AbcWords0(m);
    AbcWords8(m);
    AbcWords16(m);
    AbcWords24(m);
    AbcWords32(m);
    AbcWords40(m);
    AbcWords48(m);
    AbcWords56(m);
    AbcWords64(m);
    AbcWords72(m);
    Abc0();
    Abc40();
    RunsStart(INITIAL, m);
    TenRuns(INITIAL, m, 0);
    TenRuns(INITIAL, m, 10);
    TenRuns(INITIAL, m, 20);
    TenRuns(INITIAL, m, 30);
    TenRuns(INITIAL, m, 40);
    TenRuns(INITIAL, m, 50);
    TenRuns(INITIAL, m, 60);
    TenRuns(INITIAL, m, 70);
  }

  lemma InitialIs()
    ensures INITIAL == State(0x67452301, 0xEFCDAB89, 0x98BADCFE, 0x10325476, 0xC3D2E1F0)
  {
  }

  lemma AbcFold()
    ensures Add(State(0x67452301, 0xEFCDAB89, 0x98BADCFE, 0x10325476, 0xC3D2E1F0),
                State(0x42541B35, 0x5738D5E1, 0x21834873, 0x681E6DF6, 0xD8FDF6AD)) ==
            State(0xA9993E36, 0x4706816A, 0xBA3E2571, 0x7850C26C, 0x9CD0D89D)
  {
  }

  lemma AbcLength()
    ensures LengthBytes(ABC) == [0, 0, 0, 0, 0, 0, 0, 0x18]
  {
    assert BigEndian(0, 7) == [0, 0, 0, 0, 0, 0, 0];
  }

  lemma AbcPad()
    ensures Pad(ABC) == [0x61, 0x62, 0x63, 0x80] + Zeros(52) + [0, 0, 0, 0, 0, 0, 0, 0x18]
  {
    assert ZeroCount(3) == 52;
    AbcLength();
    hide LengthBytes, BigEndian;
  }

  lemma AbcBlock()
    ensures |Pad(ABC)| == 64 && IsAbcBlock(Words(Pad(ABC)))
  {
    hide Words, Pad, LengthBytes, IsAbcBlock;
    AbcPad();
    AbcWordsAre(Pad(ABC));
  }

  lemma AbcWordsAre(p: seq<Byte>)
    requires |p| == 64 && p[0] == 0x61 && p[1] == 0x62 && p[2] == 0x63 && p[3] == 0x80 && p[63] == 0x18
    requires forall k :: 4 <= k < 63 ==> p[k] == 0
    ensures IsAbcBlock(Words(p))
  {
    AbcBytes();
    hide Be32;
  }

  lemma AbcBytes()
    ensures Be32(0, 0, 0, 0) == 0 && Be32(0x61, 0x62, 0x63, 0x80) == 0x61626380 && Be32(0, 0, 0, 0x18) == 0x18
  {
    hide Octet;
    OctetsAre();
  }

  lemma AbcDigest()
    ensures Digest(ABC) == State(0xA9993E36, 0x4706816A, 0xBA3E2571, 0x7850C26C, 0x9CD0D89D)
  {
    hide Run, Words, Pad, Add, Absorb, IsAbcBlock;
    AbcBlock();
    AbcRun(Words(Pad(ABC)));
    AbcFold();
    LastBlock(INITIAL, Pad(ABC));
    InitialIs();
  }

  lemma AbcText0(s: State)
    requires Word(s, 0) == 0xA9993E36
    ensures Hex(s)[0..8] == "a9993e36"
  {
    hide Word, Hex;
    HexAt(s, 0, 0);
    HexAt(s, 0, 1);
    HexAt(s, 0, 2);
    HexAt(s, 0, 3);
    HexAt(s, 0, 4);
    HexAt(s, 0, 5);
    HexAt(s, 0, 6);
    HexAt(s, 0, 7);
    AbcDigits0();
    hide Nibble;
  }

  lemma AbcDigits0()
    ensures var w := 0xA9993E36;
            Nibble(w, 0) == 0xA && Nibble(w, 1) == 0x9 && Nibble(w, 2) == 0x9 && Nibble(w, 3) == 0x9 &&
            Nibble(w, 4) == 0x3 && Nibble(w, 5) == 0xE && Nibble(w, 6) == 0x3 && Nibble(w, 7) == 0x6
  {
  }

  lemma AbcText1(s: State)
    requires Word(s, 1) == 0x4706816A
    ensures Hex(s)[8..16] == "4706816a"
  {
    hide Word, Hex;
    HexAt(s, 1, 0);
    HexAt(s, 1, 1);
    HexAt(s, 1, 2);
    HexAt(s, 1, 3);
    HexAt(s, 1, 4);
    HexAt(s, 1, 5);
    HexAt(s, 1, 6);
    HexAt(s, 1, 7);
    AbcDigits1();
    hide Nibble;
  }

  lemma AbcDigits1()
    ensures var w := 0x4706816A;
            Nibble(w, 0) == 0x4 && Nibble(w, 1) == 0x7 && Nibble(w, 2) == 0x0 && Nibble(w, 3) == 0x6 &&
            Nibble(w, 4) == 0x8 && Nibble(w, 5) == 0x1 && Nibble(w, 6) == 0x6 && Nibble(w, 7) == 0xA
  {
  }

  lemma AbcText2(s: State)
    requires Word(s, 2) == 0xBA3E2571
    ensures Hex(s)[16..24] == "ba3e2571"
  {
    hide Word, Hex;
    HexAt(s, 2, 0);
    HexAt(s, 2, 1);
    HexAt(s, 2, 2);
    HexAt(s, 2, 3);
    HexAt(s, 2, 4);
    HexAt(s, 2, 5);
    HexAt(s, 2, 6);
    HexAt(s, 2, 7);
    AbcDigits2();
    hide Nibble;
  }

  lemma AbcDigits2()
    ensures var w := 0xBA3E2571;
            Nibble(w, 0) == 0xB && Nibble(w, 1) == 0xA && Nibble(w, 2) == 0x3 && Nibble(w, 3) == 0xE &&
            Nibble(w, 4) == 0x2 && Nibble(w, 5) == 0x5 && Nibble(w, 6) == 0x7 && Nibble(w, 7) == 0x1
  {
  }

  lemma AbcText3(s: State)
    requires Word(s, 3) == 0x7850C26C
    ensures Hex(s)[24..32] == "7850c26c"
  {
    hide Word, Hex;
    HexAt(s, 3, 0);
    HexAt(s, 3, 1);
    HexAt(s, 3, 2);
    HexAt(s, 3, 3);
    HexAt(s, 3, 4);
    HexAt(s, 3, 5);
    HexAt(s, 3, 6);
    HexAt(s, 3, 7);
    AbcDigits3();
    hide Nibble;
  }

  lemma AbcDigits3()
    ensures var w := 0x7850C26C;
            Nibble(w, 0) == 0x7 && Nibble(w, 1) == 0x8 && Nibble(w, 2) == 0x5 && Nibble(w, 3) == 0x0 &&
            Nibble(w, 4) == 0xC && Nibble(w, 5) == 0x2 && Nibble(w, 6) == 0x6 && Nibble(w, 7) == 0xC
  {
  }

  lemma AbcText4(s: State)
    requires Word(s, 4) == 0x9CD0D89D
    ensures Hex(s)[32..40] == "9cd0d89d"
  {
    hide Word, Hex;
    HexAt(s, 4, 0);
    HexAt(s, 4, 1);
    HexAt(s, 4, 2);
    HexAt(s, 4, 3);
    HexAt(s, 4, 4);
    HexAt(s, 4, 5);
    HexAt(s, 4, 6);
    HexAt(s, 4, 7);
    AbcDigits4();
    hide Nibble;
  }

  lemma AbcDigits4()
    ensures var w := 0x9CD0D89D;
            Nibble(w, 0) == 0x9 && Nibble(w, 1) == 0xC && Nibble(w, 2) == 0xD && Nibble(w, 3) == 0x0 &&
            Nibble(w, 4) == 0xD && Nibble(w, 5) == 0x8 && Nibble(w, 6) == 0x9 && Nibble(w, 7) == 0xD
  {
  }

  /** The text of the digest, and with it what hashing in one go returns with and without hardware support. */
  lemma AbcKnownAnswer(hardware: bool)
    ensures HexDigest(ABC) == "a9993e364706816aba3e25717850c26c9cd0d89d"
    ensures FromResult(hardware, ABC) == "a9993e364706816aba3e25717850c26c9cd0d89d"
  {
    hide Digest, Hex, FromResult, Word, Nibble;
    AbcDigest();
    FromIsDigest(hardware, ABC);
    AbcText(Digest(ABC));
  }

  lemma AbcText(s: State)
    requires s == State(0xA9993E36, 0x4706816A, 0xBA3E2571, 0x7850C26C, 0x9CD0D89D)
    ensures Hex(s) == "a9993e364706816aba3e25717850c26c9cd0d89d"
  {
    hide Hex, Word, Nibble;
    WordsAre(s);
    AbcText0(s);
    AbcText1(s);
    AbcText2(s);
    AbcText3(s);
    AbcText4(s);
    var t := Hex(s);
    hide *;
    FiveParts(t);
    AbcLiteral();
  }

  lemma AbcLiteral()
    ensures "a9993e36" + "4706816a" + "ba3e2571" + "7850c26c" + "9cd0d89d" ==
            "a9993e364706816aba3e25717850c26c9cd0d89d"
  {
  }

  lemma WordsAre(s: State)
    ensures Word(s, 0) == s.a && Word(s, 1) == s.b && Word(s, 2) == s.c && Word(s, 3) == s.d && Word(s, 4) == s.e
  {
  }

  lemma FiveParts(t: string)
    requires |t| == 40
    ensures t == t[0..8] + t[8..16] + t[16..24] + t[24..32] + t[32..40]
  {
  }
}
