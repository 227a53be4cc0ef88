/** What the scalar transform makes of two blocks of zeros, by evaluation, and what follows for one-shot hashing. */
module Sha1TwoBlocks {
  import opened Arithmetic
  import opened Sha1Spec
  import opened Sha1Octets
  import opened Sha1Rounds
  import opened Sha1Transform
  import opened Sha1
  import opened Sha1Stream

  /** Ten rounds from round t on. */
  function Ten(s: State, t: nat, w0: bv32, w1: bv32, w2: bv32, w3: bv32, w4: bv32,
               w5: bv32, w6: bv32, w7: bv32, w8: bv32, w9: bv32): State
  {
    var u := Round(Round(Round(Round(Round(s, t, w0), t + 1, w1), t + 2, w2), t + 3, w3), t + 4, w4);
    Round(Round(Round(Round(Round(u, t + 5, w5), t + 6, w6), t + 7, w7), t + 8, w8), t + 9, w9)
  }

  lemma OneRun(s: State, m: seq<bv32>, t: nat)
    requires |m| == 16
    ensures Run(s, m, t + 1) == Round(Run(s, m, t), t, W(m, t))
  {
  }

  lemma RunsStart(s: State, m: seq<bv32>)
    requires |m| == 16
    ensures Run(s, m, 0) == s
  {
  }

  lemma TenRuns(s: State, m: seq<bv32>, t: nat)
    requires |m| == 16
    ensures Run(s, m, t + 10) ==
            Ten(Run(s, m, t), t, W(m, t), W(m, t + 1), W(m, t + 2), W(m, t + 3), W(m, t + 4),
                W(m, t + 5), W(m, t + 6), W(m, t + 7), W(m, t + 8), W(m, t + 9))
  {
    OneRun(s, m, t);
    OneRun(s, m, t + 1);
    OneRun(s, m, t + 2);
    OneRun(s, m, t + 3);
    OneRun(s, m, t + 4);
    OneRun(s, m, t + 5);
    OneRun(s, m, t + 6);
    OneRun(s, m, t + 7);
    OneRun(s, m, t + 8);
    OneRun(s, m, t + 9);
    hide Run, W, Round;
  }

  predicate IsZeroBlock(m: seq<bv32>)
    requires |m| == 16
  {
    forall i :: 0 <= i < 16 ==> m[i] == 0
  }

  /** The last block of the padded form of 128 bytes: the end mark, zeros and the length of 1024 bits. */
  predicate IsPadBlock(m: seq<bv32>)
    requires |m| == 16
  {
    m[0] == 0x80000000 && m[15] == 0x400 && forall i :: 1 <= i < 15 ==> m[i] == 0
  }

  lemma {:induction false} ZeroSchedule(m: seq<bv32>, t: nat)
    requires |m| == 16 && IsZeroBlock(m)
    ensures W(m, t) == 0
  {
    if t >= 16 {
      ZeroSchedule(m, t - 3);
      ZeroSchedule(m, t - 8);
      ZeroSchedule(m, t - 14);
      ZeroSchedule(m, t - 16);
      assert Mix(0, 0, 0, 0) == 0;
    }
  }

  lemma AllZero(m: seq<bv32>)
    requires |m| == 16 && IsZeroBlock(m)
    ensures forall t: nat :: W(m, t) == 0
  {
    forall t: nat {
      ZeroSchedule(m, t);
    }
  }

  lemma PadWords0(m: seq<bv32>)
    requires |m| == 16 && IsPadBlock(m)
    ensures W(m, 0) == 0x80000000 && W(m, 1) == 0 && W(m, 2) == 0 && W(m, 3) == 0
    ensures W(m, 4) == 0 && W(m, 5) == 0 && W(m, 6) == 0 && W(m, 7) == 0
  {
  }

  lemma PadWords8(m: seq<bv32>)
    requires |m| == 16 && IsPadBlock(m)
    ensures W(m, 8) == 0 && W(m, 9) == 0 && W(m, 10) == 0 && W(m, 11) == 0
    ensures W(m, 12) == 0 && W(m, 13) == 0 && W(m, 14) == 0 && W(m, 15) == 0x00000400
  {
  }

  lemma PadWords16(m: seq<bv32>)
    requires |m| == 16 && IsPadBlock(m)
    ensures W(m, 16) == 0x00000001 && W(m, 17) == 0 && W(m, 18) == 0x00000800 && W(m, 19) == 0x00000002
    ensures W(m, 20) == 0 && W(m, 21) == 0x00001000 && W(m, 22) == 0x00000004 && W(m, 23) == 0x00000800
  {
    PadWords0(m);
    PadWords8(m);
    forall t: nat | 16 <= t < 24 {
      ScheduleStep(m, t);
    }
    hide W;
  }

  lemma PadWords24(m: seq<bv32>)
    requires |m| == 16 && IsPadBlock(m)
    ensures W(m, 24) == 0x00002002 && W(m, 25) == 0x00000008 && W(m, 26) == 0 && W(m, 27) == 0x00004000
    ensures W(m, 28) == 0x00000010 && W(m, 29) == 0x00002800 && W(m, 30) == 0x0000800A && W(m, 31) == 0x00001820
  {
    PadWords8(m);
    PadWords16(m);
    forall t: nat | 24 <= t < 32 {
      ScheduleStep(m, t);
    }
    hide W;
  }

  lemma PadWords32(m: seq<bv32>)
    requires |m| == 16 && IsPadBlock(m)
    ensures W(m, 32) == 0x00000006 && W(m, 33) == 0x00010000 && W(m, 34) == 0x00002040 && W(m, 35) == 0x0000A008
    ensures W(m, 36) == 0x00020028 && W(m, 37) == 0x00002080 && W(m, 38) == 0x00000008 && W(m, 39) == 0x00042000
  {
    PadWords16(m);
    PadWords24(m);
    forall t: nat | 32 <= t < 40 {
      ScheduleStep(m, t);
    }
    hide W;
  }

  lemma PadWords40(m: seq<bv32>)
    requires |m| == 16 && IsPadBlock(m)
    ensures W(m, 40) == 0x00000108 && W(m, 41) == 0x00028000 && W(m, 42) == 0x000800A0 && W(m, 43) == 0x00019200
    ensures W(m, 44) == 0x00000064 && W(m, 45) == 0x00102000 && W(m, 46) == 0x00022408 && W(m, 47) == 0x000A7088
  {
    PadWords24(m);
    PadWords32(m);
    forall t: nat | 40 <= t < 48 {
      ScheduleStep(m, t);
    }
    hide W;
  }

  lemma PadWords48(m: seq<bv32>)
    requires |m| == 16 && IsPadBlock(m)
    ensures W(m, 48) == 0x0020029C && W(m, 49) == 0x00020800 && W(m, 50) == 0x0000A080 && W(m, 51) == 0x00422028
    ensures W(m, 52) == 0x00001088 && W(m, 53) == 0x00290000 && W(m, 54) == 0x00800A40 && W(m, 55) == 0x00198000
  {
    PadWords32(m);
    PadWords40(m);
    forall t: nat | 48 <= t < 56 {
      ScheduleStep(m, t);
    }
    hide W;
  }

  lemma PadWords56(m: seq<bv32>)
    requires |m| == 16 && IsPadBlock(m)
    ensures W(m, 56) == 0x00020668 && W(m, 57) == 0x01022080 && W(m, 58) == 0x00224088 && W(m, 59) == 0x00A32880
    ensures W(m, 60) == 0x020028C8 && W(m, 61) == 0x00222000 && W(m, 62) == 0x000208A8 && W(m, 63) == 0x0423A080
  {
    PadWords40(m);
    PadWords48(m);
    forall t: nat | 56 <= t < 64 {
      ScheduleStep(m, t);
    }
    hide W;
  }

  lemma PadWords64(m: seq<bv32>)
    requires |m| == 16 && IsPadBlock(m)
    ensures W(m, 64) == 0x000108E8 && W(m, 65) == 0x02800000 && W(m, 66) == 0x0802A000 && W(m, 67) == 0x01920080
    ensures W(m, 68) == 0x00006400 && W(m, 69) == 0x10200000 && W(m, 70) == 0x02240800 && W(m, 71) == 0x0A70C800
  {
    PadWords48(m);
    PadWords56(m);
    forall t: nat | 64 <= t < 72 {
      ScheduleStep(m, t);
    }
    hide W;
  }

  lemma PadWords72(m: seq<bv32>)
    requires |m| == 16 && IsPadBlock(m)
    ensures W(m, 72) == 0x20029C10 && W(m, 73) == 0x020A0000 && W(m, 74) == 0x00A00080 && W(m, 75) == 0x42232820
    ensures W(m, 76) == 0x001088C0 && W(m, 77) == 0x29030000 && W(m, 78) == 0x800840C0 && W(m, 79) == 0x1987C080
  {
    PadWords56(m);
    PadWords64(m);
    forall t: nat | 72 <= t < 80 {
      ScheduleStep(m, t);
    }
    hide W;
  }

  lemma First0()
    ensures Ten(State(0x67452301, 0xEFCDAB89, 0x98BADCFE, 0x10325476, 0xC3D2E1F0), 0,
                0, 0, 0, 0, 0, 0, 0, 0, 0, 0) ==
            State(0x12E11B97, 0x2AE5845F, 0x1B8528BC, 0xC0376EFD, 0x81531DFA)
    ensures Ten(State(0x12E11B97, 0x2AE5845F, 0x1B8528BC, 0xC0376EFD, 0x81531DFA), 10,
                0, 0, 0, 0, 0, 0, 0, 0, 0, 0) ==
            State(0xAC1453DB, 0xB1C55B41, 0xD52B8DE8, 0xF4CDF8A6, 0x6788BD87)
    ensures Ten(State(0xAC1453DB, 0xB1C55B41, 0xD52B8DE8, 0xF4CDF8A6, 0x6788BD87), 20,
                0, 0, 0, 0, 0, 0, 0, 0, 0, 0) ==
            State(0x00809CE5, 0x458D79E8, 0x59172103, 0x7B524178, 0x78BDD691)
    ensures Ten(State(0x00809CE5, 0x458D79E8, 0x59172103, 0x7B524178, 0x78BDD691), 30,
                0, 0, 0, 0, 0, 0, 0, 0, 0, 0) ==
            State(0xEFA0F9B0, 0xA1C63D89, 0x522FD40D, 0xD0E55591, 0xB4147ABF)
  {
  }

  lemma First40()
    ensures Ten(State(0xEFA0F9B0, 0xA1C63D89, 0x522FD40D, 0xD0E55591, 0xB4147ABF), 40,
                0, 0, 0, 0, 0, 0, 0, 0, 0, 0) ==
            State(0x9785ED6E, 0xC3909242, 0xFE7030CD, 0x200987A0, 0x62C4DD94)
    ensures Ten(State(0x9785ED6E, 0xC3909242, 0xFE7030CD, 0x200987A0, 0x62C4DD94), 50,
                0, 0, 0, 0, 0, 0, 0, 0, 0, 0) ==
            State(0x72E316E1, 0xE032EDBB, 0xE38D3B2E, 0x87FD02D3, 0xB5B63339)
    ensures Ten(State(0x72E316E1, 0xE032EDBB, 0xE38D3B2E, 0x87FD02D3, 0xB5B63339), 60,
                0, 0, 0, 0, 0, 0, 0, 0, 0, 0) ==
            State(0x866D158A, 0x276BD8D8, 0xB3F6A309, 0x6F690A6D, 0x9A47F263)
    ensures Ten(State(0x866D158A, 0x276BD8D8, 0xB3F6A309, 0x6F690A6D, 0x9A47F263), 70,
                0, 0, 0, 0, 0, 0, 0, 0, 0, 0) ==
            State(0x2B6EE1E4, 0x668AE164, 0xD35FF050, 0xAED2EAF2, 0x462458A3)
  {
  }

  /** The first block of zeros, from the initial hash value. */
  lemma First(m: seq<bv32>)
    requires |m| == 16 && IsZeroBlock(m)
    ensures Run(State(0x67452301, 0xEFCDAB89, 0x98BADCFE, 0x10325476, 0xC3D2E1F0), m, 80) ==
            State(0x2B6EE1E4, 0x668AE164, 0xD35FF050, 0xAED2EAF2, 0x462458A3)
  {
    hide *;
    AllZero(m);
    First0();
    First40();
    RunsStart(State(0x67452301, 0xEFCDAB89, 0x98BADCFE, 0x10325476, 0xC3D2E1F0), m);
    TenRuns(State(0x67452301, 0xEFCDAB89, 0x98BADCFE, 0x10325476, 0xC3D2E1F0), m, 0);
    TenRuns(State(0x67452301, 0xEFCDAB89, 0x98BADCFE, 0x10325476, 0xC3D2E1F0), m, 10);
    TenRuns(State(0x67452301, 0xEFCDAB89, 0x98BADCFE, 0x10325476, 0xC3D2E1F0), m, 20);
    TenRuns(State(0x67452301, 0xEFCDAB89, 0x98BADCFE, 0x10325476, 0xC3D2E1F0), m, 30);
    TenRuns(State(0x67452301, 0xEFCDAB89, 0x98BADCFE, 0x10325476, 0xC3D2E1F0), m, 40);
    TenRuns(State(0x67452301, 0xEFCDAB89, 0x98BADCFE, 0x10325476, 0xC3D2E1F0), m, 50);
    TenRuns(State(0x67452301, 0xEFCDAB89, 0x98BADCFE, 0x10325476, 0xC3D2E1F0), m, 60);
    TenRuns(State(0x67452301, 0xEFCDAB89, 0x98BADCFE, 0x10325476, 0xC3D2E1F0), m, 70);
  }

  lemma Second0()
    ensures Ten(State(0x2B6EE1E4, 0x668AE164, 0xD35FF050, 0xAED2EAF2, 0x462458A3), 0,
                0, 0, 0, 0, 0, 0, 0, 0, 0, 0) ==
            State(0x04C0AEEA, 0xAFEEF8AB, 0xB14386D9, 0xE8ACF612, 0x9C8E58AB)
    ensures Ten(State(0x04C0AEEA, 0xAFEEF8AB, 0xB14386D9, 0xE8ACF612, 0x9C8E58AB), 10,
                0, 0, 0, 0, 0, 0, 0, 0, 0, 0) ==
            State(0x8140E371, 0x91C700C7, 0x19D16CF2, 0x0B96C901, 0x87794A0F)
    ensures Ten(State(0x8140E371, 0x91C700C7, 0x19D16CF2, 0x0B96C901, 0x87794A0F), 20,
                0, 0, 0, 0, 0, 0, 0, 0, 0, 0) ==
            State(0x6D3C2F73, 0x8EBF08F6, 0x28BFE54C, 0x035AD6EF, 0xEA232B88)
    ensures Ten(State(0x6D3C2F73, 0x8EBF08F6, 0x28BFE54C, 0x035AD6EF, 0xEA232B88), 30,
                0, 0, 0, 0, 0, 0, 0, 0, 0, 0) ==
            State(0x25EABED2, 0x67866024, 0x24844D0B, 0x3DD0786B, 0xFCED30F9)
  {
  }

  lemma Second40()
    ensures Ten(State(0x25EABED2, 0x67866024, 0x24844D0B, 0x3DD0786B, 0xFCED30F9), 40,
                0, 0, 0, 0, 0, 0, 0, 0, 0, 0) ==
            State(0x620ED54E, 0xF9266C43, 0xCB123DCD, 0xF9093C05, 0x92E589F9)
    ensures Ten(State(0x620ED54E, 0xF9266C43, 0xCB123DCD, 0xF9093C05, 0x92E589F9), 50,
                0, 0, 0, 0, 0, 0, 0, 0, 0, 0) ==
            State(0x1865C004, 0x1DB125D1, 0x3ADC33FB, 0x12FCD025, 0x280330AA)
    ensures Ten(State(0x1865C004, 0x1DB125D1, 0x3ADC33FB, 0x12FCD025, 0x280330AA), 60,
                0, 0, 0, 0, 0, 0, 0, 0, 0, 0) ==
            State(0xD783157B, 0xDEE0B361, 0xC5F2380E, 0x015778DD, 0xB9A6A2D6)
    ensures Ten(State(0xD783157B, 0xDEE0B361, 0xC5F2380E, 0x015778DD, 0xB9A6A2D6), 70,
                0, 0, 0, 0, 0, 0, 0, 0, 0, 0) ==
            State(0x166E0B1A, 0x9629ABF1, 0xBCADB6AE, 0x84B31D1B, 0x42E95C44)
  {
  }

  /** The second block as the scalar transform goes on, straight from the working variables. */
  lemma Second(m: seq<bv32>)
    requires |m| == 16 && IsZeroBlock(m)
    ensures Run(State(0x2B6EE1E4, 0x668AE164, 0xD35FF050, 0xAED2EAF2, 0x462458A3), m, 80) ==
            State(0x166E0B1A, 0x9629ABF1, 0xBCADB6AE, 0x84B31D1B, 0x42E95C44)
  {
    hide *;
    AllZero(m);
    Second0();
    Second40();
    RunsStart(State(0x2B6EE1E4, 0x668AE164, 0xD35FF050, 0xAED2EAF2, 0x462458A3), m);
    TenRuns(State(0x2B6EE1E4, 0x668AE164, 0xD35FF050, 0xAED2EAF2, 0x462458A3), m, 0);
    TenRuns(State(0x2B6EE1E4, 0x668AE164, 0xD35FF050, 0xAED2EAF2, 0x462458A3), m, 10);
    TenRuns(State(0x2B6EE1E4, 0x668AE164, 0xD35FF050, 0xAED2EAF2, 0x462458A3), m, 20);
    TenRuns(State(0x2B6EE1E4, 0x668AE164, 0xD35FF050, 0xAED2EAF2, 0x462458A3), m, 30);
    TenRuns(State(0x2B6EE1E4, 0x668AE164, 0xD35FF050, 0xAED2EAF2, 0x462458A3), m, 40);
    TenRuns(State(0x2B6EE1E4, 0x668AE164, 0xD35FF050, 0xAED2EAF2, 0x462458A3), m, 50);
    TenRuns(State(0x2B6EE1E4, 0x668AE164, 0xD35FF050, 0xAED2EAF2, 0x462458A3), m, 60);
    TenRuns(State(0x2B6EE1E4, 0x668AE164, 0xD35FF050, 0xAED2EAF2, 0x462458A3), m, 70);
  }

  lemma Folded0()
    ensures Ten(State(0x92B404E5, 0x56588CED, 0x6C1ACD4E, 0xBF053F68, 0x09F73A93), 0,
                0, 0, 0, 0, 0, 0, 0, 0, 0, 0) ==
            State(0x44FC4DA7, 0xC90FBEF5, 0xE4201BDD, 0x79B82949, 0x2C6C119E)
    ensures Ten(State(0x44FC4DA7, 0xC90FBEF5, 0xE4201BDD, 0x79B82949, 0x2C6C119E), 10,
                0, 0, 0, 0, 0, 0, 0, 0, 0, 0) ==
            State(0x964098FD, 0xFDB012BC, 0x20619051, 0x24EFEDF7, 0xCFD048EC)
    ensures Ten(State(0x964098FD, 0xFDB012BC, 0x20619051, 0x24EFEDF7, 0xCFD048EC), 20,
                0, 0, 0, 0, 0, 0, 0, 0, 0, 0) ==
            State(0xAF3089B9, 0x38FA8784, 0x603C10BF, 0xC5B59456, 0x803F899D)
    ensures Ten(State(0xAF3089B9, 0x38FA8784, 0x603C10BF, 0xC5B59456, 0x803F899D), 30,
                0, 0, 0, 0, 0, 0, 0, 0, 0, 0) ==
            State(0xFCB185FA, 0x9AF69E37, 0xAB4206ED, 0x90D34F8A, 0x61DC1BF5)
  {
  }

  lemma Folded40()
    ensures Ten(State(0xFCB185FA, 0x9AF69E37, 0xAB4206ED, 0x90D34F8A, 0x61DC1BF5), 40,
                0, 0, 0, 0, 0, 0, 0, 0, 0, 0) ==
            State(0x16FBD3B2, 0x02D57123, 0x71ABC084, 0x27709F08, 0x86402C9A)
    ensures Ten(State(0x16FBD3B2, 0x02D57123, 0x71ABC084, 0x27709F08, 0x86402C9A), 50,
                0, 0, 0, 0, 0, 0, 0, 0, 0, 0) ==
            State(0x0795A6AB, 0xBE09C598, 0xB2FACADE, 0x729AEA1C, 0xE221CA8F)
    ensures Ten(State(0x0795A6AB, 0xBE09C598, 0xB2FACADE, 0x729AEA1C, 0xE221CA8F), 60,
                0, 0, 0, 0, 0, 0, 0, 0, 0, 0) ==
            State(0x94A05AA7, 0x1BD4B4BC, 0x351F0C35, 0xC7941BA9, 0x751E19F3)
    ensures Ten(State(0x94A05AA7, 0x1BD4B4BC, 0x351F0C35, 0xC7941BA9, 0x751E19F3), 70,
                0, 0, 0, 0, 0, 0, 0, 0, 0, 0) ==
            State(0x97C98AEF, 0x35F38818, 0x6FACB3D8, 0x37ECEE6C, 0x3DCD0BE7)
  {
  }

  /** The second block from the hash value folded after the first. */
  lemma Folded(m: seq<bv32>)
    requires |m| == 16 && IsZeroBlock(m)
    ensures Run(State(0x92B404E5, 0x56588CED, 0x6C1ACD4E, 0xBF053F68, 0x09F73A93), m, 80) ==
            State(0x97C98AEF, 0x35F38818, 0x6FACB3D8, 0x37ECEE6C, 0x3DCD0BE7)
  {
    hide *;
    AllZero(m);
    Folded0();
    Folded40();
    RunsStart(State(0x92B404E5, 0x56588CED, 0x6C1ACD4E, 0xBF053F68, 0x09F73A93), m);
    TenRuns(State(0x92B404E5, 0x56588CED, 0x6C1ACD4E, 0xBF053F68, 0x09F73A93), m, 0);
    TenRuns(State(0x92B404E5, 0x56588CED, 0x6C1ACD4E, 0xBF053F68, 0x09F73A93), m, 10);
    TenRuns(State(0x92B404E5, 0x56588CED, 0x6C1ACD4E, 0xBF053F68, 0x09F73A93), m, 20);
    TenRuns(State(0x92B404E5, 0x56588CED, 0x6C1ACD4E, 0xBF053F68, 0x09F73A93), m, 30);
    TenRuns(State(0x92B404E5, 0x56588CED, 0x6C1ACD4E, 0xBF053F68, 0x09F73A93), m, 40);
    TenRuns(State(0x92B404E5, 0x56588CED, 0x6C1ACD4E, 0xBF053F68, 0x09F73A93), m, 50);
    TenRuns(State(0x92B404E5, 0x56588CED, 0x6C1ACD4E, 0xBF053F68, 0x09F73A93), m, 60);
    TenRuns(State(0x92B404E5, 0x56588CED, 0x6C1ACD4E, 0xBF053F68, 0x09F73A93), m, 70);
  }

  lemma ScalarLast0()
    ensures Ten(State(0x7DB32E1B, 0x85F7577A, 0x556893AC, 0x94E57191, 0x06BC3E34), 0,
                0x80000000, 0, 0, 0, 0,
                0, 0, 0, 0, 0) ==
            State(0x23A63ACA, 0xC804D7B7, 0xC865BC22, 0x7B251129, 0x2F4C7921)
    ensures Ten(State(0x23A63ACA, 0xC804D7B7, 0xC865BC22, 0x7B251129, 0x2F4C7921), 10,
                0, 0, 0, 0, 0,
                0x00000400, 0x00000001, 0, 0x00000800, 0x00000002) ==
            State(0x4EFA5F16, 0x8F5077F4, 0x8DE48391, 0xA4C3C32D, 0x0D8C0871)
    ensures Ten(State(0x4EFA5F16, 0x8F5077F4, 0x8DE48391, 0xA4C3C32D, 0x0D8C0871), 20,
                0, 0x00001000, 0x00000004, 0x00000800, 0x00002002,
                0x00000008, 0, 0x00004000, 0x00000010, 0x00002800) ==
            State(0x8896F79E, 0xE69A92CA, 0xF597DD4F, 0x4DE32EAB, 0x5F920585)
    ensures Ten(State(0x8896F79E, 0xE69A92CA, 0xF597DD4F, 0x4DE32EAB, 0x5F920585), 30,
                0x0000800A, 0x00001820, 0x00000006, 0x00010000, 0x00002040,
                0x0000A008, 0x00020028, 0x00002080, 0x00000008, 0x00042000) ==
            State(0xAFBCF9EC, 0x3EE143AF, 0x600772B0, 0xA1978AB7, 0x91316EAA)
  {
  }

  lemma ScalarLast40()
    ensures Ten(State(0xAFBCF9EC, 0x3EE143AF, 0x600772B0, 0xA1978AB7, 0x91316EAA), 40,
                0x00000108, 0x00028000, 0x000800A0, 0x00019200, 0x00000064,
                0x00102000, 0x00022408, 0x000A7088, 0x0020029C, 0x00020800) ==
            State(0x03AF59CE, 0xFF3BD11B, 0xD3354C98, 0x243E6C61, 0xBAA43246)
    ensures Ten(State(0x03AF59CE, 0xFF3BD11B, 0xD3354C98, 0x243E6C61, 0xBAA43246), 50,
                0x0000A080, 0x00422028, 0x00001088, 0x00290000, 0x00800A40,
                0x00198000, 0x00020668, 0x01022080, 0x00224088, 0x00A32880) ==
            State(0xE17E54B5, 0x53B34D66, 0x5F3458D0, 0xE65799C7, 0x96382843)
    ensures Ten(State(0xE17E54B5, 0x53B34D66, 0x5F3458D0, 0xE65799C7, 0x96382843), 60,
                0x020028C8, 0x00222000, 0x000208A8, 0x0423A080, 0x000108E8,
                0x02800000, 0x0802A000, 0x01920080, 0x00006400, 0x10200000) ==
            State(0x4CD04F17, 0x067D2E43, 0xE35B69AA, 0xCB622A7E, 0xBC8B7275)
    ensures Ten(State(0x4CD04F17, 0x067D2E43, 0xE35B69AA, 0xCB622A7E, 0xBC8B7275), 70,
                0x02240800, 0x0A70C800, 0x20029C10, 0x020A0000, 0x00A00080,
                0x42232820, 0x001088C0, 0x29030000, 0x800840C0, 0x1987C080) ==
            State(0x93AF4ABE, 0xB98C6E45, 0xBC4719F2, 0xB024F543, 0x67A73931)
  {
  }

  /** The padding block after the scalar transform. */
  lemma ScalarLast(m: seq<bv32>)
    requires |m| == 16 && IsPadBlock(m)
    ensures Run(State(0x7DB32E1B, 0x85F7577A, 0x556893AC, 0x94E57191, 0x06BC3E34), m, 80) ==
            State(0x93AF4ABE, 0xB98C6E45, 0xBC4719F2, 0xB024F543, 0x67A73931)
  {
    hide *;
    PadWords0(m);
    PadWords8(m);
    PadWords16(m);
    PadWords24(m);
    PadWords32(m);
    PadWords40(m);
    PadWords48(m);
    PadWords56(m);
    PadWords64(m);
    PadWords72(m);
    ScalarLast0();
    ScalarLast40();
    RunsStart(State(0x7DB32E1B, 0x85F7577A, 0x556893AC, 0x94E57191, 0x06BC3E34), m);
    TenRuns(State(0x7DB32E1B, 0x85F7577A, 0x556893AC, 0x94E57191, 0x06BC3E34), m, 0);
    TenRuns(State(0x7DB32E1B, 0x85F7577A, 0x556893AC, 0x94E57191, 0x06BC3E34), m, 10);
    TenRuns(State(0x7DB32E1B, 0x85F7577A, 0x556893AC, 0x94E57191, 0x06BC3E34), m, 20);
    TenRuns(State(0x7DB32E1B, 0x85F7577A, 0x556893AC, 0x94E57191, 0x06BC3E34), m, 30);
    TenRuns(State(0x7DB32E1B, 0x85F7577A, 0x556893AC, 0x94E57191, 0x06BC3E34), m, 40);
    TenRuns(State(0x7DB32E1B, 0x85F7577A, 0x556893AC, 0x94E57191, 0x06BC3E34), m, 50);
    TenRuns(State(0x7DB32E1B, 0x85F7577A, 0x556893AC, 0x94E57191, 0x06BC3E34), m, 60);
    TenRuns(State(0x7DB32E1B, 0x85F7577A, 0x556893AC, 0x94E57191, 0x06BC3E34), m, 70);
  }

  lemma ExactLast0()
    ensures Ten(State(0x2A7D8FD4, 0x8C4C1505, 0xDBC78126, 0xF6F22DD4, 0x47C4467A), 0,
                0x80000000, 0, 0, 0, 0,
                0, 0, 0, 0, 0) ==
            State(0x238E506F, 0x2EA956FF, 0x0DBFFEBA, 0x641A36B6, 0x01AF2033)
    ensures Ten(State(0x238E506F, 0x2EA956FF, 0x0DBFFEBA, 0x641A36B6, 0x01AF2033), 10,
                0, 0, 0, 0, 0,
                0x00000400, 0x00000001, 0, 0x00000800, 0x00000002) ==
            State(0xC27311E8, 0xB7248B2D, 0x8B41A91E, 0x5204D65E, 0x745390B8)
    ensures Ten(State(0xC27311E8, 0xB7248B2D, 0x8B41A91E, 0x5204D65E, 0x745390B8), 20,
                0, 0x00001000, 0x00000004, 0x00000800, 0x00002002,
                0x00000008, 0, 0x00004000, 0x00000010, 0x00002800) ==
            State(0x6830ABC7, 0x1E624952, 0xC214D6AC, 0xE5483EF8, 0xCABA1B17)
    ensures Ten(State(0x6830ABC7, 0x1E624952, 0xC214D6AC, 0xE5483EF8, 0xCABA1B17), 30,
                0x0000800A, 0x00001820, 0x00000006, 0x00010000, 0x00002040,
                0x0000A008, 0x00020028, 0x00002080, 0x00000008, 0x00042000) ==
            State(0x46313EE2, 0xEB1B90EE, 0x8606C53A, 0x74A5D73E, 0x4C226B72)
  {
  }

  lemma ExactLast40()
    ensures Ten(State(0x46313EE2, 0xEB1B90EE, 0x8606C53A, 0x74A5D73E, 0x4C226B72), 40,
                0x00000108, 0x00028000, 0x000800A0, 0x00019200, 0x00000064,
                0x00102000, 0x00022408, 0x000A7088, 0x0020029C, 0x00020800) ==
            State(0xF275B13A, 0x50F01E4A, 0x9655D4E0, 0x1167A6AE, 0xF9D357E1)
    ensures Ten(State(0xF275B13A, 0x50F01E4A, 0x9655D4E0, 0x1167A6AE, 0xF9D357E1), 50,
                0x0000A080, 0x00422028, 0x00001088, 0x00290000, 0x00800A40,
                0x00198000, 0x00020668, 0x01022080, 0x00224088, 0x00A32880) ==
            State(0x8B4E2A9A, 0x4051E83C, 0xC278397E, 0xCFD4E5C2, 0x84280EBA)
    ensures Ten(State(0x8B4E2A9A, 0x4051E83C, 0xC278397E, 0xCFD4E5C2, 0x84280EBA), 60,
                0x020028C8, 0x00222000, 0x000208A8, 0x0423A080, 0x000108E8,
                0x02800000, 0x0802A000, 0x01920080, 0x00006400, 0x10200000) ==
            State(0xBB732F98, 0x5D490851, 0x2B440381, 0xEFD0262C, 0x235034C4)
    ensures Ten(State(0xBB732F98, 0x5D490851, 0x2B440381, 0xEFD0262C, 0x235034C4), 70,
                0x02240800, 0x0A70C800, 0x20029C10, 0x020A0000, 0x00A00080,
                0x42232820, 0x001088C0, 0x29030000, 0x800840C0, 0x1987C080) ==
            State(0xE067673D, 0x63115998, 0x4AFE90D7, 0x359A5CF0, 0x1707B36D)
  {
  }

  /** The padding block after the exact hash value. */
  lemma ExactLast(m: seq<bv32>)
    requires |m| == 16 && IsPadBlock(m)
    ensures Run(State(0x2A7D8FD4, 0x8C4C1505, 0xDBC78126, 0xF6F22DD4, 0x47C4467A), m, 80) ==
            State(0xE067673D, 0x63115998, 0x4AFE90D7, 0x359A5CF0, 0x1707B36D)
  {
    hide *;
    PadWords0(m);
    PadWords8(m);
    PadWords16(m);
    PadWords24(m);
    PadWords32(m);
    PadWords40(m);
    PadWords48(m);
    PadWords56(m);
    PadWords64(m);
    PadWords72(m);
    ExactLast0();
    ExactLast40();
    RunsStart(State(0x2A7D8FD4, 0x8C4C1505, 0xDBC78126, 0xF6F22DD4, 0x47C4467A), m);
    TenRuns(State(0x2A7D8FD4, 0x8C4C1505, 0xDBC78126, 0xF6F22DD4, 0x47C4467A), m, 0);
    TenRuns(State(0x2A7D8FD4, 0x8C4C1505, 0xDBC78126, 0xF6F22DD4, 0x47C4467A), m, 10);
    TenRuns(State(0x2A7D8FD4, 0x8C4C1505, 0xDBC78126, 0xF6F22DD4, 0x47C4467A), m, 20);
    TenRuns(State(0x2A7D8FD4, 0x8C4C1505, 0xDBC78126, 0xF6F22DD4, 0x47C4467A), m, 30);
    TenRuns(State(0x2A7D8FD4, 0x8C4C1505, 0xDBC78126, 0xF6F22DD4, 0x47C4467A), m, 40);
    TenRuns(State(0x2A7D8FD4, 0x8C4C1505, 0xDBC78126, 0xF6F22DD4, 0x47C4467A), m, 50);
    TenRuns(State(0x2A7D8FD4, 0x8C4C1505, 0xDBC78126, 0xF6F22DD4, 0x47C4467A), m, 60);
    TenRuns(State(0x2A7D8FD4, 0x8C4C1505, 0xDBC78126, 0xF6F22DD4, 0x47C4467A), m, 70);
  }

  lemma TwoZeroBlocks()
    ensures ScalarResult(INITIAL, Zeros(128)) == State(0x7DB32E1B, 0x85F7577A, 0x556893AC, 0x94E57191, 0x06BC3E34)
    ensures Absorb(INITIAL, Zeros(128)) == State(0x2A7D8FD4, 0x8C4C1505, 0xDBC78126, 0xF6F22DD4, 0x47C4467A)
  {
    var block := Zeros(64);
    var m := Words(block);
    ZeroWords();
    assert Zeros(128) == block + block;
    TwoBlocks(INITIAL, block);
    First(m);
    Second(m);
    Folded(m);
    hide Run, Words, ScalarResult, Absorb, IsZeroBlock;
  }

  lemma ZeroWords()
    ensures IsZeroBlock(Words(Zeros(64)))
  {
    OctetsAre();
    hide Octet;
  }

  /** The scalar transform and the per-block contract part ways on the two blocks that a fresh object is handed
      for a message of 128 zero bytes. */
  lemma ScalarBreaksOnTwoBlocks()
    ensures ScalarResult(INITIAL, Zeros(128)) != Absorb(INITIAL, Zeros(128))
  {
    TwoZeroBlocks();
    hide ScalarResult, Absorb;
  }

  /** The scalar transform meets the per-block contract on every input of up to n blocks exactly when n is at most 1. */
  lemma ScalarMeetsContractUpTo(n: nat)
    ensures (forall h: State, data: seq<Byte> | |data| % 64 == 0 && |data| <= 64 * n ::
               ScalarResult(h, data) == Absorb(h, data))
            <==> n <= 1
  {
    hide ScalarResult, Absorb;
    if n <= 1 {
      forall h: State, data: seq<Byte> | |data| % 64 == 0 && |data| <= 64 * n
        ensures ScalarResult(h, data) == Absorb(h, data)
      {
        ScalarMeetsContract(h, data);
      }
    } else {
      ScalarBreaksOnTwoBlocks();
    }
  }

  lemma ZeroLength()
    ensures LengthBytes(Zeros(128)) == [0, 0, 0, 0, 0, 0, 4, 0]
  {
    assert BigEndian(4, 7) == BigEndian(0, 6) + [4];
    assert BigEndian(0, 6) == [0, 0, 0, 0, 0, 0];
  }

  lemma PadTailOfZeros()
    ensures PadTail(Zeros(128)) == [0x80] + Zeros(55) + LengthBytes(Zeros(128))
    ensures Whole(Zeros(128)) == Zeros(128)
  {
    assert ZeroCount(128) == 55;
    hide LengthBytes;
  }

  lemma ZeroPad()
    ensures |PadTail(Zeros(128))| == 64 && IsPadBlock(Words(PadTail(Zeros(128))))
  {
    hide LengthBytes, PadTail, Words, IsPadBlock;
    PadTailOfZeros();
    ZeroLength();
    PadWordsAre(PadTail(Zeros(128)));
  }

  lemma PadWordsAre(p: seq<Byte>)
    requires |p| == 64 && p[0] == 0x80 && p[62] == 4
    requires forall k :: 0 <= k < 64 && k != 0 && k != 62 ==> p[k] == 0
    ensures IsPadBlock(Words(p))
  {
    PadBytes();
    hide Be32;
  }

  lemma PadBytes()
    ensures Be32(0, 0, 0, 0) == 0 && Be32(0x80, 0, 0, 0) == 0x80000000 && Be32(0, 0, 4, 0) == 0x400
  {
    hide Octet;
    OctetsAre();
  }

  /** The digests of 128 zero bytes: the one the scalar path arrives at and the right one. */
  lemma DigestsOfZeros()
    ensures Absorb(ScalarResult(INITIAL, Zeros(128)), PadTail(Zeros(128))) ==
            State(0x116278D9, 0x3F83C5BF, 0x11AFAD9E, 0x450A66D4, 0x6E637765)
    ensures Digest(Zeros(128)) == State(0x0AE4F711, 0xEF5D6E9D, 0x26C611FD, 0x2C8C8AC4, 0x5ECBF9E7)
  {
    hide *;
    var msg := Zeros(128);
    var p := PadTail(msg);
    ZeroPad();
    PadTailOfZeros();
    TwoZeroBlocks();
    DigestByTail(msg);
    ScalarLast(Words(p));
    ExactLast(Words(p));
    LastFolds();
    LastBlock(State(0x7DB32E1B, 0x85F7577A, 0x556893AC, 0x94E57191, 0x06BC3E34), p);
    LastBlock(State(0x2A7D8FD4, 0x8C4C1505, 0xDBC78126, 0xF6F22DD4, 0x47C4467A), p);
  }

  lemma LastBlock(h: State, p: seq<Byte>)
    requires |p| == 64
    ensures Absorb(h, p) == Add(h, Run(h, Words(p), 80))
  {
    AbsorbOne(h, p);
    hide Run, Words, Add, Absorb;
  }

  /** Without hardware support, hashing 128 zero bytes returns the text of another digest. */
  lemma FromIsWrongOnZeros()
    ensures FromResult(false, Zeros(128)) != HexDigest(Zeros(128))
  {
    var msg := Zeros(128);
    DigestsOfZeros();
    PadTailOfZeros();
    hide Absorb, ScalarResult, Hex, PadTail, Whole, Digest;
    HexApart(Absorb(ScalarResult(INITIAL, msg), PadTail(msg)), Digest(msg));
  }

  lemma HexApart(s: State, t: State)
    ensures s != t ==> Hex(s) != Hex(t)
  {
    if Hex(s) == Hex(t) {
      HexInjective(s, t);
    }
    hide Hex;
  }

  lemma LastFolds()
    ensures Add(State(0x7DB32E1B, 0x85F7577A, 0x556893AC, 0x94E57191, 0x06BC3E34),
                State(0x93AF4ABE, 0xB98C6E45, 0xBC4719F2, 0xB024F543, 0x67A73931)) ==
            State(0x116278D9, 0x3F83C5BF, 0x11AFAD9E, 0x450A66D4, 0x6E637765)
    ensures Add(State(0x2A7D8FD4, 0x8C4C1505, 0xDBC78126, 0xF6F22DD4, 0x47C4467A),
                State(0xE067673D, 0x63115998, 0x4AFE90D7, 0x359A5CF0, 0x1707B36D)) ==
            State(0x0AE4F711, 0xEF5D6E9D, 0x26C611FD, 0x2C8C8AC4, 0x5ECBF9E7)
  {
  }

  /** One-shot hashing is right on every message of up to `limit` bytes exactly when the processor's SHA
      instructions are there or the limit is below two blocks. */
  lemma FromIsRightUpTo(hardware: bool, limit: nat)
    ensures (forall data: seq<Byte> | |data| <= limit :: FromResult(hardware, data) == HexDigest(data))
            <==> hardware || limit < 128
  {
    hide FromResult, HexDigest;
    if hardware || limit < 128 {
      forall data: seq<Byte> | |data| <= limit
        ensures FromResult(hardware, data) == HexDigest(data)
      {
        FromIsDigest(hardware, data);
      }
    } else {
      FromIsWrongOnZeros();
      assert |Zeros(128)| <= limit;
    }
  }

  /** Hashing in pieces is right on all pieces that hand at most `limit` blocks to one transform exactly when the SHA
      instructions are there or the limit is below two. */
  lemma PiecesAreRightUpTo(hardware: bool, limit: nat)
    ensures (forall chunks | DirectWithin(chunks, limit) ::
               PiecesResult(hardware, chunks) == HexDigest(Flatten(chunks)))
            <==> hardware || limit <= 1
  {
    hide PiecesResult, HexDigest, DirectWithin, Flatten;
    if hardware || limit <= 1 {
      forall chunks | DirectWithin(chunks, limit)
        ensures PiecesResult(hardware, chunks) == HexDigest(Flatten(chunks))
      {
        FewerDirect(chunks, limit);
        PiecesAreDigest(hardware, chunks);
      }
    } else {
      OnePiece(Zeros(128), limit);
      FromIsWrongOnZeros();
    }
  }

  lemma FewerDirect(chunks: seq<seq<Byte>>, limit: nat)
    requires DirectWithin(chunks, limit)
    ensures limit <= 1 ==> DirectWithin(chunks, 1)
  {
    hide DirectBlocks, Flatten;
  }

  /** A single piece is one-shot hashing. */
  lemma OnePiece(data: seq<Byte>, limit: nat)
    requires |data| / 64 <= limit
    ensures DirectWithin([data], limit) && Flatten([data]) == data
    ensures PiecesResult(false, [data]) == FromResult(false, data)
  {
    assert [data][..0] == [] && Flatten([]) == [] && Flatten([data]) == data && Tail([]) == [];
    assert PiecesState(false, []) == INITIAL;
    assert PiecesState(false, [data]) == Fed(false, INITIAL, [], data);
    FedFresh(false, INITIAL, data);
    hide Absorb, Hex, PadTail, Fed, Transformed, Whole;
  }

  /** Streaming with a given step is right on every buffer of up to `limit` bytes exactly when the SHA instructions are
      there, or the step or the limit is below two blocks. */
  lemma StreamIsRightUpTo(hardware: bool, blockStep: nat, limit: nat)
    requires StepBytes(blockStep) > 0
    ensures (forall data: seq<Byte> | 0 < |data| <= limit ::
               StreamResult(hardware, data, blockStep) == HexDigest(data))
            <==> hardware || StepBytes(blockStep) < 128 || limit < 128
  {
    hide StreamResult, HexDigest, FromResult, StepBytes;
    if hardware || StepBytes(blockStep) < 128 || limit < 128 {
      forall data: seq<Byte> | 0 < |data| <= limit
        ensures StreamResult(hardware, data, blockStep) == HexDigest(data)
      {
        StreamIsDigest(hardware, data, blockStep);
      }
    } else {
      OneCallResult(hardware, Zeros(128), blockStep);
      FromIsWrongOnZeros();
    }
  }

  /** With a step of one block, streaming returns what one-shot hashing returns on every buffer of up to `limit` bytes
      exactly when the SHA instructions are there or the limit is below two blocks. */
  lemma OneBlockStreamIsFromUpTo(hardware: bool, blockStep: nat, limit: nat)
    requires StepBytes(blockStep) == 64
    ensures (forall data: seq<Byte> | 0 < |data| <= limit ::
               StreamResult(hardware, data, blockStep) == FromResult(hardware, data))
            <==> hardware || limit < 128
  {
    hide StreamResult, HexDigest, FromResult, StepBytes;
    if hardware || limit < 128 {
      forall data: seq<Byte> | 0 < |data| <= limit
        ensures StreamResult(hardware, data, blockStep) == FromResult(hardware, data)
      {
        StreamIsDigest(hardware, data, blockStep);
        FromIsDigest(hardware, data);
      }
    } else {
      StreamIsDigest(hardware, Zeros(128), blockStep);
      FromIsWrongOnZeros();
    }
  }

  /** A stream whose step covers two blocks hashes them in one go, and goes wrong as well. */
  method StreamOfZeros(blockStep: nat) returns (text: string)
    requires StepBytes(blockStep) >= 128
    ensures text != HexDigest(Zeros(128))
  {
    hide FromResult, HexDigest, StepBytes, StreamResult, CeilDiv;
    CeilDivIs(128, StepBytes(blockStep), 1);
    var results := AdvanceRepeatedly(false, Zeros(128), blockStep, 1);
    OneCallResult(false, Zeros(128), blockStep);
    FromIsWrongOnZeros();
    text := results[0].value;
  }
}
