/** What number a word made of four bytes stands for. */
module Sha1Octets {
  import opened Sha1Spec

  lemma PushBounds(high: bv32, bit: bv32)
    requires bit <= 1
    ensures high <= 0 ==> Push(high, bit) <= 1
    ensures high <= 1 ==> Push(high, bit) <= 3
    ensures high <= 3 ==> Push(high, bit) <= 7
    ensures high <= 7 ==> Push(high, bit) <= 0xF
    ensures high <= 0xF ==> Push(high, bit) <= 0x1F
    ensures high <= 0x1F ==> Push(high, bit) <= 0x3F
    ensures high <= 0x3F ==> Push(high, bit) <= 0x7F
    ensures high <= 0x7F ==> Push(high, bit) <= 0xFF
  {
  }

  lemma {:induction false} OctetBounds(n: nat)
    ensures n < 1 ==> Octet(n) <= 0
    ensures n < 2 ==> Octet(n) <= 1
    ensures n < 4 ==> Octet(n) <= 3
    ensures n < 8 ==> Octet(n) <= 7
    ensures n < 16 ==> Octet(n) <= 0xF
    ensures n < 32 ==> Octet(n) <= 0x1F
    ensures n < 64 ==> Octet(n) <= 0x3F
    ensures n < 128 ==> Octet(n) <= 0x7F
    ensures n < 256 ==> Octet(n) <= 0xFF
  {
    hide Push, Bit;
    if n > 0 {
      OctetBounds(n / 2);
      PushBounds(Octet(n / 2), Bit(n));
    }
  }

  lemma PushIs(high: bv32, bit: bv32)
    requires high <= 0x7F && bit <= 1
    ensures Push(high, bit) as nat == 2 * (high as nat) + bit as nat
  {
    PushedIs(high, bit);
  }

  lemma PushedIs(high: bv32, bit: bv32)
    requires high <= 0x7F && bit <= 1
    ensures ((high << 1) | bit) as nat == 2 * (high as nat) + bit as nat
  {
  }

  lemma BitIs(n: nat)
    ensures Bit(n) as nat == n % 2
  {
  }

  lemma OctetStep(n: nat)
    ensures n > 0 ==> Octet(n) == Push(Octet(n / 2), Bit(n))
    ensures Octet(0) == 0
  {
  }

  /** Widening a byte keeps its value. */
  lemma {:induction false} OctetIs(n: nat)
    requires n < 256
    ensures Octet(n) as nat == n
  {
    hide Push, Bit;
    OctetStep(n);
    if n > 0 {
      OctetIs(n / 2);
      OctetBounds(n / 2);
      BitIs(n);
      PushIs(Octet(n / 2), Bit(n));
    }
    hide Octet;
  }

  function Value(w: bv32): nat {
    w as nat
  }

  lemma ValueIs(w: bv32)
    ensures Value(w) == w as nat
  {
  }

  lemma SplitFirst(w: bv32)
    ensures Value(w) == Value(w & 0xFF000000) + Value(w & 0xFFFFFF)
  {
  }

  lemma SplitSecond(w: bv32)
    ensures Value(w & 0xFFFFFF) == Value(w & 0xFF0000) + Value(w & 0xFFFF)
  {
  }

  lemma SplitThird(w: bv32)
    ensures Value(w & 0xFFFF) == Value(w & 0xFF00) + Value(w & 0xFF)
  {
  }

  lemma ShiftedByte(b: bv32)
    requires b <= 0xFF
    ensures Value(b << 24) == 16777216 * Value(b)
    ensures Value(b << 16) == 65536 * Value(b)
    ensures Value(b << 8) == 256 * Value(b)
  {
  }

  lemma BytesOfWord(b0: bv32, b1: bv32, b2: bv32, b3: bv32)
    requires b0 <= 0xFF && b1 <= 0xFF && b2 <= 0xFF && b3 <= 0xFF
    ensures var w := (b0 << 24) | (b1 << 16) | (b2 << 8) | b3;
            w & 0xFF000000 == b0 << 24 && w & 0xFF0000 == b1 << 16 && w & 0xFF00 == b2 << 8 && w & 0xFF == b3
  {
  }

  /** The value of a word made of four bytes, the first byte weighing most. */
  lemma WordIs(b0: Byte, b1: Byte, b2: Byte, b3: Byte)
    ensures Be32(b0, b1, b2, b3) as nat ==
            16777216 * b0 as nat + 65536 * b1 as nat + 256 * b2 as nat + b3 as nat
  {
    hide Value;
    OctetFits(b0);
    OctetFits(b1);
    OctetFits(b2);
    OctetFits(b3);
    JoinIs(Octet(b0 as nat), Octet(b1 as nat), Octet(b2 as nat), Octet(b3 as nat));
    ValueIs(Be32(b0, b1, b2, b3));
    hide Octet;
  }

  lemma OctetFits(b: Byte)
    ensures Octet(b as nat) <= 0xFF && Value(Octet(b as nat)) == b as nat
  {
    hide Octet;
    OctetIs(b as nat);
    OctetBounds(b as nat);
  }

  lemma JoinIs(b0: bv32, b1: bv32, b2: bv32, b3: bv32)
    requires b0 <= 0xFF && b1 <= 0xFF && b2 <= 0xFF && b3 <= 0xFF
    ensures Value((b0 << 24) | (b1 << 16) | (b2 << 8) | b3) ==
            16777216 * Value(b0) + 65536 * Value(b1) + 256 * Value(b2) + Value(b3)
  {
    hide Value;
    var w := (b0 << 24) | (b1 << 16) | (b2 << 8) | b3;
    BytesOfWord(b0, b1, b2, b3);
    SplitFirst(w);
    SplitSecond(w);
    SplitThird(w);
    ShiftedByte(b0);
    ShiftedByte(b1);
    ShiftedByte(b2);
  }

  lemma FourBytes(b: seq<Byte>)
    requires |b| == 4
    ensures FromBigEndian(b) == 16777216 * b[0] as nat + 65536 * b[1] as nat + 256 * b[2] as nat + b[3] as nat
  {
    assert b[..3][..2] == b[..2] && b[..2][..1] == b[..1] && b[..1][..0] == [];
    assert FromBigEndian(b[..1]) == b[0] as nat;
    assert FromBigEndian(b[..2]) == 256 * FromBigEndian(b[..1]) + b[1] as nat;
    assert FromBigEndian(b[..3]) == 256 * FromBigEndian(b[..2]) + b[2] as nat;
  }

  /** Every word of a block is the number that its four bytes stand for in big-endian order. */
  lemma WordsAreBigEndian(block: seq<Byte>, i: nat)
    requires |block| == 64 && i < 16
    ensures Words(block)[i] as nat == FromBigEndian(block[4 * i..4 * i + 4])
    ensures Words(block)[i] as nat == 16777216 * block[4 * i] as nat + 65536 * block[4 * i + 1] as nat
                                      + 256 * block[4 * i + 2] as nat + block[4 * i + 3] as nat
  {
    hide Be32, FromBigEndian;
    FourBytes(block[4 * i..4 * i + 4]);
    WordIs(block[4 * i], block[4 * i + 1], block[4 * i + 2], block[4 * i + 3]);
  }

  /** Words for the bytes that the evaluations meet. */
  lemma OctetsAre()
    ensures Octet(0) == 0 && Octet(4) == 4 && Octet(0x18) == 0x18 && Octet(0x80) == 0x80
    ensures Octet(0x61) == 0x61 && Octet(0x62) == 0x62 && Octet(0x63) == 0x63
  {
    assert Octet(1) == 1;
    assert Octet(3) == 3;
    assert Octet(6) == 6;
    assert Octet(12) == 12;
    assert Octet(24) == 24;
    assert Octet(48) == 48;
    assert Octet(49) == 49;
    assert Octet(2) == 2;
    assert Octet(4) == 4;
    assert Octet(8) == 8;
    assert Octet(16) == 16;
    assert Octet(32) == 32;
    assert Octet(64) == 64;
  }
}
