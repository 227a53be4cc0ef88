/** SHA-1 as FIPS 180-4 defines it: word functions, the 80-word schedule, the round, padding and the digest text. */
module Sha1Spec {
  import opened Arithmetic

  newtype Byte = x: int | 0 <= x < 256

  /** The five working variables, or the five words of an intermediate hash value. */
  datatype State = State(a: bv32, b: bv32, c: bv32, d: bv32, e: bv32)

  const INITIAL := State(0x67452301, 0xEFCDAB89, 0x98BADCFE, 0x10325476, 0xC3D2E1F0)

  // Section 4.1.1.
  function Ch(x: bv32, y: bv32, z: bv32): bv32 { (x & y) ^ (!x & z) }
  function Parity(x: bv32, y: bv32, z: bv32): bv32 { x ^ y ^ z }
  function Maj(x: bv32, y: bv32, z: bv32): bv32 { (x & y) ^ (x & z) ^ (y & z) }

  function F(t: nat, x: bv32, y: bv32, z: bv32): bv32 {
    if t < 20 then Ch(x, y, z) else if t < 40 then Parity(x, y, z) else if t < 60 then Maj(x, y, z) else Parity(x, y, z)
  }

  // Section 4.2.1.
  function K(t: nat): bv32 {
    if t < 20 then 0x5A827999 else if t < 40 then 0x6ED9EBA1 else if t < 60 then 0x8F1BBCDC else 0xCA62C1D6
  }

  function Mix(w3: bv32, w8: bv32, w14: bv32, w16: bv32): bv32 {
    (w3 ^ w8 ^ w14 ^ w16).RotateLeft(1)
  }

  function Temp(a: bv32, f: bv32, e: bv32, k: bv32, w: bv32): bv32 {
    a.RotateLeft(5) + f + e + k + w
  }

  function Turn(b: bv32): bv32 {
    b.RotateLeft(30)
  }

  /** The message schedule, section 6.1.2 step 1. */
  function W(m: seq<bv32>, t: nat): bv32
    requires |m| == 16
  {
    if t < 16 then m[t]
    else Mix(W(m, t - 3), W(m, t - 8), W(m, t - 14), W(m, t - 16))
  }

  /** One round, section 6.1.2 step 3. */
  function Round(s: State, t: nat, w: bv32): State {
    State(Temp(s.a, F(t, s.b, s.c, s.d), s.e, K(t), w), s.a, Turn(s.b), s.c, s.d)
  }

  /** The working variables after the first t rounds. */
  function Run(s: State, m: seq<bv32>, t: nat): State
    requires |m| == 16
  {
    if t == 0 then s else Round(Run(s, m, t - 1), t - 1, W(m, t - 1))
  }

  function Plus(x: bv32, y: bv32): bv32 {
    x + y
  }

  function Add(s: State, t: State): State {
    State(Plus(s.a, t.a), Plus(s.b, t.b), Plus(s.c, t.c), Plus(s.d, t.d), Plus(s.e, t.e))
  }

  /** The next intermediate hash value, section 6.1.2 step 4. */
  function Compress(h: State, m: seq<bv32>): State
    requires |m| == 16
  {
    Add(h, Run(h, m, 80))
  }

  /** The lowest bit of a number. */
  function Bit(n: nat): (r: bv32)
    ensures r <= 1
  {
    if n % 2 == 1 then 1 else 0
  }

  function Push(high: bv32, bit: bv32): bv32 {
    (high << 1) | bit
  }

  /** A byte widened to a word, bit by bit. */
  function Octet(n: nat): bv32 {
    if n == 0 then 0 else Push(Octet(n / 2), Bit(n))
  }

  /** A word from four bytes, most significant first (section 3.1). */
  function Be32(b0: Byte, b1: Byte, b2: Byte, b3: Byte): bv32 {
    (Octet(b0 as nat) << 24) | (Octet(b1 as nat) << 16) | (Octet(b2 as nat) << 8) | Octet(b3 as nat)
  }

  function Words(block: seq<Byte>): (m: seq<bv32>)
    requires |block| == 64
    ensures |m| == 16
  {
    seq(16, i requires 0 <= i < 16 => Be32(block[4 * i], block[4 * i + 1], block[4 * i + 2], block[4 * i + 3]))
  }

  /** The hash value after whole blocks. */
  function Absorb(h: State, data: seq<Byte>): State
    requires |data| % 64 == 0
    decreases |data|
  {
    if data == [] then h else Absorb(Compress(h, Words(data[..64])), data[64..])
  }

  lemma {:induction false} AbsorbConcat(h: State, x: seq<Byte>, y: seq<Byte>)
    requires |x| % 64 == 0 && |y| % 64 == 0
    ensures Absorb(h, x + y) == Absorb(Absorb(h, x), y)
    decreases |x|
  {
    if x == [] {
      assert x + y == y;
    } else {
      assert (x + y)[..64] == x[..64] && (x + y)[64..] == x[64..] + y;
      AbsorbConcat(Compress(h, Words(x[..64])), x[64..], y);
    }
  }

  lemma AbsorbOne(h: State, block: seq<Byte>)
    requires |block| == 64
    ensures Absorb(h, block) == Compress(h, Words(block))
  {
    assert block[..64] == block && block[64..] == [];
  }

  function Zeros(n: nat): (z: seq<Byte>)
    ensures |z| == n
  {
    seq(n, _ => 0)
  }

  /** The low k bytes of n, most significant first. */
  function BigEndian(n: nat, k: nat): (b: seq<Byte>)
    ensures |b| == k
  {
    if k == 0 then [] else BigEndian(n / 256, k - 1) + [(n % 256) as Byte]
  }

  /** The number that big-endian bytes stand for. */
  function FromBigEndian(b: seq<Byte>): nat {
    if b == [] then 0 else 256 * FromBigEndian(b[..|b| - 1]) + b[|b| - 1] as nat
  }

  function Pow256(k: nat): (p: nat)
    ensures p > 0
  {
    if k == 0 then 1 else 256 * Pow256(k - 1)
  }

  lemma FromOneMore(b: seq<Byte>, last: Byte)
    ensures FromBigEndian(b + [last]) == 256 * FromBigEndian(b) + last as nat
  {
    assert (b + [last])[..|b|] == b;
  }

  lemma {:induction false} BigEndianRoundTrip(n: nat, k: nat)
    requires n < Pow256(k)
    ensures FromBigEndian(BigEndian(n, k)) == n
  {
    if k > 0 {
      BigEndianRoundTrip(n / 256, k - 1);
      FromOneMore(BigEndian(n / 256, k - 1), (n % 256) as Byte);
      hide FromBigEndian, Pow256;
    }
  }

  lemma EightBytes()
    ensures Pow256(8) == TWO_TO_THE_64
  {
    assert Pow256(4) == 256 * (256 * (256 * (256 * Pow256(0))));
  }

  /** The message length in bits as a 64-bit big-endian number. The standard bounds that length by 2^64. */
  function LengthBytes(msg: seq<Byte>): (b: seq<Byte>)
    ensures |b| == 8
  {
    BigEndian(8 * |msg| % TWO_TO_THE_64, 8)
  }

  /** How many zero bytes section 5.1.1 asks for: the fewest that leave room for exactly 8 more bytes in the last
      block. */
  function ZeroCount(length: nat): (z: nat)
    ensures z < 64 && (length + 1 + z) % 64 == 56
    ensures (length + 1 + z + 8) % 64 == 0
  {
    (119 - length % 64) % 64
  }

  /** Section 5.1.1: a one bit, the zeros, the length in bits. The standard bounds that length by 2^64. */
  function Pad(msg: seq<Byte>): (p: seq<Byte>)
    ensures |p| == |msg| + 1 + ZeroCount(|msg|) + 8 && |p| % 64 == 0
  {
    hide ZeroCount, Zeros, LengthBytes;
    msg + [0x80] + Zeros(ZeroCount(|msg|)) + LengthBytes(msg)
  }

  function Digest(msg: seq<Byte>): State {
    Absorb(INITIAL, Pad(msg))
  }

  lemma LengthRoundTrip(msg: seq<Byte>)
    requires 8 * |msg| < TWO_TO_THE_64
    ensures FromBigEndian(LengthBytes(msg)) == 8 * |msg|
  {
    hide BigEndian, FromBigEndian, Pow256;
    EightBytes();
    assert 8 * |msg| % TWO_TO_THE_64 == 8 * |msg|;
    BigEndianRoundTrip(8 * |msg|, 8);
  }

  lemma PadEnds(msg: seq<Byte>)
    ensures var p := Pad(msg); |msg| + 9 <= |p| && p[..|msg|] == msg && p[|p| - 8..] == LengthBytes(msg)
  {
    hide LengthBytes, Zeros, ZeroCount;
    var start := msg + [0x80] + Zeros(ZeroCount(|msg|));
    assert Pad(msg) == start + LengthBytes(msg);
  }

  /** Padding loses nothing: two messages within the standard's length bound never share a padded form. */
  lemma PadInjective(x: seq<Byte>, y: seq<Byte>)
    requires 8 * |x| < TWO_TO_THE_64 && 8 * |y| < TWO_TO_THE_64
    requires Pad(x) == Pad(y)
    ensures x == y
  {
    var p := Pad(x);
    PadEnds(x);
    PadEnds(y);
    LengthRoundTrip(x);
    LengthRoundTrip(y);
    assert x == p[..|x|] == y;
  }

  const HEX := "0123456789abcdef"

  /** Which character a digit is written as. */
  lemma HexDigitIs(d: nat)
    requires d < 16
    ensures HEX[d] as int == if d < 10 then '0' as int + d else 'a' as int + (d - 10)
  {
  }

  /** The four bits at a shift of 28 - 4 * j. */
  function Shifted(w: bv32, j: nat): bv32
    requires j < 8
  {
    match j {
      case 0 => (w >> 28) & 0xF
      case 1 => (w >> 24) & 0xF
      case 2 => (w >> 20) & 0xF
      case 3 => (w >> 16) & 0xF
      case 4 => (w >> 12) & 0xF
      case 5 => (w >> 8) & 0xF
      case 6 => (w >> 4) & 0xF
      case 7 => w & 0xF
    }
  }

  /** Digit j of a word, counted from the most significant. */
  function Nibble(w: bv32, j: nat): (n: bv4)
    requires j < 8
    ensures n as bv32 == Shifted(w, j)
  {
    Shifted(w, j) as bv4
  }

  function Word(s: State, i: nat): bv32
    requires i < 5
  {
    if i == 0 then s.a else if i == 1 then s.b else if i == 2 then s.c else if i == 3 then s.d else s.e
  }

  /** The 40-digit lowercase text of a digest. */
  function Hex(s: State): (text: string)
    ensures |text| == 40
  {
    seq(40, k requires 0 <= k < 40 => HEX[Nibble(Word(s, k / 8), k % 8) as int])
  }

  lemma NibblesDetermine(v: bv32, w: bv32)
    requires forall j: nat | j < 8 :: Nibble(v, j) == Nibble(w, j)
    ensures v == w
  {
    hide Shifted, Nibble;
    forall j: nat | j < 8
      ensures Shifted(v, j) == Shifted(w, j)
    {
      assert Nibble(v, j) == Nibble(w, j);
    }
    SameBits(v, w);
  }

  /** A word is the sum of its digits. */
  lemma FromDigits(w: bv32)
    ensures w == (((w >> 28) & 0xF) << 28) | (((w >> 24) & 0xF) << 24) | (((w >> 20) & 0xF) << 20)
               | (((w >> 16) & 0xF) << 16)
               | (((w >> 12) & 0xF) << 12) | (((w >> 8) & 0xF) << 8) | (((w >> 4) & 0xF) << 4) | (w & 0xF)
  {
  }

  lemma SameBits(v: bv32, w: bv32)
    requires forall j: nat | j < 8 :: Shifted(v, j) == Shifted(w, j)
    ensures v == w
  {
    assert Shifted(v, 0) == Shifted(w, 0) && Shifted(v, 1) == Shifted(w, 1);
    assert Shifted(v, 2) == Shifted(w, 2) && Shifted(v, 3) == Shifted(w, 3);
    assert Shifted(v, 4) == Shifted(w, 4) && Shifted(v, 5) == Shifted(w, 5);
    assert Shifted(v, 6) == Shifted(w, 6) && Shifted(v, 7) == Shifted(w, 7);
    FromDigits(v);
    FromDigits(w);
  }

  lemma HexDigitsDiffer(x: bv4, y: bv4)
    requires HEX[x as int] == HEX[y as int]
    ensures x == y
  {
  }

  lemma HexAt(s: State, i: nat, j: nat)
    requires i < 5 && j < 8
    ensures Hex(s)[8 * i + j] == HEX[Nibble(Word(s, i), j) as int]
  {
    var k := 8 * i + j;
    assert k / 8 == i && k % 8 == j;
  }

  lemma WordsDetermine(s: State, t: State)
    requires forall i: nat | i < 5 :: Word(s, i) == Word(t, i)
    ensures s == t
  {
    assert Word(s, 0) == Word(t, 0) && Word(s, 1) == Word(t, 1) && Word(s, 2) == Word(t, 2);
    assert Word(s, 3) == Word(t, 3) && Word(s, 4) == Word(t, 4);
  }

  /** The text determines the digest. */
  lemma HexInjective(s: State, t: State)
    requires Hex(s) == Hex(t)
    ensures s == t
  {
    hide Word, Nibble;
    forall i: nat | i < 5
      ensures Word(s, i) == Word(t, i)
    {
      forall j: nat | j < 8
        ensures Nibble(Word(s, i), j) == Nibble(Word(t, i), j)
      {
        HexAt(s, i, j);
        HexAt(t, i, j);
        HexDigitsDiffer(Nibble(Word(s, i), j), Nibble(Word(t, i), j));
      }
      NibblesDetermine(Word(s, i), Word(t, i));
    }
    WordsDetermine(s, t);
  }
}
