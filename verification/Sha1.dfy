/** The streaming hash object: a 64-byte buffer topped up, bypassed or filled, and padded in place at the end. */
module Sha1 {
  import opened Arithmetic
  import opened Sha1Spec
  import opened Sha1Transform

  /** Whole blocks that one update passes to the transform straight from its input. */
  function DirectBlocks(tail: nat, count: nat): nat {
    if tail == 0 then count / 64
    else if count < 64 - tail then 0
    else (count - (64 - tail)) / 64
  }

  /** The text of the digest of a whole message. */
  function HexDigest(msg: seq<Byte>): string {
    Hex(Digest(msg))
  }

  /** What one transform leaves in the digest, with the processor's SHA instructions or without. */
  function Transformed(hardware: bool, s: State, data: seq<Byte>): State
    requires |data| % 64 == 0
  {
    if hardware then Absorb(s, data) else ScalarResult(s, data)
  }

  lemma TransformedNothing(hardware: bool, s: State)
    ensures Transformed(hardware, s, []) == s
  {
  }

  /** Bytes that an update puts behind a started block. */
  function TopUpSize(tail: nat, count: nat): (used: nat)
    requires tail < 64
    ensures used <= count && tail + used <= 64
  {
    if tail == 0 then 0 else if count < 64 - tail then count else 64 - tail
  }

  lemma DirectIs(tail: nat, count: nat)
    requires tail < 64
    ensures DirectBlocks(tail, count) == (count - TopUpSize(tail, count)) / 64
  {
  }

  lemma RestFits(count: nat)
    ensures count - count / 64 * 64 < 64
  {
  }

  function ToppedUp(s: State, tail: seq<Byte>, src: seq<Byte>): State
    requires |tail| < 64
  {
    var used := TopUpSize(|tail|, |src|);
    if |tail| + used < 64 then s else Absorb(s, tail + src[..used])
  }

  /** The digest words after an update: the completed block, then all further whole blocks in one transform. */
  function Fed(hardware: bool, s: State, tail: seq<Byte>, src: seq<Byte>): State
    requires |tail| < 64
  {
    Transformed(hardware, ToppedUp(s, tail, src), Whole(src[TopUpSize(|tail|, |src|)..]))
  }

  /** The part of the padded message that follows its whole blocks. */
  function PadTail(msg: seq<Byte>): (p: seq<Byte>)
    ensures |p| % 64 == 0
  {
    Pad(msg)[|msg| - |msg| % 64..]
  }

  /** The text that one-shot hashing returns. */
  function FromResult(hardware: bool, data: seq<Byte>): string {
    Hex(Absorb(Transformed(hardware, INITIAL, Whole(data)), PadTail(data)))
  }

  /** With nothing pending, an update is one transform of its whole blocks. */
  lemma FedFresh(hardware: bool, s: State, src: seq<Byte>)
    ensures Fed(hardware, s, [], src) == Transformed(hardware, s, Whole(src))
    ensures Fed(hardware, s, [], []) == s
  {
    assert src[0..] == src;
    hide Absorb, ScalarResult;
    TransformedNothing(hardware, s);
  }

  /** Arithmetic on 64-bit counters. */
  function Wrap64(n: nat): nat {
    n % TWO_TO_THE_64
  }

  lemma WrapPlus(a: nat, b: nat)
    ensures Wrap64(Wrap64(a) + b) == Wrap64(a + b)
  {
  }

  lemma WrapTimesEight(b: nat)
    ensures Wrap64(8 * Wrap64(b)) == Wrap64(8 * b)
  {
    WrapPlus(b, b);
    WrapPlus(b, Wrap64(b));
    WrapTwice(b);
    WrapTwice(2 * b);
    WrapTwice(4 * b);
    WrapTwice(Wrap64(b));
    WrapTwice(2 * Wrap64(b));
    WrapTwice(4 * Wrap64(b));
    hide Wrap64;
  }

  lemma WrapTwice(b: nat)
    ensures Wrap64(2 * b) == Wrap64(2 * Wrap64(b))
  {
    WrapPlus(b, b);
    WrapPlus(b, Wrap64(b));
    hide Wrap64;
  }

  /** The part of a message that makes up whole blocks, and what is left. */
  function Whole(msg: seq<Byte>): (w: seq<Byte>)
    ensures |w| % 64 == 0
  {
    msg[..|msg| - |msg| % 64]
  }

  function Tail(msg: seq<Byte>): (t: seq<Byte>)
    ensures |t| == |msg| % 64
  {
    msg[|msg| - |msg| % 64..]
  }

  lemma GrowTail(msg: seq<Byte>, chunk: seq<Byte>)
    requires |Tail(msg)| + |chunk| < 64
    ensures Whole(msg + chunk) == Whole(msg) && Tail(msg + chunk) == Tail(msg) + chunk
  {
    var all := msg + chunk;
    assert |all| % 64 == |msg| % 64 + |chunk|;
  }

  lemma CompleteBlocks(msg: seq<Byte>, chunk: seq<Byte>)
    requires (|Tail(msg)| + |chunk|) % 64 == 0
    ensures Whole(msg + chunk) == Whole(msg) + (Tail(msg) + chunk) && Tail(msg + chunk) == []
  {
    var all := msg + chunk;
    assert |all| % 64 == 0;
  }

  /** The tail, its end mark and its zeros, when the length still fits behind them. */
  lemma ShortTail(msg: seq<Byte>)
    requires |Tail(msg)| <= 55
    ensures Pad(msg) == Whole(msg) + (Tail(msg) + [0x80] + Zeros(55 - |Tail(msg)|) + LengthBytes(msg))
  {
    hide LengthBytes, Zeros;
    assert msg == Whole(msg) + Tail(msg);
    hide Whole, Tail;
  }

  /** The same when the length needs a block of its own. */
  lemma LongTail(msg: seq<Byte>)
    requires |Tail(msg)| >= 56
    ensures Pad(msg) == Whole(msg) + (Tail(msg) + [0x80] + Zeros(63 - |Tail(msg)|)) + (Zeros(56) + LengthBytes(msg))
  {
    hide LengthBytes;
    assert Zeros(119 - |Tail(msg)|) == Zeros(63 - |Tail(msg)|) + Zeros(56);
    hide Zeros;
    assert msg == Whole(msg) + Tail(msg);
    hide Whole, Tail;
  }

  /** What the object's fields hold after `msg`: the unfinished block, the bytes hashed so far in a 64-bit
      counter and, as long as every transform was exact, the hash value of the finished blocks. */
  ghost predicate Holds(msg: seq<Byte>, buffer: seq<Byte>, tail: nat, hashBytes: nat, exact: bool, s: State) {
    |buffer| == 64 && tail == |Tail(msg)| && buffer[..tail] == Tail(msg) &&
    hashBytes == Wrap64(|Whole(msg)|) &&
    (exact ==> s == Absorb(INITIAL, Whole(msg)))
  }

  lemma HoldsNothing(buffer: seq<Byte>)
    requires |buffer| == 64
    ensures Holds([], buffer, 0, 0, true, INITIAL)
  {
  }

  /** Bytes copied behind the tail without completing the block. */
  lemma HoldsPartial(msg: seq<Byte>, buffer: seq<Byte>, tail: nat, hashBytes: nat, exact: bool, s: State,
                     chunk: seq<Byte>, next: seq<Byte>)
    requires Holds(msg, buffer, tail, hashBytes, exact, s) && tail + |chunk| < 64
    requires next == buffer[..tail] + chunk + buffer[tail + |chunk|..]
    ensures Holds(msg + chunk, next, tail + |chunk|, hashBytes, exact, s)
  {
    hide Absorb, Whole, Tail, Wrap64;
    GrowTail(msg, chunk);
  }

  /** Bytes that complete the block, which is then hashed. */
  lemma HoldsWhole(msg: seq<Byte>, buffer: seq<Byte>, tail: nat, hashBytes: nat, exact: bool, s: State,
                   chunk: seq<Byte>, next: seq<Byte>)
    requires Holds(msg, buffer, tail, hashBytes, exact, s) && tail + |chunk| == 64
    requires next == buffer[..tail] + chunk
    ensures Holds(msg + chunk, next, 0, Wrap64(hashBytes + 64), exact, Absorb(s, next))
  {
    hide Absorb, Whole, Tail, Wrap64;
    CompleteBlocks(msg, chunk);
    WrapPlus(|Whole(msg)|, 64);
    AbsorbConcat(INITIAL, Whole(msg), next);
  }

  /** Whole blocks hashed straight from the input. */
  lemma HoldsDirect(msg: seq<Byte>, buffer: seq<Byte>, hashBytes: nat, exact: bool, s: State,
                    chunk: seq<Byte>, exact': bool, s': State)
    requires Holds(msg, buffer, 0, hashBytes, exact, s) && |chunk| % 64 == 0
    requires exact' ==> exact && s' == Absorb(s, chunk)
    ensures Holds(msg + chunk, buffer, 0, Wrap64(hashBytes + |chunk|), exact', s')
  {
    hide Absorb, Whole, Tail, Wrap64;
    CompleteBlocks(msg, chunk);
    assert Tail(msg) + chunk == chunk;
    WrapPlus(|Whole(msg)|, |chunk|);
    AbsorbConcat(INITIAL, Whole(msg), chunk);
  }

  /** The counter and the tail give the length in bits, modulo 2^64. */
  lemma LengthIs(msg: seq<Byte>, buffer: seq<Byte>, tail: nat, hashBytes: nat, exact: bool, s: State)
    requires Holds(msg, buffer, tail, hashBytes, exact, s)
    ensures BigEndian(Wrap64(8 * Wrap64(hashBytes + tail)), 8) == LengthBytes(msg)
  {
    WrapPlus(|Whole(msg)|, tail);
    WrapTimesEight(|msg|);
    assert |Whole(msg)| + tail == |msg|;
    assert LengthBytes(msg) == BigEndian(Wrap64(8 * |msg|), 8);
    hide BigEndian, Absorb, Wrap64, LengthBytes;
  }

  lemma TailIs(msg: seq<Byte>, buffer: seq<Byte>, tail: nat, hashBytes: nat, exact: bool, s: State)
    requires Holds(msg, buffer, tail, hashBytes, exact, s)
    ensures tail == |Tail(msg)| < 64 == |buffer| && buffer[..tail] == Tail(msg)
    ensures exact ==> s == Absorb(INITIAL, Whole(msg))
  {
    hide Absorb;
  }

  /** The padded last block, when it is one. */
  lemma FinalOneBlock(msg: seq<Byte>, first: seq<Byte>, last: seq<Byte>)
    requires |Tail(msg)| < 56 && first == Tail(msg) + [0x80] + Zeros(63 - |Tail(msg)|)
    requires last == first[..56] + LengthBytes(msg)
    ensures PadTail(msg) == last
  {
    hide LengthBytes, Pad, Tail;
    assert first[..56] == Tail(msg) + [0x80] + Zeros(55 - |Tail(msg)|);
    ShortTail(msg);
  }

  /** The padded last blocks, when they are two. */
  lemma FinalTwoBlocks(msg: seq<Byte>, s: State, first: seq<Byte>, last: seq<Byte>)
    requires |Tail(msg)| >= 56 && first == Tail(msg) + [0x80] + Zeros(63 - |Tail(msg)|)
    requires last == Zeros(56) + LengthBytes(msg)
    ensures Absorb(s, PadTail(msg)) == Absorb(Absorb(s, first), last)
  {
    hide Absorb, LengthBytes, Pad, Zeros, Tail;
    LongTail(msg);
    assert PadTail(msg) == first + last;
    AbsorbConcat(s, first, last);
  }

  /** Absorbing the whole blocks and then the padded tail is hashing the message. */
  lemma DigestByTail(msg: seq<Byte>)
    ensures Digest(msg) == Absorb(Absorb(INITIAL, Whole(msg)), PadTail(msg))
  {
    PadEnds(msg);
    assert Pad(msg)[..|msg| - |msg| % 64] == Whole(msg);
    assert Pad(msg) == Whole(msg) + PadTail(msg);
    hide Absorb, Pad, Whole, PadTail;
    AbsorbConcat(INITIAL, Whole(msg), PadTail(msg));
  }

  /** One-shot hashing is right with hardware support, and without it for messages of less than two blocks. */
  lemma FromIsDigest(hardware: bool, data: seq<Byte>)
    requires hardware || |data| < 128
    ensures FromResult(hardware, data) == HexDigest(data)
  {
    hide Absorb, Hex, PadTail, ScalarResult, Digest;
    DigestByTail(data);
    if !hardware {
      ScalarMeetsContract(INITIAL, Whole(data));
    }
  }

  class Sha1 {
    /** Whether the processor's SHA instructions are used. */
    const hardware: bool
    const buffer: array<Byte>
    const digest: array<bv32>
    var tailSize: nat
    var hashBytes: nat
    /** Everything fed in since the last reset. */
    ghost var msg: seq<Byte>
    /** Whether every transform so far met the per-block contract. */
    ghost var exact: bool

    ghost predicate Shaped() {
      buffer.Length == 64 && digest.Length == 5 && buffer as object != digest as object
    }

    ghost predicate Valid()
      reads this, buffer, digest
    {
      Shaped() && tailSize < 64 && Holds(msg, buffer[..], tailSize, hashBytes, exact, StateOf(digest))
    }

    lemma MessageTail()
      requires Valid()
      ensures tailSize == |msg| % 64
    {
    }

    /** The buffer holds the message's unfinished block. */
    lemma Pending()
      requires Valid()
      ensures tailSize == |Tail(msg)| && buffer[..tailSize] == Tail(msg)
    {
      assert buffer[..tailSize] == buffer[..][..tailSize];
    }

    constructor (hardware: bool)
      ensures Valid() && msg == [] && exact && this.hardware == hardware
      ensures tailSize == 0 && StateOf(digest) == INITIAL
      ensures fresh(buffer) && fresh(digest)
    {
      this.hardware := hardware;
      buffer, digest := new Byte[64], new bv32[5];
      tailSize, hashBytes, msg, exact := 0, 0, [], true;
      new;
      Reset();
    }

    method Reset()
      requires Shaped()
      modifies this, buffer, digest
      ensures Valid() && msg == [] && exact && tailSize == 0 && StateOf(digest) == INITIAL
    {
      hide Holds;
      digest[0], digest[1], digest[2] := 0x67452301, 0xEFCDAB89, 0x98BADCFE;
      digest[3], digest[4] := 0x10325476, 0xC3D2E1F0;
      ZeroBuffer(0, 64);
      hashBytes, tailSize := 0, 0;
      msg, exact := [], true;
      HoldsNothing(buffer[..]);
    }

    method ZeroBuffer(from: nat, to: nat)
      requires from <= to <= buffer.Length
      modifies buffer
      ensures forall i :: 0 <= i < buffer.Length ==> buffer[i] == if from <= i < to then 0 else old(buffer[i])
    {
      forall i | from <= i < to {
        buffer[i] := 0;
      }
    }

    method CopyToBuffer(at: nat, src: seq<Byte>)
      requires at + |src| <= buffer.Length
      modifies buffer
      ensures buffer[..] == old(buffer[..at]) + src + old(buffer[at + |src|..])
    {
      forall i | 0 <= i < |src| {
        buffer[at + i] := src[i];
      }
    }

    /** Hardware when available, scalar otherwise. */
    method Transform(src: seq<Byte>, transforms: nat)
      requires digest.Length == 5 && |src| == 64 * transforms
      modifies digest
      ensures StateOf(digest) == Transformed(hardware, old(StateOf(digest)), src)
      ensures hardware || transforms <= 1 ==> StateOf(digest) == Absorb(old(StateOf(digest)), src)
    {
      hide Absorb, ScalarResult;
      ghost var h := StateOf(digest);
      if hardware {
        TransformHardware(digest, src, transforms);
      } else {
        TransformScalar(digest, src, transforms);
        if transforms <= 1 {
          ScalarMeetsContract(h, src);
        }
      }
    }

    /** First phase of an update: fill up a started block, and hash it once it is whole. */
    method TopUp(src: seq<Byte>) returns (used: nat)
      requires Valid()
      modifies this, buffer, digest
      ensures Valid() && used <= |src| && msg == old(msg) + src[..used] && exact == old(exact)
      ensures tailSize == 0 || used == |src|
      ensures used == TopUpSize(old(tailSize), |src|)
      ensures StateOf(digest) == ToppedUp(old(StateOf(digest)), old(buffer[..tailSize]), src)
    {
      hide Absorb, ScalarResult, Holds, StateOf, Wrap64;
      used := 0;
      ghost var was, s := buffer[..], StateOf(digest);
      if tailSize > 0 {
        var remaining := 64 - tailSize;
        used := if |src| < remaining then |src| else remaining;
        CopyToBuffer(tailSize, src[..used]);
        if tailSize + used < 64 {
          HoldsPartial(msg, was, tailSize, hashBytes, exact, s, src[..used], buffer[..]);
        } else {
          assert buffer[..] == was[..tailSize] + src[..used];
          HoldsWhole(msg, was, tailSize, hashBytes, exact, s, src[..used], buffer[..]);
        }
        tailSize := tailSize + used;
        msg := msg + src[..used];
        if tailSize == 64 {
          Transform(buffer[..], 1);
          tailSize := 0;
          hashBytes := Wrap64(hashBytes + 64);
        }
      } else {
        assert msg + src[..0] == msg;
      }
    }

    /** Second phase: whole blocks go to the transform without being copied. */
    method HashDirectly(src: seq<Byte>) returns (used: nat)
      requires Valid() && (tailSize == 0 || src == [])
      modifies this, digest
      ensures Valid() && used == |src| / 64 * 64 && msg == old(msg) + src[..used]
      ensures exact == (old(exact) && (hardware || |src| / 64 <= 1)) && tailSize == old(tailSize)
      ensures StateOf(digest) == Transformed(hardware, old(StateOf(digest)), Whole(src))
    {
      hide Absorb, ScalarResult, Holds, StateOf, Wrap64;
      used := 0;
      var blocks := |src| / 64;
      if blocks != 0 {
        used := blocks * 64;
        ghost var s := StateOf(digest);
        assert src[..used] == Whole(src);
        Transform(src[..used], blocks);
        ghost var stillExact := exact && (hardware || blocks <= 1);
        HoldsDirect(msg, buffer[..], hashBytes, exact, s, src[..used], stillExact, StateOf(digest));
        msg, exact := msg + src[..used], stillExact;
        hashBytes := Wrap64(hashBytes + used);
      } else {
        assert msg + src[..0] == msg && Whole(src) == [];
        TransformedNothing(hardware, StateOf(digest));
      }
    }

    /** Third phase: a partial block is kept for later. */
    method Stash(src: seq<Byte>)
      requires Valid() && |src| < 64 && (tailSize == 0 || src == [])
      modifies this, buffer
      ensures Valid() && msg == old(msg) + src && exact == old(exact)
    {
      hide Absorb, Holds, StateOf;
      if |src| > 0 {
        ghost var was := buffer[..];
        CopyToBuffer(0, src);
        HoldsPartial(msg, was, 0, hashBytes, exact, StateOf(digest), src, buffer[..]);
        tailSize := |src|;
        msg := msg + src;
      } else {
        assert msg + src == msg;
      }
    }

    /** Feeds bytes in. The digest words are stated for every input; they stay those of the standard unless the
        scalar path is handed two or more blocks at once. */
    method Update(src: seq<Byte>)
      requires Valid()
      modifies this, buffer, digest
      ensures Valid() && msg == old(msg) + src
      ensures exact == (old(exact) && (hardware || DirectBlocks(old(tailSize), |src|) <= 1))
      ensures StateOf(digest) == Fed(hardware, old(StateOf(digest)), old(buffer[..tailSize]), src)
    {
      hide Absorb, Holds, StateOf, Transformed, ToppedUp, TopUpSize, Whole, DirectBlocks;
      DirectIs(tailSize, |src|);
      var used := TopUp(src);
      var rest := src[used..];
      var direct := HashDirectly(rest);
      RestFits(|rest|);
      Stash(rest[direct..]);
      assert src == src[..used] + rest[..direct] + rest[direct..];
    }

    /** Pads in place, hashes the last one or two blocks, returns the digest text and starts afresh. */
    method Final() returns (text: string)
      requires Valid()
      modifies this, buffer, digest
      ensures text == Hex(Absorb(old(StateOf(digest)), PadTail(old(msg))))
      ensures old(exact) ==> text == HexDigest(old(msg))
      ensures Valid() && msg == [] && exact
    {
      hide Absorb, ScalarResult, LengthBytes, BigEndian, Hex, Holds, StateOf, Pad, Wrap64, Whole, Tail;
      ghost var was, s, tail := buffer[..], StateOf(digest), tailSize;
      LengthIs(msg, was, tail, hashBytes, exact, s);
      TailIs(msg, was, tail, hashBytes, exact, s);
      var totalHashedBits := Wrap64(8 * Wrap64(hashBytes + tailSize));
      buffer[tailSize] := 0x80;
      tailSize := tailSize + 1;
      ZeroBuffer(tailSize, 64);
      ghost var first := buffer[..];
      assert first == was[..tail] + [0x80] + Zeros(63 - tail);
      if tailSize > 64 - 8 {
        Transform(buffer[..], 1);
        ZeroBuffer(0, 64 - 8);
        assert buffer[..56] == Zeros(56);
      }
      CopyToBuffer(56, BigEndian(totalHashedBits, 8));
      ghost var last := buffer[..];
      Transform(buffer[..], 1);
      if tail >= 56 {
        FinalTwoBlocks(msg, s, first, last);
      } else {
        FinalOneBlock(msg, first, last);
      }
      DigestByTail(msg);
      text := Text();
      Reset();
    }

    /** The digest as 40 hexadecimal digits. */
    method Text() returns (text: string)
      requires digest.Length == 5
      ensures text == Hex(StateOf(digest))
    {
      hide Nibble, Hex;
      ghost var s := StateOf(digest);
      var result := new char[40](_ => '\0');
      for i := 0 to 5
        invariant forall k :: 0 <= k < 8 * i ==> result[k] == Hex(s)[k]
        modifies result
      {
        var word := digest[i];
        assert word == Word(s, i);
        hide Word;
        for j := 0 to 8
          invariant forall k :: 0 <= k < 8 * i + j ==> result[k] == Hex(s)[k]
        {
          HexAt(s, i, j);
          result[i * 8 + j] := HEX[Nibble(word, j) as int];
        }
      }
      text := result[..];
    }

    /** One-shot hashing. */
    static method From(hardware: bool, data: seq<Byte>) returns (text: string)
      ensures text == FromResult(hardware, data)
    {
      hide Absorb, Hex, PadTail, Holds;
      var checksum := new Sha1(hardware);
      checksum.Update(data);
      assert [] + data == data && data[0..] == data && checksum.msg == data;
      text := checksum.Final();
    }
  }

  function Flatten(chunks: seq<seq<Byte>>): seq<Byte> {
    if chunks == [] then [] else Flatten(chunks[..|chunks| - 1]) + chunks[|chunks| - 1]
  }

  /** The digest words after a message fed in pieces. */
  function PiecesState(hardware: bool, chunks: seq<seq<Byte>>): State {
    if chunks == [] then INITIAL
    else
      var before := chunks[..|chunks| - 1];
      Fed(hardware, PiecesState(hardware, before), Tail(Flatten(before)), chunks[|chunks| - 1])
  }

  /** The text that hashing in pieces returns. */
  function PiecesResult(hardware: bool, chunks: seq<seq<Byte>>): string {
    Hex(Absorb(PiecesState(hardware, chunks), PadTail(Flatten(chunks))))
  }

  /** No piece hands more than `limit` blocks to one transform. */
  ghost predicate DirectWithin(chunks: seq<seq<Byte>>, limit: nat) {
    forall i :: 0 <= i < |chunks| ==> DirectBlocks(|Flatten(chunks[..i])| % 64, |chunks[i]|) <= limit
  }

  lemma TransformIsExact(hardware: bool, s: State, data: seq<Byte>)
    requires |data| % 64 == 0 && (hardware || |data| <= 64)
    ensures Transformed(hardware, s, data) == Absorb(s, data)
  {
    if !hardware {
      ScalarMeetsContract(s, data);
    }
    hide Absorb, ScalarResult;
  }

  /** Whole blocks fed behind whole blocks. */
  lemma WholeOfBoth(msg: seq<Byte>, src: seq<Byte>)
    requires Tail(msg) == []
    ensures Whole(msg + src) == msg + Whole(src) && Whole(msg) == msg
  {
    assert msg + src == msg + Whole(src) + Tail(src);
    assert |msg + src| % 64 == |src| % 64;
  }

  lemma TopUpIsExact(msg: seq<Byte>, src: seq<Byte>)
    ensures ToppedUp(Absorb(INITIAL, Whole(msg)), Tail(msg), src) ==
            Absorb(INITIAL, Whole(msg + src[..TopUpSize(|Tail(msg)|, |src|)]))
  {
    var used := TopUpSize(|Tail(msg)|, |src|);
    if |Tail(msg)| + used < 64 {
      GrowTail(msg, src[..used]);
    } else {
      CompleteBlocks(msg, src[..used]);
      AbsorbConcat(INITIAL, Whole(msg), Tail(msg) + src[..used]);
    }
    hide Absorb, Whole, Tail, TopUpSize;
  }

  /** An update is exact when its transforms are. */
  lemma FedIsExact(hardware: bool, msg: seq<Byte>, src: seq<Byte>)
    requires hardware || DirectBlocks(|Tail(msg)|, |src|) <= 1
    ensures Fed(hardware, Absorb(INITIAL, Whole(msg)), Tail(msg), src) == Absorb(INITIAL, Whole(msg + src))
  {
    var used := TopUpSize(|Tail(msg)|, |src|);
    var next, rest := msg + src[..used], src[used..];
    assert msg + src == next + rest;
    TopUpIsExact(msg, src);
    assert rest != [] ==> Tail(next) == [] by {
      if rest != [] && |Tail(msg)| > 0 {
        CompleteBlocks(msg, src[..used]);
      }
    }
    assert |Whole(rest)| / 64 <= DirectBlocks(|Tail(msg)|, |src|);
    TransformIsExact(hardware, Absorb(INITIAL, Whole(next)), Whole(rest));
    if rest == [] {
      assert next + rest == next;
    } else {
      WholeOfBoth(next, rest);
      AbsorbConcat(INITIAL, next, Whole(rest));
    }
    hide Absorb, Whole, Tail, TopUpSize, ToppedUp, Transformed;
  }

  lemma {:induction false} PiecesAreExact(hardware: bool, chunks: seq<seq<Byte>>)
    requires hardware || DirectWithin(chunks, 1)
    ensures PiecesState(hardware, chunks) == Absorb(INITIAL, Whole(Flatten(chunks)))
  {
    if chunks == [] {
      assert Whole([]) == [];
    } else {
      var before := chunks[..|chunks| - 1];
      assert forall i :: 0 <= i < |before| ==> before[..i] == chunks[..i];
      PiecesAreExact(hardware, before);
      FedIsExact(hardware, Flatten(before), chunks[|chunks| - 1]);
      hide Absorb, Whole, Tail, Fed;
    }
  }

  /** Hashing in pieces is right with hardware support, and without it as long as no piece hands two or more blocks to
      one transform. */
  lemma PiecesAreDigest(hardware: bool, chunks: seq<seq<Byte>>)
    requires hardware || DirectWithin(chunks, 1)
    ensures PiecesResult(hardware, chunks) == HexDigest(Flatten(chunks))
  {
    PiecesAreExact(hardware, chunks);
    DigestByTail(Flatten(chunks));
    hide Absorb, Hex, PadTail, Whole, Digest, PiecesState;
  }

  lemma PiecesStep(hardware: bool, chunks: seq<seq<Byte>>, n: nat)
    requires n < |chunks|
    ensures PiecesState(hardware, chunks[..n + 1]) ==
            Fed(hardware, PiecesState(hardware, chunks[..n]), Tail(Flatten(chunks[..n])), chunks[n])
    ensures Flatten(chunks[..n + 1]) == Flatten(chunks[..n]) + chunks[n]
  {
    assert chunks[..n + 1][..n] == chunks[..n];
    hide Fed, Tail;
  }

  /** However a message is split over updates: the text for every split, and that of the digest of the whole message
      whenever the transforms are exact. */
  method HashInPieces(hardware: bool, chunks: seq<seq<Byte>>) returns (text: string)
    ensures text == PiecesResult(hardware, chunks)
    ensures hardware || DirectWithin(chunks, 1) ==> text == HexDigest(Flatten(chunks))
  {
    hide Holds, HexDigest, Hex, Absorb, StateOf, Fed, PadTail, Flatten, PiecesState, Whole, Tail, DirectBlocks;
    var checksum := new Sha1(hardware);
    FlattenNothing(hardware, chunks[..0]);
    for n := 0 to |chunks|
      invariant checksum.Valid() && checksum.hardware == hardware && checksum.msg == Flatten(chunks[..n])
      invariant fresh(checksum) && fresh(checksum.buffer) && fresh(checksum.digest)
      invariant StateOf(checksum.digest) == PiecesState(hardware, chunks[..n])
    {
      checksum.Pending();
      PiecesStep(hardware, chunks, n);
      checksum.Update(chunks[n]);
    }
    assert chunks[..|chunks|] == chunks;
    text := checksum.Final();
    if hardware || DirectWithin(chunks, 1) {
      PiecesAreDigest(hardware, chunks);
    }
  }

  lemma FlattenNothing(hardware: bool, chunks: seq<seq<Byte>>)
    requires chunks == []
    ensures Flatten(chunks) == [] && PiecesState(hardware, chunks) == INITIAL
  {
  }
}
