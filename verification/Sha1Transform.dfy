/** Whole-buffer transforms: the scalar one as written, and the per-block contract that the hardware paths keep. */
module Sha1Transform {
  import opened Sha1Spec
  import opened Sha1Rounds

  /** The working variables after all blocks, never folded into the hash value in between. */
  function Chain(s: State, data: seq<Byte>): State
    requires |data| % 64 == 0
    decreases |data|
  {
    if data == [] then s else Chain(Run(s, Words(data[..64]), 80), data[64..])
  }

  /** What the scalar transform leaves in the digest: one fold, after the last block. */
  function ScalarResult(h: State, data: seq<Byte>): State
    requires |data| % 64 == 0
  {
    if data == [] then h else Add(h, Chain(h, data))
  }

  lemma {:induction false} ChainConcat(s: State, x: seq<Byte>, y: seq<Byte>)
    requires |x| % 64 == 0 && |y| % 64 == 0
    ensures Chain(s, x + y) == Chain(Chain(s, x), y)
    decreases |x|
  {
    if x == [] {
      assert x + y == y;
    } else {
      assert (x + y)[..64] == x[..64] && (x + y)[64..] == x[64..] + y;
      ChainConcat(Run(s, Words(x[..64]), 80), x[64..], y);
    }
  }

  /** For at most one block the scalar transform meets the per-block contract. */
  lemma ScalarMeetsContract(h: State, data: seq<Byte>)
    requires |data| == 0 || |data| == 64
    ensures ScalarResult(h, data) == Absorb(h, data)
  {
    if data != [] {
      AbsorbOne(h, data);
      assert data[..64] == data && data[64..] == [];
      assert Chain(h, data) == Chain(Run(h, Words(data), 80), []);
    }
  }

  lemma TwoBlocks(h: State, block: seq<Byte>)
    requires |block| == 64
    ensures var m := Words(block);
            var x := Run(h, m, 80);
            ScalarResult(h, block + block) == Add(h, Run(x, m, 80)) &&
            Absorb(h, block + block) == Add(Add(h, x), Run(Add(h, x), m, 80))
  {
    hide Run, Add, Words;
    var m := Words(block);
    assert block[..64] == block && block[64..] == [];
    ChainConcat(h, block, block);
    AbsorbConcat(h, block, block);
    AbsorbOne(h, block);
    AbsorbOne(Compress(h, m), block);
    assert forall s :: Chain(s, block) == Chain(Run(s, m, 80), []) == Run(s, m, 80);
  }

  function StateOf(digest: array<bv32>): State
    requires digest.Length == 5
    reads digest
  {
    State(digest[0], digest[1], digest[2], digest[3], digest[4])
  }

  /** Copies one 64-byte block into 16 words, each swapped from big-endian order. */
  method LoadBlock(src: seq<Byte>) returns (block: array<bv32>)
    requires |src| == 64
    ensures fresh(block) && block[..] == Words(src)
  {
    hide Be32;
    block := new bv32[16];
    for i := 0 to 16
      invariant forall j :: 0 <= j < i ==> block[j] == Words(src)[j]
    {
      block[i] := Be32(src[4 * i], src[4 * i + 1], src[4 * i + 2], src[4 * i + 3]);
    }
  }

  /** The 80 rounds on one block. */
  method Rounds(src: seq<Byte>, s: State) returns (r: State)
    requires |src| == 64
    ensures r == Run(s, Words(src), 80)
  {
    var block := LoadBlock(src);
    ghost var m := Words(src);
    hide Run, W;
    StartOfRounds(s, m);
    var a, b, c, d, e := Rounds0(block, s.a, s.b, s.c, s.d, s.e, s, m);
    a, b, c, d, e := Rounds20(block, a, b, c, d, e, s, m);
    a, b, c, d, e := Rounds40(block, a, b, c, d, e, s, m);
    a, b, c, d, e := Rounds60(block, a, b, c, d, e, s, m);
    r := State(a, b, c, d, e);
  }

  lemma StartOfRounds(s: State, m: seq<bv32>)
    requires |m| == 16
    ensures Rolling(m, m, 0) && Run(s, m, 0) == s
  {
  }

  /** The scalar transform: the working variables run on from block to block and are added once at the end. */
  method TransformScalar(digest: array<bv32>, src: seq<Byte>, transforms: nat)
    requires digest.Length == 5 && |src| == 64 * transforms
    modifies digest
    ensures StateOf(digest) == ScalarResult(old(StateOf(digest)), src)
  {
    if transforms == 0 {
      assert src == [];
      return;
    }
    hide Run, Words, Add;
    ghost var h := StateOf(digest);
    var s := State(digest[0], digest[1], digest[2], digest[3], digest[4]);
    for n := 0 to transforms
      invariant s == Chain(h, src[..64 * n]) && StateOf(digest) == h
    {
      ghost var w := s;
      var block := src[64 * n..64 * n + 64];
      s := Rounds(block, s);
      assert block[..64] == block && block[64..] == [];
      assert src[..64 * (n + 1)] == src[..64 * n] + block;
      ChainConcat(h, src[..64 * n], block);
      assert Chain(w, block) == Chain(s, []);
    }
    assert src[..64 * transforms] == src;
    AddWords(digest, s);
  }

  method AddWords(digest: array<bv32>, s: State)
    requires digest.Length == 5
    modifies digest
    ensures StateOf(digest) == Add(old(StateOf(digest)), s)
  {
    hide Plus;
    digest[0], digest[1] := Plus(digest[0], s.a), Plus(digest[1], s.b);
    digest[2], digest[3], digest[4] := Plus(digest[2], s.c), Plus(digest[3], s.d), Plus(digest[4], s.e);
  }

  /** The contract of the hardware paths: state saved before each block and added back after it. */
  method TransformHardware(digest: array<bv32>, src: seq<Byte>, transforms: nat)
    requires digest.Length == 5 && |src| == 64 * transforms
    modifies digest
    ensures StateOf(digest) == Absorb(old(StateOf(digest)), src)
  {
    hide Run, Words, Add;
    ghost var h := StateOf(digest);
    for n := 0 to transforms
      invariant StateOf(digest) == Absorb(h, src[..64 * n])
    {
      ghost var before := StateOf(digest);
      var block := src[64 * n..64 * n + 64];
      var s := Rounds(block, State(digest[0], digest[1], digest[2], digest[3], digest[4]));
      AddWords(digest, s);
      assert src[..64 * (n + 1)] == src[..64 * n] + block;
      AbsorbConcat(h, src[..64 * n], block);
      AbsorbOne(before, block);
    }
    assert src[..64 * transforms] == src;
  }
}
