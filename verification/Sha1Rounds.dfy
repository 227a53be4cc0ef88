/** The scalar compression: five round operations on a circular 16-word schedule, called 80 times with
    the register names rotated. */
module Sha1Rounds {
  import opened Arithmetic
  import opened Sha1Spec

  /** The choice function as R0 and R1 write it, and the majority function as R3 writes it. */
  function ChForm(w: bv32, x: bv32, y: bv32): bv32 { (w & (x ^ y)) ^ y }
  function MajForm(w: bv32, x: bv32, y: bv32): bv32 { ((w | x) & y) | (w & x) }

  /** What a round operation adds to the register z. */
  function Accumulate(z: bv32, f: bv32, word: bv32, k: bv32, v: bv32): bv32 {
    z + (f + word + k + v.RotateLeft(5))
  }

  /** The rewritten forms and the reordered sum are the standard's. */
  lemma RewrittenChoice(w: bv32, x: bv32, y: bv32)
    ensures ChForm(w, x, y) == Ch(w, x, y)
  {
    assert (w & (x ^ y)) ^ y == (w & x) ^ (!w & y);
  }

  lemma RewrittenMajority(w: bv32, x: bv32, y: bv32)
    ensures MajForm(w, x, y) == Maj(w, x, y)
  {
    assert ((w | x) & y) | (w & x) == (w & x) ^ (w & y) ^ (x & y);
  }

  lemma ReorderedSum(z: bv32, f: bv32, word: bv32, k: bv32, v: bv32)
    ensures Accumulate(z, f, word, k, v) == Temp(v, f, z, k, word)
  {
  }

  /** Before round t the circular block holds the 16 most recent schedule words, word u in slot u % 16. */
  ghost predicate Rolling(block: seq<bv32>, m: seq<bv32>, t: nat)
    requires |m| == 16
  {
    |block| == 16 &&
    forall u: nat | (if t < 16 then 0 else t - 16) <= u < (if t < 16 then 16 else t) :: block[u % 16] == W(m, u)
  }

  function BlockMix(block: seq<bv32>, i: nat): bv32
    requires |block| == 16
  {
    Mix(block[(i + 0xD) % 16], block[(i + 0x8) % 16], block[(i + 0x2) % 16], block[i % 16])
  }

  /** Mixing slot t % 16 produces the next schedule word: the four slots read hold the words 3, 8, 14 and 16 back. */
  lemma MixIsWord(block: seq<bv32>, m: seq<bv32>, t: nat)
    requires |m| == 16 && t >= 16 && Rolling(block, m, t)
    ensures BlockMix(block, t % 16) == W(m, t)
  {
    hide Mix, W, Rolling;
    ScheduleStep(m, t);
    SlotNumbers(t);
    Slot(block, m, t, t - 3);
    Slot(block, m, t, t - 8);
    Slot(block, m, t, t - 14);
    Slot(block, m, t, t - 16);
  }

  /** k slots back around the circle is 16 - k slots on. */
  lemma SlotBack(t: nat, k: nat)
    requires k <= 16 <= t
    ensures (t % 16 + (16 - k)) % 16 == (t - k) % 16
  {
    var on := t % 16 + (16 - k);
    DivUnique(t - k, t / 16 - 1 + on / 16, on % 16, 16);
  }

  lemma SlotNumbers(t: nat)
    requires t >= 16
    ensures (t % 16 + 0xD) % 16 == (t - 3) % 16
    ensures (t % 16 + 0x8) % 16 == (t - 8) % 16
    ensures (t % 16 + 0x2) % 16 == (t - 14) % 16
    ensures t % 16 % 16 == (t - 16) % 16
  {
    SlotBack(t, 3);
    SlotBack(t, 8);
    SlotBack(t, 14);
    SlotBack(t, 16);
  }

  lemma Slot(block: seq<bv32>, m: seq<bv32>, t: nat, u: nat)
    requires |m| == 16 && 16 <= t && t - 16 <= u < t && Rolling(block, m, t)
    ensures |block| == 16 && block[u % 16] == W(m, u)
  {
    hide W;
  }

  lemma ScheduleStep(m: seq<bv32>, t: nat)
    requires |m| == 16 && t >= 16
    ensures W(m, t) == Mix(W(m, t - 3), W(m, t - 8), W(m, t - 14), W(m, t - 16))
  {
  }

  /** Storing it there overwrites the one word that the window no longer needs. */
  lemma WindowMoves(block: seq<bv32>, m: seq<bv32>, t: nat)
    requires |m| == 16 && t >= 16 && Rolling(block, m, t)
    ensures Rolling(block[t % 16 := W(m, t)], m, t + 1)
  {
    hide W;
  }

  /** One round of the standard, read through the rotated register names. */
  lemma RoundByNames(s: State, m: seq<bv32>, t: nat, v: bv32, w: bv32, x: bv32, y: bv32, z: bv32)
    requires |m| == 16 && State(v, w, x, y, z) == Run(s, m, t)
    ensures Run(s, m, t + 1) == State(Accumulate(z, F(t, w, x, y), W(m, t), K(t), v), v, Turn(w), x, y)
  {
    ReorderedSum(z, F(t, w, x, y), W(m, t), K(t), v);
    hide Accumulate, Temp, Turn, F, K, W;
  }

  /** Rounds 0 to 15: the words come straight from the message block. */
  method R0(block: array<bv32>, v: bv32, w: bv32, x: bv32, y: bv32, z: bv32, i: nat,
            ghost s: State, ghost m: seq<bv32>, ghost t: nat)
    returns (w': bv32, z': bv32)
    requires |m| == 16 && 0 <= t < 16 && i == t % 16
    requires Rolling(block[..], m, t) && State(v, w, x, y, z) == Run(s, m, t)
    modifies block
    ensures Rolling(block[..], m, t + 1) && State(z', v, w', x, y) == Run(s, m, t + 1)
  {
    RewrittenChoice(w, x, y);
    RewrittenMajority(w, x, y);
    RoundByNames(s, m, t, v, w, x, y, z);
    hide Accumulate, Turn, Run, W, Mix, Ch, Maj, Parity, ChForm, MajForm;
    assert block[..][t % 16] == W(m, t);
    z' := Accumulate(z, ChForm(w, x, y), block[i], 0x5A827999, v);
    w' := Turn(w);
  }

  /** Rounds 16 to 19. */
  method R1(block: array<bv32>, v: bv32, w: bv32, x: bv32, y: bv32, z: bv32, i: nat,
            ghost s: State, ghost m: seq<bv32>, ghost t: nat)
    returns (w': bv32, z': bv32)
    requires |m| == 16 && 16 <= t < 20 && i == t % 16
    requires Rolling(block[..], m, t) && State(v, w, x, y, z) == Run(s, m, t)
    modifies block
    ensures Rolling(block[..], m, t + 1) && State(z', v, w', x, y) == Run(s, m, t + 1)
  {
    RewrittenChoice(w, x, y);
    RewrittenMajority(w, x, y);
    RoundByNames(s, m, t, v, w, x, y, z);
    hide Accumulate, Turn, Run, W, Mix, Ch, Maj, Parity, ChForm, MajForm;
    MixIsWord(block[..], m, t);
    WindowMoves(block[..], m, t);
    block[i] := BlockMix(block[..], i);
    z' := Accumulate(z, ChForm(w, x, y), block[i], 0x5A827999, v);
    w' := Turn(w);
  }

  /** Rounds 20 to 39. */
  method R2(block: array<bv32>, v: bv32, w: bv32, x: bv32, y: bv32, z: bv32, i: nat,
            ghost s: State, ghost m: seq<bv32>, ghost t: nat)
    returns (w': bv32, z': bv32)
    requires |m| == 16 && 20 <= t < 40 && i == t % 16
    requires Rolling(block[..], m, t) && State(v, w, x, y, z) == Run(s, m, t)
    modifies block
    ensures Rolling(block[..], m, t + 1) && State(z', v, w', x, y) == Run(s, m, t + 1)
  {
    RewrittenChoice(w, x, y);
    RewrittenMajority(w, x, y);
    RoundByNames(s, m, t, v, w, x, y, z);
    hide Accumulate, Turn, Run, W, Mix, Ch, Maj, Parity, ChForm, MajForm;
    MixIsWord(block[..], m, t);
    WindowMoves(block[..], m, t);
    block[i] := BlockMix(block[..], i);
    z' := Accumulate(z, Parity(w, x, y), block[i], 0x6ED9EBA1, v);
    w' := Turn(w);
  }

  /** Rounds 40 to 59. */
  method R3(block: array<bv32>, v: bv32, w: bv32, x: bv32, y: bv32, z: bv32, i: nat,
            ghost s: State, ghost m: seq<bv32>, ghost t: nat)
    returns (w': bv32, z': bv32)
    requires |m| == 16 && 40 <= t < 60 && i == t % 16
    requires Rolling(block[..], m, t) && State(v, w, x, y, z) == Run(s, m, t)
    modifies block
    ensures Rolling(block[..], m, t + 1) && State(z', v, w', x, y) == Run(s, m, t + 1)
  {
    RewrittenChoice(w, x, y);
    RewrittenMajority(w, x, y);
    RoundByNames(s, m, t, v, w, x, y, z);
    hide Accumulate, Turn, Run, W, Mix, Ch, Maj, Parity, ChForm, MajForm;
    MixIsWord(block[..], m, t);
    WindowMoves(block[..], m, t);
    block[i] := BlockMix(block[..], i);
    z' := Accumulate(z, MajForm(w, x, y), block[i], 0x8F1BBCDC, v);
    w' := Turn(w);
  }

  /** Rounds 60 to 79. */
  method R4(block: array<bv32>, v: bv32, w: bv32, x: bv32, y: bv32, z: bv32, i: nat,
            ghost s: State, ghost m: seq<bv32>, ghost t: nat)
    returns (w': bv32, z': bv32)
    requires |m| == 16 && 60 <= t < 80 && i == t % 16
    requires Rolling(block[..], m, t) && State(v, w, x, y, z) == Run(s, m, t)
    modifies block
    ensures Rolling(block[..], m, t + 1) && State(z', v, w', x, y) == Run(s, m, t + 1)
  {
    RewrittenChoice(w, x, y);
    RewrittenMajority(w, x, y);
    RoundByNames(s, m, t, v, w, x, y, z);
    hide Accumulate, Turn, Run, W, Mix, Ch, Maj, Parity, ChForm, MajForm;
    MixIsWord(block[..], m, t);
    WindowMoves(block[..], m, t);
    block[i] := BlockMix(block[..], i);
    z' := Accumulate(z, Parity(w, x, y), block[i], 0xCA62C1D6, v);
    w' := Turn(w);
  }

  /** Rounds 10 to 19. */
  method Rounds10(block: array<bv32>, a0: bv32, b0: bv32, c0: bv32, d0: bv32, e0: bv32,
                 ghost s: State, ghost m: seq<bv32>)
    returns (a: bv32, b: bv32, c: bv32, d: bv32, e: bv32)
    requires |m| == 16 && Rolling(block[..], m, 10) && State(a0, b0, c0, d0, e0) == Run(s, m, 10)
    modifies block
    ensures Rolling(block[..], m, 20) && State(a, b, c, d, e) == Run(s, m, 20)
  {
    hide *;
    a, b, c, d, e := a0, b0, c0, d0, e0;
    b, e := R0(block, a, b, c, d, e, 10, s, m, 10);
    a, d := R0(block, e, a, b, c, d, 11, s, m, 11);
    e, c := R0(block, d, e, a, b, c, 12, s, m, 12);
    d, b := R0(block, c, d, e, a, b, 13, s, m, 13);
    c, a := R0(block, b, c, d, e, a, 14, s, m, 14);
    b, e := R0(block, a, b, c, d, e, 15, s, m, 15);
    a, d := R1(block, e, a, b, c, d, 0, s, m, 16);
    e, c := R1(block, d, e, a, b, c, 1, s, m, 17);
    d, b := R1(block, c, d, e, a, b, 2, s, m, 18);
    c, a := R1(block, b, c, d, e, a, 3, s, m, 19);
  }

  /** Rounds 0 to 19, unrolled. Twenty rounds bring every register name back to its own role. */
  method Rounds0(block: array<bv32>, a0: bv32, b0: bv32, c0: bv32, d0: bv32, e0: bv32,
                 ghost s: State, ghost m: seq<bv32>)
    returns (a: bv32, b: bv32, c: bv32, d: bv32, e: bv32)
    requires |m| == 16 && Rolling(block[..], m, 0) && State(a0, b0, c0, d0, e0) == Run(s, m, 0)
    modifies block
    ensures Rolling(block[..], m, 20) && State(a, b, c, d, e) == Run(s, m, 20)
  {
    hide *;
    a, b, c, d, e := a0, b0, c0, d0, e0;
    b, e := R0(block, a, b, c, d, e, 0, s, m, 0);
    a, d := R0(block, e, a, b, c, d, 1, s, m, 1);
    e, c := R0(block, d, e, a, b, c, 2, s, m, 2);
    d, b := R0(block, c, d, e, a, b, 3, s, m, 3);
    c, a := R0(block, b, c, d, e, a, 4, s, m, 4);
    b, e := R0(block, a, b, c, d, e, 5, s, m, 5);
    a, d := R0(block, e, a, b, c, d, 6, s, m, 6);
    e, c := R0(block, d, e, a, b, c, 7, s, m, 7);
    d, b := R0(block, c, d, e, a, b, 8, s, m, 8);
    c, a := R0(block, b, c, d, e, a, 9, s, m, 9);
    a, b, c, d, e := Rounds10(block, a, b, c, d, e, s, m);
  }

  /** Rounds 30 to 39. */
  method Rounds30(block: array<bv32>, a0: bv32, b0: bv32, c0: bv32, d0: bv32, e0: bv32,
                 ghost s: State, ghost m: seq<bv32>)
    returns (a: bv32, b: bv32, c: bv32, d: bv32, e: bv32)
    requires |m| == 16 && Rolling(block[..], m, 30) && State(a0, b0, c0, d0, e0) == Run(s, m, 30)
    modifies block
    ensures Rolling(block[..], m, 40) && State(a, b, c, d, e) == Run(s, m, 40)
  {
    hide *;
    a, b, c, d, e := a0, b0, c0, d0, e0;
    b, e := R2(block, a, b, c, d, e, 14, s, m, 30);
    a, d := R2(block, e, a, b, c, d, 15, s, m, 31);
    e, c := R2(block, d, e, a, b, c, 0, s, m, 32);
    d, b := R2(block, c, d, e, a, b, 1, s, m, 33);
    c, a := R2(block, b, c, d, e, a, 2, s, m, 34);
    b, e := R2(block, a, b, c, d, e, 3, s, m, 35);
    a, d := R2(block, e, a, b, c, d, 4, s, m, 36);
    e, c := R2(block, d, e, a, b, c, 5, s, m, 37);
    d, b := R2(block, c, d, e, a, b, 6, s, m, 38);
    c, a := R2(block, b, c, d, e, a, 7, s, m, 39);
  }

  /** Rounds 20 to 39, unrolled. Twenty rounds bring every register name back to its own role. */
  method Rounds20(block: array<bv32>, a0: bv32, b0: bv32, c0: bv32, d0: bv32, e0: bv32,
                 ghost s: State, ghost m: seq<bv32>)
    returns (a: bv32, b: bv32, c: bv32, d: bv32, e: bv32)
    requires |m| == 16 && Rolling(block[..], m, 20) && State(a0, b0, c0, d0, e0) == Run(s, m, 20)
    modifies block
    ensures Rolling(block[..], m, 40) && State(a, b, c, d, e) == Run(s, m, 40)
  {
    hide *;
    a, b, c, d, e := a0, b0, c0, d0, e0;
    b, e := R2(block, a, b, c, d, e, 4, s, m, 20);
    a, d := R2(block, e, a, b, c, d, 5, s, m, 21);
    e, c := R2(block, d, e, a, b, c, 6, s, m, 22);
    d, b := R2(block, c, d, e, a, b, 7, s, m, 23);
    c, a := R2(block, b, c, d, e, a, 8, s, m, 24);
    b, e := R2(block, a, b, c, d, e, 9, s, m, 25);
    a, d := R2(block, e, a, b, c, d, 10, s, m, 26);
    e, c := R2(block, d, e, a, b, c, 11, s, m, 27);
    d, b := R2(block, c, d, e, a, b, 12, s, m, 28);
    c, a := R2(block, b, c, d, e, a, 13, s, m, 29);
    a, b, c, d, e := Rounds30(block, a, b, c, d, e, s, m);
  }

  /** Rounds 50 to 59. */
  method Rounds50(block: array<bv32>, a0: bv32, b0: bv32, c0: bv32, d0: bv32, e0: bv32,
                 ghost s: State, ghost m: seq<bv32>)
    returns (a: bv32, b: bv32, c: bv32, d: bv32, e: bv32)
    requires |m| == 16 && Rolling(block[..], m, 50) && State(a0, b0, c0, d0, e0) == Run(s, m, 50)
    modifies block
    ensures Rolling(block[..], m, 60) && State(a, b, c, d, e) == Run(s, m, 60)
  {
    hide *;
    a, b, c, d, e := a0, b0, c0, d0, e0;
    b, e := R3(block, a, b, c, d, e, 2, s, m, 50);
    a, d := R3(block, e, a, b, c, d, 3, s, m, 51);
    e, c := R3(block, d, e, a, b, c, 4, s, m, 52);
    d, b := R3(block, c, d, e, a, b, 5, s, m, 53);
    c, a := R3(block, b, c, d, e, a, 6, s, m, 54);
    b, e := R3(block, a, b, c, d, e, 7, s, m, 55);
    a, d := R3(block, e, a, b, c, d, 8, s, m, 56);
    e, c := R3(block, d, e, a, b, c, 9, s, m, 57);
    d, b := R3(block, c, d, e, a, b, 10, s, m, 58);
    c, a := R3(block, b, c, d, e, a, 11, s, m, 59);
  }

  /** Rounds 40 to 59, unrolled. Twenty rounds bring every register name back to its own role. */
  method Rounds40(block: array<bv32>, a0: bv32, b0: bv32, c0: bv32, d0: bv32, e0: bv32,
                 ghost s: State, ghost m: seq<bv32>)
    returns (a: bv32, b: bv32, c: bv32, d: bv32, e: bv32)
    requires |m| == 16 && Rolling(block[..], m, 40) && State(a0, b0, c0, d0, e0) == Run(s, m, 40)
    modifies block
    ensures Rolling(block[..], m, 60) && State(a, b, c, d, e) == Run(s, m, 60)
  {
    hide *;
    a, b, c, d, e := a0, b0, c0, d0, e0;
    b, e := R3(block, a, b, c, d, e, 8, s, m, 40);
    a, d := R3(block, e, a, b, c, d, 9, s, m, 41);
    e, c := R3(block, d, e, a, b, c, 10, s, m, 42);
    d, b := R3(block, c, d, e, a, b, 11, s, m, 43);
    c, a := R3(block, b, c, d, e, a, 12, s, m, 44);
    b, e := R3(block, a, b, c, d, e, 13, s, m, 45);
    a, d := R3(block, e, a, b, c, d, 14, s, m, 46);
    e, c := R3(block, d, e, a, b, c, 15, s, m, 47);
    d, b := R3(block, c, d, e, a, b, 0, s, m, 48);
    c, a := R3(block, b, c, d, e, a, 1, s, m, 49);
    a, b, c, d, e := Rounds50(block, a, b, c, d, e, s, m);
  }

  /** Rounds 70 to 79. */
  method Rounds70(block: array<bv32>, a0: bv32, b0: bv32, c0: bv32, d0: bv32, e0: bv32,
                 ghost s: State, ghost m: seq<bv32>)
    returns (a: bv32, b: bv32, c: bv32, d: bv32, e: bv32)
    requires |m| == 16 && Rolling(block[..], m, 70) && State(a0, b0, c0, d0, e0) == Run(s, m, 70)
    modifies block
    ensures Rolling(block[..], m, 80) && State(a, b, c, d, e) == Run(s, m, 80)
  {
    hide *;
    a, b, c, d, e := a0, b0, c0, d0, e0;
    b, e := R4(block, a, b, c, d, e, 6, s, m, 70);
    a, d := R4(block, e, a, b, c, d, 7, s, m, 71);
    e, c := R4(block, d, e, a, b, c, 8, s, m, 72);
    d, b := R4(block, c, d, e, a, b, 9, s, m, 73);
    c, a := R4(block, b, c, d, e, a, 10, s, m, 74);
    b, e := R4(block, a, b, c, d, e, 11, s, m, 75);
    a, d := R4(block, e, a, b, c, d, 12, s, m, 76);
    e, c := R4(block, d, e, a, b, c, 13, s, m, 77);
    d, b := R4(block, c, d, e, a, b, 14, s, m, 78);
    c, a := R4(block, b, c, d, e, a, 15, s, m, 79);
  }

  /** Rounds 60 to 79, unrolled. Twenty rounds bring every register name back to its own role. */
  method Rounds60(block: array<bv32>, a0: bv32, b0: bv32, c0: bv32, d0: bv32, e0: bv32,
                 ghost s: State, ghost m: seq<bv32>)
    returns (a: bv32, b: bv32, c: bv32, d: bv32, e: bv32)
    requires |m| == 16 && Rolling(block[..], m, 60) && State(a0, b0, c0, d0, e0) == Run(s, m, 60)
    modifies block
    ensures Rolling(block[..], m, 80) && State(a, b, c, d, e) == Run(s, m, 80)
  {
    hide *;
    a, b, c, d, e := a0, b0, c0, d0, e0;
    b, e := R4(block, a, b, c, d, e, 12, s, m, 60);
    a, d := R4(block, e, a, b, c, d, 13, s, m, 61);
    e, c := R4(block, d, e, a, b, c, 14, s, m, 62);
    d, b := R4(block, c, d, e, a, b, 15, s, m, 63);
    c, a := R4(block, b, c, d, e, a, 0, s, m, 64);
    b, e := R4(block, a, b, c, d, e, 1, s, m, 65);
    a, d := R4(block, e, a, b, c, d, 2, s, m, 66);
    e, c := R4(block, d, e, a, b, c, 3, s, m, 67);
    d, b := R4(block, c, d, e, a, b, 4, s, m, 68);
    c, a := R4(block, b, c, d, e, a, 5, s, m, 69);
    a, b, c, d, e := Rounds70(block, a, b, c, d, e, s, m);
  }
}
