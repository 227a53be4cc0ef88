/** Key masks: 32-bit fields with one bit per key. */
module KeyBits {

  predicate Subset(x: bv32, y: bv32) { x & !y == 0 }

  /** At most one key. */
  predicate AtMostOne(x: bv32) { x & (x - 1) == 0 }

  /** The lowest key of a mask. */
  function Lowest(x: bv32): bv32 { x & !(x - 1) }

  function Minus(x: bv32, y: bv32): bv32 { x & !y }

  /** The keys whose state is the same in both masks. */
  function Steady(x: bv32, y: bv32): bv32 { !(x ^ y) }

  lemma LowestIsOne(x: bv32)
    ensures AtMostOne(Lowest(x)) && Subset(Lowest(x), x)
    ensures x != 0 ==> Lowest(x) != 0
    ensures AtMostOne(x) ==> Lowest(x) == x
  {
    assert Lowest(x) == x & !(x - 1);
    assert (x & !(x - 1)) & ((x & !(x - 1)) - 1) == 0;
    assert (x & !(x - 1)) & !x == 0;
    assert x != 0 ==> x & !(x - 1) != 0;
    assert x & (x - 1) == 0 ==> x & !(x - 1) == x;
  }

  lemma PartOfOne(x: bv32, y: bv32)
    requires AtMostOne(x)
    ensures AtMostOne(And(x, y)) && Subset(And(x, y), y)
  {
    assert x & (x - 1) == 0 ==> (x & y) & ((x & y) - 1) == 0;
    assert (x & y) & !y == 0;
  }

  function And(x: bv32, y: bv32): bv32 { x & y }
  function Or(x: bv32, y: bv32): bv32 { x | y }

  lemma StillDown(h: bv32, b: bv32, n: bv32)
    requires h & !b == 0
    ensures (h & !(b ^ n)) & !n == 0
  {
  }

  lemma StillHidden(h: bv32, b: bv32, n: bv32, k: bv32)
    requires h & !b == 0 && k & !h == 0 && k & !n == 0
    ensures k & !(h & !(b ^ n)) == 0
  {
  }

  /** Hidden keys are keys that are down. */
  lemma HiddenAfterFrame(hidden: bv32, before: bv32, now: bv32)
    requires Subset(hidden, before)
    ensures Subset(And(hidden, Steady(before, now)), now)
  {
    StillDown(hidden, before, now);
  }

  /** A key hidden before a frame stays hidden if it is still down. */
  lemma HiddenWhileDown(hidden: bv32, before: bv32, now: bv32, key: bv32)
    requires Subset(hidden, before) && Subset(key, hidden) && Subset(key, now)
    ensures Subset(key, And(hidden, Steady(before, now)))
  {
    StillHidden(hidden, before, now, key);
  }

  lemma SubsetTrans(x: bv32, y: bv32, z: bv32)
    requires Subset(x, y) && Subset(y, z)
    ensures Subset(x, z)
  {
    assert x & !y == 0 && y & !z == 0 ==> x & !z == 0;
  }

  lemma SubsetRefl(x: bv32)
    ensures Subset(x, x)
  {
  }

  lemma SubsetOr(x: bv32, y: bv32)
    ensures Subset(x, Or(x, y)) && Subset(y, Or(x, y))
  {
  }

  lemma OrSubset(x: bv32, y: bv32, z: bv32)
    requires Subset(x, z) && Subset(y, z)
    ensures Subset(Or(x, y), z)
  {
  }

  lemma MinusIsSubset(x: bv32, y: bv32)
    ensures Subset(Minus(x, y), x)
    ensures Minus(x, y) == 0 <==> Subset(x, y)
  {
    assert (x & !y) & !x == 0;
  }

  lemma SubsetOfNothing(x: bv32, y: bv32)
    requires Subset(x, y) && y == 0
    ensures x == 0
  {
    assert x & !0 == 0 ==> x == 0;
  }

  /** A hidden key is not reported. */
  lemma HiddenNotShown(key: bv32, now: bv32, hidden: bv32)
    requires Subset(key, hidden)
    ensures And(key, Minus(now, hidden)) == 0
  {
    assert key & !hidden == 0 ==> key & (now & !hidden) == 0;
  }

  /** Identities for a single key that went from up to down, or stayed down. */
  lemma LoneKey(k: bv32, before: bv32)
    requires And(before, k) == 0
    ensures Minus(k, before) == k && Minus(k, 0) == k && Minus(k, k) == 0 && Minus(before, 0) == before
    ensures Steady(k, k) == !0 && And(k, !0) == k && And(k, k) == k && Or(0, k) == k && Or(k, k) == k
  {
    assert before & k == 0 ==> k & !before == k;
    assert k & !0 == k && k & !k == 0 && before & !0 == before && !(k ^ k) == !0 && k & !0 == k && 0 | k == k;
  }

  lemma NoneSteady(h: bv32, b: bv32, k: bv32)
    requires h & !b == 0 && b & k == 0
    ensures h & !(b ^ k) == 0
  {
  }

  lemma ReleasedKeys(hidden: bv32, before: bv32, k: bv32)
    requires Subset(hidden, before) && And(before, k) == 0
    ensures And(hidden, Steady(before, k)) == 0
  {
    NoneSteady(hidden, before, k);
  }

  lemma AndZero(x: bv32)
    ensures And(x, 0) == 0
  {
  }

  function Half(x: bv32): bv32 { x >> 1 }
  predicate Last(x: bv32) { x & 1 == 1 }

  /** Whether key i is in the mask. */
  predicate HasKey(x: bv32, i: nat)
    decreases i
  {
    if i == 0 then Last(x) else HasKey(Half(x), i - 1)
  }

  lemma Halved(x: bv32)
    requires x != 0
    ensures Half(x) < x
    ensures !Last(x) ==> Half(x) != 0
  {
  }

  /** std::countr_zero of a non-zero word. */
  function CountrZero(x: bv32): nat
    requires x != 0
    decreases x
  {
    Halved(x);
    if Last(x) then 0 else 1 + CountrZero(Half(x))
  }

  lemma {:induction false} CountrZeroHits(x: bv32)
    requires x != 0
    ensures HasKey(x, CountrZero(x))
    decreases x
  {
    Halved(x);
    if !Last(x) {
      CountrZeroHits(Half(x));
    }
  }

  lemma HalfSubset(x: bv32, y: bv32)
    requires Subset(x, y)
    ensures Last(x) ==> Last(y)
    ensures Subset(Half(x), Half(y))
  {
    assert x & !y == 0 ==> (x >> 1) & !(y >> 1) == 0;
    assert x & !y == 0 && x & 1 == 1 ==> y & 1 == 1;
  }

  lemma {:induction false} SubsetHasKey(x: bv32, y: bv32, i: nat)
    requires Subset(x, y) && HasKey(x, i)
    ensures HasKey(y, i)
    decreases i
  {
    HalfSubset(x, y);
    if i > 0 {
      SubsetHasKey(Half(x), Half(y), i - 1);
    }
    hide Subset, Half, Last;
  }

  lemma HalfOr(x: bv32, y: bv32)
    ensures Half(Or(x, y)) == Or(Half(x), Half(y))
    ensures Last(Or(x, y)) <==> Last(x) || Last(y)
  {
  }

  lemma {:induction false} OrHasKey(x: bv32, y: bv32, j: nat)
    ensures HasKey(Or(x, y), j) <==> HasKey(x, j) || HasKey(y, j)
    decreases j
  {
    hide Or, Half, Last;
    HalfOr(x, y);
    if j > 0 {
      OrHasKey(Half(x), Half(y), j - 1);
    }
  }

  lemma {:induction false} NothingHasKey(j: nat)
    ensures !HasKey(0, j)
  {
    if j > 0 {
      NothingHasKey(j - 1);
    }
  }

  function Twice(x: bv32): bv32 { x << 1 }

  /** 1 << i. */
  function Bit(i: nat): bv32
    requires i < 32
  {
    if i == 0 then 1 else Twice(Bit(i - 1))
  }

  /** Each doubling adds a trailing zero, unless it loses the only key. */
  lemma CountrZeroTwice(b: bv32)
    requires b != 0 && b <= 0x40000000 && AtMostOne(b)
    ensures Twice(b) != 0 && AtMostOne(Twice(b)) && Half(Twice(b)) == b && !Last(Twice(b))
    ensures CountrZero(Twice(b)) == 1 + CountrZero(b)
  {
  }

  lemma TopBit()
    ensures CountrZero(0x80000000) == 31
  {
    assert CountrZero(0x1) == 0;
    hide CountrZero;
    CountrZeroTwice(0x1); CountrZeroTwice(0x2); CountrZeroTwice(0x4); CountrZeroTwice(0x8);
    CountrZeroTwice(0x10); CountrZeroTwice(0x20); CountrZeroTwice(0x40); CountrZeroTwice(0x80);
    CountrZeroTwice(0x100); CountrZeroTwice(0x200); CountrZeroTwice(0x400); CountrZeroTwice(0x800);
    CountrZeroTwice(0x1000); CountrZeroTwice(0x2000); CountrZeroTwice(0x4000); CountrZeroTwice(0x8000);
    CountrZeroTwice(0x10000); CountrZeroTwice(0x20000); CountrZeroTwice(0x40000); CountrZeroTwice(0x80000);
    CountrZeroTwice(0x100000); CountrZeroTwice(0x200000); CountrZeroTwice(0x400000); CountrZeroTwice(0x800000);
    CountrZeroTwice(0x1000000); CountrZeroTwice(0x2000000); CountrZeroTwice(0x4000000); CountrZeroTwice(0x8000000);
    CountrZeroTwice(0x10000000); CountrZeroTwice(0x20000000); CountrZeroTwice(0x40000000);
  }

  lemma OneKey(b: bv32)
    requires b != 0 && AtMostOne(b)
    ensures b <= 0x40000000 || b == 0x80000000
  {
  }

  /** Counting the trailing zeros of 1 << i gives i back. */
  lemma {:induction false} BitIs(i: nat)
    requires i < 32
    ensures Bit(i) != 0 && AtMostOne(Bit(i)) && CountrZero(Bit(i)) == i
    ensures i < 31 ==> Bit(i) <= 0x40000000
  {
    hide AtMostOne, Twice, CountrZero;
    TopBit();
    if i == 0 {
      First();
    } else {
      BitIs(i - 1);
      CountrZeroTwice(Bit(i - 1));
    }
    OneKey(Bit(i));
  }

  lemma First()
    ensures AtMostOne(1) && CountrZero(1) == 0
  {
  }

  /** The only key of 1 << i is i. */
  lemma {:induction false} BitHasKey(i: nat, j: nat)
    requires i < 32
    ensures HasKey(Bit(i), j) <==> i == j
    decreases j
  {
    if i == 0 {
      if j > 0 {
        NothingHasKey(j - 1);
      }
    } else {
      BitIs(i - 1);
      CountrZeroTwice(Bit(i - 1));
      if j > 0 {
        BitHasKey(i - 1, j - 1);
      }
      hide Half, Last, Twice, AtMostOne;
    }
  }

  lemma AndTwice(x: bv32, b: bv32)
    ensures b <= 0x40000000 ==> (And(x, Twice(b)) != 0 <==> And(Half(x), b) != 0)
    ensures And(x, 1) != 0 <==> Last(x)
  {
  }

  /** Testing one bit of a mask. */
  lemma {:induction false} BitTest(x: bv32, i: nat)
    requires i < 32
    ensures And(x, Bit(i)) != 0 <==> HasKey(x, i)
    decreases i
  {
    if i == 0 {
      AndTwice(x, 1);
    } else {
      BitIs(i - 1);
      AndTwice(x, Bit(i - 1));
      BitTest(Half(x), i - 1);
    }
    hide And, Half, Last, Twice, AtMostOne;
  }

  lemma HalfMinus(x: bv32, y: bv32)
    ensures Half(Minus(x, y)) == Minus(Half(x), Half(y))
    ensures Last(Minus(x, y)) <==> Last(x) && !Last(y)
  {
  }

  /** Removing keys, key by key. */
  lemma {:induction false} MinusHasKey(x: bv32, y: bv32, j: nat)
    ensures HasKey(Minus(x, y), j) <==> HasKey(x, j) && !HasKey(y, j)
    decreases j
  {
    hide Minus, Half, Last;
    HalfMinus(x, y);
    if j > 0 {
      MinusHasKey(Half(x), Half(y), j - 1);
    }
  }

  lemma HalfSteady(x: bv32, y: bv32, z: bv32)
    ensures Half(And(x, Steady(y, z))) == And(Half(x), Steady(Half(y), Half(z)))
  {
    assert (x & !(y ^ z)) >> 1 == (x >> 1) & !((y >> 1) ^ (z >> 1));
  }

  lemma LastSteady(x: bv32, y: bv32, z: bv32)
    ensures Last(And(x, Steady(y, z))) <==> Last(x) && (Last(y) <==> Last(z))
  {
    hide Half;
    LastBits(x, !(y ^ z));
    LastDiffers(y, z);
  }

  lemma LastBits(x: bv32, y: bv32)
    ensures (x & y) & 1 == 1 <==> x & 1 == 1 && y & 1 == 1
  {
  }

  lemma LastDiffers(x: bv32, y: bv32)
    ensures !(x ^ y) & 1 == 1 <==> x & 1 == y & 1
    ensures x & 1 == 1 || x & 1 == 0
    ensures y & 1 == 1 || y & 1 == 0
  {
  }

  /** Keeping the keys whose state is the same in two masks, key by key. */
  lemma {:induction false} SteadyHasKey(x: bv32, y: bv32, z: bv32, j: nat)
    ensures HasKey(And(x, Steady(y, z)), j) <==> HasKey(x, j) && (HasKey(y, j) <==> HasKey(z, j))
    decreases j
  {
    hide And, Steady, Half, Last;
    HalfSteady(x, y, z);
    LastSteady(x, y, z);
    if j > 0 {
      SteadyHasKey(Half(x), Half(y), Half(z), j - 1);
    }
  }

  lemma HalfAnd(x: bv32, y: bv32)
    ensures Half(And(x, y)) == And(Half(x), Half(y))
    ensures Last(And(x, y)) <==> Last(x) && Last(y)
  {
  }

  lemma {:induction false} AndHasKey(x: bv32, y: bv32, j: nat)
    ensures HasKey(And(x, y), j) <==> HasKey(x, j) && HasKey(y, j)
    decreases j
  {
    hide And, Half, Last;
    HalfAnd(x, y);
    if j > 0 {
      AndHasKey(Half(x), Half(y), j - 1);
    }
  }

  /** A mask is zero exactly when it has no key. */
  lemma SomeKey(x: bv32)
    ensures x != 0 ==> exists j: nat :: HasKey(x, j)
    ensures x == 0 ==> forall j: nat :: !HasKey(x, j)
  {
    hide HasKey, CountrZero;
    if x != 0 {
      CountrZeroHits(x);
    } else {
      forall j: nat {
        NothingHasKey(j);
      }
    }
  }

  lemma HalfOfPrevious(x: bv32)
    requires x & 1 != 1 && x != 0
    ensures (x - 1) >> 1 == (x >> 1) - 1
  {
  }

  lemma HalfOfDifference(x: bv32, y: bv32)
    ensures (x & !y) >> 1 == (x >> 1) & !(y >> 1)
  {
  }

  lemma LowestOfOdd(x: bv32)
    ensures x & 1 == 1 ==> x & !(x - 1) == 1
    ensures x & 1 != 1 ==> (x & !(x - 1)) & 1 != 1
  {
  }

  lemma HalfLowest(x: bv32)
    requires x != 0
    ensures Last(x) ==> Lowest(x) == 1
    ensures !Last(x) ==> !Last(Lowest(x)) && Half(Lowest(x)) == Lowest(Half(x))
  {
    LowestOfOdd(x);
    HalfOfDifference(x, x - 1);
    if x & 1 != 1 {
      HalfOfPrevious(x);
    }
  }

  /** The lowest key of a mask is the one key below which it has none. */
  lemma {:induction false} LowestHasKey(x: bv32, j: nat)
    requires x != 0
    ensures HasKey(Lowest(x), j) <==> j == CountrZero(x)
    ensures j < CountrZero(x) ==> !HasKey(x, j)
    decreases x
  {
    hide Lowest, Half;
    Halved(x);
    HalfLowest(x);
    if Last(x) {
      BitHasKey(0, j);
    } else if j > 0 {
      LowestHasKey(Half(x), j - 1);
    }
  }

  /** Counting the trailing zeros of the lowest key alone gives its number. */
  lemma LowestCount(x: bv32)
    requires x != 0
    ensures Lowest(x) != 0 && CountrZero(Lowest(x)) == CountrZero(x)
  {
    hide Lowest, CountrZero;
    LowestIsOne(x);
    CountrZeroHits(Lowest(x));
    LowestHasKey(x, CountrZero(Lowest(x)));
  }
}
