/** The index permutation behind in-place transposition, and its first returns to a tail of the index range. */
module MatrixOrbits {
  import opened Arithmetic

  /** Row-major position of (row, col) in a matrix with `width` columns. */
  function Idx(row: nat, col: nat, width: nat): nat {
    row * width + col
  }

  /** Rows of the same width start apart by at least one width, in order. */
  lemma RowStarts(a: int, b: int, d: nat)
    ensures a < b ==> a * d + d <= b * d
    ensures b < a ==> b * d + d <= a * d
    ensures a == b ==> a * d == b * d
  {
    MulLess(a, b, d);
    MulLess(b, a, d);
  }

  lemma IdxBounds(row: nat, col: nat, width: nat, height: nat)
    requires row < height && col < width
    ensures Idx(row, col, width) < width * height
  {
    MulLess(row, height, width);
  }

  lemma IdxInverse(row: nat, col: nat, width: nat)
    requires col < width
    ensures Idx(row, col, width) / width == row && Idx(row, col, width) % width == col
  {
    DivUnique(Idx(row, col, width), row, col, width);
  }

  lemma IdxOf(i: nat, width: nat, height: nat)
    requires i < width * height
    ensures width > 0 && i / width < height && i == Idx(i / width, i % width, width)
  {
    assert width > 0;
    assert i == (i / width) * width + i % width;
    MulLess(height - 1, i / width, width);
  }

  /** The element at (row, col). */
  function Cell<T>(s: seq<T>, width: nat, height: nat, row: nat, col: nat): T
    requires |s| == width * height && row < height && col < width
  {
    IdxBounds(row, col, width, height);
    s[Idx(row, col, width)]
  }

  /** Where the element wanted at position b of the transposed matrix sits in the original one. */
  function Source(b: nat, width: nat, height: nat): nat
    requires b < width * height
  {
    assert height > 0;
    (b % height) * width + b / height
  }

  lemma SourceAt(row: nat, col: nat, width: nat, height: nat)
    requires row < height && col < width
    ensures Idx(col, row, height) < width * height
    ensures Source(Idx(col, row, height), width, height) == Idx(row, col, width)
  {
    IdxBounds(col, row, height, width);
    IdxInverse(col, row, height);
  }

  /** The index map stays in range and has an inverse of the same form, so it is a permutation of [0, width*height). */
  lemma SourceInverse(b: nat, width: nat, height: nat)
    requires b < width * height
    ensures Source(b, width, height) < width * height
    ensures Source(Source(b, width, height), height, width) == b
  {
    IdxOf(b, height, width);
    IdxBounds(b % height, b / height, width, height);
    IdxInverse(b % height, b / height, width);
  }

  lemma SourcePermutes(b: nat, c: nat, width: nat, height: nat)
    requires b < width * height && c < width * height
    ensures Source(b, width, height) < width * height
    ensures Source(b, width, height) == Source(c, width, height) ==> b == c
  {
    SourceInverse(b, width, height);
    SourceInverse(c, width, height);
  }

  /** The two corners never move. */
  lemma SourceEnds(width: nat, height: nat)
    requires 0 < width * height
    ensures Source(0, width, height) == 0
    ensures Source(width * height - 1, width, height) == width * height - 1
  {
    assert width > 0 && height > 0;
    assert Idx(width - 1, height - 1, height) == width * height - 1 == Idx(height - 1, width - 1, width);
    SourceAt(height - 1, width - 1, width, height);
  }

  /** The index reached from x after k applications of the index map. */
  ghost function Iter(x: nat, k: nat, width: nat, height: nat): (y: nat)
    requires x < width * height
    ensures y < width * height
  {
    if k == 0 then x
    else
      SourcePermutes(Iter(x, k - 1, width, height), 0, width, height);
      Source(Iter(x, k - 1, width, height), width, height)
  }

  lemma {:induction false} IterAdd(x: nat, j: nat, k: nat, width: nat, height: nat)
    requires x < width * height
    ensures Iter(Iter(x, j, width, height), k, width, height) == Iter(x, j + k, width, height)
  {
    if k > 0 {
      IterAdd(x, j, k - 1, width, height);
    }
  }

  /** Equal iterates can be cancelled: the index map is injective. */
  lemma {:induction false} IterCancel(x: nat, y: nat, j: nat, k: nat, width: nat, height: nat)
    requires x < width * height && y < width * height && j <= k
    requires Iter(x, j, width, height) == Iter(y, k, width, height)
    ensures x == Iter(y, k - j, width, height)
  {
    if j > 0 {
      SourcePermutes(Iter(x, j - 1, width, height), Iter(y, k - 1, width, height), width, height);
      IterCancel(x, y, j - 1, k - 1, width, height);
    }
  }

  /** All of the first k iterates of x (x itself excluded) lie below a. */
  ghost predicate Below(x: nat, k: nat, a: nat, width: nat, height: nat)
    requires x < width * height
  {
    forall j :: 1 <= j <= k ==> Iter(x, j, width, height) < a
  }

  /** The k-th iterate of x is its first one at or above a. */
  ghost predicate FirstReturn(x: nat, k: nat, a: nat, width: nat, height: nat)
    requires x < width * height
  {
    k >= 1 && Below(x, k - 1, a, width, height) && Iter(x, k, width, height) >= a
  }

  /** Distinct naturals below a number at most a. */
  lemma {:induction false} Pigeonhole(s: seq<nat>, a: nat)
    requires forall i :: 0 <= i < |s| ==> s[i] < a
    requires forall i, j :: 0 <= i < j < |s| ==> s[i] != s[j]
    ensures |s| <= a
  {
    if s != [] {
      assert s[0] < a;
      if k :| 0 <= k < |s| && s[k] == a - 1 {
        Pigeonhole(s[..k] + s[k + 1..], a - 1);
      } else {
        Pigeonhole(s, a - 1);
      }
    }
  }

  /** The orbit of an index x >= a cannot stay below a for more than a steps: this is why the search loop ends. */
  lemma OrbitReturns(x: nat, k: nat, a: nat, width: nat, height: nat)
    requires a <= x < width * height
    requires Below(x, k, a, width, height)
    ensures k <= a
  {
    var s: seq<nat> := seq(k, i requires 0 <= i < k => Iter(x, i + 1, width, height));
    forall i, j | 0 <= i < j < |s|
      ensures s[i] != s[j]
    {
      assert Iter(x, j - i, width, height) < a;
      if s[i] == s[j] {
        IterCancel(x, x, i + 1, j + 1, width, height);
        assert false;
      }
    }
    Pigeonhole(s, a);
  }

  /** Every index at or above a has a first return there. */
  lemma {:induction false} ReturnExists(x: nat, k: nat, a: nat, width: nat, height: nat) returns (m: nat)
    requires a <= x < width * height
    requires Below(x, k, a, width, height)
    ensures FirstReturn(x, m, a, width, height)
    decreases a + 1 - k
  {
    hide Iter;
    OrbitReturns(x, k, a, width, height);
    if Iter(x, k + 1, width, height) >= a {
      m := k + 1;
    } else {
      OrbitReturns(x, k + 1, a, width, height);
      m := ReturnExists(x, k + 1, a, width, height);
    }
  }

  /** The first-return map on [a, size) is injective, and the return time is unique. */
  lemma ReturnInjective(x: nat, j: nat, y: nat, k: nat, a: nat, width: nat, height: nat)
    requires a <= x < width * height && a <= y < width * height
    requires FirstReturn(x, j, a, width, height) && FirstReturn(y, k, a, width, height)
    requires Iter(x, j, width, height) == Iter(y, k, width, height)
    ensures x == y && j == k
  {
    if j < k {
      IterCancel(x, y, j, k, width, height);
    } else if k < j {
      IterCancel(y, x, k, j, width, height);
    } else {
      IterCancel(x, y, j, k, width, height);
    }
  }

  /** The shortest time at which the orbit of x hits y, given one such time. */
  lemma {:induction false} FirstHit(x: nat, y: nat, k: nat, width: nat, height: nat) returns (m: nat)
    requires x < width * height && k >= 1 && Iter(x, k, width, height) == y
    ensures 1 <= m <= k && Iter(x, m, width, height) == y
    ensures forall j :: 1 <= j < m ==> Iter(x, j, width, height) != y
  {
    if j :| 1 <= j < k && Iter(x, j, width, height) == y {
      m := FirstHit(x, y, j, width, height);
    } else {
      m := k;
    }
  }

  /** How first returns change when a leaves the unplaced region: an orbit that used to return at a
      goes on to where a itself returned; every other return is unchanged. */
  lemma ReturnAfterPlacing(i: nat, k: nat, a: nat, ka: nat, width: nat, height: nat) returns (m: nat)
    requires a < i < width * height
    requires FirstReturn(a, ka, a, width, height)
    requires FirstReturn(i, k, a + 1, width, height)
    ensures FirstReturn(i, m, a, width, height)
    ensures Iter(i, m, width, height) == a ==> Iter(i, k, width, height) == Iter(a, ka, width, height)
    ensures Iter(i, m, width, height) != a ==> m == k && Iter(i, k, width, height) != Iter(a, ka, width, height)
  {
    if j :| 1 <= j < k && Iter(i, j, width, height) == a {
      m := FirstHit(i, a, j, width, height);
      assert FirstReturn(i, m, a, width, height);
      var n := k - m;
      IterAdd(i, m, n, width, height);
      forall l | 1 <= l < n
        ensures Iter(a, l, width, height) < a
      {
        IterAdd(i, m, l, width, height);
        if Iter(a, l, width, height) == a {
          var l' := FirstHit(a, a, l, width, height);
          forall p | 1 <= p < l'
            ensures Iter(a, p, width, height) < a
          {
            IterAdd(i, m, p, width, height);
          }
          ReturnInjective(i, m, a, l', a, width, height);
        }
      }
      assert FirstReturn(a, n, a, width, height);
    } else {
      m := k;
      assert Below(i, k - 1, a, width, height);
      if Iter(i, k, width, height) == Iter(a, ka, width, height) {
        ReturnInjective(i, k, a, ka, a, width, height);
      }
    }
  }
}
