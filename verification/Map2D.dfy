/** A two-dimensional view over a flat buffer, with its in-place operations. */
module Map2D {
  import opened Arithmetic
  import opened MatrixOrbits
  import opened MatrixScroll

  /** t, read with `height` columns, is the transpose of s, read with `width` columns. */
  ghost predicate IsTranspose<T>(s: seq<T>, width: nat, height: nat, t: seq<T>)
    requires |s| == width * height
  {
    |t| == |s| &&
    forall row: nat, col: nat | row < height && col < width ::
      Cell(t, height, width, col, row) == Cell(s, width, height, row, col)
  }

  /** Transposing back restores the matrix. */
  lemma TransposeTwice<T>(s: seq<T>, width: nat, height: nat, t: seq<T>, u: seq<T>)
    requires |s| == width * height
    requires IsTranspose(s, width, height, t) && IsTranspose(t, height, width, u)
    ensures u == s
  {
    forall row: nat, col: nat | row < height && col < width
      ensures Cell(u, width, height, row, col) == Cell(s, width, height, row, col)
    {
      assert Cell(t, height, width, col, row) == Cell(s, width, height, row, col);
    }
    CellsEqual(u, s, width, height);
  }

  /** Element by element: rows become columns. */
  lemma TransposeAt<T>(s: seq<T>, width: nat, height: nat, t: seq<T>, row: nat, col: nat)
    requires |s| == width * height && row < height && col < width && IsTranspose(s, width, height, t)
    ensures |t| == |s| && row * width + col < |s| && col * height + row < |t|
    ensures t[col * height + row] == s[row * width + col]
  {
    CellIs(s, width, height, row, col);
    CellIs(t, height, width, col, row);
    hide Cell;
  }

  /** Every index below a holds its final element. */
  ghost predicate Final<T>(was: seq<T>, now: seq<T>, a: nat, width: nat, height: nat)
    requires |was| == |now| == width * height
  {
    forall i: nat | i < a && i < |now| ::
      Source(i, width, height) < |was| && now[i] == was[Source(i, width, height)]
  }

  /** Every index from a on finds its own at its first return. */
  ghost predicate Awaiting<T>(was: seq<T>, now: seq<T>, a: nat, width: nat, height: nat)
    requires |was| == |now| == width * height
  {
    forall i: nat, k: nat | a <= i < |now| && FirstReturn(i, k, a, width, height) ::
      Source(i, width, height) < |was| && now[Iter(i, k, width, height)] == was[Source(i, width, height)]
  }

  /** Every index below a holds its final element; every other index i finds its own at its first return. */
  ghost predicate Placed<T>(was: seq<T>, now: seq<T>, a: nat, width: nat, height: nat)
    requires |was| == |now| == width * height
  {
    Final(was, now, a, width, height) && Awaiting(was, now, a, width, height)
  }

  lemma PlacedInitially<T>(s: seq<T>, width: nat, height: nat)
    requires 1 < |s| == width * height
    ensures Placed(s, s, 1, width, height)
  {
    SourceEnds(width, height);
    forall i: nat, k: nat | 1 <= i < |s| && FirstReturn(i, k, 1, width, height)
      ensures Source(i, width, height) < |s| && s[Iter(i, k, width, height)] == s[Source(i, width, height)]
    {
      // 0 is a fixed point, so the very first step of any other index stays above it.
      SourcePermutes(i, 0, width, height);
      assert Iter(i, 0, width, height) == i;
      assert Iter(i, 1, width, height) == Source(i, width, height) >= 1;
    }
  }

  lemma PlacedAt<T>(was: seq<T>, now: seq<T>, a: nat, width: nat, height: nat, i: nat, k: nat)
    requires |was| == |now| == width * height && a <= i < |now|
    requires Placed(was, now, a, width, height) && FirstReturn(i, k, a, width, height)
    ensures Source(i, width, height) < |was| && now[Iter(i, k, width, height)] == was[Source(i, width, height)]
    ensures Iter(i, k, width, height) >= a
  {
    hide Source, Iter;
  }

  /** One swap moves the wanted element of every later index to its new first return. */
  lemma PlacedAfterSwap<T>(was: seq<T>, now: seq<T>, next: seq<T>, a: nat, ka: nat, width: nat, height: nat,
                           i: nat, k: nat)
    requires |was| == |now| == width * height && a < i < |now|
    requires Placed(was, now, a, width, height)
    requires FirstReturn(a, ka, a, width, height) && FirstReturn(i, k, a + 1, width, height)
    requires var b := Iter(a, ka, width, height); next == now[a := now[b]][b := now[a]]
    ensures Source(i, width, height) < |was| && next[Iter(i, k, width, height)] == was[Source(i, width, height)]
  {
    var m := ReturnAfterPlacing(i, k, a, ka, width, height);
    assert Iter(i, k, width, height) > a;
    hide Source, Iter, FirstReturn, Placed;
    PlacedAt(was, now, a, width, height, i, m);
  }

  lemma FinalStep<T>(was: seq<T>, now: seq<T>, next: seq<T>, a: nat, b: nat, width: nat, height: nat)
    requires |was| == |now| == width * height && a <= b < |now| && Final(was, now, a, width, height)
    requires Source(a, width, height) < |was| && now[b] == was[Source(a, width, height)]
    requires next == now[a := now[b]][b := now[a]]
    ensures Final(was, next, a + 1, width, height)
  {
    hide Source;
  }

  lemma PlacedStep<T>(was: seq<T>, now: seq<T>, next: seq<T>, a: nat, ka: nat, width: nat, height: nat)
    requires |was| == |now| == width * height && a < |now|
    requires Placed(was, now, a, width, height)
    requires FirstReturn(a, ka, a, width, height)
    requires var b := Iter(a, ka, width, height); next == now[a := now[b]][b := now[a]]
    ensures Placed(was, next, a + 1, width, height)
  {
    PlacedAt(was, now, a, width, height, a, ka);
    assert Awaiting(was, next, a + 1, width, height) by {
      hide Source, Iter, FirstReturn, Placed;
      forall i: nat, k: nat | a + 1 <= i < |now| && FirstReturn(i, k, a + 1, width, height)
        ensures Source(i, width, height) < |was| && next[Iter(i, k, width, height)] == was[Source(i, width, height)]
      {
        PlacedAfterSwap(was, now, next, a, ka, width, height, i, k);
      }
    }
    hide Source, Iter, FirstReturn, Awaiting, Final;
    FinalStep(was, now, next, a, Iter(a, ka, width, height), width, height);
  }

  lemma PlacedFinally<T>(was: seq<T>, now: seq<T>, width: nat, height: nat)
    requires 1 < |was| == |now| == width * height
    requires Placed(was, now, |now| - 1, width, height)
    ensures IsTranspose(was, width, height, now)
  {
    SourceEnds(width, height);
    var last := |now| - 1;
    assert Iter(last, 0, width, height) == last;
    assert FirstReturn(last, 1, last, width, height);
    forall row: nat, col: nat | row < height && col < width
      ensures Cell(now, height, width, col, row) == Cell(was, width, height, row, col)
    {
      SourceAt(row, col, width, height);
    }
  }

  lemma SmallTranspose<T>(s: seq<T>, width: nat, height: nat)
    requires |s| == width * height <= 1
    ensures IsTranspose(s, width, height, s)
  {
    forall row: nat, col: nat | row < height && col < width
      ensures Cell(s, height, width, col, row) == Cell(s, width, height, row, col)
    {
      IdxBounds(row, col, width, height);
      IdxBounds(col, row, height, width);
    }
  }

  /** Every row before `done` has been rotated by cols; the later rows are untouched. */
  ghost predicate ColsRotated<T>(was: seq<T>, now: seq<T>, width: nat, height: nat, cols: int, done: nat)
    requires |was| == |now| == width * height && width > 0
  {
    forall row: nat, col: nat | row < height && col < width ::
      Cell(now, width, height, row, col) ==
        Cell(was, width, height, row, if row < done then Wrap(col - cols, width) else col)
  }

  /** next is now with the block [lo, hi) rotated left so that `left` elements went to its end. */
  ghost predicate BlockRotated<T>(now: seq<T>, next: seq<T>, lo: nat, left: nat, hi: nat)
    requires lo + left <= hi <= |now| == |next|
  {
    (forall i: nat | lo <= i < hi :: next[i] == now[lo + Rotated(i - lo, left, hi - lo)]) &&
    (forall i: nat | i < |now| && !(lo <= i < hi) :: next[i] == now[i])
  }

  /** The elements of row `done` fill one block; those of the other rows lie before or behind it. */
  lemma IdxInRow(row: nat, col: nat, done: nat, width: nat)
    requires col < width
    ensures row == done <==> done * width <= Idx(row, col, width) < done * width + width
    ensures row == done ==> Idx(row, col, width) == done * width + col
  {
    RowStarts(row, done, width);
  }

  /** Rotating the block of one row moves only that row's elements, along the row. */
  lemma BlockIsRow<T>(now: seq<T>, next: seq<T>, width: nat, height: nat, done: nat, lo: nat, left: nat,
                      row: nat, col: nat)
    requires |now| == |next| == width * height && row < height && col < width && left <= width
    requires lo == done * width && lo + width <= |now| && BlockRotated(now, next, lo, left, lo + width)
    ensures row == done ==>
      Cell(next, width, height, row, col) == Cell(now, width, height, row, Rotated(col, left, width))
    ensures row != done ==> Cell(next, width, height, row, col) == Cell(now, width, height, row, col)
  {
    hide Idx, Rotated, BlockRotated, Cell;
    IdxInRow(row, col, done, width);
    IdxInRow(row, Rotated(col, left, width), done, width);
    CellIs(next, width, height, row, col);
    CellIs(now, width, height, row, col);
    CellIs(now, width, height, row, Rotated(col, left, width));
    BlockAt(now, next, lo, left, lo + width, Idx(row, col, width));
  }

  lemma CellIs<T>(s: seq<T>, width: nat, height: nat, row: nat, col: nat)
    requires |s| == width * height && row < height && col < width
    ensures Idx(row, col, width) < |s| && Cell(s, width, height, row, col) == s[Idx(row, col, width)]
  {
    IdxBounds(row, col, width, height);
    hide Idx;
  }

  /** The two parts of a block exchanged. */
  lemma BlockParts<T>(now: seq<T>, block: seq<T>, lo: nat, left: nat, hi: nat)
    requires lo + left <= hi <= |now| && block == now[lo + left..hi] + now[lo..lo + left]
    ensures forall i: nat | i < |block| :: block[i] == now[lo + Rotated(i, left, hi - lo)]
  {
  }

  lemma BlockAt<T>(now: seq<T>, next: seq<T>, lo: nat, left: nat, hi: nat, i: nat)
    requires lo + left <= hi <= |now| == |next| && i < |now| && BlockRotated(now, next, lo, left, hi)
    ensures lo <= i < hi ==> next[i] == now[lo + Rotated(i - lo, left, hi - lo)]
    ensures !(lo <= i < hi) ==> next[i] == now[i]
  {
  }

  /** Counting whole rows around the buffer counts rows around the column. */
  lemma IdxRotated(row: nat, col: nat, left: nat, width: nat, height: nat)
    requires row < height && col < width && left <= height
    ensures left * width <= width * height && Idx(row, col, width) < width * height
    ensures Rotated(Idx(row, col, width), left * width, width * height) ==
            Idx(Rotated(row, left, height), col, width)
  {
    IdxBounds(row, col, width, height);
    RowStarts(row + left, height, width);
    MulMono(left, height, width);
    RowsAdd(row, left, width);
    RowsAdd(height, row + left - height, width);
  }

  lemma RowsAdd(a: int, b: int, width: nat)
    ensures (a + b) * width == a * width + b * width
  {
  }

  /** Rotating the whole buffer by whole rows moves elements along their columns. */
  lemma BlockIsRows<T>(now: seq<T>, next: seq<T>, width: nat, height: nat, left: nat, row: nat, col: nat)
    requires |now| == |next| == width * height && left <= height && row < height && col < width
    requires left * width <= |now| && BlockRotated(now, next, 0, left * width, |now|)
    ensures Cell(next, width, height, row, col) == Cell(now, width, height, Rotated(row, left, height), col)
  {
    hide Idx, Rotated, BlockRotated, Cell;
    IdxRotated(row, col, left, width, height);
    CellIs(next, width, height, row, col);
    CellIs(now, width, height, Rotated(row, left, height), col);
    BlockAt(now, next, 0, left * width, |now|, Idx(row, col, width));
  }

  lemma RowRotated<T>(was: seq<T>, now: seq<T>, next: seq<T>, width: nat, height: nat, cols: int, done: nat)
    requires |was| == |now| == |next| == width * height && width > 0 && done < height
    requires ColsRotated(was, now, width, height, cols, done)
    requires Pivot(cols, width) <= width && done * width + width <= |now|
    requires BlockRotated(now, next, done * width, Pivot(cols, width), done * width + width)
    ensures ColsRotated(was, next, width, height, cols, done + 1)
  {
    hide Cell, Pivot, Rotated, Wrap, BlockRotated;
    forall row: nat, col: nat | row < height && col < width
      ensures Cell(next, width, height, row, col) ==
        Cell(was, width, height, row, if row < done + 1 then Wrap(col - cols, width) else col)
    {
      BlockIsRow(now, next, width, height, done, done * width, Pivot(cols, width), row, col);
      PivotRotates(col, cols, width);
    }
  }

  /** A column distance of zero, modulo the width, needs no rotation. */
  lemma NothingToRotate<T>(was: seq<T>, width: nat, height: nat, cols: int)
    requires |was| == width * height && width > 0
    requires (if cols < 0 then -cols else cols) % width == 0
    ensures ColsRotated(was, was, width, height, cols, height)
  {
    forall row: nat, col: nat | row < height && col < width
      ensures Cell(was, width, height, row, col) == Cell(was, width, height, row, Wrap(col - cols, width))
    {
      PivotRotates(col, cols, width);
    }
  }

  lemma WholeRotated<T>(was: seq<T>, now: seq<T>, next: seq<T>, width: nat, height: nat, cols: int, rows: int)
    requires |was| == |now| == |next| == width * height && width > 0 && height > 0
    requires ColsRotated(was, now, width, height, cols, height)
    requires Pivot(rows, height) <= height && Pivot(rows, height) * width <= |now|
    requires BlockRotated(now, next, 0, Pivot(rows, height) * width, |now|)
    ensures IsRotation(was, width, height, cols, rows, next)
  {
    forall row: nat, col: nat | row < height && col < width
      ensures Cell(next, width, height, row, col) ==
              Cell(was, width, height, Wrap(row - rows, height), Wrap(col - cols, width))
    {
      BlockIsRows(now, next, width, height, Pivot(rows, height), row, col);
      PivotRotates(row, rows, height);
    }
  }

  /** A row lies within the buffer. */
  lemma RowSpan(row: nat, width: nat, height: nat)
    requires row < height
    ensures row * width + width == (row + 1) * width <= width * height
  {
    MulLess(row, height, width);
  }

  lemma RowsSpan(rows: nat, width: nat, height: nat)
    requires rows <= height
    ensures 0 <= rows * width <= width * height
  {
    MulMono(rows, height, width);
  }

  lemma RowsNegated(rows: int, width: nat)
    ensures (-rows) * width == -(rows * width)
  {
  }

  lemma PivotIs(cols: int, width: nat)
    requires width > 0
    ensures var shift := (if cols < 0 then -cols else cols) % width;
            Pivot(cols, width) == (if cols < 0 then shift else width - shift) <= width
  {
  }

  /** A distance of whole rows, counted in elements. */
  lemma PivotInRows(rows: int, width: nat, height: nat)
    requires width > 0 && height > 0
    ensures var shift := (if rows < 0 then -rows else rows) % height * width;
            shift < width * height &&
            Pivot(rows, height) <= height &&
            Pivot(rows, height) * width == if rows < 0 then shift else width * height - shift
  {
    MulLess((if rows < 0 then -rows else rows) % height, height, width);
  }

  /** A block rotation by nothing, or by the whole block, changes nothing. */
  lemma BlockUnmoved<T>(now: seq<T>, left: nat)
    requires left == 0 || left == |now|
    ensures BlockRotated(now, now, 0, left, |now|)
  {
  }

  lemma NoRowsRotated<T>(was: seq<T>, width: nat, height: nat, cols: int)
    requires |was| == width * height && width > 0
    ensures ColsRotated(was, was, width, height, cols, 0)
  {
  }

  /** `done` rows have been filled: from the top for a positive distance, from the bottom for a negative one. */
  ghost predicate ColsFilled<T>(was: seq<T>, now: seq<T>, width: nat, height: nat, cols: int, value: T, done: nat)
    requires |was| == |now| == width * height
  {
    forall row: nat, col: nat | row < height && col < width ::
      Cell(now, width, height, row, col) ==
        if Wiped(col, cols, width) && (if cols < 0 then row >= height - done else row < done) then value
        else Cell(was, width, height, row, col)
  }

  lemma NoRowsFilled<T>(was: seq<T>, width: nat, height: nat, cols: int, value: T)
    requires |was| == width * height
    ensures ColsFilled(was, was, width, height, cols, value, 0)
    ensures cols == 0 ==> ColsFilled(was, was, width, height, cols, value, height)
  {
  }

  /** One fill of part of a row, counted from its start or from its end. */
  lemma CellFilled<T>(now: seq<T>, next: seq<T>, width: nat, height: nat, cols: int, value: T, done: nat,
                      row: nat, col: nat)
    requires |now| == |next| == width * height && done < height && -(width as int) < cols < width
    requires row < height && col < width
    requires var lo := if cols < 0 then width * height - done * width + cols else done * width;
             var hi := if cols < 0 then width * height - done * width else done * width + cols;
             forall i :: 0 <= i < |next| ==> next[i] == if lo <= i < hi then value else now[i]
    ensures Cell(next, width, height, row, col) ==
            if Wiped(col, cols, width) && row == (if cols < 0 then height - done - 1 else done) then value
            else Cell(now, width, height, row, col)
  {
    var at := if cols < 0 then height - done - 1 else done;
    IdxBounds(row, col, width, height);
    RowStarts(row, at, width);
    assert (height - done - 1) * width == width * height - done * width - width;
    var i := Idx(row, col, width);
    assert i == row * width + col;
  }

  lemma RowFilled<T>(was: seq<T>, now: seq<T>, next: seq<T>, width: nat, height: nat, cols: int, value: T, done: nat)
    requires |was| == |now| == |next| == width * height && done < height && -(width as int) < cols < width
    requires ColsFilled(was, now, width, height, cols, value, done)
    requires var lo := if cols < 0 then width * height - done * width + cols else done * width;
             var hi := if cols < 0 then width * height - done * width else done * width + cols;
             forall i :: 0 <= i < |next| ==> next[i] == if lo <= i < hi then value else now[i]
    ensures ColsFilled(was, next, width, height, cols, value, done + 1)
  {
    var at := if cols < 0 then height - done - 1 else done;
    forall row: nat, col: nat | row < height && col < width
      ensures Cell(next, width, height, row, col) ==
        if Wiped(col, cols, width) && (if cols < 0 then row >= height - (done + 1) else row < done + 1) then value
        else Cell(was, width, height, row, col)
    {
      CellFilled(now, next, width, height, cols, value, done, row, col);
    }
  }

  /** The rows from `edge` on, or those before it, as elements of the buffer. */
  lemma RowsOfEdge(row: nat, col: nat, edge: int, width: nat, height: nat)
    requires row < height && col < width && 0 <= edge <= height
    ensures 0 <= edge * width <= width * height && (Idx(row, col, width) < edge * width <==> row < edge)
    ensures Idx(row, col, width) < width * height
  {
    IdxBounds(row, col, width, height);
    RowStarts(row, edge, width);
    MulMono(edge, height, width);
  }

  lemma EdgeFromBelow(rows: int, width: nat, height: nat)
    ensures width * height + rows * width == (height + rows) * width
  {
  }

  lemma CellOfRows<T>(now: seq<T>, next: seq<T>, width: nat, height: nat, rows: int, value: T, row: nat, col: nat)
    requires |now| == |next| == width * height && (-(height as int) < rows < height || rows == 0)
    requires row < height && col < width
    requires var lo := if rows < 0 then width * height + rows * width else 0;
             var hi := if rows < 0 then width * height else rows * width;
             forall i :: 0 <= i < |next| ==> next[i] == if lo <= i < hi then value else now[i]
    ensures Cell(next, width, height, row, col) ==
            if Wiped(row, rows, height) then value else Cell(now, width, height, row, col)
  {
    RowsOfEdge(row, col, if rows < 0 then height + rows else rows, width, height);
    EdgeFromBelow(rows, width, height);
    var i := Idx(row, col, width);
    hide Idx;
    assert next[i] == if Wiped(row, rows, height) then value else now[i];
  }

  lemma RowsFilled<T>(was: seq<T>, now: seq<T>, next: seq<T>, width: nat, height: nat, cols: int, rows: int, value: T)
    requires |was| == |now| == |next| == width * height && (-(height as int) < rows < height || rows == 0)
    requires ColsFilled(was, now, width, height, cols, value, height)
    requires var lo := if rows < 0 then width * height + rows * width else 0;
             var hi := if rows < 0 then width * height else rows * width;
             forall i :: 0 <= i < |next| ==> next[i] == if lo <= i < hi then value else now[i]
    ensures IsFill(was, width, height, cols, rows, value, next)
  {
    hide Cell;
    forall row: nat, col: nat | row < height && col < width
      ensures Cell(next, width, height, row, col) ==
        if Wiped(col, cols, width) || Wiped(row, rows, height) then value else Cell(was, width, height, row, col)
    {
      CellOfRows(now, next, width, height, rows, value, row, col);
    }
  }

  /** A distance that covers the width, or the height, fills everything. */
  lemma AllFilled<T>(was: seq<T>, now: seq<T>, width: nat, height: nat, cols: int, rows: int, value: T)
    requires |was| == |now| == width * height
    requires forall i :: 0 <= i < |now| ==> now[i] == value
    requires (cols != 0 && (cols >= width || -cols >= width)) || (rows != 0 && (rows >= height || -rows >= height))
    ensures IsFill(was, width, height, cols, rows, value, now)
  {
    forall row: nat, col: nat | row < height && col < width
      ensures Cell(now, width, height, row, col) == value && (Wiped(col, cols, width) || Wiped(row, rows, height))
    {
      IdxBounds(row, col, width, height);
    }
  }

  class Map2D<T> {
    var data: array<T>
    var sizeX: nat
    var sizeY: nat

    /** The product of the two 32-bit sizes is computed in 32 bits, so it must fit. */
    ghost predicate Valid()
      reads this
    {
      data.Length == sizeX * sizeY < 0x1_0000_0000
    }

    constructor (data: array<T>, sizeX: nat, sizeY: nat)
      requires data.Length == sizeX * sizeY < 0x1_0000_0000
      ensures Valid() && this.data == data && this.sizeX == sizeX && this.sizeY == sizeY
    {
      this.data, this.sizeX, this.sizeY := data, sizeX, sizeY;
    }

    /** The inner search of Transpose: step through the index map until it comes back to a or above. */
    static method SearchUp(a: nat, width: nat, height: nat) returns (b: nat, ghost k: nat)
      requires a < width * height
      ensures a <= b < width * height
      ensures FirstReturn(a, k, a, width, height) && b == Iter(a, k, width, height)
    {
      assert Iter(a, 0, width, height) == a;
      b, k := Source(a, width, height), 1;
      while b < a
        invariant k >= 1 && b == Iter(a, k, width, height) && Below(a, k - 1, a, width, height)
        decreases a + 1 - k
      {
        OrbitReturns(a, k, a, width, height);
        b := Source(b, width, height);
        k := k + 1;
      }
    }

    /** In-place transposition: no second buffer and no marks for the elements already placed. */
    method Transpose()
      requires Valid()
      modifies this, data
      ensures Valid() && data == old(data)
      ensures sizeX == old(sizeY) && sizeY == old(sizeX)
      ensures IsTranspose(old(data[..]), old(sizeX), old(sizeY), data[..])
    {
      hide Placed, IsTranspose, FirstReturn, Iter, Source;
      ghost var was := data[..];
      var size := sizeX * sizeY;
      if size > 1 {
        PlacedInitially(was, sizeX, sizeY);
        var a := 1;
        while a < size - 1
          invariant 1 <= a <= size - 1
          invariant Placed(was, data[..], a, sizeX, sizeY)
          modifies data
        {
          ghost var now := data[..];
          var b, k := SearchUp(a, sizeX, sizeY);
          if b != a {
            data[a], data[b] := data[b], data[a];
          }
          assert a < |now| && b < |now| && data[..] == now[a := now[b]][b := now[a]];
          PlacedStep(was, now, data[..], a, k, sizeX, sizeY);
          a := a + 1;
        }
        PlacedFinally(was, data[..], sizeX, sizeY);
      } else {
        SmallTranspose(was, sizeX, sizeY);
      }
      sizeX, sizeY := sizeY, sizeX;
    }

    /** std::rotate on the positions [lo, hi) with pivot lo + left. */
    method RotateBlock(lo: nat, left: nat, hi: nat)
      requires lo + left <= hi <= data.Length
      modifies data
      ensures BlockRotated(old(data[..]), data[..], lo, left, hi)
    {
      hide Rotated;
      var block := data[lo + left..hi] + data[lo..lo + left];
      BlockParts(data[..], block, lo, left, hi);
      forall i | lo <= i < hi {
        data[i] := block[i - lo];
      }
    }

    /** std::fill on the positions [lo, hi). */
    method FillBlock(lo: nat, hi: nat, value: T)
      requires lo <= hi <= data.Length
      modifies data
      ensures forall i :: 0 <= i < data.Length ==> data[i] == if lo <= i < hi then value else old(data[i])
    {
      forall i | lo <= i < hi {
        data[i] := value;
      }
    }

    /** Rotation in place, column direction first, then row direction. The matrix must not be empty:
        the distances are reduced modulo both sizes. */
    method Rotate(cols: int, rows: int)
      requires Valid() && sizeX > 0 && sizeY > 0
      modifies data
      ensures IsRotation(old(data[..]), sizeX, sizeY, cols, rows, data[..])
    {
      hide IsRotation, ColsRotated, BlockRotated, Pivot;
      ghost var was := data[..];
      RotateColumns(cols);
      ghost var now := data[..];
      PivotInRows(rows, sizeX, sizeY);
      var shift := (if rows < 0 then -rows else rows) % sizeY * sizeX;
      if shift != 0 {
        RotateBlock(0, if rows < 0 then shift else sizeX * sizeY - shift, sizeX * sizeY);
      } else {
        BlockUnmoved(now, Pivot(rows, sizeY) * sizeX);
      }
      WholeRotated(was, now, data[..], sizeX, sizeY, cols, rows);
    }

    /** The column half of Rotate: one block rotation per row. */
    method RotateColumns(cols: int)
      requires Valid() && sizeX > 0 && sizeY > 0
      modifies data
      ensures ColsRotated(old(data[..]), data[..], sizeX, sizeY, cols, sizeY)
    {
      hide ColsRotated, BlockRotated;
      ghost var was := data[..];
      PivotIs(cols, sizeX);
      hide Pivot;
      var shift := (if cols < 0 then -cols else cols) % sizeX;
      if shift != 0 {
        NoRowsRotated(was, sizeX, sizeY, cols);
        for row := 0 to sizeY
          invariant ColsRotated(was, data[..], sizeX, sizeY, cols, row)
        {
          ghost var now := data[..];
          RowSpan(row, sizeX, sizeY);
          var offset := row * sizeX;
          RotateBlock(offset, if cols < 0 then shift else sizeX - shift, offset + sizeX);
          RowRotated(was, now, data[..], sizeX, sizeY, cols, row);
        }
      } else {
        NothingToRotate(was, sizeX, sizeY, cols);
      }
    }

    method FillAll(value: T)
      requires Valid()
      modifies data
      ensures forall i :: 0 <= i < data.Length ==> data[i] == value
    {
      FillBlock(0, data.Length, value);
    }

    /** Directional fill: |cols| columns from the side cols names, then |rows| rows likewise. */
    method Fill(cols: int, rows: int, value: T)
      requires Valid()
      modifies data
      ensures IsFill(old(data[..]), sizeX, sizeY, cols, rows, value, data[..])
    {
      hide IsFill, ColsFilled;
      ghost var was := data[..];
      var all := FillColumns(cols, value);
      ghost var now := data[..];
      if all {
        AllFilled(was, now, sizeX, sizeY, cols, rows, value);
        return;
      }
      var shift := if rows < 0 then -rows else rows;
      if shift >= sizeY && shift != 0 {
        FillAll(value);
        AllFilled(was, data[..], sizeX, sizeY, cols, rows, value);
        return;
      }
      FillRows(rows, value);
      RowsFilled(was, now, data[..], sizeX, sizeY, cols, rows, value);
    }

    /** The row half of Fill, for fewer rows than there are: one stretch of elements. */
    method FillRows(rows: int, value: T)
      requires Valid() && (-(sizeY as int) < rows < sizeY || rows == 0)
      modifies data
      ensures var lo := if rows < 0 then sizeX * sizeY + rows * sizeX else 0;
              var hi := if rows < 0 then sizeX * sizeY else rows * sizeX;
              forall i :: 0 <= i < data.Length ==> data[i] == if lo <= i < hi then value else old(data[i])
    {
      var shift := if rows < 0 then -rows else rows;
      RowsSpan(shift, sizeX, sizeY);
      RowsNegated(rows, sizeX);
      var count := shift * sizeX;
      if rows < 0 {
        FillBlock(data.Length - count, data.Length, value);
      } else if rows > 0 {
        FillBlock(0, count, value);
      }
    }

    /** The column half of Fill. Returns true when the distance covers the width, in which case the
        whole matrix has been filled and Fill is done. */
    method FillColumns(cols: int, value: T) returns (all: bool)
      requires Valid()
      modifies data
      ensures all <==> cols != 0 && (if cols < 0 then -cols else cols) >= sizeX
      ensures all ==> forall i :: 0 <= i < data.Length ==> data[i] == value
      ensures !all ==> ColsFilled(old(data[..]), data[..], sizeX, sizeY, cols, value, sizeY)
    {
      hide ColsFilled;
      ghost var was := data[..];
      var shift := if cols < 0 then -cols else cols;
      if shift != 0 && shift >= sizeX {
        FillAll(value);
        return true;
      }
      NoRowsFilled(was, sizeX, sizeY, cols, value);
      if shift != 0 {
        for row := 0 to sizeY
          invariant ColsFilled(was, data[..], sizeX, sizeY, cols, value, row)
        {
          ghost var now := data[..];
          FillPartOfRow(row, cols, value);
          RowFilled(was, now, data[..], sizeX, sizeY, cols, value, row);
        }
      }
      return false;
    }

    /** One turn of its loop: the part of one row, counted from the first row's start or the last one's end. */
    method FillPartOfRow(row: nat, cols: int, value: T)
      requires Valid() && row < sizeY && -(sizeX as int) < cols < sizeX
      modifies data
      ensures var lo := if cols < 0 then sizeX * sizeY - row * sizeX + cols else row * sizeX;
              var hi := if cols < 0 then sizeX * sizeY - row * sizeX else row * sizeX + cols;
              forall i :: 0 <= i < data.Length ==> data[i] == if lo <= i < hi then value else old(data[i])
    {
      RowSpan(row, sizeX, sizeY);
      var shift := if cols < 0 then -cols else cols;
      if cols < 0 {
        var offset := data.Length - row * sizeX;
        FillBlock(offset - shift, offset, value);
      } else {
        var offset := row * sizeX;
        FillBlock(offset, offset + shift, value);
      }
    }

    /** Moves the contents, replacing what moves out by `value` on the other side. */
    method Shift(cols: int, rows: int, value: T)
      requires Valid() && sizeX > 0 && sizeY > 0
      modifies data
      ensures IsShift(old(data[..]), sizeX, sizeY, cols, rows, value, data[..])
    {
      ghost var was := data[..];
      Rotate(cols, rows);
      ghost var now := data[..];
      Fill(cols, rows, value);
      RotateThenFillShifts(was, now, data[..], sizeX, sizeY, cols, rows, value);
    }
  }
}
