/** What the directional operations of a matrix mean, row by row and column by column, and how they compose. */
module MatrixScroll {
  import opened Arithmetic
  import opened MatrixOrbits

  /** i counted around a ring of n positions. */
  function Wrap(i: int, n: nat): (r: nat)
    requires n > 0
    ensures r < n
  {
    i % n
  }

  /** t is s scrolled right by cols and down by rows, the elements pushed out coming back on the other side. */
  ghost predicate IsRotation<T>(s: seq<T>, width: nat, height: nat, cols: int, rows: int, t: seq<T>)
    requires |s| == width * height && width > 0 && height > 0
  {
    |t| == |s| &&
    forall row: nat, col: nat | row < height && col < width ::
      Cell(t, width, height, row, col) == Cell(s, width, height, Wrap(row - rows, height), Wrap(col - cols, width))
  }

  /** The positions that a directional fill by n overwrites, of `size` columns or rows. */
  predicate Wiped(i: nat, n: int, size: nat) {
    i < n || i >= size + n
  }

  ghost predicate IsFill<T>(s: seq<T>, width: nat, height: nat, cols: int, rows: int, value: T, t: seq<T>)
    requires |s| == width * height
  {
    |t| == |s| &&
    forall row: nat, col: nat | row < height && col < width ::
      Cell(t, width, height, row, col) ==
        if Wiped(col, cols, width) || Wiped(row, rows, height) then value else Cell(s, width, height, row, col)
  }

  /** t is s moved right by cols and down by rows, with `value` wherever nothing moved in. */
  ghost predicate IsShift<T>(s: seq<T>, width: nat, height: nat, cols: int, rows: int, value: T, t: seq<T>)
    requires |s| == width * height
  {
    |t| == |s| &&
    forall row: nat, col: nat | row < height && col < width ::
      Cell(t, width, height, row, col) ==
        if 0 <= row - rows < height && 0 <= col - cols < width
        then Cell(s, width, height, row - rows, col - cols) else value
  }

  lemma WrapWrap(i: int, x: int, y: int, n: nat)
    requires n > 0
    ensures Wrap(Wrap(i - y, n) - x, n) == Wrap(i - (x + y), n)
  {
    var z := i - (x + y);
    var q := (i - y) / n;
    assert i - y == q * n + (i - y) % n;
    assert z == (z / n) * n + z % n;
    var w := (i - y) % n - x;
    assert w == z - q * n == (z / n - q) * n + z % n;
    DivUnique(w, z / n - q, z % n, n);
  }

  lemma WrapId(i: nat, n: nat)
    requires i < n
    ensures Wrap(i, n) == i
  {
    DivUnique(i, 0, i, n);
  }

  /** Two rotations in a row are one rotation by the sums, whatever their signs and magnitudes. */
  lemma RotationsCompose<T>(s: seq<T>, t: seq<T>, u: seq<T>, width: nat, height: nat, a: int, b: int, c: int, d: int)
    requires |s| == width * height && width > 0 && height > 0
    requires IsRotation(s, width, height, a, b, t) && IsRotation(t, width, height, c, d, u)
    ensures IsRotation(s, width, height, a + c, b + d, u)
  {
    forall row: nat, col: nat | row < height && col < width
      ensures Cell(u, width, height, row, col) ==
              Cell(s, width, height, Wrap(row - (b + d), height), Wrap(col - (a + c), width))
    {
      WrapWrap(row, b, d, height);
      WrapWrap(col, a, c, width);
      assert Cell(u, width, height, row, col) == Cell(t, width, height, Wrap(row - d, height), Wrap(col - c, width));
    }
  }

  /** Matrices that agree cell by cell are the same buffer. */
  lemma CellsEqual<T>(s: seq<T>, t: seq<T>, width: nat, height: nat)
    requires |s| == |t| == width * height
    requires forall row: nat, col: nat | row < height && col < width ::
      Cell(s, width, height, row, col) == Cell(t, width, height, row, col)
    ensures s == t
  {
    forall i | 0 <= i < |s|
      ensures s[i] == t[i]
    {
      IdxOf(i, width, height);
      assert Cell(s, width, height, i / width, i % width) == Cell(t, width, height, i / width, i % width);
    }
  }

  /** The opposite rotation undoes a rotation. */
  lemma RotationUndone<T>(s: seq<T>, t: seq<T>, u: seq<T>, width: nat, height: nat, cols: int, rows: int)
    requires |s| == width * height && width > 0 && height > 0
    requires IsRotation(s, width, height, cols, rows, t) && IsRotation(t, width, height, -cols, -rows, u)
    ensures u == s
  {
    RotationsCompose(s, t, u, width, height, cols, rows, -cols, -rows);
    forall row: nat, col: nat | row < height && col < width
      ensures Cell(u, width, height, row, col) == Cell(s, width, height, row, col)
    {
      WrapId(row, height);
      WrapId(col, width);
    }
    CellsEqual(u, s, width, height);
  }

  lemma NotWiped(i: nat, n: int, size: nat)
    requires i < size
    ensures !Wiped(i, n, size) <==> 0 <= i - n < size
    ensures !Wiped(i, n, size) ==> Wrap(i - n, size) == i - n
  {
    if !Wiped(i, n, size) {
      WrapId(i - n, size);
    }
  }

  /** Rotating and then filling in the same direction is a shift: the fill hits exactly what wrapped around. */
  lemma RotateThenFillShifts<T>(s: seq<T>, t: seq<T>, u: seq<T>, width: nat, height: nat, cols: int, rows: int,
                                value: T)
    requires |s| == width * height && width > 0 && height > 0
    requires IsRotation(s, width, height, cols, rows, t) && IsFill(t, width, height, cols, rows, value, u)
    ensures IsShift(s, width, height, cols, rows, value, u)
  {
    forall row: nat, col: nat | row < height && col < width
      ensures Cell(u, width, height, row, col) ==
        if 0 <= row - rows < height && 0 <= col - cols < width
        then Cell(s, width, height, row - rows, col - cols) else value
    {
      NotWiped(row, rows, height);
      NotWiped(col, cols, width);
    }
  }

  /** Index arithmetic of one block rotation: position i of a block of n whose first `left` elements went to its end. */
  function Rotated(i: nat, left: nat, n: nat): (r: nat)
    requires i < n && left <= n
    ensures r < n
  {
    if i + left < n then i + left else i + left - n
  }

  /** The pivot std::rotate is given for a signed distance: |n| % size, counted from the side the sign names. */
  function Pivot(n: int, size: nat): nat
    requires size > 0
  {
    var distance := (if n < 0 then -n else n) % size;
    if n < 0 then distance else size - distance
  }

  /** Rotating a block of `size` at that pivot moves it by n, modulo its size. */
  lemma PivotRotates(i: nat, n: int, size: nat)
    requires i < size
    ensures Pivot(n, size) <= size && Rotated(i, Pivot(n, size), size) == Wrap(i - n, size)
  {
    var m := if n < 0 then -n else n;
    assert m == (m / size) * size + m % size;
    var r := Rotated(i, Pivot(n, size), size);
    if n < 0 {
      DivUnique(i - n, if i + m % size < size then m / size else m / size + 1, r, size);
    } else {
      DivUnique(i - n, if i >= m % size then -(m / size) else -(m / size) - 1, r, size);
    }
  }

  // The same element by element: position (row, col) is index row * width + col of the buffer.

  lemma CellIs<T>(s: seq<T>, width: nat, height: nat, row: nat, col: nat)
    requires |s| == width * height && row < height && col < width
    ensures row * width + col < |s| && Cell(s, width, height, row, col) == s[row * width + col]
  {
    IdxBounds(row, col, width, height);
  }

  /** A rotation moves each element right by cols and down by rows, around both edges. */
  lemma RotationAt<T>(s: seq<T>, width: nat, height: nat, cols: int, rows: int, t: seq<T>, row: nat, col: nat)
    requires |s| == width * height && row < height && col < width
    requires IsRotation(s, width, height, cols, rows, t)
    ensures var from := (row - rows) % height * width + (col - cols) % width;
            |t| == |s| && row * width + col < |s| && 0 <= from < |s| && t[row * width + col] == s[from]
  {
    hide Cell;
    CellIs(t, width, height, row, col);
    CellIs(s, width, height, Wrap(row - rows, height), Wrap(col - cols, width));
  }

  /** A fill by cols and rows overwrites the first columns and rows for positive numbers, the last ones for negative. */
  lemma FillAt<T>(s: seq<T>, width: nat, height: nat, cols: int, rows: int, value: T, t: seq<T>, row: nat, col: nat)
    requires |s| == width * height && row < height && col < width
    requires IsFill(s, width, height, cols, rows, value, t)
    ensures |t| == |s| && row * width + col < |s|
    ensures t[row * width + col] ==
            if (cols > 0 && col < cols) || (cols < 0 && width - col <= -cols) ||
               (rows > 0 && row < rows) || (rows < 0 && height - row <= -rows)
            then value else s[row * width + col]
  {
    hide Cell;
    CellIs(t, width, height, row, col);
    CellIs(s, width, height, row, col);
  }

  /** A shift moves each element right by cols and down by rows and leaves the value where none came from. */
  lemma ShiftAt<T>(s: seq<T>, width: nat, height: nat, cols: int, rows: int, value: T, t: seq<T>, row: nat, col: nat)
    requires |s| == width * height && row < height && col < width
    requires IsShift(s, width, height, cols, rows, value, t)
    ensures |t| == |s| && row * width + col < |s|
    ensures if 0 <= row - rows < height && 0 <= col - cols < width
            then 0 <= (row - rows) * width + (col - cols) < |s| &&
                 t[row * width + col] == s[(row - rows) * width + (col - cols)]
            else t[row * width + col] == value
  {
    hide Cell;
    CellIs(t, width, height, row, col);
    if 0 <= row - rows < height && 0 <= col - cols < width {
      CellIs(s, width, height, row - rows, col - cols);
    }
  }
}
