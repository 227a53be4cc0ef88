/** Where the bits of a sprite land on a screen, pixel by pixel. */
module SpriteRules {
  import opened Arithmetic

  /** Bit c of a byte, counted from the most significant. */
  predicate BitAt(data: nat, c: nat)
    requires c < 8
  {
    match c {
      case 0 => data / 128 % 2 == 1
      case 1 => data / 64 % 2 == 1
      case 2 => data / 32 % 2 == 1
      case 3 => data / 16 % 2 == 1
      case 4 => data / 8 % 2 == 1
      case 5 => data / 4 % 2 == 1
      case 6 => data / 2 % 2 == 1
      case 7 => data % 2 == 1
    }
  }

  /** Position `at` counted from `start`: around the edge when wrapping, straight otherwise. */
  function Offset(at: nat, start: nat, size: nat, wrap: bool): int
    requires size > 0
  {
    if wrap then (at - start) % size else at - start
  }

  /** Whether a byte drawn at column `start` sets column x. */
  predicate ByteHits(x: nat, start: nat, data: nat, width: nat, wrap: bool)
    requires width > 0
  {
    var c := Offset(x, start, width, wrap);
    0 <= c < 8 && BitAt(data, c)
  }

  /** The same for the first b bits of the byte. */
  predicate HitsBefore(x: nat, start: nat, data: nat, width: nat, wrap: bool, b: nat)
    requires width > 0
  {
    ByteHits(x, start, data, width, wrap) && Offset(x, start, width, wrap) < b
  }

  /** The column at which bit b is drawn. */
  predicate ColumnOf(column: nat, start: nat, b: nat, width: nat, wrap: bool)
    requires width > 0
  {
    column < width && if wrap then column == (start + b) % width else column == start + b
  }

  /** Bit b adds at most the pixel at its own column, one that no earlier bit has touched. */
  lemma HitsNext(x: nat, column: nat, start: nat, data: nat, width: nat, wrap: bool, b: nat)
    requires 16 <= width && x < width && start < 2 * width && b < 8 && ColumnOf(column, start, b, width, wrap)
    ensures HitsBefore(x, start, data, width, wrap, b + 1) <==>
            HitsBefore(x, start, data, width, wrap, b) || (x == column && BitAt(data, b))
    ensures !HitsBefore(column, start, data, width, wrap, b)
  {
    OffsetOfColumn(column, start, b, width, wrap);
    if Offset(x, start, width, wrap) == b {
      OffsetInjective(x, column, start, width, wrap);
    }
  }

  lemma OffsetOfColumn(column: nat, start: nat, b: nat, width: nat, wrap: bool)
    requires start < 2 * width && b < width && ColumnOf(column, start, b, width, wrap)
    ensures Offset(column, start, width, wrap) == b
  {
    if wrap {
      OffsetIs(start, b, column, width);
    }
  }

  /** Stepping a remainder. */
  lemma NextRemainder(x: nat, n: nat)
    requires n > 0
    ensures (x + 1) % n == (x % n + 1) % n
  {
    var q, r := x / n, x % n;
    assert x == q * n + r;
    if r + 1 == n {
      assert (q + 1) * n == q * n + n;
      DivUnique(x + 1, q + 1, 0, n);
      DivUnique(n, 1, 0, n);
    } else {
      DivUnique(x + 1, q, r + 1, n);
      DivUnique(r + 1, 0, r + 1, n);
    }
  }

  lemma NextColumn(column: nat, start: nat, b: nat, width: nat, wrap: bool)
    requires 16 <= width && start < 2 * width && b < 16 && ColumnOf(column, start, b, width, wrap)
    requires wrap || column != width - 1
    ensures ColumnOf((column + 1) % width, start, b + 1, width, wrap)
  {
    if wrap {
      NextRemainder(start + b, width);
    } else {
      DivUnique(column + 1, 0, column + 1, width);
    }
  }

  lemma StartColumn(start: nat, width: nat, wrap: bool)
    requires start < width
    ensures ColumnOf(start, start, 0, width, wrap)
  {
    DivUnique(start, 0, start, width);
  }

  lemma HitsEnds(x: nat, start: nat, data: nat, width: nat, wrap: bool)
    requires width > 0
    ensures !HitsBefore(x, start, data, width, wrap, 0)
    ensures HitsBefore(x, start, data, width, wrap, 8) <==> ByteHits(x, start, data, width, wrap)
  {
  }

  lemma ColumnInRange(column: nat, start: nat, b: nat, width: nat, wrap: bool)
    requires width > 0 && ColumnOf(column, start, b, width, wrap)
    ensures column < width
  {
  }

  /** The empty byte hits nothing, and the byte 0x80 only its own column. */
  lemma SpecialHits(x: nat, start: nat, width: nat, wrap: bool)
    requires 16 <= width && x < width && start < 2 * width
    ensures !ByteHits(x, start, 0, width, wrap)
    ensures ByteHits(x, start, 128, width, wrap) <==> ColumnOf(x, start, 0, width, wrap)
  {
    var c := Offset(x, start, width, wrap);
    if 0 <= c < 8 {
      SpecialBytes(c);
    }
    if ColumnOf(x, start, 0, width, wrap) {
      OffsetOfColumn(x, start, 0, width, wrap);
    } else if c == 0 && wrap {
      var q := (x - start) / width;
      assert x - start == q * width;
      DivUnique(start, -q, x, width);
    }
  }

  /** Without wrapping, the last column ends the byte, and past it there is nothing to hit. */
  lemma HitsAtEdge(x: nat, column: nat, start: nat, data: nat, width: nat, wrap: bool, b: nat)
    requires x < width && ColumnOf(column, start, b, width, wrap) && column == width - 1 && !wrap
    ensures HitsBefore(x, start, data, width, wrap, b + 1) <==> ByteHits(x, start, data, width, wrap)
  {
  }

  lemma HitsOffScreen(x: nat, start: nat, data: nat, width: nat, wrap: bool)
    requires x < width <= start && !wrap
    ensures !ByteHits(x, start, data, width, wrap)
  {
  }

  /** Whether one row of a sprite, one or two bytes wide, sets column x. */
  predicate RowHits(x: nat, left: nat, wide: bool, first: nat, second: nat, width: nat, wrap: bool)
    requires width > 0
  {
    ByteHits(x, left, first, width, wrap) || (wide && ByteHits(x, left + 8, second, width, wrap))
  }

  /** A sprite: `rows` rows of one byte, or of two when wide, from a stretch of memory. */
  datatype Sprite = Sprite(rows: nat, wide: bool, bytes: seq<nat>) {
    predicate Valid() {
      |bytes| == if wide then 2 * rows else rows
    }

    function Byte(row: nat, half: nat): nat
      requires Valid() && row < rows && half < 2
    {
      if wide then bytes[2 * row + half] else bytes[row]
    }
  }

  /** The screen geometry a sprite is drawn with. */
  datatype Frame = Frame(width: nat, height: nat, wrap: bool, top: nat, left: nat) {
    predicate Valid() {
      width >= 16 && height >= 16 && top < height && left < width
    }
  }

  /** The per-pixel rule: pixel (y, x) is hit exactly when the sprite has a set bit at its distance from
      (top, left), measured around the edges when wrapping and straight when clipping. */
  predicate SpriteHits(y: nat, x: nat, f: Frame, s: Sprite)
    requires f.Valid() && s.Valid()
  {
    var r, c := Offset(y, f.top, f.height, f.wrap), Offset(x, f.left, f.width, f.wrap);
    0 <= r < s.rows && 0 <= c < (if s.wide then 16 else 8) && BitAt(s.Byte(r, c / 8), c % 8)
  }

  predicate HitsInRows(y: nat, x: nat, f: Frame, s: Sprite, rows: nat)
    requires f.Valid() && s.Valid()
  {
    SpriteHits(y, x, f, s) && Offset(y, f.top, f.height, f.wrap) < rows
  }

  /** The two bytes of a row cover the sixteen columns once each. */
  lemma RowOfSprite(x: nat, f: Frame, s: Sprite, r: nat)
    requires f.Valid() && s.Valid() && r < s.rows && x < f.width
    ensures var c := Offset(x, f.left, f.width, f.wrap);
            RowHits(x, f.left, s.wide, s.Byte(r, 0), s.Byte(r, 1), f.width, f.wrap) <==>
            0 <= c < (if s.wide then 16 else 8) && BitAt(s.Byte(r, c / 8), c % 8)
  {
    OffsetOfSecondByte(x, f.left, f.width, f.wrap);
    hide Offset, BitAt;
    var c := Offset(x, f.left, f.width, f.wrap);
    if 0 <= c < 8 {
      assert c / 8 == 0 && c % 8 == c;
    } else if 8 <= c < 16 {
      assert c / 8 == 1 && c % 8 == c - 8;
    }
  }

  lemma BytesApart(x: nat, f: Frame, first: nat, second: nat)
    requires f.Valid() && x < f.width
    ensures !(ByteHits(x, f.left, first, f.width, f.wrap) && ByteHits(x, f.left + 8, second, f.width, f.wrap))
  {
    OffsetOfSecondByte(x, f.left, f.width, f.wrap);
    hide Offset, BitAt;
  }

  /** Row r adds its own hits, on a line that no earlier row has touched. */
  lemma HitsNextRow(y: nat, x: nat, line: nat, f: Frame, s: Sprite, r: nat)
    requires f.Valid() && s.Valid() && r < s.rows && r < f.height && y < f.height && x < f.width
    requires ColumnOf(line, f.top, r, f.height, f.wrap)
    ensures HitsInRows(y, x, f, s, r + 1) <==>
            HitsInRows(y, x, f, s, r) ||
            (y == line && RowHits(x, f.left, s.wide, s.Byte(r, 0), s.Byte(r, 1), f.width, f.wrap))
    ensures !HitsInRows(line, x, f, s, r)
  {
    OffsetOfColumn(line, f.top, r, f.height, f.wrap);
    RowOfSprite(x, f, s, r);
    if Offset(y, f.top, f.height, f.wrap) == r {
      OffsetInjective(y, line, f.top, f.height, f.wrap);
    }
    hide Offset, BitAt, ColumnOf, RowHits;
  }

  lemma RowsEnd(y: nat, x: nat, f: Frame, s: Sprite)
    requires f.Valid() && s.Valid()
    ensures !HitsInRows(y, x, f, s, 0)
    ensures HitsInRows(y, x, f, s, s.rows) <==> SpriteHits(y, x, f, s)
  {
    hide Offset, BitAt;
  }

  lemma RowsAtEdge(y: nat, x: nat, line: nat, f: Frame, s: Sprite, r: nat)
    requires f.Valid() && s.Valid() && y < f.height
    requires ColumnOf(line, f.top, r, f.height, f.wrap) && line == f.height - 1 && !f.wrap
    ensures HitsInRows(y, x, f, s, r + 1) <==> SpriteHits(y, x, f, s)
  {
    hide BitAt;
  }

  /** The two special bytes. */
  lemma SpecialBytes(c: nat)
    requires c < 8
    ensures !BitAt(0, c) && (BitAt(128, c) <==> c == 0)
  {
  }

  lemma OffsetIs(start: nat, k: nat, at: nat, size: nat)
    requires start < 2 * size && k < size && at == (start + k) % size
    ensures Offset(at, start, size, true) == k
    ensures start + k < size ==> Offset(at, start, size, false) == k
  {
    var q := (start + k) / size;
    assert start + k == q * size + at;
    DivUnique(at - start, -q, k, size);
    if start + k < size {
      DivUnique(start + k, 0, start + k, size);
    }
  }

  /** Each offset belongs to one position. */
  lemma OffsetInjective(at: nat, other: nat, start: nat, size: nat, wrap: bool)
    requires size > 0 && at < size && other < size
    requires Offset(at, start, size, wrap) == Offset(other, start, size, wrap)
    ensures at == other
  {
    if wrap {
      var p, q := (at - start) / size, (other - start) / size;
      assert at - start == p * size + (at - start) % size && other - start == q * size + (other - start) % size;
      MulLess(p, q, size);
      MulLess(q, p, size);
    }
  }

  /** Eight columns on, the offset is eight less; the left byte's columns are out of the right byte's reach. */
  lemma OffsetOfSecondByte(x: nat, left: nat, width: nat, wrap: bool)
    requires 16 <= width && x < width && left < width
    ensures var c, d := Offset(x, left, width, wrap), Offset(x, left + 8, width, wrap);
            0 <= d < 8 <==> 8 <= c < 16
    ensures var c, d := Offset(x, left, width, wrap), Offset(x, left + 8, width, wrap);
            8 <= c < 16 ==> d == c - 8
  {
    if wrap {
      var c := (x - left) % width;
      var q := (x - left) / width;
      assert x - left == q * width + c;
      if c >= 8 {
        DivUnique(x - left - 8, q, c - 8, width);
      } else {
        assert (q - 1) * width == q * width - width;
        DivUnique(x - left - 8, q - 1, c - 8 + width, width);
      }
    }
  }

  /** A byte of memory; reads past the end give zero. */
  function Read(memory: seq<nat>, at: nat): nat {
    if at < |memory| then memory[at] else 0
  }

  /** The sprite whose rows start at address `at`. */
  function SpriteAt(memory: seq<nat>, at: nat, rows: nat, wide: bool): (s: Sprite)
    ensures s.Valid() && s.rows == rows && s.wide == wide
  {
    Sprite(rows, wide, seq<nat>(if wide then 2 * rows else rows, (k: nat) => Read(memory, at + k)))
  }

  /** A sprite of a single narrow row is that row's byte on the top line. */
  lemma SingleRow(y: nat, x: nat, f: Frame, s: Sprite)
    requires f.Valid() && s.Valid() && s.rows == 1 && !s.wide && y < f.height && x < f.width
    ensures SpriteHits(y, x, f, s) <==> y == f.top && ByteHits(x, f.left, s.Byte(0, 0), f.width, f.wrap)
  {
    StartColumn(f.top, f.height, f.wrap);
    HitsNextRow(y, x, f.top, f, s, 0);
    RowsEnd(y, x, f, s);
    hide SpriteHits, HitsInRows, ColumnOf, ByteHits;
  }

  function BitValue(data: nat, c: nat): nat
    requires c < 8
  {
    if BitAt(data, c) then 1 else 0
  }

  /** Doubling the divisor leaves half of the quotient, and its last bit over. */
  lemma Halves(x: nat, k: nat)
    requires k > 0
    ensures x / k == 2 * (x / (2 * k)) + x / k % 2
  {
    var q, r, rest := x / k / 2, x / k % 2, x % k;
    assert x / k == 2 * q + r;
    assert x == (x / k) * k + rest;
    Regroup(q, r, k);
    DivUnique(x, q, r * k + rest, 2 * k);
  }

  lemma Regroup(q: nat, r: nat, k: nat)
    requires r < 2
    ensures (2 * q + r) * k == q * (2 * k) + r * k
    ensures r * k <= k
  {
  }

  lemma HighSteps(data: nat)
    requires data < 256
    ensures data / 128 == BitValue(data, 0)
    ensures data / 64 == 2 * (data / 128) + BitValue(data, 1)
    ensures data / 32 == 2 * (data / 64) + BitValue(data, 2)
    ensures data / 16 == 2 * (data / 32) + BitValue(data, 3)
  {
    Halves(data, 16);
    Halves(data, 32);
    Halves(data, 64);
  }

  lemma LowSteps(data: nat)
    ensures data / 8 == 2 * (data / 16) + BitValue(data, 4)
    ensures data / 4 == 2 * (data / 8) + BitValue(data, 5)
    ensures data / 2 == 2 * (data / 4) + BitValue(data, 6)
    ensures data == 2 * (data / 2) + BitValue(data, 7)
  {
    Halves(data, 1);
    Halves(data, 2);
    Halves(data, 4);
    Halves(data, 8);
  }

  /** The bits of a byte weigh 128 down to 1. */
  lemma BitsOfByte(data: nat)
    requires data < 256
    ensures data ==
            128 * BitValue(data, 0) + 64 * BitValue(data, 1) + 32 * BitValue(data, 2) + 16 * BitValue(data, 3) +
            8 * BitValue(data, 4) + 4 * BitValue(data, 5) + 2 * BitValue(data, 6) + BitValue(data, 7)
  {
    hide BitValue;
    HighSteps(data);
    LowSteps(data);
  }

  /** Where each byte of a sprite comes from. */
  lemma SpriteByteIs(memory: seq<nat>, at: nat, rows: nat, wide: bool, row: nat, half: nat)
    requires row < rows && half < 2
    ensures var from := at + if wide then 2 * row + half else row;
            SpriteAt(memory, at, rows, wide).Byte(row, half) == if from < |memory| then memory[from] else 0
  {
    var k := if wide then 2 * row + half else row;
    assert SpriteAt(memory, at, rows, wide).bytes[k] == Read(memory, at + k);
  }

  /** Whether the sprite has bit c of row r set. */
  predicate SetBit(s: Sprite, r: nat, c: nat)
    requires s.Valid()
  {
    r < s.rows && c < (if s.wide then 16 else 8) && BitAt(s.Byte(r, c / 8), c % 8)
  }

  /** The pixels hit are those of the set bits: bit c of row r lands r lines below the top and c columns to the right of
      the left edge, around the edges when wrapping and nowhere past them when clipping. */
  lemma HitsAreBits(y: nat, x: nat, f: Frame, s: Sprite)
    requires f.Valid() && s.Valid() && s.rows <= f.height && y < f.height && x < f.width
    ensures SpriteHits(y, x, f, s) <==>
            exists r: nat, c: nat ::
              SetBit(s, r, c) && y == (if f.wrap then (f.top + r) % f.height else f.top + r) &&
              x == if f.wrap then (f.left + c) % f.width else f.left + c
  {
    hide SpriteHits, SetBit;
    forall r: nat, c: nat | SetBit(s, r, c) && y == (if f.wrap then (f.top + r) % f.height else f.top + r) &&
                            x == if f.wrap then (f.left + c) % f.width else f.left + c
      ensures SpriteHits(y, x, f, s)
    {
      BitHits(y, x, f, s, r, c);
    }
    if SpriteHits(y, x, f, s) {
      var r, c := HitBit(y, x, f, s);
    }
  }

  lemma BitHits(y: nat, x: nat, f: Frame, s: Sprite, r: nat, c: nat)
    requires f.Valid() && s.Valid() && s.rows <= f.height && SetBit(s, r, c)
    requires ColumnOf(y, f.top, r, f.height, f.wrap) && ColumnOf(x, f.left, c, f.width, f.wrap)
    ensures SpriteHits(y, x, f, s)
  {
    OffsetOfColumn(y, f.top, r, f.height, f.wrap);
    OffsetOfColumn(x, f.left, c, f.width, f.wrap);
    hide Offset, ColumnOf, BitAt;
  }

  lemma HitBit(y: nat, x: nat, f: Frame, s: Sprite) returns (r: nat, c: nat)
    requires f.Valid() && s.Valid() && y < f.height && x < f.width && SpriteHits(y, x, f, s)
    ensures SetBit(s, r, c) && ColumnOf(y, f.top, r, f.height, f.wrap) && ColumnOf(x, f.left, c, f.width, f.wrap)
  {
    OffsetFits(y, f.top, f.height, f.wrap);
    OffsetFits(x, f.left, f.width, f.wrap);
    hide Offset, ColumnOf, BitAt;
    r, c := Offset(y, f.top, f.height, f.wrap), Offset(x, f.left, f.width, f.wrap);
  }

  lemma OffsetFits(at: nat, start: nat, size: nat, wrap: bool)
    requires size > 0 && at < size && start < size
    ensures var k := Offset(at, start, size, wrap);
            k < size && (k >= 0 ==> ColumnOf(at, start, k, size, wrap))
  {
    if wrap {
      var k, q := (at - start) % size, (at - start) / size;
      assert at - start == q * size + k;
      DivUnique(start + k, -q, at, size);
    }
  }
}
