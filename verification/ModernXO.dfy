/** XO-CHIP sprite drawing: four bit planes, a plane mask and a choice of brush. */
module ModernXO {
  import opened SpriteRules

  datatype Brush = CLR | XOR | SUB | ADD

  /** What a brush makes of a pixel it touches. */
  predicate Painted(brush: Brush, lit: bool) {
    match brush {
      case CLR => lit
      case XOR => !lit
      case SUB => false
      case ADD => true
    }
  }

  /** ADD lights a pixel, SUB puts it out, XOR toggles it and CLR leaves it. */
  lemma Brushes(lit: bool)
    ensures Painted(ADD, lit) && !Painted(SUB, lit)
    ensures Painted(XOR, lit) == !lit && Painted(CLR, lit) == lit
  {
  }

  /** Whether the mask selects plane p. */
  predicate Selected(mask: nat, p: nat)
    requires p <= 4
  {
    match p {
      case 0 => mask % 2 == 1
      case 1 => mask / 2 % 2 == 1
      case 2 => mask / 4 % 2 == 1
      case 3 => mask / 8 % 2 == 1
      case 4 => false
    }
  }

  /** How many planes below p the mask selects. */
  function Rank(mask: nat, p: nat): nat
    requires p <= 4
  {
    if p == 0 then 0 else Rank(mask, p - 1) + if Selected(mask, p - 1) then 1 else 0
  }

  function PlaneBit(mask: nat, p: nat): nat
    requires p <= 4
  {
    if Selected(mask, p) then 1 else 0
  }

  lemma MaskSteps(mask: nat)
    ensures mask == 2 * (mask / 2) + PlaneBit(mask, 0)
    ensures mask / 2 == 2 * (mask / 4) + PlaneBit(mask, 1)
    ensures mask / 4 == 2 * (mask / 8) + PlaneBit(mask, 2)
    ensures mask / 8 == 2 * (mask / 16) + PlaneBit(mask, 3)
  {
    Halves(mask, 1);
    Halves(mask, 2);
    Halves(mask, 4);
    Halves(mask, 8);
  }

  /** The planes are the lowest four bits of the mask, and a plane's rank counts the ones before it. */
  lemma PlanesOfMask(mask: nat)
    ensures mask % 16 ==
            PlaneBit(mask, 0) + 2 * PlaneBit(mask, 1) + 4 * PlaneBit(mask, 2) + 8 * PlaneBit(mask, 3)
    ensures Rank(mask, 0) == 0
    ensures forall p: nat | p < 4 :: Rank(mask, p + 1) == Rank(mask, p) + PlaneBit(mask, p)
  {
    MaskSteps(mask);
    var low := PlaneBit(mask, 0) + 2 * PlaneBit(mask, 1) + 4 * PlaneBit(mask, 2) + 8 * PlaneBit(mask, 3);
    hide Selected;
    LowBits(mask, mask / 16, low);
  }

  lemma LowBits(mask: nat, high: nat, low: nat)
    requires mask == 16 * high + low && low < 16
    ensures mask % 16 == low
  {
  }

  /** How many rows of a sprite are drawn on one plane: all when wrapping, those above the bottom edge otherwise. */
  function RowsDrawn(f: Frame, rows: nat): nat
    requires f.Valid()
  {
    if !f.wrap && rows > f.height - f.top then f.height - f.top else rows
  }

  /** How many bytes one plane uses up. */
  function Consumed(f: Frame, rows: nat, wide: bool): nat
    requires f.Valid()
  {
    if wide then 2 * RowsDrawn(f, rows) else RowsDrawn(f, rows)
  }

  /** The sprite that lands on plane p: selected planes take consecutive stretches of memory. */
  function PlaneSprite(memory: seq<nat>, at: nat, mask: nat, p: nat, f: Frame, rows: nat, wide: bool): (s: Sprite)
    requires p <= 4 && f.Valid()
    ensures s.Valid() && s.rows == rows && s.wide == wide
  {
    SpriteAt(memory, at + Rank(mask, p) * Consumed(f, rows, wide), rows, wide)
  }

  /** Whether the drawing touches pixel (p, y, x): its plane is selected and the plane's sprite hits it. */
  predicate Touches(memory: seq<nat>, at: nat, mask: nat, f: Frame, rows: nat, wide: bool, p: nat, y: nat, x: nat)
    requires p <= 4 && f.Valid()
  {
    Selected(mask, p) && SpriteHits(y, x, f, PlaneSprite(memory, at, mask, p, f, rows, wide))
  }

  /** Plane p reads where whole sprites laid end to end would have it exactly when it is the first selected plane
      or no row is clipped at the bottom edge. */
  lemma PlaneAddresses(mask: nat, f: Frame, rows: nat, wide: bool, p: nat)
    requires p <= 4 && f.Valid()
    ensures Rank(mask, p) * Consumed(f, rows, wide) == Rank(mask, p) * (if wide then 2 * rows else rows) <==>
            Rank(mask, p) == 0 || f.wrap || f.top + rows <= f.height
  {
    var rank, used, whole := Rank(mask, p), Consumed(f, rows, wide), if wide then 2 * rows else rows;
    assert used == whole <==> f.wrap || f.top + rows <= f.height;
    SameMultiple(rank, used, whole);
    hide Rank, Consumed;
  }

  lemma SameMultiple(k: nat, a: nat, b: nat)
    ensures k * a == k * b <==> k == 0 || a == b
  {
  }

  /** A second XOR undoes the first; a second SUB or ADD changes nothing more. */
  lemma PaintedTwice(brush: Brush, lit: bool)
    ensures Painted(brush, Painted(brush, lit)) == if brush == XOR then lit else Painted(brush, lit)
  {
  }

  class Screen {
    const width: nat
    const height: nat
    const wrap: bool
    /** displayBuffer[0..3]. */
    const pixels: array3<bool>
    const registers: array<nat>
    var memory: seq<nat>
    var index: nat
    var mask: nat
    var brush: Brush

    ghost predicate Valid() {
      width >= 16 && height >= 16 && registers.Length == 16 &&
      pixels.Length0 == 4 && pixels.Length1 == height && pixels.Length2 == width
    }

    constructor (width: nat, height: nat, wrap: bool)
      requires width >= 16 && height >= 16
      ensures Valid() && this.width == width && this.height == height && this.wrap == wrap
      ensures fresh(pixels) && fresh(registers) && mask == 1 && brush == XOR
    {
      this.width, this.height, this.wrap := width, height, wrap;
      pixels := new bool[4, height, width]((_, _, _) => false);
      registers := new nat[16](_ => 0);
      memory, index, mask, brush := [], 0, 1, XOR;
    }

    /** Applies the brush to one pixel and records in VF that it was lit. */
    method Paint(p: nat, y: nat, x: nat)
      requires Valid() && p < 4 && y < height && x < width
      modifies pixels, registers
      ensures forall q, i, j :: 0 <= q < 4 && 0 <= i < height && 0 <= j < width ==>
        pixels[q, i, j] ==
          if q == p && i == y && j == x then Painted(brush, old(pixels[q, i, j])) else old(pixels[q, i, j])
      ensures registers[..] == old(if pixels[p, y, x] then registers[..][15 := 1] else registers[..])
    {
      if pixels[p, y, x] {
        registers[15] := 1;
      }
      match brush {
        case XOR => pixels[p, y, x] := !pixels[p, y, x];
        case SUB => pixels[p, y, x] := false;
        case ADD => pixels[p, y, x] := true;
        case CLR =>
      }
    }

    /** One byte on plane p: each pixel it hits is painted once. */
    method DrawByte(x: nat, y: nat, p: nat, data: nat)
      requires Valid() && p < 4 && y < height && x < 2 * width
      modifies pixels, registers
      ensures forall q: nat, i: nat, j: nat | q < 4 && i < height && j < width ::
        pixels[q, i, j] == if q == p && i == y && ByteHits(j, x, data, width, wrap)
                           then Painted(brush, old(pixels[q, i, j])) else old(pixels[q, i, j])
      ensures registers[..] == old(if exists j: nat :: j < width && ByteHits(j, x, data, width, wrap) && pixels[p, y, j]
                                   then registers[..][15 := 1] else registers[..])
    {
      hide BitAt, Offset, ColumnOf, ByteHits, HitsBefore, Painted;
      if data == 0 {
        forall j: nat | j < width {
          SpecialHits(j, x, width, wrap);
        }
        return;
      }
      var column: nat := x;
      if wrap {
        column := column % width;
      } else if column >= width {
        forall j: nat | j < width {
          HitsOffScreen(j, x, data, width, wrap);
        }
        return;
      }
      FirstColumn(column, x, width, wrap);
      forall j: nat | j < width {
        HitsEnds(j, x, data, width, wrap);
      }
      for b := 0 to 8
        invariant column < width && ColumnOf(column, x, b, width, wrap)
        invariant forall q: nat, i: nat, j: nat | q < 4 && i < height && j < width ::
          pixels[q, i, j] == if q == p && i == y && HitsBefore(j, x, data, width, wrap, b)
                             then Painted(brush, old(pixels[q, i, j])) else old(pixels[q, i, j])
        invariant registers[..] == old(if exists j: nat ::
                                         j < width && HitsBefore(j, x, data, width, wrap, b) && pixels[p, y, j]
                                       then registers[..][15 := 1] else registers[..])
      {
        forall j: nat | j < width {
          HitsNext(j, column, x, data, width, wrap, b);
        }
        if BitAt(data, b) {
          Paint(p, y, column);
        }
        if !wrap && column == width - 1 {
          forall j: nat | j < width {
            HitsAtEdge(j, column, x, data, width, wrap, b);
          }
          return;
        }
        NextColumn(column, x, b, width, wrap);
        column := (column + 1) % width;
      }
    }

    /** One row on plane p. */
    method DrawRow(ghost f: Frame, y: nat, left: nat, p: nat, wide: bool, first: nat, second: nat)
      requires Valid() && f.Valid() && p < 4 && y < height
      requires f.width == width && f.height == height && f.wrap == wrap && f.left == left
      modifies pixels, registers
      ensures forall q: nat, i: nat, j: nat | q < 4 && i < height && j < width ::
        pixels[q, i, j] == if q == p && i == y && RowHits(j, left, wide, first, second, width, wrap)
                           then Painted(brush, old(pixels[q, i, j])) else old(pixels[q, i, j])
      ensures registers[..] == old(if exists j: nat ::
                                     j < width && RowHits(j, left, wide, first, second, width, wrap) && pixels[p, y, j]
                                   then registers[..][15 := 1] else registers[..])
    {
      hide ByteHits, Painted;
      forall j: nat | j < width {
        BytesApart(j, f, first, second);
      }
      DrawByte(left, y, p, first);
      if wide {
        DrawByte(left + 8, y, p, second);
      }
    }

    /** The row loop on plane p, reading from the index register plus `offset`; returns the offset it leaves off
        at, which counts only the rows it drew. */
    method DrawPlane(ghost f: Frame, ghost s: Sprite, top: nat, left: nat, p: nat, rows: nat, wide: bool, offset: nat)
      returns (next: nat)
      requires Valid() && f.Valid() && p < 4 && 0 < rows <= 16
      requires f == Frame(width, height, wrap, top, left) && s == SpriteAt(memory, index + offset, rows, wide)
      modifies pixels, registers
      ensures next == offset + Consumed(f, rows, wide)
      ensures forall q: nat, i: nat, j: nat | q < 4 && i < height && j < width ::
        pixels[q, i, j] == if q == p && SpriteHits(i, j, f, s)
                           then Painted(brush, old(pixels[q, i, j])) else old(pixels[q, i, j])
      ensures registers[..] == old(if exists i: nat, j: nat ::
                                     i < height && j < width && SpriteHits(i, j, f, s) && pixels[p, i, j]
                                   then registers[..][15 := 1] else registers[..])
    {
      hide RowHits, SpriteHits, HitsInRows, ColumnOf, Painted, Consumed, RowsDrawn;
      StartColumn(top, height, wrap);
      forall i: nat, j: nat | i < height && j < width {
        RowsEnd(i, j, f, s);
      }
      var y: nat := top;
      next := offset;
      for h := 0 to rows
        invariant y < height && ColumnOf(y, top, h, height, wrap)
        invariant next == offset + if wide then 2 * h else h
        invariant forall q: nat, i: nat, j: nat | q < 4 && i < height && j < width ::
          pixels[q, i, j] == if q == p && HitsInRows(i, j, f, s, h)
                             then Painted(brush, old(pixels[q, i, j])) else old(pixels[q, i, j])
        invariant registers[..] == old(if exists i: nat, j: nat ::
                                         i < height && j < width && HitsInRows(i, j, f, s, h) && pixels[p, i, j]
                                       then registers[..][15 := 1] else registers[..])
      {
        forall i: nat, j: nat | i < height && j < width {
          HitsNextRow(i, j, y, f, s, h);
        }
        LineInRange(y, top, h, height, wrap);
        var first := Read(memory, index + next);
        next := next + 1;
        var second := first;
        if wide {
          second := Read(memory, index + next);
          next := next + 1;
        }
        DrawRow(f, y, left, p, wide, first, second);
        if !wrap && y == height - 1 {
          forall i: nat, j: nat | i < height && j < width {
            RowsAtEdge(i, j, y, f, s, h);
          }
          ConsumedIs(f, rows, wide, h + 1);
          return;
        }
        NextColumn(y, top, h, height, wrap);
        y := (y + 1) % height;
      }
      LastLine(y, top, rows, height, wrap);
      ConsumedIs(f, rows, wide, rows);
    }

    function Origin(vx: nat, vy: nat): (f: Frame)
      requires Valid() && vx < 16 && vy < 16
      reads registers
      ensures f.Valid()
    {
      Frame(width, height, wrap, registers[vy] % height, registers[vx] % width)
    }

    /** Whether drawing nibble n with the origin f touches pixel (p, y, x). */
    predicate Draws(f: Frame, n: nat, p: nat, y: nat, x: nat)
      requires f.Valid() && p <= 4
      reads this
    {
      Touches(memory, index, mask, f, if n == 0 then 16 else n, n == 0, p, y, x)
    }

    /** Every pixel of every plane: touched ones are painted, all others and all unselected planes stay; VF says
        whether a lit pixel was touched, whatever the brush. */
    method DrawSprite(vx: nat, vy: nat, n: nat)
      requires Valid() && vx < 16 && vy < 16 && n < 16
      modifies pixels, registers
      ensures forall p: nat, i: nat, j: nat | p < 4 && i < height && j < width ::
        pixels[p, i, j] == if Draws(old(Origin(vx, vy)), n, p, i, j)
                           then Painted(brush, old(pixels[p, i, j])) else old(pixels[p, i, j])
      ensures registers[..] == old(registers[..])[15 := if exists p: nat, i: nat, j: nat ::
        p < 4 && i < height && j < width && Draws(old(Origin(vx, vy)), n, p, i, j) && old(pixels[p, i, j])
        then 1 else 0]
    {
      hide SpriteHits, Painted, Selected, PlaneSprite;
      var x, y := registers[vx], registers[vy];
      ghost var f := Origin(vx, vy);
      registers[15] := 0;
      if mask == 0 {
        NothingSelected();
        return;
      }
      var left, top := x % width, y % height;
      var wide := n == 0;
      var rows := if wide then 16 else n;
      var offset: nat := 0;
      for p := 0 to 4
        invariant offset == Rank(mask, p) * Consumed(f, rows, wide)
        invariant forall q: nat, i: nat, j: nat | q < 4 && i < height && j < width ::
          pixels[q, i, j] == if q < p && Draws(f, n, q, i, j)
                             then Painted(brush, old(pixels[q, i, j])) else old(pixels[q, i, j])
        invariant registers[..] == old(registers[..])[15 := if exists q: nat, i: nat, j: nat ::
          q < p && i < height && j < width && Draws(f, n, q, i, j) && old(pixels[q, i, j]) then 1 else 0]
      {
        if !Selected(mask, p) {
          continue;
        }
        ghost var s := PlaneSprite(memory, index, mask, p, f, rows, wide);
        NextStretch(mask, p, Consumed(f, rows, wide));
        PlaneSpriteIs(memory, index, mask, p, f, rows, wide, offset);
        offset := DrawPlane(f, s, top, left, p, rows, wide, offset);
      }
    }
  }

  lemma ConsumedIs(f: Frame, rows: nat, wide: bool, drawn: nat)
    requires f.Valid() && drawn <= rows
    requires if drawn < rows then !f.wrap && f.top + drawn == f.height else f.wrap || rows <= f.height - f.top
    ensures Consumed(f, rows, wide) == if wide then 2 * drawn else drawn
  {
  }

  lemma NothingSelected()
    ensures forall p: nat | p < 4 :: !Selected(0, p)
  {
  }

  lemma PlaneSpriteIs(memory: seq<nat>, at: nat, mask: nat, p: nat, f: Frame, rows: nat, wide: bool, offset: nat)
    requires p <= 4 && f.Valid() && offset == Rank(mask, p) * Consumed(f, rows, wide)
    ensures PlaneSprite(memory, at, mask, p, f, rows, wide) == SpriteAt(memory, at + offset, rows, wide)
  {
  }

  lemma NextStretch(mask: nat, p: nat, size: nat)
    requires p < 4 && Selected(mask, p)
    ensures Rank(mask, p + 1) * size == Rank(mask, p) * size + size
  {
  }

  lemma FirstColumn(column: nat, x: nat, width: nat, wrap: bool)
    requires width > 0 && if wrap then column == x % width else column == x < width
    ensures ColumnOf(column, x, 0, width, wrap)
  {
  }

  /** While lines are clipped, line y is h below the top one. */
  lemma LineInRange(y: nat, top: nat, h: nat, height: nat, wrap: bool)
    requires height > 0 && ColumnOf(y, top, h, height, wrap)
    ensures !wrap ==> y == top + h < height
  {
  }

  lemma LastLine(y: nat, top: nat, rows: nat, height: nat, wrap: bool)
    requires height > 0 && ColumnOf(y, top, rows, height, wrap)
    ensures !wrap ==> rows <= height - top
  {
  }

  /** Drawing twice at the same place: under the XOR brush every pixel is restored, under the others the second
      drawing adds nothing to the first. */
  method DrawTwice(screen: Screen, vx: nat, vy: nat, n: nat)
    requires screen.Valid() && vx < 15 && vy < 15 && n < 16
    modifies screen.pixels, screen.registers
    ensures forall p: nat, i: nat, j: nat | p < 4 && i < screen.height && j < screen.width ::
      screen.pixels[p, i, j] ==
        if screen.brush == XOR then old(screen.pixels[p, i, j])
        else if screen.Draws(old(screen.Origin(vx, vy)), n, p, i, j)
             then Painted(screen.brush, old(screen.pixels[p, i, j])) else old(screen.pixels[p, i, j])
    ensures screen.registers[..15] == old(screen.registers[..15])
  {
    screen.DrawSprite(vx, vy, n);
    screen.DrawSprite(vx, vy, n);
  }
}
