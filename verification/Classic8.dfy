/** CHIP-8 sprite drawing on one plane. */
module Classic8 {
  import opened SpriteRules

  class Display {
    const width: nat
    const height: nat
    const wrap: bool
    /** displayBuffer[0], one flag per pixel. */
    const pixels: array2<bool>
    /** mRegisterV. */
    const registers: array<nat>
    /** The memory bank and the index register: where sprites come from. */
    var memory: seq<nat>
    var index: nat

    ghost predicate Valid() {
      width >= 16 && height >= 16 && pixels.Length0 == height && pixels.Length1 == width &&
      registers.Length == 16
    }

    constructor (width: nat, height: nat, wrap: bool)
      requires width >= 16 && height >= 16
      ensures Valid() && this.width == width && this.height == height && this.wrap == wrap
      ensures fresh(pixels) && fresh(registers)
    {
      this.width, this.height, this.wrap := width, height, wrap;
      pixels := new bool[height, width]((_, _) => false);
      registers := new nat[16](_ => 0);
      memory, index := [], 0;
    }

    /** Toggles one pixel and records in VF that a lit one went out. */
    method Toggle(y: nat, x: nat)
      requires Valid() && y < height && x < width
      modifies pixels, registers
      ensures forall i, j :: 0 <= i < height && 0 <= j < width ==>
        pixels[i, j] == if i == y && j == x then !old(pixels[i, j]) else old(pixels[i, j])
      ensures registers[..] == old(if pixels[y, x] then registers[..][15 := 1] else registers[..])
    {
      pixels[y, x] := !pixels[y, x];
      if !pixels[y, x] {
        registers[15] := 1;
      }
    }

    /** One byte, with its shortcuts for 0x00 and 0x80: all three cases follow the one per-pixel rule. */
    method DrawByte(x: nat, y: nat, data: nat)
      requires Valid() && y < height && x < 2 * width
      modifies pixels, registers
      ensures forall i: nat, j: nat | i < height && j < width ::
        pixels[i, j] == (old(pixels[i, j]) != (i == y && ByteHits(j, x, data, width, wrap)))
      ensures registers[..] == old(if exists j: nat :: j < width && ByteHits(j, x, data, width, wrap) && pixels[y, j]
                                   then registers[..][15 := 1] else registers[..])
    {
      hide BitAt, Offset, ByteHits;
      forall j: nat | j < width {
        SpecialHits(j, x, width, wrap);
      }
      var column: nat := x;
      match data {
        case 0 =>
          return;
        case 128 =>
          if wrap { column := column % width; }
          if column < width {
            Toggle(y, column);
          }
        case _ =>
          if wrap { column := column % width; }
          else if column >= width {
            forall j: nat | j < width {
              HitsOffScreen(j, x, data, width, wrap);
            }
            return;
          }
          DrawBits(x, column, y, data);
      }
    }

    /** The bit loop: from the first column on, around the edge or up to it. */
    method DrawBits(ghost x: nat, start: nat, y: nat, data: nat)
      requires Valid() && y < height && x < 2 * width && ColumnOf(start, x, 0, width, wrap)
      modifies pixels, registers
      ensures forall i: nat, j: nat | i < height && j < width ::
        pixels[i, j] == (old(pixels[i, j]) != (i == y && ByteHits(j, x, data, width, wrap)))
      ensures registers[..] == old(if exists j: nat :: j < width && ByteHits(j, x, data, width, wrap) && pixels[y, j]
                                   then registers[..][15 := 1] else registers[..])
    {
      hide BitAt, Offset, ColumnOf, ByteHits, HitsBefore;
      ColumnInRange(start, x, 0, width, wrap);
      forall j: nat | j < width {
        HitsEnds(j, x, data, width, wrap);
      }
      var column: nat := start;
      for b := 0 to 8
        invariant column < width && ColumnOf(column, x, b, width, wrap)
        invariant forall i: nat, j: nat | i < height && j < width ::
          pixels[i, j] == (old(pixels[i, j]) != (i == y && HitsBefore(j, x, data, width, wrap, b)))
        invariant registers[..] == old(if exists j: nat ::
                                         j < width && HitsBefore(j, x, data, width, wrap, b) && pixels[y, j]
                                       then registers[..][15 := 1] else registers[..])
      {
        forall j: nat | j < width {
          HitsNext(j, column, x, data, width, wrap, b);
        }
        if BitAt(data, b) {
          Toggle(y, column);
        }
        assert forall i: nat, j: nat | i < height && j < width ::
          pixels[i, j] == (old(pixels[i, j]) != (i == y && HitsBefore(j, x, data, width, wrap, b + 1)));
        if !wrap && column == width - 1 {
          forall j: nat | j < width {
            HitsAtEdge(j, column, x, data, width, wrap, b);
          }
          return;
        }
        NextColumn(column, x, b, width, wrap);
        column := (column + 1) % width;
      }
    }

    /** One row: the byte at the left edge and, in a wide sprite, the one eight columns on. */
    method DrawRow(ghost f: Frame, y: nat, left: nat, wide: bool, first: nat, second: nat)
      requires Valid() && f.Valid() && y < height
      requires f.width == width && f.height == height && f.wrap == wrap && f.left == left
      modifies pixels, registers
      ensures forall i: nat, j: nat | i < height && j < width ::
        pixels[i, j] == (old(pixels[i, j]) != (i == y && RowHits(j, left, wide, first, second, width, wrap)))
      ensures registers[..] == old(if exists j: nat ::
                                     j < width && RowHits(j, left, wide, first, second, width, wrap) && pixels[y, j]
                                   then registers[..][15 := 1] else registers[..])
    {
      hide ByteHits;
      forall j: nat | j < width {
        BytesApart(j, f, first, second);
      }
      DrawByte(left, y, first);
      if wide {
        DrawByte(left + 8, y, second);
      }
    }

    /** The row loops: from the top line on, around the edge or up to it. */
    method DrawRows(ghost f: Frame, ghost s: Sprite, top: nat, left: nat, rows: nat, wide: bool)
      requires Valid() && f.Valid() && rows <= 16
      requires f == Frame(width, height, wrap, top, left) && s == SpriteAt(memory, index, rows, wide)
      modifies pixels, registers
      ensures forall i: nat, j: nat | i < height && j < width ::
        pixels[i, j] == (old(pixels[i, j]) != SpriteHits(i, j, f, s))
      ensures registers[..] == old(if exists i: nat, j: nat ::
                                     i < height && j < width && SpriteHits(i, j, f, s) && pixels[i, j]
                                   then registers[..][15 := 1] else registers[..])
    {
      hide RowHits, SpriteHits, HitsInRows, ColumnOf;
      StartColumn(top, height, wrap);
      forall i: nat, j: nat | i < height && j < width {
        RowsEnd(i, j, f, s);
      }
      var y: nat := top;
      for h := 0 to rows
        invariant y < height && ColumnOf(y, top, h, height, wrap)
        invariant forall i: nat, j: nat | i < height && j < width ::
          pixels[i, j] == (old(pixels[i, j]) != HitsInRows(i, j, f, s, h))
        invariant registers[..] == old(if exists i: nat, j: nat ::
                                         i < height && j < width && HitsInRows(i, j, f, s, h) && pixels[i, j]
                                       then registers[..][15 := 1] else registers[..])
      {
        forall i: nat, j: nat | i < height && j < width {
          HitsNextRow(i, j, y, f, s, h);
        }
        var first := Read(memory, if wide then index + 2 * h else index + h);
        var second := if wide then Read(memory, index + 2 * h + 1) else first;
        DrawRow(f, y, left, wide, first, second);
        if !wrap && y == height - 1 {
          forall i: nat, j: nat | i < height && j < width {
            RowsAtEdge(i, j, y, f, s, h);
          }
          return;
        }
        NextColumn(y, top, h, height, wrap);
        y := (y + 1) % height;
      }
    }

    /** Where register pair (vx, vy) places a sprite. */
    function Origin(vx: nat, vy: nat): (f: Frame)
      requires Valid() && vx < 16 && vy < 16
      reads registers
      ensures f.Valid()
    {
      Frame(width, height, wrap, registers[vy] % height, registers[vx] % width)
    }

    /** The sprite an instruction with low nibble n names: sixteen wide rows when n is 0, n rows otherwise. */
    function Named(n: nat): (s: Sprite)
      reads this
      ensures s.Valid()
    {
      SpriteAt(memory, index, if n == 0 then 16 else n, n == 0)
    }

    /** Whether the sprite lands on a lit pixel. */
    ghost predicate Collides(f: Frame, s: Sprite)
      requires Valid() && f.Valid() && s.Valid()
      reads pixels
    {
      exists i: nat, j: nat :: i < height && j < width && SpriteHits(i, j, f, s) && pixels[i, j]
    }

    /** Every pixel follows the one wrap-or-clip rule, whichever branch n takes, and VF says whether a lit one
        was hit; a coordinate held in VF is read before VF is cleared. */
    method DrawSprite(vx: nat, vy: nat, n: nat)
      requires Valid() && vx < 16 && vy < 16 && n < 16
      modifies pixels, registers
      ensures forall i: nat, j: nat | i < height && j < width ::
        pixels[i, j] == (old(pixels[i, j]) != SpriteHits(i, j, old(Origin(vx, vy)), Named(n)))
      ensures registers[..] ==
        old(registers[..])[15 := if old(Collides(Origin(vx, vy), Named(n))) then 1 else 0]
    {
      ghost var f, s := Origin(vx, vy), Named(n);
      hide SpriteHits, ByteHits;
      var left, top := registers[vx] % width, registers[vy] % height;
      registers[15] := 0;
      match n {
        case 1 =>
          forall i: nat, j: nat | i < height && j < width {
            SingleRow(i, j, f, s);
          }
          DrawByte(left, top, Read(memory, index));
        case 0 =>
          DrawRows(f, s, top, left, 16, true);
        case _ =>
          DrawRows(f, s, top, left, n, false);
      }
    }
  }

  /** Drawing the same sprite again at the same place takes it off the display: every pixel is restored, and the
      second VF tells whether the first drawing had lit anything. */
  method DrawTwice(display: Display, vx: nat, vy: nat, n: nat)
    requires display.Valid() && vx < 15 && vy < 15 && n < 16
    modifies display.pixels, display.registers
    ensures forall i: nat, j: nat | i < display.height && j < display.width ::
      display.pixels[i, j] == old(display.pixels[i, j])
    ensures display.registers[15] == 1 <==>
      exists i: nat, j: nat :: i < display.height && j < display.width &&
        SpriteHits(i, j, old(display.Origin(vx, vy)), display.Named(n)) && !old(display.pixels[i, j])
    ensures display.registers[..15] == old(display.registers[..15])
  {
    display.DrawSprite(vx, vy, n);
    display.DrawSprite(vx, vy, n);
  }
}
