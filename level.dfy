/** The walled rectangle the snake lives in (src/main.rs:133-167). */
module Level {
  import opened Grid
  import opened Screen

  /** The wall glyph of the tile set. */
  const WALL: u8 := 0xb1

  /** Cell `c` lies on row `row` between columns `lo` (inclusive) and `hi` (exclusive). */
  predicate InRow(c: Cell, row: int, lo: int, hi: int) {
    c.y == row && lo <= c.x < hi
  }

  /** Cell `c` lies on column `col` between rows `lo` (inclusive) and `hi` (exclusive). */
  predicate InColumn(c: Cell, col: int, lo: int, hi: int) {
    c.x == col && lo <= c.y < hi
  }

  /** The rectangle with top-left corner (x, y); it never changes after construction. */
  datatype LevelBounds = LevelBounds(x: nat, y: nat, width: nat, height: nat) {

    /** The cell lies strictly inside the one-cell-thick wall: it is a cell of
        the rectangle that `Draw` does not paint. */
    predicate IsInside(c: Cell): (b: bool)
      ensures b <==> InRect(c) && !OnBorder(c)
    {
      c.x > x && c.x < x + width - 1 && c.y > y && c.y < y + height - 1
    }

    /** The cell lies in the rectangle, walls included. */
    predicate InRect(c: Cell) {
      x <= c.x < x + width && y <= c.y < y + height
    }

    /** The cell is one of the wall cells that `Draw` paints: the top row,
        the left column, the bottom row or the right column. */
    predicate OnBorder(c: Cell) {
      InRow(c, y, x, x + width) || InColumn(c, x, y, y + height) ||
      InRow(c, y + height - 1, x, x + width) || InColumn(c, x + width - 1, y, y + height)
    }

    /** Paint the wall glyph on every border cell and leave every other cell
        as it was.  The source panics when a wall cell falls off the screen. */
    method Draw(buf: ScreenBuffer)
      requires buf.Valid()
      requires width >= 1 && height >= 1
      requires x + width <= buf.width && y + height <= buf.height
      modifies buf.chars
      ensures forall i :: 0 <= i < buf.chars.Length ==>
        buf.chars[i] == if OnBorder(CellAt(buf, i)) then WALL else old(buf.chars[i])
    {
      var cx := x;
      while cx < x + width
        invariant x <= cx <= x + width
        invariant forall i :: 0 <= i < buf.chars.Length ==>
          buf.chars[i] == if InRow(CellAt(buf, i), y, x, cx) then WALL else old(buf.chars[i])
      {
        PaintCell(buf, cx, y);
        cx := cx + 1;
      }
      var cy := y;
      while cy < y + height
        invariant y <= cy <= y + height
        invariant forall i :: 0 <= i < buf.chars.Length ==>
          buf.chars[i] == if InRow(CellAt(buf, i), y, x, x + width) || InColumn(CellAt(buf, i), x, y, cy)
                          then WALL else old(buf.chars[i])
      {
        PaintCell(buf, x, cy);
        cy := cy + 1;
      }
      cx := x;
      while cx < x + width
        invariant x <= cx <= x + width
        invariant forall i :: 0 <= i < buf.chars.Length ==>
          buf.chars[i] == if InRow(CellAt(buf, i), y, x, x + width) || InColumn(CellAt(buf, i), x, y, y + height) ||
                             InRow(CellAt(buf, i), y + height - 1, x, cx)
                          then WALL else old(buf.chars[i])
      {
        PaintCell(buf, cx, y + height - 1);
        cx := cx + 1;
      }
      cy := y;
      while cy < y + height
        invariant y <= cy <= y + height
        invariant forall i :: 0 <= i < buf.chars.Length ==>
          buf.chars[i] == if InRow(CellAt(buf, i), y, x, x + width) || InColumn(CellAt(buf, i), x, y, y + height) ||
                             InRow(CellAt(buf, i), y + height - 1, x, x + width) || InColumn(CellAt(buf, i), x + width - 1, y, cy)
                          then WALL else old(buf.chars[i])
      {
        PaintCell(buf, x + width - 1, cy);
        cy := cy + 1;
      }
    }
  }

  /** The cell whose byte is at offset `i`. */
  function CellAt(buf: ScreenBuffer, i: nat): Cell
    requires buf.Valid() && i < buf.chars.Length
  {
    Cell(i % buf.width, i / buf.width)
  }

  /** `print(buf, x, y, &[WALL])`: the one byte of cell (x, y) becomes the wall glyph. */
  method PaintCell(buf: ScreenBuffer, x: nat, y: nat)
    requires buf.Valid() && x < buf.width && y < buf.height
    modifies buf.chars
    ensures forall i :: 0 <= i < buf.chars.Length ==>
      buf.chars[i] == if CellAt(buf, i) == Cell(x, y) then WALL else old(buf.chars[i])
  {
    Print(buf, x, y, [WALL]);
    forall i | 0 <= i < buf.chars.Length
      ensures (i == buf.Index(x, y)) == (CellAt(buf, i) == Cell(x, y))
    {
      OffsetIsCell(buf.width, buf.height, i, x, y);
    }
  }
}
