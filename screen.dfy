/** The character buffer the game draws glyphs into (src/main.rs:88-122). */
module Screen {
  import opened Arith

  newtype u8 = x: int | 0 <= x < 256

  /** Row-major offset of cell (x, y) in a buffer `width` cells wide. */
  function Offset(width: nat, x: nat, y: nat): nat {
    y * width + x
  }

  /** An offset inside a `width` by `height` buffer names exactly one cell:
      its column is the offset mod `width` and its row the offset div `width`. */
  lemma {:induction false} OffsetDecodes(width: nat, height: nat, x: nat, y: nat)
    requires x < width && y < height
    ensures Offset(width, x, y) < width * height
    ensures Offset(width, x, y) % width == x && Offset(width, x, y) / width == y
  {
    MulOrder(y, height - 1, width);
    assert (height - 1) * width + width == height * width;
    DivModUnique(Offset(width, x, y), width, y, x);
  }

  /** An offset is the offset of the cell its mod and div name, and of no other cell. */
  lemma {:induction false} OffsetIsCell(width: nat, height: nat, i: nat, x: nat, y: nat)
    requires x < width && y < height && i < width * height
    ensures i == Offset(width, x, y) <==> (i % width == x && i / width == y)
  {
    OffsetDecodes(width, height, x, y);
    if i % width == x && i / width == y {
      assert i == (i / width) * width + i % width;
    }
  }

  class ScreenBuffer {
    const chars: array<u8>
    const width: nat
    const height: nat

    /** One byte per cell. */
    ghost predicate Valid() {
      chars.Length == width * height
    }

    /** A blank `width` by `height` buffer. */
    constructor (width: nat, height: nat)
      ensures Valid() && fresh(chars)
      ensures this.width == width && this.height == height
      ensures forall i :: 0 <= i < chars.Length ==> chars[i] == 0
    {
      this.width, this.height := width, height;
      chars := new u8[width * height](_ => 0);
    }

    /** The byte of cell (x, y); the source asserts the cell is on the screen. */
    function Index(x: nat, y: nat): (i: nat)
      requires Valid()
      requires x < width && y < height
      ensures i < chars.Length
      ensures i % width == x && i / width == y
    {
      OffsetDecodes(width, height, x, y);
      Offset(width, x, y)
    }

    /** Blank every cell. */
    method Clear()
      modifies chars
      ensures forall i :: 0 <= i < chars.Length ==> chars[i] == 0
    {
      var i := 0;
      while i < chars.Length
        invariant 0 <= i <= chars.Length
        invariant forall k :: 0 <= k < i ==> chars[k] == 0
      {
        chars[i] := 0;
        i := i + 1;
      }
    }
  }

  /** Copy `s` into the buffer starting at cell (x, y), continuing along the
      row and onto the following rows; the source panics when the cell is off
      the screen or the text runs past the end of the buffer. */
  method Print(buf: ScreenBuffer, x: nat, y: nat, s: seq<u8>)
    requires buf.Valid()
    requires x < buf.width && y < buf.height
    requires buf.Index(x, y) + |s| <= buf.chars.Length
    modifies buf.chars
    ensures forall i :: 0 <= i < buf.chars.Length ==>
      buf.chars[i] == if buf.Index(x, y) <= i < buf.Index(x, y) + |s| then s[i - buf.Index(x, y)] else old(buf.chars[i])
  {
    var start := buf.Index(x, y);
    var k := 0;
    while k < |s|
      invariant 0 <= k <= |s|
      invariant forall i :: 0 <= i < buf.chars.Length ==>
        buf.chars[i] == if start <= i < start + k then s[i - start] else old(buf.chars[i])
    {
      buf.chars[start + k] := s[k];
      k := k + 1;
    }
  }
}
