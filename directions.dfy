/** The snake's four headings (src/main.rs:10-60).

    The source numbers the headings clockwise from Up as a `u32` and rotates
    them with wrapping `u32` arithmetic followed by a reduction mod 4.  The
    model keeps that encoding: `u32` is a bounded newtype and the wrap-around
    of `overflowing_add` / `overflowing_sub` is written out explicitly. */
module Directions {

  /** 2^32: `u32` arithmetic wraps modulo this value. */
  const U32_MODULUS: int := 0x1_0000_0000

  newtype u32 = x: int | 0 <= x < 0x1_0000_0000

  /** `x.overflowing_add(y).0` */
  function WrappingAdd(a: u32, b: u32): u32 {
    ((a as int + b as int) % U32_MODULUS) as u32
  }

  /** `x.overflowing_sub(y).0` */
  function WrappingSub(a: u32, b: u32): u32 {
    ((a as int - b as int) % U32_MODULUS) as u32
  }

  datatype Direction = Up | Right | Down | Left {

    /** `impl From<Direction> for u32` */
    function ToU32(): (n: u32)
      ensures n < 4
    {
      match this
      case Up => 0
      case Right => 1
      case Down => 2
      case Left => 3
    }

    /** Rotate a quarter turn clockwise: the code goes up by one, mod 4. */
    function Cw(): (d: Direction)
      ensures d.ToU32() as int == (ToU32() as int + 1) % 4
    {
      FromU32(WrappingAdd(ToU32(), 1))
    }

    /** Rotate a quarter turn counter-clockwise; `Up` wraps through 2^32 - 1,
        which is 3 mod 4, so the code goes down by one, mod 4. */
    function Ccw(): (d: Direction)
      ensures d.ToU32() as int == (ToU32() as int + 3) % 4
    {
      FromU32(WrappingSub(ToU32(), 1))
    }

    /** True when the wrapped difference of the two encodings is `Down` (that is, 2):
        the two codes differ by 2, mod 4. */
    predicate IsOpposite(other: Direction): (b: bool)
      ensures b <==> (ToU32() as int - other.ToU32() as int) % 4 == 2
    {
      FromU32(WrappingSub(ToU32(), other.ToU32())) == Down
    }
  }

  /** `impl From<u32> for Direction`: the value taken mod 4 (the `panic!` arm is unreachable). */
  function FromU32(x: u32): (d: Direction)
    ensures d.ToU32() as int == x as int % 4
  {
    var r := x as int % 4;
    if r == 0 then Up
    else if r == 1 then Right
    else if r == 2 then Down
    else Left
  }

  /** Converting a direction to `u32` and back is the identity. */
  lemma {:induction false} FromToU32(d: Direction)
    ensures FromU32(d.ToU32()) == d
  {
    match d
    case Up =>
    case Right =>
    case Down =>
    case Left =>
  }

  /** `cw` and `ccw` are inverse rotations, including the wrap from Up to Left. */
  lemma {:induction false} CwCcwInverse(d: Direction)
    ensures d.Cw().Ccw() == d
    ensures d.Ccw().Cw() == d
  {
    match d
    case Up =>
      assert WrappingSub(0, 1) == 0xFFFF_FFFF;
    case Right =>
    case Down =>
    case Left =>
  }

  /** Four clockwise turns come back to the start, and no fewer do. */
  lemma {:induction false} CwHasOrderFour(d: Direction)
    ensures d.Cw().Cw().Cw().Cw() == d
    ensures d.Cw() != d && d.Cw().Cw() != d && d.Cw().Cw().Cw() != d
  {
    match d
    case Up =>
    case Right =>
    case Down =>
    case Left =>
  }

  /** Two headings are opposite exactly when one is a half turn from the other. */
  lemma {:induction false} OppositeIsHalfTurn(a: Direction, b: Direction)
    ensures a.IsOpposite(b) <==> b == a.Cw().Cw()
  {
    match a
    case Up =>
      assert WrappingSub(0, 1) == 0xFFFF_FFFF;
      assert WrappingSub(0, 2) == 0xFFFF_FFFE;
      assert WrappingSub(0, 3) == 0xFFFF_FFFD;
    case Right =>
      assert WrappingSub(1, 2) == 0xFFFF_FFFF;
      assert WrappingSub(1, 3) == 0xFFFF_FFFE;
    case Down =>
      assert WrappingSub(2, 3) == 0xFFFF_FFFF;
    case Left =>
  }

  /** Being opposite is symmetric and irreflexive. */
  lemma {:induction false} OppositeSymmetricIrreflexive(a: Direction, b: Direction)
    ensures a.IsOpposite(b) <==> b.IsOpposite(a)
    ensures !a.IsOpposite(a)
  {
    OppositeIsHalfTurn(a, b);
    OppositeIsHalfTurn(b, a);
    OppositeIsHalfTurn(a, a);
    CwHasOrderFour(a);
    CwHasOrderFour(b);
  }

  /** Every direction has exactly one opposite. */
  lemma {:induction false} OppositeUnique(a: Direction, b: Direction, c: Direction)
    requires a.IsOpposite(b) && a.IsOpposite(c)
    ensures b == c
  {
    OppositeIsHalfTurn(a, b);
    OppositeIsHalfTurn(a, c);
  }
}
