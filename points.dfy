/** Integer points on the brick grid, with 32-bit signed coordinates. */
module Points {

  const I32Min: int := -0x8000_0000
  const I32Max: int := 0x7FFF_FFFF

  datatype Point = Point(x: int, y: int)

  /** Both coordinates fit in an i32, as the source's `Point` type demands. */
  predicate InI32(p: Point)
  {
    I32Min <= p.x <= I32Max && I32Min <= p.y <= I32Max
  }

  predicate AllInI32(ps: seq<Point>)
  {
    forall i :: 0 <= i < |ps| ==> InI32(ps[i])
  }

  function Min(a: int, b: int): int
  {
    if a <= b then a else b
  }

  function Max(a: int, b: int): int
  {
    if a >= b then a else b
  }

  function Abs(a: int): nat
  {
    if a < 0 then -a else a
  }
}
