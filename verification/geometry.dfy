/** The board: constants, directions, integer cells and the pixel coordinates
    the game keeps in its transforms.

    Every position the game ever creates has the form BoxSize * k + BoxSize / 2
    (the start cell, each one-box move, each new tail, each food draw), so the
    model works with the integer cell index k. The game's own tests are written
    on pixels; they are modelled here as written and each carries the cell-level
    fact it amounts to. */
module Geometry {

  /** Side of one box in pixels. */
  const BoxSize: int := 26
  /** Play-field extent, in boxes. */
  const WidthBoxes: int := 10
  const HeightBoxes: int := 20

  datatype Direction = Up | Down | Left | Right

  /** A cell index pair; cell (k, l) is centred on pixel (Pixel(k), Pixel(l)). */
  datatype Cell = Cell(x: int, y: int)

  function Opposite(d: Direction): Direction {
    match d
    case Up => Down
    case Down => Up
    case Left => Right
    case Right => Left
  }

  function Abs(n: int): nat {
    if n < 0 then -n else n
  }

  /** Manhattan distance between two cells. */
  function Distance(a: Cell, b: Cell): nat {
    Abs(a.x - b.x) + Abs(a.y - b.y)
  }

  /** The cell one box from `c` in direction `d`: the head's move. */
  function Advance(c: Cell, d: Direction): (r: Cell)
    ensures Distance(c, r) == 1
    ensures r != c
  {
    match d
    case Up => Cell(c.x, c.y + 1)
    case Down => Cell(c.x, c.y - 1)
    case Right => Cell(c.x + 1, c.y)
    case Left => Cell(c.x - 1, c.y)
  }

  /** The cell one box behind `c` for something heading `d`: where a new tail
      segment is placed. */
  function Behind(c: Cell, d: Direction): (r: Cell)
    ensures Advance(r, d) == c
    ensures r == Advance(c, Opposite(d))
  {
    match d
    case Up => Cell(c.x, c.y - 1)
    case Down => Cell(c.x, c.y + 1)
    case Left => Cell(c.x + 1, c.y)
    case Right => Cell(c.x - 1, c.y)
  }

  /** Pixel coordinate of the centre of cell index `k`. */
  function Pixel(k: int): int {
    BoxSize * k + BoxSize / 2
  }

  /** The cells a food draw can produce and the snake may occupy alive. */
  predicate InField(c: Cell) {
    && -WidthBoxes / 2 <= c.x < WidthBoxes / 2
    && -HeightBoxes / 2 <= c.y < HeightBoxes / 2
  }

  /** The wall test on the head's pixel position: a coordinate whose magnitude
      reaches half the field extent is deadly. */
  function WallHit(c: Cell): (hit: bool)
    ensures hit <==> !InField(c)
  {
    || Abs(Pixel(c.x)) >= BoxSize * WidthBoxes / 2
    || Abs(Pixel(c.y)) >= BoxSize * HeightBoxes / 2
  }

  /** Half extent of a unit-scale box, in half-pixels. */
  const HalfScale: int := 1

  /** Axis-aligned overlap of two unit-scale boxes centred on two cells, with
      all coordinates doubled so that the half extents are whole numbers:
      the minimum of one box lies below the maximum of the other on both axes. */
  function Collide(a: Cell, b: Cell): (hit: bool)
    ensures hit <==> a == b
  {
    && 2 * Pixel(a.x) - HalfScale < 2 * Pixel(b.x) + HalfScale
    && 2 * Pixel(a.x) + HalfScale > 2 * Pixel(b.x) - HalfScale
    && 2 * Pixel(a.y) - HalfScale < 2 * Pixel(b.y) + HalfScale
    && 2 * Pixel(a.y) + HalfScale > 2 * Pixel(b.y) - HalfScale
  }

  /** Exact equality of two pixel positions, the food spawner's occupancy test. */
  function SamePixel(a: Cell, b: Cell): (same: bool)
    ensures same <==> a == b
  {
    Pixel(a.x) == Pixel(b.x) && Pixel(a.y) == Pixel(b.y)
  }
}
