/**
 The values the table zone's layout is built from: layout constants, grid points,
 pixel points, and the integer and real arithmetic of C++ and Qt that the layout
 code relies on (truncating division, rounding, truncating casts).
 */
module Geometry {

  /** Strictly positive integers. */
  type Pos = n: int | n > 0 witness 1

  // The layout constants are declared in headers that are not part of this model.
  // Only their positivity is known here; any further relation between them that
  // a property needs is stated as a precondition of that property.
  const CARD_WIDTH: Pos
  const CARD_HEIGHT: Pos
  const MARGIN_X: Pos
  const PADDING_X: Pos
  const PADDING_Y: Pos
  const BOX_LINE_WIDTH: Pos
  const MIN_WIDTH: Pos

  /** Number of rows (lanes) of the table. */
  const ROWS: int := 3

  /** Vertical distance between two consecutive rows. */
  const ROW_PITCH: int := CARD_HEIGHT + PADDING_Y + 20

  /** The zone's height, fixed when the zone is made: three rows of cards between two box lines. */
  const INITIAL_HEIGHT: int := 2 * BOX_LINE_WIDTH + 3 * (CARD_HEIGHT + 20) + 2 * PADDING_Y

  /** The zone's width when it is made: the minimum width between margins and box lines. */
  const INITIAL_WIDTH: int := MIN_WIDTH + 2 * MARGIN_X + 2 * BOX_LINE_WIDTH

  /** A slot of the grid: `x` is the column (-1 means "not on the grid"), `y` the row. */
  datatype GridPoint = GridPoint(x: int, y: int)

  /** A position in the zone's pixel coordinates. */
  datatype Point = Point(x: real, y: real)

  /** `a / 3` with C++ semantics: the quotient is truncated toward zero. */
  function Div3(a: int): (q: int)
    ensures a >= 0 ==> 0 <= a - 3 * q < 3
    ensures a < 0 ==> -3 < a - 3 * q <= 0
  {
    if a >= 0 then a / 3 else -((-a) / 3)
  }

  /** `a % 3` with C++ semantics: the remainder has the sign of `a`. */
  function Mod3(a: int): (r: int)
    ensures a == 3 * Div3(a) + r
    ensures a >= 0 ==> 0 <= r < 3
    ensures a < 0 ==> -3 < r <= 0
  {
    a - 3 * Div3(a)
  }

  /** C `round` (halfway cases away from zero). */
  function Round(v: real): (r: int)
    ensures v >= 0.0 ==> r >= 0 && v - 0.5 < r as real <= v + 0.5
    ensures v < 0.0 ==> r <= 0 && v - 0.5 <= r as real < v + 0.5
  {
    if v >= 0.0 then (v + 0.5).Floor else -((-v + 0.5).Floor)
  }

  /** The C++ cast `(int) v`: truncation toward zero. */
  function Trunc(v: real): (r: int)
    ensures v >= 0.0 ==> r >= 0 && r as real <= v < r as real + 1.0
    ensures v < 0.0 ==> r <= 0 && r as real - 1.0 < v <= r as real
  {
    if v >= 0.0 then v.Floor else -((-v).Floor)
  }

  function Min(a: int, b: int): int { if a <= b then a else b }

  function Max(a: int, b: int): int { if a >= b then a else b }
}
