/**
 The two coordinate maps of the table zone: from a grid point to the pixel
 position of its top-left corner, and from a pixel position back to a grid
 point. Both read the stack-width table, so a widened group pushes every later
 group of its row to the right, and both honour the zone's vertical inversion.
 */
module GridMapping {
  import opened Geometry
  import opened StackWidths

  /** The table is inverted when exactly one of the player's mirroring and the global setting is on. */
  function IsInverted(mirrored: bool, invertVertical: bool): (r: bool)
    ensures r <==> mirrored != invertVertical
  {
    (mirrored && !invertVertical) || (!mirrored && invertVertical)
  }

  /** The row an inverted table draws row `row` in. */
  function RowLabel(row: int, inverted: bool): int
  {
    if inverted then 2 - row else row
  }

  lemma RowLabelInvolution(row: int, inverted: bool)
    ensures RowLabel(RowLabel(row, inverted), inverted) == row
  {
  }

  /** The x offset at which group `k` of `row` starts: the widths and paddings of groups 0 .. k-1. */
  function GroupStart(t: WidthTable, row: int, k: int): real
    decreases k
  {
    if k <= 0 then 0.0
    else GroupStart(t, row, k - 1) + WidthAt(t, GroupKey(row, k - 1)) + PADDING_X as real
  }

  /** The pixel position of grid point `gp` (the zone's `mapFromGrid`). */
  function GridToPixel(t: WidthTable, gp: GridPoint, inverted: bool): Point
  {
    var sub := Mod3(gp.x);
    Point(MARGIN_X as real + (sub * CARD_WIDTH) as real / 3.0 + GroupStart(t, gp.y, Div3(gp.x)),
          (BOX_LINE_WIDTH + RowLabel(gp.y, inverted) * ROW_PITCH + sub * 10) as real)
  }

  /**
   The group the walk of `mapToGrid` stops in, starting at group `b`: the first
   group at or after `b` whose end (plus padding) reaches `x + 1`.
   */
  function FindGroup(t: WidthTable, row: int, x: real, b: nat): (r: nat)
    requires TableValid(t)
    ensures r >= b
    ensures GroupStart(t, row, r + 1) >= x + 1.0
    ensures forall k :: b < k <= r ==> GroupStart(t, row, k) < x + 1.0
    decreases (x + 1.0 - GroupStart(t, row, b + 1)).Floor
  {
    if GroupStart(t, row, b + 1) >= x + 1.0 then b
    else
      WidthAtValid(t, GroupKey(row, b + 1));
      FindGroup(t, row, x, b + 1)
  }

  /** The clamping of `mapToGrid`: negative values become 0, values above `hi` become `hi`. */
  function Clamp(v: real, hi: real): (r: real)
    ensures hi >= 0.0 ==> 0.0 <= r <= hi
    ensures 0.0 <= v <= hi ==> r == v
  {
    if v < 0.0 then 0.0 else if v > hi then hi else v
  }

  /** Group `k + 1` starts one width and one padding after group `k`. */
  lemma GroupStartNext(t: WidthTable, row: int, k: nat)
    ensures GroupStart(t, row, k + 1) == GroupStart(t, row, k) + WidthAt(t, row * 1000 + k) + PADDING_X as real
  {
  }

  /** The clamped horizontal offset `mapToGrid` works with. */
  function OffsetX(width: int, px: real): real
  {
    Clamp(px - MARGIN_X as real, (width - CARD_WIDTH - MARGIN_X) as real)
  }

  /** The clamped vertical offset `mapToGrid` works with. */
  function OffsetY(height: int, py: real): real
  {
    Clamp(py - BOX_LINE_WIDTH as real, (height - CARD_HEIGHT) as real)
  }

  /** The row `mapToGrid` returns: the nearest row, relabelled back when inverted. */
  function TargetRow(height: int, inverted: bool, p: Point): int
  {
    RowLabel(Round(OffsetY(height, p.y) / ROW_PITCH as real), inverted)
  }

  /** The grid point of pixel position `p` (the zone's `mapToGrid`). */
  function PixelToGrid(t: WidthTable, width: int, height: int, inverted: bool, p: Point): GridPoint
    requires TableValid(t)
  {
    var x := OffsetX(width, p.x);
    var row := TargetRow(height, inverted, p);
    var group := FindGroup(t, row, x, 0);
    var xdiff := x - GroupStart(t, row, group);
    GridPoint(group * 3 + Min((xdiff * 3.0 / CARD_WIDTH as real).Floor, 2), row)
  }

  /** `PixelToGrid` once the walk has found its group. */
  lemma PixelToGridFromWalk(t: WidthTable, width: int, height: int, inverted: bool, p: Point,
                            x: real, row: int, g: nat)
    requires TableValid(t)
    requires x == OffsetX(width, p.x) && row == TargetRow(height, inverted, p)
    requires g == FindGroup(t, row, x, 0)
    ensures PixelToGrid(t, width, height, inverted, p) ==
              GridPoint(g * 3 + Min(((x - GroupStart(t, row, g)) * 3.0 / CARD_WIDTH as real).Floor, 2), row)
  {
  }

  /** Each group advances the offset by at least one card and one padding. */
  lemma {:induction false} GroupStartGrows(t: WidthTable, row: int, j: int, k: int)
    requires TableValid(t)
    requires 0 <= j <= k
    ensures GroupStart(t, row, j) + ((k - j) * (CARD_WIDTH + PADDING_X)) as real <= GroupStart(t, row, k)
  {
    if j < k {
      GroupStartGrows(t, row, j, k - 1);
      WidthAtValid(t, GroupKey(row, k - 1));
      assert ((k - j) * (CARD_WIDTH + PADDING_X)) ==
             ((k - 1 - j) * (CARD_WIDTH + PADDING_X)) + CARD_WIDTH + PADDING_X;
    }
  }

  /** Group starts never decrease along a row. */
  lemma {:induction false} GroupStartMonotone(t: WidthTable, row: int, j: int, k: int)
    requires TableValid(t)
    requires 0 <= j <= k
    ensures GroupStart(t, row, j) <= GroupStart(t, row, k)
  {
    if j < k {
      GroupStartMonotone(t, row, j, k - 1);
      WidthAtValid(t, GroupKey(row, k - 1));
    }
  }

  /** Before group `k` of a row without widened groups, every group is one card plus one padding wide. */
  lemma {:induction false} UniformRow(t: WidthTable, row: int, k: nat)
    requires forall g :: 0 <= g < k ==> GroupKey(row, g) !in t
    ensures GroupStart(t, row, k) == (k * (CARD_WIDTH + PADDING_X)) as real
  {
    if k > 0 {
      UniformRow(t, row, k - 1);
      assert GroupKey(row, k - 1) !in t;
      assert (k * (CARD_WIDTH + PADDING_X)) == ((k - 1) * (CARD_WIDTH + PADDING_X)) + CARD_WIDTH + PADDING_X;
    }
  }

  /**
   Inversion only relabels rows: it leaves x untouched (the width lookup uses
   the grid's own row) and gives the y of the mirrored row.
   */
  lemma InversionRelabelsRows(t: WidthTable, gp: GridPoint, inverted: bool)
    ensures GridToPixel(t, gp, !inverted).x == GridToPixel(t, gp, inverted).x
    ensures GridToPixel(t, gp, !inverted).y == GridToPixel(t, GridPoint(gp.x, 2 - gp.y), inverted).y
  {
  }

  /** The walk stops in exactly the group whose span holds `x`. */
  lemma FindGroupIs(t: WidthTable, row: int, x: real, g: nat)
    requires TableValid(t)
    requires g == 0 || GroupStart(t, row, g) < x + 1.0
    requires x + 1.0 <= GroupStart(t, row, g + 1)
    ensures FindGroup(t, row, x, 0) == g
  {
    var r := FindGroup(t, row, x, 0);
    if r < g {
      GroupStartMonotone(t, row, r + 1, g);
      assert false;
    } else if r > g {
      assert false;
    }
  }

  /** Dividing by a positive pitch keeps a strict upper bound. */
  lemma DivBelow(a: real, b: real, c: real)
    requires b > 0.0 && a < c * b
    ensures a / b < c
  {
    var q := a / b;
    assert q * b == a;
    if q >= c {
      assert q * b >= c * b;
    }
  }

  /** The sub-column shift of `mapFromGrid` is what the sub-column division of `mapToGrid` undoes. */
  lemma SubColumnShift(sub: int)
    requires 0 <= sub <= 2
    ensures var shift := (sub * CARD_WIDTH) as real / 3.0;
            0.0 <= shift && shift + 1.0 <= (CARD_WIDTH + PADDING_X) as real &&
            shift * 3.0 / CARD_WIDTH as real == sub as real
  {
    var c := CARD_WIDTH as real;
    if sub == 0 {
      assert (sub * CARD_WIDTH) as real == 0.0;
    } else if sub == 1 {
      assert (sub * CARD_WIDTH) as real == c;
      assert c / 3.0 * 3.0 / c == 1.0;
    } else {
      assert (sub * CARD_WIDTH) as real == 2.0 * c;
      assert 2.0 * c / 3.0 * 3.0 / c == 2.0;
    }
  }

  /** The rounding of `mapToGrid` recovers a row from its y offset when the diagonal nudge is small. */
  lemma RoundRow(r: int, sub: int)
    requires 0 <= r && 0 <= sub <= 2
    requires 40 < ROW_PITCH
    ensures Round((r * ROW_PITCH + sub * 10) as real / ROW_PITCH as real) == r
  {
    var p := ROW_PITCH as real;
    var v := (r * ROW_PITCH + sub * 10) as real / p;
    assert v == r as real + (sub * 10) as real / p;
    assert (sub * 10) as real / p < 0.5 by {
      assert (sub * 10) as real <= 20.0 < 0.5 * p;
    }
  }

  /** `mapToGrid` recovers the row of a point `mapFromGrid` placed inside the clamping bounds. */
  lemma RowRoundTrip(t: WidthTable, gp: GridPoint, inverted: bool, height: int)
    requires gp.x >= 0 && 0 <= gp.y < ROWS
    requires 40 < ROW_PITCH
    requires GridToPixel(t, gp, inverted).y - BOX_LINE_WIDTH as real <= (height - CARD_HEIGHT) as real
    ensures TargetRow(height, inverted, GridToPixel(t, gp, inverted)) == gp.y
  {
    var r := RowLabel(gp.y, inverted);
    var sub := Mod3(gp.x);
    assert 0 <= r * ROW_PITCH by {
      assert 0 <= r <= 2;
    }
    assert OffsetY(height, GridToPixel(t, gp, inverted).y) == (r * ROW_PITCH + sub * 10) as real;
    RoundRow(r, sub);
  }

  /**
   `mapToGrid` undoes `mapFromGrid` for every grid point of a row, under the same
   width table and inversion, whenever the mapped point lies inside the clamping
   bounds and the diagonal nudge (at most 20) stays below half the row pitch.
   */
  lemma RoundTrip(t: WidthTable, gp: GridPoint, inverted: bool, width: int, height: int)
    requires TableValid(t)
    requires gp.x >= 0 && 0 <= gp.y < ROWS
    requires 40 < ROW_PITCH
    requires GridToPixel(t, gp, inverted).x - MARGIN_X as real <= (width - CARD_WIDTH - MARGIN_X) as real
    requires GridToPixel(t, gp, inverted).y - BOX_LINE_WIDTH as real <= (height - CARD_HEIGHT) as real
    ensures PixelToGrid(t, width, height, inverted, GridToPixel(t, gp, inverted)) == gp
  {
    var p := GridToPixel(t, gp, inverted);
    var x := OffsetX(width, p.x);
    RowRoundTrip(t, gp, inverted, height);
    ColumnRoundTrip(t, gp, inverted, width);
    PixelToGridFromWalk(t, width, height, inverted, p, x, gp.y, Div3(gp.x));
  }

  /** The column half of the round trip: the walk finds the group, the division the sub-column. */
  lemma ColumnRoundTrip(t: WidthTable, gp: GridPoint, inverted: bool, width: int)
    requires TableValid(t)
    requires gp.x >= 0
    requires GridToPixel(t, gp, inverted).x - MARGIN_X as real <= (width - CARD_WIDTH - MARGIN_X) as real
    ensures var x := OffsetX(width, GridToPixel(t, gp, inverted).x);
            var g := Div3(gp.x);
            FindGroup(t, gp.y, x, 0) == g &&
            g * 3 + Min(((x - GroupStart(t, gp.y, g)) * 3.0 / CARD_WIDTH as real).Floor, 2) == gp.x
  {
    var p := GridToPixel(t, gp, inverted);
    var g, sub := Div3(gp.x), Mod3(gp.x);
    var start := GroupStart(t, gp.y, g);
    var x := OffsetX(width, p.x);
    var shift := (sub * CARD_WIDTH) as real / 3.0;
    assert x == shift + start && shift * 3.0 / CARD_WIDTH as real == sub as real by {
      GroupStartMonotone(t, gp.y, 0, g);
      SubColumnShift(sub);
    }
    assert FindGroup(t, gp.y, x, 0) == g by {
      SubColumnShift(sub);
      WidthAtValid(t, GroupKey(gp.y, g));
      FindGroupIs(t, gp.y, x, g);
    }
  }

  /**
   `mapToGrid` never returns a negative column, and the column lies in the walk's
   group or in the last sub-column of the group before it.
   */
  lemma ColumnBounds(t: WidthTable, width: int, height: int, inverted: bool, p: Point)
    requires TableValid(t)
    requires CARD_WIDTH + MARGIN_X <= width
    requires 3 <= CARD_WIDTH
    ensures var x := OffsetX(width, p.x);
            var b := FindGroup(t, TargetRow(height, inverted, p), x, 0);
            var col := PixelToGrid(t, width, height, inverted, p).x;
            0 <= col && 3 * b - 1 <= col <= 3 * b + 2
  {
    var x := OffsetX(width, p.x);
    var row := TargetRow(height, inverted, p);
    var b := FindGroup(t, row, x, 0);
    var xdiff := x - GroupStart(t, row, b);
    PixelToGridFromWalk(t, width, height, inverted, p, x, row, b);
    if b == 0 {
      SubColumnFloor(xdiff, 0.0);
    } else {
      SubColumnFloor(xdiff, -1.0);
    }
  }

  /** The sub-column division of an offset above `lo` (no lower than one pixel short) is at least `lo`'s floor. */
  lemma SubColumnFloor(xdiff: real, lo: real)
    requires 3 <= CARD_WIDTH
    requires lo == 0.0 || lo == -1.0
    requires lo == 0.0 ==> xdiff >= 0.0
    requires lo == -1.0 ==> xdiff > -1.0
    ensures (xdiff * 3.0 / CARD_WIDTH as real).Floor >= lo.Floor
  {
    var c := CARD_WIDTH as real;
    if lo == -1.0 {
      assert xdiff * 3.0 / c > -1.0 by {
        assert xdiff * 3.0 > -3.0;
        assert -3.0 >= -c;
      }
    }
  }

  /**
   With the zone's fixed height, the returned row is one of the three rows as
   long as twice the box line plus 20 stays below half the row pitch (the
   lowest clamped offset lies that far below the start of the third row).
   */
  lemma RowBounds(t: WidthTable, width: int, inverted: bool, p: Point)
    requires TableValid(t)
    requires 4 * BOX_LINE_WIDTH + 40 < ROW_PITCH
    ensures 0 <= PixelToGrid(t, width, INITIAL_HEIGHT, inverted, p).y < ROWS
  {
    var y := OffsetY(INITIAL_HEIGHT, p.y);
    var pitch := ROW_PITCH as real;
    assert INITIAL_HEIGHT - CARD_HEIGHT == 2 * ROW_PITCH + 2 * BOX_LINE_WIDTH + 20;
    assert 0.0 <= y <= (2 * ROW_PITCH + 2 * BOX_LINE_WIDTH + 20) as real;
    DivBelow(y, pitch, 2.5);
  }

  /** A point outside the play area maps like its clamped counterpart on the boundary. */
  lemma ClampToBoundary(t: WidthTable, width: int, height: int, inverted: bool, p: Point)
    requires TableValid(t)
    requires CARD_WIDTH + MARGIN_X <= width && CARD_HEIGHT <= height
    ensures var q := Point(OffsetX(width, p.x) + MARGIN_X as real, OffsetY(height, p.y) + BOX_LINE_WIDTH as real);
            PixelToGrid(t, width, height, inverted, q) == PixelToGrid(t, width, height, inverted, p)
  {
  }
}
