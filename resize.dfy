/**
 The width the table zone resizes itself to: wide enough for the rightmost card
 plus two card widths, and never narrower than the minimum width.
 */
module Resize {
  import opened Geometry

  /**
   The scan over the cards' x positions: the running maximum starts at 0 and is
   replaced by the truncated position of any card right of it.
   */
  function XMax(xs: seq<real>): int
  {
    if xs == [] then 0
    else
      var m := XMax(xs[..|xs| - 1]);
      var x := xs[|xs| - 1];
      if x > m as real then Trunc(x) else m
  }

  /** The scan over one more position. */
  lemma XMaxStep(xs: seq<real>, i: int)
    requires 0 <= i < |xs|
    ensures XMax(xs[..i + 1]) == if xs[i] > XMax(xs[..i]) as real then Trunc(xs[i]) else XMax(xs[..i])
  {
    assert xs[..i + 1][..i] == xs[..i];
  }

  /**
   The scan's result is 0 or the truncated position of one of the cards, and
   every card starts less than one pixel right of it.
   */
  lemma {:induction false} XMaxIsMaximum(xs: seq<real>)
    ensures XMax(xs) >= 0
    ensures forall i :: 0 <= i < |xs| ==> xs[i] < (XMax(xs) + 1) as real
    ensures XMax(xs) == 0 || exists i :: 0 <= i < |xs| && XMax(xs) == Trunc(xs[i])
  {
    if xs != [] {
      var init := xs[..|xs| - 1];
      XMaxIsMaximum(init);
      forall i | 0 <= i < |xs| ensures xs[i] < (XMax(xs) + 1) as real {
        if i < |init| { assert xs[i] == init[i]; }
      }
      if XMax(init) != 0 && XMax(xs) == XMax(init) {
        var i :| 0 <= i < |init| && XMax(init) == Trunc(init[i]);
        assert xs[i] == init[i];
      }
    }
  }

  /** The width the zone needs for cards at x positions `xs`. */
  function MinimumWidth(xs: seq<real>): int
  {
    Max(XMax(xs) + 2 * CARD_WIDTH, MIN_WIDTH) + 2 * MARGIN_X + 2 * BOX_LINE_WIDTH
  }

  /**
   The needed width is never below the zone's initial width, and leaves room
   for two card widths, both margins and both box lines right of every card.
   */
  lemma MinimumWidthBounds(xs: seq<real>)
    ensures MinimumWidth(xs) >= INITIAL_WIDTH
    ensures forall i :: 0 <= i < |xs| ==>
              xs[i] + (2 * CARD_WIDTH + 2 * MARGIN_X + 2 * BOX_LINE_WIDTH) as real < (MinimumWidth(xs) + 1) as real
  {
    XMaxIsMaximum(xs);
  }

  /**
   With every card left of `MIN_WIDTH - 2 * CARD_WIDTH`, the zone keeps its
   initial width (which needs the minimum width to hold two cards).
   */
  lemma MinimumWidthWhenNarrow(xs: seq<real>)
    requires 2 * CARD_WIDTH <= MIN_WIDTH
    requires forall i :: 0 <= i < |xs| ==> xs[i] <= (MIN_WIDTH - 2 * CARD_WIDTH) as real
    ensures MinimumWidth(xs) == INITIAL_WIDTH
  {
    XMaxIsMaximum(xs);
    if XMax(xs) != 0 {
      var i :| 0 <= i < |xs| && XMax(xs) == Trunc(xs[i]);
    }
  }
}
