/**
 The position pass of the table zone, stated on values: where a placed card and
 each of its attachments are drawn, their paint order, the sequence of position
 writes the pass performs, and the arrows whose paths it refreshes.
 */
module Placement {
  import opened Geometry
  import opened StackWidths
  import opened GridMapping

  datatype Option<T> = None | Some(value: T)

  /** Arrows are referred to by identity. */
  type ArrowId = int

  /** What the pass reads of an attached card. */
  datatype AttachedView<C> = AttachedView(card: C, arrowsFrom: seq<ArrowId>, arrowsTo: seq<ArrowId>)

  /** What the pass reads of a card of the zone: grid point, attachments and arrows. */
  datatype HolderView<C> = HolderView(card: C, grid: GridPoint, attached: seq<AttachedView<C>>,
                                      arrowsFrom: seq<ArrowId>, arrowsTo: seq<ArrowId>)

  /** One assignment of a position and a paint-order value to a card. */
  datatype Write<C> = Write(card: C, pos: Point, z: real)

  /** A holder is shifted right by a third of a card per attachment, and down by 15 when it has any. */
  function HolderPos(mp: Point, n: nat): Point
  {
    Point(mp.x + (n * CARD_WIDTH) as real / 3.0, if n > 0 then mp.y + 15.0 else mp.y)
  }

  /** The `j`-th attachment (from 1) cascades left of its holder, 5 below the grid position. */
  function AttachmentPos(holder: Point, mp: Point, j: nat): Point
  {
    Point(holder.x - (j * CARD_WIDTH) as real / 3.0, mp.y + 5.0)
  }

  /** The paint-order value of an item drawn at `p`. */
  function ZValue(p: Point): real
  {
    (p.y + CARD_HEIGHT as real) * 100000.0 + (p.x + 1.0) * 100.0
  }

  /**
   The attachments of a holder fan out between its grid position and its own
   shifted position: each attachment lies left of the holder and of the
   attachment before it, and the last one lands on the unshifted grid x.
   */
  lemma AttachmentFan(mp: Point, n: nat, j: nat)
    requires 1 <= j <= n
    ensures var hp := HolderPos(mp, n);
            mp.x <= AttachmentPos(hp, mp, j).x < hp.x &&
            (j < n ==> AttachmentPos(hp, mp, j + 1).x < AttachmentPos(hp, mp, j).x) &&
            (j == n ==> AttachmentPos(hp, mp, j).x == mp.x)
  {
    var c := CARD_WIDTH as real;
    assert (n * CARD_WIDTH) as real - (j * CARD_WIDTH) as real == ((n - j) * CARD_WIDTH) as real;
    assert ((j + 1) * CARD_WIDTH) as real == (j * CARD_WIDTH) as real + c;
    assert 0 <= (n - j) * CARD_WIDTH;
    assert j * CARD_WIDTH > 0;
  }

  /** Whatever lies lower, or further right on the same line, is painted on top. */
  lemma ZValueOrder(p: Point, q: Point)
    ensures p.x == q.x && p.y < q.y ==> ZValue(p) < ZValue(q)
    ensures p.y == q.y && p.x < q.x ==> ZValue(p) < ZValue(q)
  {
  }

  /**
   The exact paint order: `q` is painted above `p` exactly when 1000 times its
   lead downwards outweighs how far it lies to the left of `p`.
   */
  lemma ZValueLess(p: Point, q: Point)
    ensures ZValue(p) < ZValue(q) <==> 1000.0 * (q.y - p.y) + (q.x - p.x) > 0.0
  {
  }

  /** The writes for the attachments of a holder drawn at `holder` whose grid position is `mp`. */
  function AttachmentWrites<C>(atts: seq<AttachedView<C>>, holder: Point, mp: Point): (ws: seq<Write<C>>)
    ensures |ws| == |atts|
    ensures forall k :: 0 <= k < |atts| ==>
              ws[k].card == atts[k].card && ws[k].pos == AttachmentPos(holder, mp, k + 1) &&
              ws[k].z == ZValue(ws[k].pos)
  {
    seq(|atts|, k requires 0 <= k < |atts| =>
      var q := AttachmentPos(holder, mp, k + 1);
      Write(atts[k].card, q, ZValue(q)))
  }

  /** The writes the pass performs for one card of the zone: none if it is not on the grid. */
  function HolderWrites<C>(h: HolderView<C>, t: WidthTable, inverted: bool): seq<Write<C>>
  {
    if h.grid.x == -1 then []
    else
      var mp := GridToPixel(t, h.grid, inverted);
      var hp := HolderPos(mp, |h.attached|);
      [Write(h.card, hp, ZValue(hp))] + AttachmentWrites(h.attached, hp, mp)
  }

  /** All writes of the pass, in the order it performs them. */
  function Writes<C>(hs: seq<HolderView<C>>, t: WidthTable, inverted: bool): seq<Write<C>>
  {
    if hs == [] then []
    else Writes(hs[..|hs| - 1], t, inverted) + HolderWrites(hs[|hs| - 1], t, inverted)
  }

  /** The pass over one more card appends that card's writes. */
  lemma WritesStep<C>(hs: seq<HolderView<C>>, i: int, t: WidthTable, inverted: bool)
    requires 0 <= i < |hs|
    ensures Writes(hs[..i + 1], t, inverted) == Writes(hs[..i], t, inverted) + HolderWrites(hs[i], t, inverted)
  {
    assert hs[..i + 1][..i] == hs[..i];
  }

  /** The last write to card `c`: the one that decides where it ends up. */
  function LastWrite<C(==)>(ws: seq<Write<C>>, c: C): (r: Option<Write<C>>)
    ensures r.Some? ==> r.value in ws && r.value.card == c
    ensures r.None? <==> forall k :: 0 <= k < |ws| ==> ws[k].card != c
  {
    if ws == [] then None
    else if ws[|ws| - 1].card == c then Some(ws[|ws| - 1])
    else LastWrite(ws[..|ws| - 1], c)
  }

  /** Where card `c` ends up after the writes `ws`, starting from `p0`. */
  function FinalPos<C(==)>(ws: seq<Write<C>>, c: C, p0: Point): Point
  {
    match LastWrite(ws, c)
    case None => p0
    case Some(w) => w.pos
  }

  /** The paint-order value card `c` ends up with after the writes `ws`, starting from `z0`. */
  function FinalZ<C(==)>(ws: seq<Write<C>>, c: C, z0: real): real
  {
    match LastWrite(ws, c)
    case None => z0
    case Some(w) => w.z
  }

  /** Appending a write changes the outcome for its own card only. */
  lemma LastWriteAppend<C>(ws: seq<Write<C>>, w: Write<C>)
    ensures forall c :: LastWrite(ws + [w], c) == if w.card == c then Some(w) else LastWrite(ws, c)
  {
    assert (ws + [w])[..|ws|] == ws;
  }

  /** No card is written twice in the pass. */
  ghost predicate DistinctTargets<C>(ws: seq<Write<C>>)
  {
    forall i, j :: 0 <= i < j < |ws| ==> ws[i].card != ws[j].card
  }

  /** With distinct targets, every write is the final one for its card. */
  lemma WriteIsFinal<C>(ws: seq<Write<C>>, k: int)
    requires DistinctTargets(ws) && 0 <= k < |ws|
    ensures LastWrite(ws, ws[k].card) == Some(ws[k])
  {
    var r := LastWrite(ws, ws[k].card);
    var m :| 0 <= m < |ws| && ws[m] == r.value;
  }

  /** A write that no other write shares a card with decides that card's outcome. */
  lemma FinalWrite<C>(ws: seq<Write<C>>, k: int, w: Write<C>)
    requires DistinctTargets(ws) && 0 <= k < |ws| && ws[k] == w
    ensures LastWrite(ws, w.card) == Some(w)
  {
    WriteIsFinal(ws, k);
  }

  /** The writes of the cards before `i` and of card `i` form a prefix of all writes. */
  lemma {:induction false} WritesPrefix<C>(hs: seq<HolderView<C>>, t: WidthTable, inverted: bool, i: int)
    requires 0 <= i < |hs|
    ensures Writes(hs[..i], t, inverted) + HolderWrites(hs[i], t, inverted) <= Writes(hs, t, inverted)
  {
    if i < |hs| - 1 {
      var init := hs[..|hs| - 1];
      assert init[..i] == hs[..i] && init[i] == hs[i];
      WritesPrefix(init, t, inverted, i);
    } else {
      assert hs[..i] == hs[..|hs| - 1];
    }
  }

  /** Card `i`'s own write number `j` sits at its offset in all the writes. */
  lemma WriteInPrefix<C>(hs: seq<HolderView<C>>, t: WidthTable, inverted: bool, i: int, j: int)
    requires 0 <= i < |hs| && 0 <= j < |HolderWrites(hs[i], t, inverted)|
    ensures var k := |Writes(hs[..i], t, inverted)| + j;
            k < |Writes(hs, t, inverted)| && Writes(hs, t, inverted)[k] == HolderWrites(hs[i], t, inverted)[j]
  {
    WritesPrefix(hs, t, inverted, i);
    PrefixIndex(Writes(hs[..i], t, inverted), HolderWrites(hs[i], t, inverted), Writes(hs, t, inverted), j);
  }

  /** Extending a prefix of `b` by one element. */
  lemma PrefixStep<T>(a: seq<T>, b: seq<T>, j: int)
    requires 0 <= j < |b|
    ensures a + b[..j + 1] == (a + b[..j]) + [b[j]]
  {
    assert b[..j + 1] == b[..j] + [b[j]];
  }

  /** An element of the second part of a prefix sits at its offset in the whole. */
  lemma PrefixIndex<T>(a: seq<T>, b: seq<T>, ws: seq<T>, j: int)
    requires a + b <= ws && 0 <= j < |b|
    ensures |a| + j < |ws| && ws[|a| + j] == b[j]
  {
    assert (a + b)[|a| + j] == b[j];
  }

  /** The first own write of a placed card draws it at its holder position. */
  lemma HolderWriteAt<C>(h: HolderView<C>, t: WidthTable, inverted: bool)
    requires h.grid.x != -1
    ensures var hp := HolderPos(GridToPixel(t, h.grid, inverted), |h.attached|);
            |HolderWrites(h, t, inverted)| > 0 && HolderWrites(h, t, inverted)[0] == Write(h.card, hp, ZValue(hp))
  {
  }

  /** The write of the pass for the `j`-th attachment (from 1) of a placed card. */
  function AttachmentWriteOf<C>(h: HolderView<C>, t: WidthTable, inverted: bool, j: int): Write<C>
    requires 1 <= j <= |h.attached|
  {
    var mp := GridToPixel(t, h.grid, inverted);
    var q := AttachmentPos(HolderPos(mp, |h.attached|), mp, j);
    Write(h.attached[j - 1].card, q, ZValue(q))
  }

  /** The own write number `j` (from 1) of a placed card draws its `j`-th attachment. */
  lemma AttachmentWriteAt<C>(h: HolderView<C>, t: WidthTable, inverted: bool, j: int)
    requires h.grid.x != -1 && 1 <= j <= |h.attached|
    ensures j < |HolderWrites(h, t, inverted)| && HolderWrites(h, t, inverted)[j] == AttachmentWriteOf(h, t, inverted, j)
  {
    var mp := GridToPixel(t, h.grid, inverted);
    var hp := HolderPos(mp, |h.attached|);
    var aw := AttachmentWrites(h.attached, hp, mp);
    assert HolderWrites(h, t, inverted) == [Write(h.card, hp, ZValue(hp))] + aw;
  }

  /**
   A placed card with `n` attachments is finally drawn `n` thirds of a card right
   of its grid position (and 15 lower when `n` > 0), with the matching paint
   order, whenever no card is written twice.
   */
  lemma HolderPlacement<C>(hs: seq<HolderView<C>>, t: WidthTable, inverted: bool, i: int)
    requires 0 <= i < |hs| && hs[i].grid.x != -1
    requires DistinctTargets(Writes(hs, t, inverted))
    ensures var mp := GridToPixel(t, hs[i].grid, inverted);
            var hp := HolderPos(mp, |hs[i].attached|);
            LastWrite(Writes(hs, t, inverted), hs[i].card) == Some(Write(hs[i].card, hp, ZValue(hp)))
  {
    HolderWriteAt(hs[i], t, inverted);
    WriteInPrefix(hs, t, inverted, i, 0);
    WriteIsFinal(Writes(hs, t, inverted), |Writes(hs[..i], t, inverted)|);
  }

  /**
   The `j`-th attachment (from 1) of a placed card is finally drawn `j` thirds of
   a card left of the holder, 5 below the holder's grid position, whenever no
   card is written twice.
   */
  lemma AttachmentPlacement<C>(hs: seq<HolderView<C>>, t: WidthTable, inverted: bool, i: int, j: int)
    requires 0 <= i < |hs| && hs[i].grid.x != -1
    requires 1 <= j <= |hs[i].attached|
    requires DistinctTargets(Writes(hs, t, inverted))
    ensures var mp := GridToPixel(t, hs[i].grid, inverted);
            var q := AttachmentPos(HolderPos(mp, |hs[i].attached|), mp, j);
            LastWrite(Writes(hs, t, inverted), hs[i].attached[j - 1].card) ==
              Some(Write(hs[i].attached[j - 1].card, q, ZValue(q)))
  {
    var k := AttachmentWriteIn(hs, t, inverted, i, j);
    FinalWrite(Writes(hs, t, inverted), k, AttachmentWriteOf(hs[i], t, inverted, j));
  }

  /** Where in all the writes the pass draws the `j`-th attachment (from 1) of card `i`. */
  lemma AttachmentWriteIn<C>(hs: seq<HolderView<C>>, t: WidthTable, inverted: bool, i: int, j: int) returns (k: int)
    requires 0 <= i < |hs| && hs[i].grid.x != -1
    requires 1 <= j <= |hs[i].attached|
    ensures 0 <= k < |Writes(hs, t, inverted)| && Writes(hs, t, inverted)[k] == AttachmentWriteOf(hs[i], t, inverted, j)
  {
    WritesPrefix(hs, t, inverted, i);
    AttachmentWriteAt(hs[i], t, inverted, j);
    PrefixIndex(Writes(hs[..i], t, inverted), HolderWrites(hs[i], t, inverted), Writes(hs, t, inverted), j);
    k := |Writes(hs[..i], t, inverted)| + j;
  }

  /** A card the pass reaches: a placed card of the zone or an attachment of one. */
  ghost predicate Reached<C>(hs: seq<HolderView<C>>, c: C)
  {
    exists i :: 0 <= i < |hs| && hs[i].grid.x != -1 &&
      (hs[i].card == c || exists j :: 0 <= j < |hs[i].attached| && hs[i].attached[j].card == c)
  }

  /** A card is written by a concatenation of writes when it is written by either part. */
  lemma WrittenInConcat<C>(before: seq<Write<C>>, own: seq<Write<C>>, c: C)
    ensures LastWrite(before + own, c).Some? <==> LastWrite(before, c).Some? || LastWrite(own, c).Some?
  {
    var all := before + own;
    if LastWrite(own, c).Some? {
      var k :| 0 <= k < |own| && own[k].card == c;
      assert all[|before| + k] == own[k];
    }
    if LastWrite(before, c).Some? {
      var k :| 0 <= k < |before| && before[k].card == c;
      assert all[k] == before[k];
    }
    if LastWrite(all, c).Some? {
      var k :| 0 <= k < |all| && all[k].card == c;
      if k >= |before| { assert own[k - |before|].card == c; } else { assert before[k].card == c; }
    }
  }

  /** One card's writes reach that card, when placed, and its attachments. */
  lemma HolderWritesReach<C>(h: HolderView<C>, t: WidthTable, inverted: bool, c: C)
    ensures LastWrite(HolderWrites(h, t, inverted), c).Some? <==>
              h.grid.x != -1 && (h.card == c || exists j :: 0 <= j < |h.attached| && h.attached[j].card == c)
  {
    var own := HolderWrites(h, t, inverted);
    if h.grid.x != -1 {
      assert own[0].card == h.card;
      if exists j :: 0 <= j < |h.attached| && h.attached[j].card == c {
        var j :| 0 <= j < |h.attached| && h.attached[j].card == c;
        assert own[j + 1].card == c;
      }
      if LastWrite(own, c).Some? {
        var k :| 0 <= k < |own| && own[k].card == c;
        if k > 0 { assert h.attached[k - 1].card == c; }
      }
    }
  }

  /** A card is reached by the cards `hs` when it is reached by all but the last or by the last. */
  lemma ReachedSplit<C>(hs: seq<HolderView<C>>, c: C)
    requires hs != []
    ensures var h := hs[|hs| - 1];
            Reached(hs, c) <==>
              (Reached(hs[..|hs| - 1], c) ||
               (h.grid.x != -1 && (h.card == c || exists j :: 0 <= j < |h.attached| && h.attached[j].card == c)))
  {
    var init := hs[..|hs| - 1];
    if Reached(hs, c) {
      var i :| 0 <= i < |hs| && hs[i].grid.x != -1 &&
        (hs[i].card == c || exists j :: 0 <= j < |hs[i].attached| && hs[i].attached[j].card == c);
      if i < |init| { assert init[i] == hs[i]; }
    }
    if Reached(init, c) {
      var i :| 0 <= i < |init| && init[i].grid.x != -1 &&
        (init[i].card == c || exists j :: 0 <= j < |init[i].attached| && init[i].attached[j].card == c);
      assert hs[i] == init[i];
    }
  }

  /** The pass writes to exactly the cards it reaches; all others keep their position. */
  lemma {:induction false} WrittenIffReached<C>(hs: seq<HolderView<C>>, t: WidthTable, inverted: bool, c: C)
    ensures LastWrite(Writes(hs, t, inverted), c).Some? <==> Reached(hs, c)
  {
    if hs != [] {
      var init := hs[..|hs| - 1];
      var h := hs[|hs| - 1];
      WrittenIffReached(init, t, inverted, c);
      WrittenInConcat(Writes(init, t, inverted), HolderWrites(h, t, inverted), c);
      HolderWritesReach(h, t, inverted, c);
      ReachedSplit(hs, c);
    }
  }

  /**
   A card the pass does not reach (one off the grid and attached to no placed
   card, or one outside the zone) keeps its position and paint order.
   */
  lemma UnreachedStays<C>(hs: seq<HolderView<C>>, t: WidthTable, inverted: bool, c: C, p0: Point, z0: real)
    requires !Reached(hs, c)
    ensures FinalPos(Writes(hs, t, inverted), c, p0) == p0
    ensures FinalZ(Writes(hs, t, inverted), c, z0) == z0
  {
    WrittenIffReached(hs, t, inverted, c);
  }

  /** The arrows of the attachments, in the order the pass appends them. */
  function AttachmentArrows<C>(atts: seq<AttachedView<C>>): seq<ArrowId>
  {
    if atts == [] then []
    else
      var a := atts[|atts| - 1];
      AttachmentArrows(atts[..|atts| - 1]) + a.arrowsFrom + a.arrowsTo
  }

  /** The arrows the pass appends for one card of the zone: none if it is not on the grid. */
  function HolderArrows<C>(h: HolderView<C>): seq<ArrowId>
  {
    if h.grid.x == -1 then [] else AttachmentArrows(h.attached) + h.arrowsFrom + h.arrowsTo
  }

  /** One more attachment appends its arrows. */
  lemma AttachmentArrowsStep<C>(atts: seq<AttachedView<C>>, j: int)
    requires 0 <= j < |atts|
    ensures AttachmentArrows(atts[..j + 1]) == AttachmentArrows(atts[..j]) + atts[j].arrowsFrom + atts[j].arrowsTo
  {
    assert atts[..j + 1][..j] == atts[..j];
  }

  /** The list of arrows the pass collects, duplicates included. */
  function Arrows<C>(hs: seq<HolderView<C>>): seq<ArrowId>
  {
    if hs == [] then [] else Arrows(hs[..|hs| - 1]) + HolderArrows(hs[|hs| - 1])
  }

  /** The pass over one more card appends that card's arrows. */
  lemma ArrowsStep<C>(hs: seq<HolderView<C>>, i: int)
    requires 0 <= i < |hs|
    ensures Arrows(hs[..i + 1]) == Arrows(hs[..i]) + HolderArrows(hs[i])
  {
    assert hs[..i + 1][..i] == hs[..i];
  }

  /** An arrow starts or ends at card `h` or at one of its attachments. */
  predicate Touches<C>(h: HolderView<C>, a: ArrowId)
  {
    a in h.arrowsFrom || a in h.arrowsTo ||
    exists j :: 0 <= j < |h.attached| && (a in h.attached[j].arrowsFrom || a in h.attached[j].arrowsTo)
  }

  lemma {:induction false} AttachmentArrowsMembers<C>(atts: seq<AttachedView<C>>, a: ArrowId)
    ensures a in AttachmentArrows(atts) <==>
              exists j :: 0 <= j < |atts| && (a in atts[j].arrowsFrom || a in atts[j].arrowsTo)
  {
    if atts != [] {
      var init := atts[..|atts| - 1];
      AttachmentArrowsMembers(init, a);
      if exists j :: 0 <= j < |init| && (a in init[j].arrowsFrom || a in init[j].arrowsTo) {
        var j :| 0 <= j < |init| && (a in init[j].arrowsFrom || a in init[j].arrowsTo);
        assert atts[j] == init[j];
      }
      if exists j :: 0 <= j < |atts| && (a in atts[j].arrowsFrom || a in atts[j].arrowsTo) {
        var j :| 0 <= j < |atts| && (a in atts[j].arrowsFrom || a in atts[j].arrowsTo);
        if j < |init| { assert init[j] == atts[j]; }
      }
    }
  }

  /**
   The arrows the pass refreshes are exactly those that start or end at a placed
   card or at an attachment of one.
   */
  lemma {:induction false} ArrowsMembers<C>(hs: seq<HolderView<C>>, a: ArrowId)
    ensures a in Arrows(hs) <==> exists i :: 0 <= i < |hs| && hs[i].grid.x != -1 && Touches(hs[i], a)
  {
    if hs != [] {
      var h := hs[|hs| - 1];
      ArrowsMembers(hs[..|hs| - 1], a);
      AttachmentArrowsMembers(h.attached, a);
      TouchedSplit(hs, a);
    }
  }

  /** An arrow touches a placed card of `hs` when it touches one before the last, or the last. */
  lemma TouchedSplit<C>(hs: seq<HolderView<C>>, a: ArrowId)
    requires hs != []
    ensures var init, h := hs[..|hs| - 1], hs[|hs| - 1];
            (exists i :: 0 <= i < |hs| && hs[i].grid.x != -1 && Touches(hs[i], a)) <==>
              (exists i :: 0 <= i < |init| && init[i].grid.x != -1 && Touches(init[i], a)) ||
              (h.grid.x != -1 && Touches(h, a))
  {
    var init := hs[..|hs| - 1];
    if exists i :: 0 <= i < |init| && init[i].grid.x != -1 && Touches(init[i], a) {
      var i :| 0 <= i < |init| && init[i].grid.x != -1 && Touches(init[i], a);
      assert hs[i] == init[i];
    }
    if exists i :: 0 <= i < |hs| && hs[i].grid.x != -1 && Touches(hs[i], a) {
      var i :| 0 <= i < |hs| && hs[i].grid.x != -1 && Touches(hs[i], a);
      if i < |init| { assert init[i] == hs[i]; }
    }
  }
}
