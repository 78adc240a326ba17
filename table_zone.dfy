/**
 The table zone as an object: the cards it holds, the stack-width table it
 rebuilds, and its size, updated in place by its methods. Each method carries
 the loops of the zone's own code and is proved against the value-level
 definitions of the other modules.
 */
module TableZoneModel {
  import opened Geometry
  import opened StackWidths
  import opened GridMapping
  import opened Placement
  import opened Resize
  import opened Tapping

  /** A card on the table, with the state the zone reads and writes. */
  class CardItem {
    const id: int
    var gridPoint: GridPoint
    var pos: Point
    var z: real
    var tapped: bool
    var attachedCards: seq<CardItem>
    var arrowsFrom: seq<ArrowId>
    var arrowsTo: seq<ArrowId>

    constructor (id: int)
      ensures this.id == id && gridPoint == GridPoint(-1, 0) && !tapped
      ensures attachedCards == [] && arrowsFrom == [] && arrowsTo == []
    {
      this.id := id;
      gridPoint := GridPoint(-1, 0);
      pos := Point(0.0, 0.0);
      z := 0.0;
      tapped := false;
      attachedCards := [];
      arrowsFrom := [];
      arrowsTo := [];
    }
  }

  /** What the position pass reads of the cards attached to a holder. */
  ghost function AttachedViews(cs: seq<CardItem>): (r: seq<AttachedView<CardItem>>)
    reads cs`arrowsFrom, cs`arrowsTo
    ensures |r| == |cs|
    ensures forall k :: 0 <= k < |cs| ==> r[k] == AttachedView(cs[k], cs[k].arrowsFrom, cs[k].arrowsTo)
  {
    if cs == [] then []
    else
      var c := cs[|cs| - 1];
      AttachedViews(cs[..|cs| - 1]) + [AttachedView(c, c.arrowsFrom, c.arrowsTo)]
  }

  /** The cards attached to some card of `cs`. */
  ghost function AttachedOf(cs: seq<CardItem>): set<CardItem>
    reads cs`attachedCards
  {
    set c, a | c in cs && a in c.attachedCards :: a
  }

  /** The cards of `cs` and the cards attached to them: all the position pass may move. */
  ghost function Footprint(cs: seq<CardItem>): set<CardItem>
    reads cs`attachedCards
  {
    (set c | c in cs) + AttachedOf(cs)
  }

  /** The cards attached to `c`. */
  ghost function Attachments(c: CardItem): set<CardItem>
    reads c`attachedCards
  {
    set a | a in c.attachedCards
  }

  /** The state of card `c` as the reorganisation reads it. */
  ghost function HolderViewOf(c: CardItem): HolderView<CardItem>
    reads c`gridPoint, c`attachedCards, c`arrowsFrom, c`arrowsTo
    reads c.attachedCards`arrowsFrom, c.attachedCards`arrowsTo
  {
    HolderView(c, c.gridPoint, AttachedViews(c.attachedCards), c.arrowsFrom, c.arrowsTo)
  }

  /** A card's view depends only on the fields the position pass leaves alone. */
  twostate lemma HolderViewUnchanged(c: CardItem)
    requires old(allocated(c))
    requires unchanged(c`gridPoint, c`attachedCards, c`arrowsFrom, c`arrowsTo)
    requires forall a :: a in c.attachedCards ==> unchanged(a`arrowsFrom, a`arrowsTo)
    ensures old(HolderViewOf(c)) == HolderViewOf(c)
  {
    var cs := c.attachedCards;
    var before := old(AttachedViews(cs));
    var after := AttachedViews(cs);
    forall k | 0 <= k < |cs|
      ensures before[k] == after[k]
    {
      assert cs[k] in c.attachedCards;
      assert before[k] == AttachedView(cs[k], old(cs[k].arrowsFrom), old(cs[k].arrowsTo));
    }
    assert before == after;
  }

  /** The state of the cards `cs` as the reorganisation reads it. */
  ghost function Snapshot(cs: seq<CardItem>): (r: seq<HolderView<CardItem>>)
    reads cs`gridPoint, cs`attachedCards, cs`arrowsFrom, cs`arrowsTo
    reads AttachedOf(cs)`arrowsFrom, AttachedOf(cs)`arrowsTo
    ensures |r| == |cs|
  {
    if cs == [] then []
    else
      var c := cs[|cs| - 1];
      assert AttachedOf(cs[..|cs| - 1]) <= AttachedOf(cs);
      assert Attachments(c) <= AttachedOf(cs);
      Snapshot(cs[..|cs| - 1]) + [HolderViewOf(c)]
  }

  /** The snapshot holds each card's own view, in order. */
  lemma {:induction false} SnapshotAt(cs: seq<CardItem>, i: int)
    requires 0 <= i < |cs|
    ensures Snapshot(cs)[i] == HolderViewOf(cs[i])
  {
    if i < |cs| - 1 {
      var init := cs[..|cs| - 1];
      SnapshotAt(init, i);
      assert Snapshot(cs)[i] == Snapshot(init)[i];
    }
  }

  /** What the reorganisation reads of cards no step has touched is what it was. */
  twostate lemma {:induction false} CardsUnchanged(cs: seq<CardItem>)
    requires forall i :: 0 <= i < |cs| ==> old(allocated(cs[i])) && unchanged(cs[i])
    requires forall i, a :: 0 <= i < |cs| && a in cs[i].attachedCards ==> old(allocated(a)) && unchanged(a)
    ensures old(Snapshot(cs)) == Snapshot(cs)
    ensures old(OccupantsOf(cs)) == OccupantsOf(cs)
    ensures old(Footprint(cs)) == Footprint(cs)
    ensures old(PosMap(Footprint(cs))) == PosMap(Footprint(cs)) && old(ZMap(Footprint(cs))) == ZMap(Footprint(cs))
  {
    if cs != [] {
      var init := cs[..|cs| - 1];
      var c := cs[|cs| - 1];
      assert forall i :: 0 <= i < |init| ==> init[i] == cs[i];
      CardsUnchanged(init);
      HolderViewUnchanged(c);
      assert old(AttachedOf(cs)) == AttachedOf(cs);
    }
  }

  /** The snapshot depends only on the fields the position pass leaves alone. */
  twostate lemma SnapshotKept(cs: seq<CardItem>)
    requires old(allocated(cs)) && old(allocated(AttachedOf(cs)))
    requires unchanged(cs`gridPoint, cs`attachedCards, cs`arrowsFrom, cs`arrowsTo)
    requires unchanged(old(AttachedOf(cs))`arrowsFrom, old(AttachedOf(cs))`arrowsTo)
    ensures old(Snapshot(cs)) == Snapshot(cs)
  {
  }

  /** What the width pass reads of the cards `cs`. */
  ghost function OccupantsOf(cs: seq<CardItem>): (r: seq<Occupant>)
    reads cs`gridPoint, cs`attachedCards
    ensures |r| == |cs|
    ensures forall i :: 0 <= i < |cs| ==> r[i] == Occupant(cs[i].gridPoint, |cs[i].attachedCards|)
  {
    if cs == [] then []
    else OccupantsOf(cs[..|cs| - 1]) + [Occupant(cs[|cs| - 1].gridPoint, |cs[|cs| - 1].attachedCards|)]
  }

  /** What the width pass reads is that of cards no step has touched. */
  twostate lemma OccupantsKept(cs: seq<CardItem>)
    requires old(allocated(cs)) && unchanged(cs`gridPoint, cs`attachedCards)
    ensures old(OccupantsOf(cs)) == OccupantsOf(cs)
  {
  }

  /** The x positions of the cards `cs`. */
  ghost function PositionsX(cs: seq<CardItem>): (r: seq<real>)
    reads cs`pos
    ensures |r| == |cs|
    ensures forall i :: 0 <= i < |cs| ==> r[i] == cs[i].pos.x
  {
    if cs == [] then [] else PositionsX(cs[..|cs| - 1]) + [cs[|cs| - 1].pos.x]
  }

  /** The x positions are those of cards no step has touched. */
  twostate lemma PositionsKept(cs: seq<CardItem>)
    requires old(allocated(cs)) && unchanged(cs`pos)
    ensures old(PositionsX(cs)) == PositionsX(cs)
  {
  }

  /** What the toggle reads of the selected cards. */
  ghost function Selection(cs: seq<CardItem>): (r: seq<SelectedCard>)
    reads cs`tapped
    ensures |r| == |cs|
    ensures forall i :: 0 <= i < |cs| ==> r[i] == SelectedCard(cs[i].id, cs[i].tapped)
  {
    if cs == [] then [] else Selection(cs[..|cs| - 1]) + [SelectedCard(cs[|cs| - 1].id, cs[|cs| - 1].tapped)]
  }

  /**
   Every card of `foot` is where the writes `ws` put it, starting from the
   positions `pos0` and paint orders `z0`.
   */
  ghost predicate PlacedBy(foot: set<CardItem>, ws: seq<Write<CardItem>>, pos0: map<CardItem, Point>, z0: map<CardItem, real>)
    reads foot`pos, foot`z
  {
    forall c :: c in foot ==>
      c in pos0 && c in z0 && c.pos == FinalPos(ws, c, pos0[c]) && c.z == FinalZ(ws, c, z0[c])
  }

  /** The positions of the cards `foot`. */
  ghost function PosMap(foot: set<CardItem>): (m: map<CardItem, Point>)
    reads foot`pos
    ensures forall c :: c in foot ==> c in m && m[c] == c.pos
  {
    map c: CardItem | c in foot :: c.pos
  }

  /** The paint orders of the cards `foot`. */
  ghost function ZMap(foot: set<CardItem>): (m: map<CardItem, real>)
    reads foot`z
    ensures forall c :: c in foot ==> c in m && m[c] == c.z
  {
    map c: CardItem | c in foot :: c.z
  }

  /** Some card of `cs` sits at grid point `gp`. */
  ghost predicate Occupied(cs: seq<CardItem>, gp: GridPoint)
    reads cs`gridPoint
  {
    exists i :: 0 <= i < |cs| && cs[i].gridPoint == gp
  }

  /** The zone. `mirrored` and `invertVertical` stand for the player's and the settings' flags. */
  class TableZone {
    var cards: seq<CardItem>
    var gridPointWidth: WidthTable
    var width: int
    var height: int
    var currentMinimumWidth: int
    var mirrored: bool
    var invertVertical: bool

    /** Every stored width is at least a card wide; the zone is never narrower than it starts. */
    ghost predicate Valid()
      reads this`gridPointWidth, this`width, this`height
    {
      TableValid(gridPointWidth) && width >= INITIAL_WIDTH && height == INITIAL_HEIGHT
    }

    function Inverted(): bool
      reads this`mirrored, this`invertVertical
    {
      IsInverted(mirrored, invertVertical)
    }

    /** A new, empty zone of the initial size. */
    constructor (mirrored: bool, invertVertical: bool)
      ensures Valid()
      ensures cards == [] && gridPointWidth == map[]
      ensures width == INITIAL_WIDTH && height == INITIAL_HEIGHT && currentMinimumWidth == MIN_WIDTH
      ensures this.mirrored == mirrored && this.invertVertical == invertVertical
    {
      cards := [];
      gridPointWidth := map[];
      height := 2 * BOX_LINE_WIDTH + 3 * (CARD_HEIGHT + 20) + 2 * PADDING_Y;
      width := MIN_WIDTH + 2 * MARGIN_X + 2 * BOX_LINE_WIDTH;
      currentMinimumWidth := MIN_WIDTH;
      this.mirrored := mirrored;
      this.invertVertical := invertVertical;
    }

    /** Appends `card` to the zone's cards and gives it grid point (`x`, `y`). */
    method AddCardImpl(card: CardItem, x: int, y: int)
      requires Valid()
      modifies this`cards, card`gridPoint
      ensures Valid()
      ensures cards == old(cards) + [card]
      ensures card.gridPoint == GridPoint(x, y)
      ensures Occupied(cards, GridPoint(x, y))
    {
      cards := cards + [card];
      card.gridPoint := GridPoint(x, y);
      assert cards[|cards| - 1] == card;
    }

    /** The first card of the zone, in list order, at grid point `gp`; null when there is none. */
    method GetCardFromGrid(gp: GridPoint) returns (r: CardItem?)
      ensures r == null <==> !Occupied(cards, gp)
      ensures r != null ==>
                exists i :: 0 <= i < |cards| && cards[i] == r && r.gridPoint == gp &&
                  forall k :: 0 <= k < i ==> cards[k].gridPoint != gp
    {
      for i := 0 to |cards|
        invariant forall k :: 0 <= k < i ==> cards[k].gridPoint != gp
      {
        if cards[i].gridPoint == gp {
          return cards[i];
        }
      }
      return null;
    }

    /** The pixel position of grid point `gp`. */
    method MapFromGrid(gp: GridPoint) returns (p: Point)
      ensures p == GridToPixel(gridPointWidth, gp, Inverted())
    {
      var x := MARGIN_X as real + (Mod3(gp.x) * CARD_WIDTH) as real / 3.0;
      ghost var base := x;
      var groups := Div3(gp.x);
      var i := 0;
      while i < groups
        invariant 0 <= i && (i <= groups || i == 0)
        invariant x == base + GroupStart(gridPointWidth, gp.y, i)
      {
        x := x + WidthAt(gridPointWidth, gp.y * 1000 + i) + PADDING_X as real;
        i := i + 1;
      }
      var row := gp.y;
      if Inverted() {
        row := 2 - row;
      }
      var y := (BOX_LINE_WIDTH + row * (CARD_HEIGHT + PADDING_Y + 20) + Mod3(gp.x) * 10) as real;
      p := Point(x, y);
    }

    /**
     The do-while walk of `MapToGrid` along row `row`: the group whose span
     (plus padding) first reaches `x + 1`, and the offset at which it starts.
     */
    method WalkGroups(row: int, x: real) returns (baseX: nat, oldTempX: real)
      requires Valid()
      ensures baseX == FindGroup(gridPointWidth, row, x, 0)
      ensures oldTempX == GroupStart(gridPointWidth, row, baseX)
    {
      var t := gridPointWidth;
      // The body of the do-while loop runs once before its condition is first tested.
      baseX := 0;
      oldTempX := 0.0;
      var tempX := WidthAt(t, row * 1000 + baseX) + PADDING_X as real;
      while tempX < x + 1.0
        invariant oldTempX == GroupStart(t, row, baseX)
        invariant tempX == GroupStart(t, row, baseX + 1)
        invariant baseX == 0 || oldTempX < x + 1.0
        decreases (x + 1.0 - tempX).Floor
      {
        baseX := baseX + 1;
        oldTempX := tempX;
        WidthAtValid(t, row * 1000 + baseX);
        GroupStartNext(t, row, baseX);
        tempX := tempX + WidthAt(t, row * 1000 + baseX) + PADDING_X as real;
      }
      FindGroupIs(t, row, x, baseX);
    }

    /** The grid point of pixel position `p`. */
    method MapToGrid(p: Point) returns (g: GridPoint)
      requires Valid()
      ensures g == PixelToGrid(gridPointWidth, width, height, Inverted(), p)
    {
      var x := p.x - MARGIN_X as real;
      var y := p.y;
      y := y - BOX_LINE_WIDTH as real;
      if x < 0.0 {
        x := 0.0;
      } else if x > (width - CARD_WIDTH - MARGIN_X) as real {
        x := (width - CARD_WIDTH - MARGIN_X) as real;
      }
      assert x == OffsetX(width, p.x);
      if y < 0.0 {
        y := 0.0;
      } else if y > (height - CARD_HEIGHT) as real {
        y := (height - CARD_HEIGHT) as real;
      }
      assert y == OffsetY(height, p.y);
      var resultY := Round(y / (CARD_HEIGHT + PADDING_Y + 20) as real);
      if Inverted() {
        resultY := 2 - resultY;
      }
      assert resultY == TargetRow(height, Inverted(), p);
      var baseX, oldTempX := WalkGroups(resultY, x);
      PixelToGridFromWalk(gridPointWidth, width, height, Inverted(), p, x, resultY, baseX);
      var xdiff := x - oldTempX;
      g := GridPoint(baseX * 3 + Min((xdiff * 3.0 / CARD_WIDTH as real).Floor, 2), resultY);
    }

    /**
     Where a card dropped at `point` would be placed: the first free slot among
     the first three columns of the stack group under the point, or the third
     one when all three are taken.
     */
    method ClosestGridPoint(point: Point) returns (r: Point)
      requires Valid()
      ensures var g := PixelToGrid(gridPointWidth, width, height, Inverted(), Point(point.x + 1.0, point.y + 1.0));
              var b := Div3(g.x) * 3;
              exists col :: b <= col <= b + 2 &&
                r == GridToPixel(gridPointWidth, GridPoint(col, g.y), Inverted()) &&
                (forall c :: b <= c < col ==> Occupied(cards, GridPoint(c, g.y))) &&
                (col < b + 2 ==> !Occupied(cards, GridPoint(col, g.y)))
    {
      var gridPoint := MapToGrid(Point(point.x + 1.0, point.y + 1.0));
      ghost var b := Div3(gridPoint.x) * 3;
      gridPoint := GridPoint(Div3(gridPoint.x) * 3, gridPoint.y);
      var card := GetCardFromGrid(gridPoint);
      if card != null {
        gridPoint := GridPoint(gridPoint.x + 1, gridPoint.y);
      }
      card := GetCardFromGrid(gridPoint);
      if card != null {
        gridPoint := GridPoint(gridPoint.x + 1, gridPoint.y);
      }
      r := MapFromGrid(gridPoint);
    }

    /** The count loop of the reorganisation: how many placed cards each stack group holds. */
    method CountStacks() returns (gridPointStackCount: map<int, int>)
      ensures gridPointStackCount == Counts(OccupantsOf(cards))
    {
      ghost var os := OccupantsOf(cards);
      gridPointStackCount := map[];
      for i := 0 to |cards|
        invariant gridPointStackCount == Counts(os[..i])
      {
        CountsStep(os, i);
        var gridPoint := cards[i].gridPoint;
        if gridPoint.x != -1 {
          var key := Div3(gridPoint.x) + gridPoint.y * 1000;
          gridPointStackCount := gridPointStackCount[key :=
            (if key in gridPointStackCount then gridPointStackCount[key] else 0) + 1];
        }
      }
      assert os[..|cards|] == os;
    }

    /**
     The first half of the reorganisation: count the placed cards of every stack
     group, then store every occupied group's width.
     */
    method ComputeWidths()
      requires Valid()
      modifies this`gridPointWidth
      ensures Valid()
      ensures gridPointWidth == BuildWidthTable(OccupantsOf(cards))
    {
      var gridPointStackCount := CountStacks();
      FillWidths(gridPointStackCount);
      OccupantsKept(cards);
      WidthTableIsValid(OccupantsOf(cards));
    }

    /** The width loop of the reorganisation: the table is rebuilt from the counts `gridPointStackCount`. */
    method FillWidths(gridPointStackCount: map<int, int>)
      modifies this`gridPointWidth
      ensures gridPointWidth == InsertWidths(OccupantsOf(cards), gridPointStackCount)
    {
      ghost var os := OccupantsOf(cards);
      gridPointWidth := map[];
      for i := 0 to |cards|
        invariant gridPointWidth == InsertWidths(os[..i], gridPointStackCount)
      {
        InsertWidthsStep(os, gridPointStackCount, i);
        var gridPoint := cards[i].gridPoint;
        assert os[i] == Occupant(gridPoint, |cards[i].attachedCards|);
        if gridPoint.x != -1 {
          var key := Div3(gridPoint.x) + gridPoint.y * 1000;
          assert key == StackKey(os[i].grid);
          var stackCount := if key in gridPointStackCount then gridPointStackCount[key] else 0;
          gridPointWidth := gridPointWidth[key := StackWidth(stackCount, |cards[i].attachedCards|)];
        }
      }
      assert os[..|cards|] == os;
    }

    /**
     Moves `card` to `p` with paint order `z` (the card's `setPos` and
     `setRealZValue`): one more write of the position pass.
     */
    method SetPlacement(card: CardItem, p: Point, z: real, ghost foot: set<CardItem>, ghost ws: seq<Write<CardItem>>,
                        ghost pos0: map<CardItem, Point>, ghost z0: map<CardItem, real>)
      requires card in foot && PlacedBy(foot, ws, pos0, z0)
      modifies card`pos, card`z
      ensures card.pos == p && card.z == z
      ensures PlacedBy(foot, ws + [Write(card, p, z)], pos0, z0)
    {
      card.pos := p;
      card.z := z;
      LastWriteAppend(ws, Write(card, p, z));
    }

    /**
     The inner loop of the position pass: the `j`-th card of `attached` (from 1)
     is drawn `j` thirds of a card left of `holder`, 5 below the grid position
     `mp`, and the arrows at the attached cards are collected.
     */
    method PlaceAttachments(attached: seq<CardItem>, holder: Point, mp: Point, ghost foot: set<CardItem>,
                            ghost ws: seq<Write<CardItem>>, ghost pos0: map<CardItem, Point>, ghost z0: map<CardItem, real>)
        returns (arrows: seq<ArrowId>)
      requires forall a :: a in attached ==> a in foot
      requires PlacedBy(foot, ws, pos0, z0)
      modifies (set a | a in attached)`pos, (set a | a in attached)`z
      ensures arrows == AttachmentArrows(old(AttachedViews(attached)))
      ensures PlacedBy(foot, ws + AttachmentWrites(old(AttachedViews(attached)), holder, mp), pos0, z0)
    {
      ghost var views := AttachedViews(attached);
      ghost var aw := AttachmentWrites(views, holder, mp);
      arrows := [];
      var j := 0;
      assert ws + aw[..j] == ws;
      while j < |attached|
        invariant 0 <= j <= |attached|
        invariant PlacedBy(foot, ws + aw[..j], pos0, z0)
        invariant arrows == AttachmentArrows(views[..j])
      {
        PrefixStep(ws, aw, j);
        AttachmentArrowsStep(views, j);
        assert views[j] == AttachedView(attached[j], attached[j].arrowsFrom, attached[j].arrowsTo);
        j := j + 1;
        var attachedCard := attached[j - 1];
        var childPos := AttachmentPos(holder, mp, j);
        SetPlacement(attachedCard, childPos, ZValue(childPos), foot, ws + aw[..j - 1], pos0, z0);
        arrows := arrows + attachedCard.arrowsFrom + attachedCard.arrowsTo;
      }
      assert aw[..j] == aw;
      assert views[..j] == views;
    }

    /**
     One step of the position pass, for a card on the grid: the card is drawn
     right of its grid position by a third of a card per attachment (and 15
     lower when it has any), then its attachments are placed.
     */
    method PlaceCard(card: CardItem, ghost foot: set<CardItem>, ghost ws: seq<Write<CardItem>>,
                     ghost pos0: map<CardItem, Point>, ghost z0: map<CardItem, real>) returns (arrows: seq<ArrowId>)
      requires card.gridPoint.x != -1
      requires card in foot && Attachments(card) <= foot
      requires PlacedBy(foot, ws, pos0, z0)
      modifies ({card} + Attachments(card))`pos, ({card} + Attachments(card))`z
      ensures arrows == HolderArrows(old(HolderViewOf(card)))
      ensures PlacedBy(foot, ws + HolderWrites(old(HolderViewOf(card)), gridPointWidth, Inverted()), pos0, z0)
    {
      ghost var h := HolderViewOf(card);
      var attached := card.attachedCards;
      var mapPoint := MapFromGrid(card.gridPoint);
      var holder := HolderPos(mapPoint, |attached|);
      ghost var first := [Write(card, holder, ZValue(holder))];
      ghost var aw := AttachmentWrites(h.attached, holder, mapPoint);
      assert HolderWrites(h, gridPointWidth, Inverted()) == first + aw;
      assert ws + (first + aw) == (ws + first) + aw;
      SetPlacement(card, holder, ZValue(holder), foot, ws, pos0, z0);
      assert AttachedViews(attached) == h.attached;
      var attachedArrows := PlaceAttachments(attached, holder, mapPoint, foot, ws + first, pos0, z0);
      arrows := attachedArrows + card.arrowsFrom + card.arrowsTo;
    }

    /**
     The body of the position loop for the `i`-th card of the zone, whose
     view before the pass is `snap[i]`: a card off the grid is skipped.
     */
    method PlaceStep(i: int, ghost snap: seq<HolderView<CardItem>>, ghost foot: set<CardItem>,
                     ghost pos0: map<CardItem, Point>, ghost z0: map<CardItem, real>) returns (arrows: seq<ArrowId>)
      requires 0 <= i < |cards| && Snapshot(cards) == snap
      requires cards[i] in foot && Attachments(cards[i]) <= foot
      requires PlacedBy(foot, Writes(snap[..i], gridPointWidth, Inverted()), pos0, z0)
      modifies ({cards[i]} + Attachments(cards[i]))`pos, ({cards[i]} + Attachments(cards[i]))`z
      ensures Snapshot(cards) == snap
      ensures arrows == HolderArrows(snap[i])
      ensures PlacedBy(foot, Writes(snap[..i + 1], gridPointWidth, Inverted()), pos0, z0)
    {
      WritesStep(snap, i, gridPointWidth, Inverted());
      var card := cards[i];
      SnapshotAt(cards, i);
      if card.gridPoint.x == -1 {
        arrows := [];
        assert HolderWrites(snap[i], gridPointWidth, Inverted()) == [];
        assert Writes(snap[..i], gridPointWidth, Inverted()) + [] == Writes(snap[..i], gridPointWidth, Inverted());
      } else {
        arrows := PlaceCard(card, foot, Writes(snap[..i], gridPointWidth, Inverted()), pos0, z0);
      }
      SnapshotKept(cards);
    }

    /**
     The second half of the reorganisation: every card on the grid and its
     attachments get their positions and paint order, as the writes of
     `Writes` decide, and the arrows at all of them are collected.
     */
    method PlaceCards() returns (arrowsToUpdate: seq<ArrowId>)
      modifies Footprint(cards)`pos, Footprint(cards)`z
      ensures arrowsToUpdate == Arrows(old(Snapshot(cards)))
      ensures PlacedBy(old(Footprint(cards)), Writes(old(Snapshot(cards)), gridPointWidth, Inverted()),
                       old(PosMap(Footprint(cards))), old(ZMap(Footprint(cards))))
    {
      ghost var snap := Snapshot(cards);
      ghost var foot := Footprint(cards);
      ghost var pos0 := PosMap(foot);
      ghost var z0 := ZMap(foot);
      arrowsToUpdate := [];
      for i := 0 to |cards|
        invariant Snapshot(cards) == snap
        invariant arrowsToUpdate == Arrows(snap[..i])
        invariant PlacedBy(foot, Writes(snap[..i], gridPointWidth, Inverted()), pos0, z0)
      {
        ArrowsStep(snap, i);
        assert Attachments(cards[i]) <= foot && cards[i] in foot;
        var arrows := PlaceStep(i, snap, foot, pos0, z0);
        arrowsToUpdate := arrowsToUpdate + arrows;
      }
      assert snap[..|cards|] == snap;
    }

    /**
     Recomputes the stack widths, places every card and its attachments,
     refreshes each arrow at a placed card once, and resizes the zone.
     */
    method ReorganizeCards() returns (refreshed: set<ArrowId>, sizeChanged: bool)
      requires Valid()
      modifies this`gridPointWidth, this`width, this`currentMinimumWidth
      modifies Footprint(cards)`pos, Footprint(cards)`z
      ensures Valid()
      ensures gridPointWidth == BuildWidthTable(old(OccupantsOf(cards)))
      ensures PlacedBy(old(Footprint(cards)), Writes(old(Snapshot(cards)), gridPointWidth, Inverted()),
                       old(PosMap(Footprint(cards))), old(ZMap(Footprint(cards))))
      ensures refreshed == set a | a in Arrows(old(Snapshot(cards)))
      ensures currentMinimumWidth == MinimumWidth(PositionsX(cards)) && width == currentMinimumWidth
      ensures sizeChanged <==> old(width) != width
    {
      ghost var snap := Snapshot(cards);
      ghost var foot := Footprint(cards);
      ghost var pos0 := PosMap(foot);
      ghost var z0 := ZMap(foot);
      ComputeWidths();
      CardsUnchanged(cards);
      refreshed, sizeChanged := PlaceAndResize(snap, foot, pos0, z0);
    }

    /** The reorganisation after the widths are known, from the state the ghost parameters name. */
    method PlaceAndResize(ghost snap: seq<HolderView<CardItem>>, ghost foot: set<CardItem>,
                          ghost pos0: map<CardItem, Point>, ghost z0: map<CardItem, real>)
        returns (refreshed: set<ArrowId>, sizeChanged: bool)
      requires Valid()
      requires snap == Snapshot(cards) && foot == Footprint(cards)
      requires pos0 == PosMap(foot) && z0 == ZMap(foot)
      modifies this`width, this`currentMinimumWidth, foot`pos, foot`z
      ensures Valid()
      ensures PlacedBy(foot, Writes(snap, gridPointWidth, Inverted()), pos0, z0)
      ensures refreshed == set a | a in Arrows(snap)
      ensures currentMinimumWidth == MinimumWidth(PositionsX(cards)) && width == currentMinimumWidth
      ensures sizeChanged <==> old(width) != width
    {
      var arrowsToUpdate := PlaceCards();
      refreshed := set a | a in arrowsToUpdate;
      sizeChanged := ResizeToContents();
    }

    /**
     Sets the zone's width to what its cards need; `sizeChanged` reports
     whether the width changed.
     */
    method ResizeToContents() returns (sizeChanged: bool)
      requires Valid()
      modifies this`width, this`currentMinimumWidth
      ensures Valid()
      ensures currentMinimumWidth == MinimumWidth(PositionsX(cards)) && width == currentMinimumWidth
      ensures sizeChanged <==> old(width) != width
    {
      MinimumWidthBounds(PositionsX(cards));
      currentMinimumWidth := NeededWidth();
      sizeChanged := false;
      if currentMinimumWidth != width {
        width := currentMinimumWidth;
        sizeChanged := true;
      }
      PositionsKept(cards);
    }

    /** The width the resize settles on: two cards past the rightmost card, at least the minimum, plus the borders. */
    method NeededWidth() returns (w: int)
      ensures w == MinimumWidth(PositionsX(cards))
    {
      var xMax := RightmostX();
      xMax := xMax + 2 * CARD_WIDTH;
      if xMax < MIN_WIDTH {
        xMax := MIN_WIDTH;
      }
      w := xMax + 2 * MARGIN_X + 2 * BOX_LINE_WIDTH;
    }

    /** The scan of the resize: the truncated x of the rightmost card, or 0. */
    method RightmostX() returns (xMax: int)
      ensures xMax == XMax(PositionsX(cards))
    {
      ghost var xs := PositionsX(cards);
      xMax := 0;
      for i := 0 to |cards|
        invariant xMax == XMax(xs[..i])
      {
        XMaxStep(xs, i);
        if cards[i].pos.x > xMax as real {
          xMax := Trunc(cards[i].pos.x);
        }
      }
      assert xs[..|cards|] == xs;
    }

    /** Resizing is idempotent: a second resize right after the first changes nothing. */
    method ResizeTwice() returns (first: bool, second: bool)
      requires Valid()
      modifies this`width, this`currentMinimumWidth
      ensures Valid() && !second
      ensures width == MinimumWidth(PositionsX(cards))
    {
      first := ResizeToContents();
      second := ResizeToContents();
    }

    /**
     The tap toggle over the selected cards: `tapAll` is the decision and
     `cmds` are the commands sent.
     */
    method ToggleTapped(selected: seq<CardItem>) returns (tapAll: bool, cmds: seq<TapCommand>)
      ensures tapAll == TapAll(Selection(selected))
      ensures cmds == TapCommands(Selection(selected))
    {
      ghost var sel := Selection(selected);
      tapAll := false;
      var i := 0;
      while i < |selected|
        invariant 0 <= i <= |selected| && !tapAll
        invariant forall k :: 0 <= k < i ==> selected[k].tapped
      {
        if !selected[i].tapped {
          assert !sel[i].tapped;
          tapAll := true;
          break;
        }
        i := i + 1;
      }
      cmds := [];
      for k := 0 to |selected|
        invariant cmds == Commands(sel[..k], tapAll)
      {
        assert sel[..k + 1][..k] == sel[..k];
        var temp := selected[k];
        if temp.tapped != tapAll {
          cmds := cmds + [SetTapped(temp.id, if tapAll then "1" else "0")];
        }
      }
      assert sel[..|selected|] == sel;
    }
  }
}
