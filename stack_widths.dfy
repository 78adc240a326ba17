/**
 The stack-width table: the pixel width that every occupied stack group of the
 table needs. Every three consecutive columns of a row form one stack group; a
 group is widened for the extra cards stacked in it or, when it holds a single
 card, for the cards attached to that card.
 */
module StackWidths {
  import opened Geometry

  /** What the width pass reads of one card: its grid point and its number of attachments. */
  datatype Occupant = Occupant(grid: GridPoint, attached: nat)

  /** The table maps a stack key to a width; absent keys stand for CARD_WIDTH. */
  type WidthTable = map<int, real>

  /** Cards with column -1 take no part in the layout. */
  predicate Placed(o: Occupant) { o.grid.x != -1 }

  /** The key under which a row's stack group is stored. */
  function GroupKey(row: int, group: int): int { row * 1000 + group }

  /** The key of the stack group that holds grid point `gp`. */
  function StackKey(gp: GridPoint): (k: int)
    ensures k == GroupKey(gp.y, Div3(gp.x))
  {
    Div3(gp.x) + gp.y * 1000
  }

  /** Lookup with the default CARD_WIDTH for groups that have no entry. */
  function WidthAt(t: WidthTable, key: int): (w: real)
    ensures key in t ==> w == t[key]
    ensures key !in t ==> w == CARD_WIDTH as real
  {
    if key in t then t[key] else CARD_WIDTH as real
  }

  /** Every stored width is at least one card wide. */
  ghost predicate TableValid(t: WidthTable)
  {
    forall k :: k in t ==> t[k] >= CARD_WIDTH as real
  }

  lemma WidthAtValid(t: WidthTable, key: int)
    requires TableValid(t)
    ensures WidthAt(t, key) >= CARD_WIDTH as real
  {
  }

  /**
   The width formula: a group with one occupant is widened by a third of a card
   per attachment of that occupant, a group with `count` > 1 occupants by a third
   of a card per occupant beyond the first.
   */
  function StackWidth(count: int, attached: nat): real
  {
    if count == 1 then CARD_WIDTH as real * (1.0 + attached as real / 3.0)
    else CARD_WIDTH as real * (1.0 + (count - 1) as real / 3.0)
  }

  lemma StackWidthAtLeastCard(count: int, attached: nat)
    requires count >= 1
    ensures StackWidth(count, attached) >= CARD_WIDTH as real
  {
  }

  /** A lone card with two or more attachments is wider than a stack of two. */
  lemma StackWidthDrop(attached: nat)
    requires attached >= 2
    ensures StackWidth(2, attached) < StackWidth(1, attached)
  {
    var c := CARD_WIDTH as real;
    var d := attached as real / 3.0 - 1.0 / 3.0;
    assert d > 0.0;
    assert StackWidth(1, attached) - StackWidth(2, attached) == c * d;
  }

  /** The number of placed occupants whose stack key is `k`. */
  function Occupancy(os: seq<Occupant>, k: int): nat
  {
    if os == [] then 0
    else
      var last := os[|os| - 1];
      Occupancy(os[..|os| - 1], k) + (if Placed(last) && StackKey(last.grid) == k then 1 else 0)
  }

  /** The count map the first loop of the width pass builds, one occupant at a time. */
  function Counts(os: seq<Occupant>): map<int, int>
  {
    if os == [] then map[]
    else
      var prev := Counts(os[..|os| - 1]);
      var last := os[|os| - 1];
      if !Placed(last) then prev
      else
        var k := StackKey(last.grid);
        prev[k := (if k in prev then prev[k] else 0) + 1]
  }

  /** The table the second loop of the width pass builds from `counts`, one occupant at a time. */
  function InsertWidths(os: seq<Occupant>, counts: map<int, int>): WidthTable
  {
    if os == [] then map[]
    else
      var prev := InsertWidths(os[..|os| - 1], counts);
      var last := os[|os| - 1];
      if !Placed(last) then prev
      else
        var k := StackKey(last.grid);
        prev[k := StackWidth(if k in counts then counts[k] else 0, last.attached)]
  }

  /** The table one width pass builds over the cards `os`. */
  function BuildWidthTable(os: seq<Occupant>): WidthTable
  {
    InsertWidths(os, Counts(os))
  }

  /** One step of the count loop. */
  lemma CountsStep(os: seq<Occupant>, i: int)
    requires 0 <= i < |os|
    ensures var prev := Counts(os[..i]);
            var k := StackKey(os[i].grid);
            Counts(os[..i + 1]) == if !Placed(os[i]) then prev else prev[k := (if k in prev then prev[k] else 0) + 1]
  {
    assert os[..i + 1][..i] == os[..i];
  }

  /** One step of the width loop. */
  lemma InsertWidthsStep(os: seq<Occupant>, counts: map<int, int>, i: int)
    requires 0 <= i < |os|
    ensures var prev := InsertWidths(os[..i], counts);
            var k := StackKey(os[i].grid);
            InsertWidths(os[..i + 1], counts) ==
              if !Placed(os[i]) then prev else prev[k := StackWidth(if k in counts then counts[k] else 0, os[i].attached)]
  {
    assert os[..i + 1][..i] == os[..i];
  }

  /** The count map holds exactly the occupied keys, each with its occupancy. */
  lemma {:induction false} CountsAreOccupancy(os: seq<Occupant>)
    ensures forall k :: k in Counts(os) <==> Occupancy(os, k) > 0
    ensures forall k :: k in Counts(os) ==> Counts(os)[k] == Occupancy(os, k)
  {
    if os != [] {
      CountsAreOccupancy(os[..|os| - 1]);
    }
  }

  /** A placed occupant is counted by the occupancy of its own key. */
  lemma {:induction false} OccupancyCountsMember(os: seq<Occupant>, i: int)
    requires 0 <= i < |os| && Placed(os[i])
    ensures Occupancy(os, StackKey(os[i].grid)) >= 1
  {
    if i < |os| - 1 {
      assert os[..|os| - 1][i] == os[i];
      OccupancyCountsMember(os[..|os| - 1], i);
    }
  }

  /** Two distinct placed occupants of one group make its occupancy at least two. */
  lemma {:induction false} OccupancyOfTwo(os: seq<Occupant>, i: int, j: int)
    requires 0 <= i < j < |os|
    requires Placed(os[i]) && Placed(os[j]) && StackKey(os[i].grid) == StackKey(os[j].grid)
    ensures Occupancy(os, StackKey(os[i].grid)) >= 2
  {
    var init := os[..|os| - 1];
    if j < |os| - 1 {
      assert init[i] == os[i] && init[j] == os[j];
      OccupancyOfTwo(init, i, j);
    } else {
      assert init[i] == os[i];
      OccupancyCountsMember(init, i);
    }
  }

  /** The keys of `InsertWidths` are exactly the keys of the placed occupants. */
  lemma {:induction false} InsertWidthsKeys(os: seq<Occupant>, counts: map<int, int>, k: int)
    ensures k in InsertWidths(os, counts) <==>
              exists i :: 0 <= i < |os| && Placed(os[i]) && StackKey(os[i].grid) == k
  {
    if os != [] {
      var init := os[..|os| - 1];
      InsertWidthsKeys(init, counts, k);
      if exists i :: 0 <= i < |init| && Placed(init[i]) && StackKey(init[i].grid) == k {
        var i :| 0 <= i < |init| && Placed(init[i]) && StackKey(init[i].grid) == k;
        assert os[i] == init[i];
      }
      if exists i :: 0 <= i < |os| && Placed(os[i]) && StackKey(os[i].grid) == k {
        var i :| 0 <= i < |os| && Placed(os[i]) && StackKey(os[i].grid) == k;
        if i < |init| {
          assert init[i] == os[i];
        }
      }
    }
  }

  /** The stored width of a key is the formula applied to one placed occupant of it. */
  lemma {:induction false} InsertWidthsValue(os: seq<Occupant>, counts: map<int, int>, k: int)
    requires k in InsertWidths(os, counts)
    ensures exists i :: 0 <= i < |os| && Placed(os[i]) && StackKey(os[i].grid) == k &&
              InsertWidths(os, counts)[k] == StackWidth(if k in counts then counts[k] else 0, os[i].attached)
  {
    var init := os[..|os| - 1];
    var last := os[|os| - 1];
    if Placed(last) && StackKey(last.grid) == k {
      assert InsertWidths(os, counts)[k] == StackWidth(if k in counts then counts[k] else 0, last.attached);
    } else {
      InsertWidthsValue(init, counts, k);
      var i :| 0 <= i < |init| && Placed(init[i]) && StackKey(init[i].grid) == k &&
               InsertWidths(init, counts)[k] == StackWidth(if k in counts then counts[k] else 0, init[i].attached);
      assert os[i] == init[i];
    }
  }

  /**
   After the width pass, a group has an entry exactly when some card with a
   column other than -1 lies in it.
   */
  lemma WidthTableKeys(os: seq<Occupant>, k: int)
    ensures k in BuildWidthTable(os) <==>
              exists i :: 0 <= i < |os| && Placed(os[i]) && StackKey(os[i].grid) == k
  {
    InsertWidthsKeys(os, Counts(os), k);
  }

  /**
   The width of the group of a placed card: `StackWidth` of the group's
   occupancy, so widened for that card's own attachments when the card is alone
   in its group and for the extra occupants otherwise.
   */
  lemma WidthTableValue(os: seq<Occupant>, i: int)
    requires 0 <= i < |os| && Placed(os[i])
    ensures StackKey(os[i].grid) in BuildWidthTable(os)
    ensures BuildWidthTable(os)[StackKey(os[i].grid)] ==
              StackWidth(Occupancy(os, StackKey(os[i].grid)), os[i].attached)
  {
    var k := StackKey(os[i].grid);
    var counts := Counts(os);
    OccupancyCountsMember(os, i);
    CountsAreOccupancy(os);
    assert k in counts && counts[k] == Occupancy(os, k);
    InsertWidthsKeys(os, counts, k);
    InsertWidthsValue(os, counts, k);
    var j :| 0 <= j < |os| && Placed(os[j]) && StackKey(os[j].grid) == k &&
             InsertWidths(os, counts)[k] == StackWidth(counts[k], os[j].attached);
    if j != i {
      if i < j { OccupancyOfTwo(os, i, j); } else { OccupancyOfTwo(os, j, i); }
    }
  }

  /** Every width the pass stores is at least CARD_WIDTH. */
  lemma WidthTableIsValid(os: seq<Occupant>)
    ensures TableValid(BuildWidthTable(os))
  {
    forall k | k in BuildWidthTable(os)
      ensures BuildWidthTable(os)[k] >= CARD_WIDTH as real
    {
      WidthTableKeys(os, k);
      var i :| 0 <= i < |os| && Placed(os[i]) && StackKey(os[i].grid) == k;
      WidthTableValue(os, i);
      OccupancyCountsMember(os, i);
      StackWidthAtLeastCard(Occupancy(os, k), os[i].attached);
    }
  }

  /**
   The width rule is not monotone: when the only card of a group carries two or
   more attachments, a second card joining the group makes the group narrower.
   */
  lemma WidthNotMonotone(os: seq<Occupant>, i: int, joining: Occupant)
    requires 0 <= i < |os| && Placed(os[i]) && os[i].attached >= 2
    requires Occupancy(os, StackKey(os[i].grid)) == 1
    requires Placed(joining) && StackKey(joining.grid) == StackKey(os[i].grid)
    ensures var k := StackKey(os[i].grid);
            k in BuildWidthTable(os) && k in BuildWidthTable(os + [joining]) &&
            BuildWidthTable(os + [joining])[k] < BuildWidthTable(os)[k]
  {
    var k := StackKey(os[i].grid);
    var joined := os + [joining];
    assert joined[..|os|] == os && joined[i] == os[i];
    assert Occupancy(joined, k) == 2;
    WidthTableValue(os, i);
    WidthTableValue(joined, i);
    StackWidthDrop(os[i].attached);
  }
}
