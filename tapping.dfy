/**
 The tap toggle of the table zone: the selection is tapped when any selected
 card is untapped, and untapped otherwise, by one command per card whose state
 has to change.
 */
module Tapping {

  /** What the toggle reads of a selected card. */
  datatype SelectedCard = SelectedCard(id: int, tapped: bool)

  /** The command that sets the tapped attribute of card `cardId` to `value`. */
  datatype TapCommand = SetTapped(cardId: int, value: string)

  /** The value a command carries for the target state `tap`. */
  function TapValue(tap: bool): string { if tap then "1" else "0" }

  /** The decision: tap all when some selected card is untapped. */
  predicate TapAll(sel: seq<SelectedCard>)
  {
    exists i :: 0 <= i < |sel| && !sel[i].tapped
  }

  /** The commands towards state `tap`, in selection order, for the cards not already in it. */
  function Commands(sel: seq<SelectedCard>, tap: bool): seq<TapCommand>
  {
    if sel == [] then []
    else
      var prev := Commands(sel[..|sel| - 1], tap);
      var last := sel[|sel| - 1];
      if last.tapped != tap then prev + [SetTapped(last.id, TapValue(tap))] else prev
  }

  /** The commands one toggle sends. */
  function TapCommands(sel: seq<SelectedCard>): seq<TapCommand>
  {
    Commands(sel, TapAll(sel))
  }

  /** A command is sent exactly for each selected card whose state differs from the target. */
  lemma {:induction false} CommandsMembers(sel: seq<SelectedCard>, tap: bool, c: TapCommand)
    ensures c in Commands(sel, tap) <==>
              exists i :: 0 <= i < |sel| && sel[i].tapped != tap && c == SetTapped(sel[i].id, TapValue(tap))
  {
    if sel != [] {
      var init := sel[..|sel| - 1];
      CommandsMembers(init, tap, c);
      if exists i :: 0 <= i < |init| && init[i].tapped != tap && c == SetTapped(init[i].id, TapValue(tap)) {
        var i :| 0 <= i < |init| && init[i].tapped != tap && c == SetTapped(init[i].id, TapValue(tap));
        assert sel[i] == init[i];
      }
      if exists i :: 0 <= i < |sel| && sel[i].tapped != tap && c == SetTapped(sel[i].id, TapValue(tap)) {
        var i :| 0 <= i < |sel| && sel[i].tapped != tap && c == SetTapped(sel[i].id, TapValue(tap));
        if i < |init| { assert init[i] == sel[i]; }
      }
    }
  }

  /** When every card differs from the target, every card gets a command, in selection order. */
  lemma {:induction false} CommandsForAll(sel: seq<SelectedCard>, tap: bool)
    requires forall i :: 0 <= i < |sel| ==> sel[i].tapped != tap
    ensures Commands(sel, tap) == seq(|sel|, i requires 0 <= i < |sel| => SetTapped(sel[i].id, TapValue(tap)))
  {
    if sel != [] {
      var init := sel[..|sel| - 1];
      CommandsForAll(init, tap);
    }
  }

  /** A selection that is all tapped is untapped card by card, in selection order. */
  lemma AllTappedUntapsAll(sel: seq<SelectedCard>)
    requires forall i :: 0 <= i < |sel| ==> sel[i].tapped
    ensures !TapAll(sel)
    ensures TapCommands(sel) == seq(|sel|, i requires 0 <= i < |sel| => SetTapped(sel[i].id, "0"))
  {
    CommandsForAll(sel, false);
  }

  /**
   A selection with an untapped card is tapped: the commands set "1" on exactly
   the untapped cards and leave the tapped ones alone.
   */
  lemma SomeUntappedTapsThose(sel: seq<SelectedCard>, c: TapCommand)
    requires exists i :: 0 <= i < |sel| && !sel[i].tapped
    ensures TapAll(sel)
    ensures c in TapCommands(sel) <==> exists i :: 0 <= i < |sel| && !sel[i].tapped && c == SetTapped(sel[i].id, "1")
  {
    CommandsMembers(sel, true, c);
  }

  /** Applying commands: a card takes the value of a command addressed to it, if any. */
  function Apply(sel: seq<SelectedCard>, cmds: seq<TapCommand>): (r: seq<SelectedCard>)
    ensures |r| == |sel|
  {
    seq(|sel|, i requires 0 <= i < |sel| =>
      var s := sel[i];
      if SetTapped(s.id, "1") in cmds then SelectedCard(s.id, true)
      else if SetTapped(s.id, "0") in cmds then SelectedCard(s.id, false)
      else s)
  }

  /** The cards of a selection are distinct cards. */
  predicate DistinctIds(sel: seq<SelectedCard>)
  {
    forall i, j :: 0 <= i < j < |sel| ==> sel[i].id != sel[j].id
  }

  /**
   One toggle leaves the whole selection in the decided state, so the next
   toggle of a non-empty selection decides the opposite.
   */
  lemma ToggleSettles(sel: seq<SelectedCard>)
    requires DistinctIds(sel)
    ensures forall i :: 0 <= i < |sel| ==> Apply(sel, TapCommands(sel))[i].tapped == TapAll(sel)
    ensures |sel| > 0 ==> TapAll(Apply(sel, TapCommands(sel))) == !TapAll(sel)
  {
    var tap := TapAll(sel);
    var cmds := TapCommands(sel);
    var after := Apply(sel, cmds);
    forall i | 0 <= i < |sel| ensures after[i].tapped == tap {
      var s := sel[i];
      CommandsMembers(sel, tap, SetTapped(s.id, TapValue(tap)));
      CommandsMembers(sel, tap, SetTapped(s.id, TapValue(!tap)));
    }
    if |sel| > 0 {
      assert after[0].tapped == tap;
    }
  }
}
