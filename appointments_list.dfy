/**
 * The appointments list view: its two status mappings, the rule that only a
 * requested appointment offers the edit and cancel actions, and the two-step
 * cancel confirmation held in the component's `confirmCancel` state.
 */
module AppointmentsList {
  import opened Wrappers
  import opened Records

  const YellowStyle := "bg-yellow-100 text-yellow-800 border-yellow-200"
  const BlueStyle := "bg-blue-100 text-blue-800 border-blue-200"
  const GreenStyle := "bg-green-100 text-green-800 border-green-200"
  const GrayStyle := "bg-gray-100 text-gray-800 border-gray-200"

  /** Badge style of a status string; unknown strings get the gray default. */
  function GetStatusColor(status: string): (style: string)
    ensures style == GrayStyle <==> status !in StatusKeys
  {
    if status == "solicitado" then YellowStyle
    else if status == "em_andamento" then BlueStyle
    else if status == "concluido" then GreenStyle
    else GrayStyle
  }

  /** Badge label of a status string; unknown strings are shown as they are. */
  function GetStatusText(status: string): (text: string)
    ensures text == status <==> status !in StatusKeys
  {
    if status == "solicitado" then "Solicitado"
    else if status == "em_andamento" then "Em Andamento"
    else if status == "concluido" then "Conclu\U{ED}do"
    else status
  }

  /** The three statuses get three different styles and three different labels. */
  lemma StatusBadgesDistinct(st: Status, st': Status)
    ensures GetStatusColor(StatusKey(st)) == GetStatusColor(StatusKey(st')) <==> st == st'
    ensures GetStatusText(StatusKey(st)) == GetStatusText(StatusKey(st')) <==> st == st'
    ensures GetStatusColor(StatusKey(st)) != GrayStyle
  {
  }

  /** What a row shows on its right-hand side. */
  datatype RowControls =
    | EditAndCancel(cancelLabel: string, destructive: bool)
    | StatusNote(text: string)

  /**
   * The action column of one row: edit and cancel buttons for a requested
   * appointment (the cancel button reads "Confirmar" while its id is armed),
   * a plain note otherwise.
   */
  function Controls(a: Appointment, confirmCancel: Option<string>): (c: RowControls)
    ensures c.EditAndCancel? <==> a.status == Solicitado
    ensures c.EditAndCancel? ==> (c.destructive <==> confirmCancel == Some(a.id))
    ensures c.EditAndCancel? ==> c.cancelLabel == (if c.destructive then "Confirmar" else "Cancelar")
  {
    match a.status
    case Solicitado =>
      var armed := confirmCancel == Some(a.id);
      EditAndCancel(if armed then "Confirmar" else "Cancelar", armed)
    case EmAndamento => StatusNote("Em atendimento")
    case Concluido => StatusNote("Finalizado")
  }

  /** The outcome of one click on a cancel button: the new armed id and the id handed to the cancel callback, if any. */
  datatype Click = Click(armed: Option<string>, cancelled: Option<string>)

  /**
   * One click on the cancel button of `id`: a click on the armed id confirms
   * (the callback fires with that id and the arm is cleared); any other click
   * arms `id`, replacing whatever was armed, and fires nothing.
   */
  function Toggle(armed: Option<string>, id: string): (r: Click)
    ensures r.cancelled.Some? <==> armed == Some(id)
    ensures r.cancelled.Some? ==> r.cancelled.value == id && r.armed == None
    ensures r.cancelled.None? ==> r.armed == Some(id)
  {
    if armed == Some(id) then Click(None, Some(id)) else Click(Some(id), None)
  }

  /** The arm left after a run of clicks, and the ids handed to the cancel callback, in order. */
  datatype Trace = Trace(armed: Option<string>, cancelled: seq<string>)

  function Run(armed: Option<string>, ids: seq<string>): (t: Trace)
    decreases |ids|
  {
    if ids == [] then Trace(armed, [])
    else
      var c := Toggle(armed, ids[0]);
      var rest := Run(c.armed, ids[1..]);
      Trace(rest.armed, (if c.cancelled.Some? then [ids[0]] else []) + rest.cancelled)
  }

  /** Two clicks on the same button, from an unarmed list, cancel that appointment exactly once and disarm. */
  lemma DoubleClickCancelsOnce(id: string)
    ensures Run(None, [id, id]) == Trace(None, [id])
  {
    assert [id, id][1..] == [id];
    assert Run(Some(id), [id]) == Trace(None, [id]) by {
      assert [id][1..] == [];
    }
  }

  /**
   * Clicks that never repeat the id just before them (nor the id armed at the
   * start) cancel nothing; they only move the arm, which ends on the last id.
   */
  lemma {:induction false} MovingTheArmCancelsNothing(armed: Option<string>, ids: seq<string>)
    requires ids != [] ==> armed != Some(ids[0])
    requires forall i :: 0 < i < |ids| ==> ids[i] != ids[i - 1]
    ensures Run(armed, ids).cancelled == []
    ensures ids != [] ==> Run(armed, ids).armed == Some(ids[|ids| - 1])
    ensures ids == [] ==> Run(armed, ids).armed == armed
    decreases |ids|
  {
    if ids != [] {
      var tail := ids[1..];
      forall i | 0 < i < |tail| ensures tail[i] != tail[i - 1] {
        assert tail[i] == ids[i + 1] && tail[i - 1] == ids[i];
      }
      MovingTheArmCancelsNothing(Some(ids[0]), tail);
    }
  }

  /** Every cancellation is preceded by an arming click, so a run of n clicks cancels at most half of them (one more if it started armed). */
  lemma {:induction false} CancellationsNeedTwoClicks(armed: Option<string>, ids: seq<string>)
    ensures 2 * |Run(armed, ids).cancelled| <= |ids| + (if armed.Some? then 1 else 0)
    decreases |ids|
  {
    if ids != [] {
      CancellationsNeedTwoClicks(Toggle(armed, ids[0]).armed, ids[1..]);
    }
  }

  /** Only ids that were clicked are ever cancelled. */
  lemma {:induction false} CancelledWereClicked(armed: Option<string>, ids: seq<string>)
    ensures forall x :: x in Run(armed, ids).cancelled ==> x in ids
    decreases |ids|
  {
    if ids != [] {
      CancelledWereClicked(Toggle(armed, ids[0]).armed, ids[1..]);
    }
  }

  /** One more click extends a run by one `Toggle` step from the arm the run left. */
  lemma {:induction false} RunSnoc(armed: Option<string>, ids: seq<string>, x: string)
    ensures var before := Run(armed, ids);
            var c := Toggle(before.armed, x);
            Run(armed, ids + [x])
              == Trace(c.armed, before.cancelled + (if c.cancelled.Some? then [x] else []))
    decreases |ids|
  {
    if ids == [] {
      assert [] + [x] == [x];
      assert [x][1..] == [];
    } else {
      assert (ids + [x])[0] == ids[0];
      assert (ids + [x])[1..] == ids[1..] + [x];
      RunSnoc(Toggle(armed, ids[0]).armed, ids[1..], x);
    }
  }

  /**
   * Over a whole run, click `i` fires the cancel callback exactly when the
   * state just before it had `ids[i]` armed; so a firing click repeats the
   * click before it (or, for the first click, the id armed at the start).
   */
  lemma FiringNeedsPrecedingArm(armed: Option<string>, ids: seq<string>, i: nat)
    requires i < |ids|
    ensures var before := Run(armed, ids[..i]);
            var after := Run(armed, ids[..i + 1]);
            && (after.cancelled == before.cancelled + [ids[i]] <==> before.armed == Some(ids[i]))
            && (after.cancelled == before.cancelled <==> before.armed != Some(ids[i]))
            && (before.armed == Some(ids[i]) ==> if i == 0 then armed == Some(ids[0]) else ids[i - 1] == ids[i])
  {
    assert ids[..i + 1] == ids[..i] + [ids[i]];
    RunSnoc(armed, ids[..i], ids[i]);
    if i > 0 {
      assert ids[..i] == ids[..i - 1] + [ids[i - 1]];
      RunSnoc(armed, ids[..i - 1], ids[i - 1]);
    }
  }

  /**
   * The `confirmCancel` state of a mounted list. A new object stands for a
   * fresh mount: React discards the state when the list is unmounted.
   */
  class CancelConfirmation {
    var confirmCancel: Option<string>

    constructor ()
      ensures confirmCancel == None
    {
      confirmCancel := None;
    }

    /** `handleCancelAppointment(id)`: returns the id passed to `onCancelAppointment`, if the click confirmed. */
    method HandleCancelAppointment(id: string) returns (cancelled: Option<string>)
      modifies this
      ensures Click(confirmCancel, cancelled) == Toggle(old(confirmCancel), id)
    {
      if confirmCancel == Some(id) {
        cancelled := Some(id);
        confirmCancel := None;
      } else {
        cancelled := None;
        confirmCancel := Some(id);
      }
    }
  }
}
