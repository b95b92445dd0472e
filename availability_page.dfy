/**
 * The instructor's availability page of the separate front end
 * (`AvailabilityPage`): the period, the instructor's version history for it
 * (newest first, as the server lists it), and the editor state. Saving and
 * marking final go to the server; the page then updates its own copy of the
 * history.
 */
module AvailabilityPage {
  import opened Wrappers
  import opened TimeGrid
  import opened Versions
  import opened Editor
  import Seqs

  /** The active period as the page uses it: its id and whether the submission window is open. */
  datatype Period = Period(id: string, isOpen: bool)

  /** The body of the create call. */
  datatype CreateRequest = CreateRequest(periodId: string, slots: seq<Slot>, comments: string)

  const SaveFailed := "Error al guardar."
  const SaveDone := "Disponibilidad guardada exitosamente."
  const MarkFailed := "Error al marcar como final."
  const MarkDone := "Versión marcada como FINAL correctamente."
  const Loaded := "Datos cargados. Puedes modificarlos y guardar una nueva versión."

  /** `history.find(v => v.isFinal) || history[0]`. */
  function InitialTarget(history: seq<Version>): Option<Version> {
    match FirstFinal(history)
    case Some(v) => Some(v)
    case None => if |history| > 0 then Some(history[0]) else None
  }

  /**
   * The initial editor content is the first final version of the history
   * when there is one, else the history's first entry, else nothing.
   */
  lemma InitialTargetRule(history: seq<Version>)
    ensures InitialTarget(history).None? <==> |history| == 0
    ensures InitialTarget(history).Some? ==> InitialTarget(history).value in history
    ensures (exists i :: 0 <= i < |history| && history[i].isFinal) ==>
      InitialTarget(history).Some? && InitialTarget(history).value.isFinal
    ensures (forall i :: 0 <= i < |history| ==> !history[i].isFinal) && |history| > 0 ==>
      InitialTarget(history) == Some(history[0])
  {
  }

  /** The local update after a successful mark-final: a version is final exactly when its id is the one marked. */
  function MarkOnly(vs: seq<Version>, versionId: nat): (r: seq<Version>)
    ensures |r| == |vs|
    ensures forall i :: 0 <= i < |vs| ==> r[i].isFinal == (vs[i].id == versionId)
    ensures forall i :: 0 <= i < |vs| ==> r[i] == vs[i].(isFinal := r[i].isFinal)
  {
    seq(|vs|, i requires 0 <= i < |vs| => vs[i].(isFinal := vs[i].id == versionId))
  }

  /**
   * On the page's history, which holds one instructor's versions of one
   * period, the local update computes the same table as the server's
   * transaction when the marked version is in the history.
   */
  lemma MarkOnlyAgrees(vs: seq<Version>, t: Version)
    requires t in vs
    requires forall i :: 0 <= i < |vs| ==> InScope(vs[i], t.instructorId, t.periodId)
    ensures MarkOnly(vs, t.id) == MarkFinalTable(vs, t.id, t.instructorId, t.periodId)
  {
    var a := MarkOnly(vs, t.id);
    var b := MarkFinalTable(vs, t.id, t.instructorId, t.periodId);
    forall i | 0 <= i < |vs|
      ensures a[i] == b[i]
    {
      assert InScope(vs[i], t.instructorId, t.periodId);
    }
  }

  /** With distinct ids, the update leaves exactly one final version when the id is present, none otherwise. */
  lemma MarkOnlySingle(vs: seq<Version>, versionId: nat)
    requires UniqueIds(vs)
    ensures forall i, j :: 0 <= i < |vs| && 0 <= j < |vs| && MarkOnly(vs, versionId)[i].isFinal && MarkOnly(vs, versionId)[j].isFinal ==> i == j
    ensures (exists i :: 0 <= i < |vs| && MarkOnly(vs, versionId)[i].isFinal) <==> FindById(vs, versionId).Some?
  {
    var r := MarkOnly(vs, versionId);
    forall i, j | 0 <= i < |vs| && 0 <= j < |vs| && r[i].isFinal && r[j].isFinal
      ensures i == j
    {
      assert vs[i].id == versionId == vs[j].id;
    }
    if FindById(vs, versionId).Some? {
      var v := FindById(vs, versionId).value;
      var k :| 0 <= k < |vs| && vs[k] == v;
      assert r[k].isFinal;
    }
  }

  class Page {
    /** The active period; the page renders nothing editable without one. */
    const period: Option<Period>
    /** The history, newest first. */
    var versions: seq<Version>
    var selectedSlots: seq<Slot>
    var comments: string
    var viewingVersionId: Option<nat>
    var error: Option<string>
    var successMsg: Option<string>

    ghost predicate Valid()
      reads this
    {
      Seqs.NoDuplicates(selectedSlots)
    }

    /** `isEditable`: the window is open and no version is on screen. */
    predicate IsEditable()
      reads this
    {
      period.Some? && period.value.isOpen && viewingVersionId.None?
    }

    /**
     * The initialisation once the period and the history have arrived: the
     * history is kept and its initial target is loaded in view mode.
     */
    constructor(period: Option<Period>, history: seq<Version>)
      ensures Valid()
      ensures this.period == period && error.None? && successMsg.None?
      ensures period.None? ==> versions == [] && selectedSlots == [] && comments == "" && viewingVersionId.None?
      ensures period.Some? ==> versions == history
      ensures period.Some? && InitialTarget(history).Some? ==>
        var v := InitialTarget(history).value;
        selectedSlots == Load(v.slots) && comments == v.comments && viewingVersionId == Some(v.id)
      ensures period.Some? && InitialTarget(history).None? ==>
        selectedSlots == [] && comments == "" && viewingVersionId.None?
    {
      this.period := period;
      versions := [];
      selectedSlots := [];
      comments := "";
      viewingVersionId := None;
      error := None;
      successMsg := None;
      new;
      if period.Some? {
        versions := history;
        var target := InitialTarget(history);
        if target.Some? {
          LoadVersionToEditor(target.value, true);
        }
      }
    }

    /**
     * `loadVersionToEditor`: the editor takes the version's slots and
     * comment; in view mode the version's id is recorded, otherwise view
     * mode ends and a message says the data can be edited.
     */
    method LoadVersionToEditor(v: Version, viewOnly: bool)
      modifies this
      ensures Valid()
      ensures versions == old(versions) && error == old(error)
      ensures selectedSlots == Load(v.slots) && comments == v.comments
      ensures viewOnly ==> viewingVersionId == Some(v.id) && successMsg == old(successMsg)
      ensures !viewOnly ==> viewingVersionId.None? && successMsg == Some(Loaded)
    {
      selectedSlots := Load(v.slots);
      comments := v.comments;
      if viewOnly {
        viewingVersionId := Some(v.id);
      } else {
        viewingVersionId := None;
        successMsg := Some(Loaded);
      }
    }

    /** `handleToggleSlot`: flips one slot; the grid itself is read-only while a version is viewed. */
    method HandleToggleSlot(s: Slot)
      requires Valid()
      modifies this
      ensures Valid()
      ensures selectedSlots == Toggle(old(selectedSlots), s)
      ensures versions == old(versions) && comments == old(comments) && viewingVersionId == old(viewingVersionId)
      ensures error == old(error) && successMsg == old(successMsg)
    {
      ToggleDistinct(selectedSlots, s);
      selectedSlots := Toggle(selectedSlots, s);
    }

    /**
     * `handleSave`: without a period nothing happens. Otherwise the
     * selection is sent, and `reply` is the server's answer: the created
     * version, or the error message it gave, if any. A created version is
     * put at the head of the history and shown in view mode; a failure
     * leaves the history as it was and shows the server's message, or the
     * fallback when there is none or it is empty (`||` treats "" as false).
     */
    method HandleSave(reply: Result<Version, Option<string>>) returns (request: Option<CreateRequest>)
      modifies this
      ensures selectedSlots == old(selectedSlots) && comments == old(comments)
      ensures period.None? ==> request.None? && versions == old(versions) && viewingVersionId == old(viewingVersionId)
      ensures period.None? ==> error == old(error) && successMsg == old(successMsg)
      ensures period.Some? ==> request == Some(CreateRequest(period.value.id, selectedSlots, comments))
      ensures period.Some? && reply.Ok? ==>
        versions == [reply.value] + old(versions) && viewingVersionId == Some(reply.value.id) &&
        error.None? && successMsg == Some(SaveDone)
      ensures period.Some? && reply.Err? ==>
        versions == old(versions) && viewingVersionId == old(viewingVersionId) && successMsg.None? &&
        error == Some(if reply.error.Some? && reply.error.value != "" then reply.error.value else SaveFailed)
    {
      if period.None? {
        return None;
      }
      error := None;
      successMsg := None;
      request := Some(CreateRequest(period.value.id, selectedSlots, comments));
      match reply
      case Ok(newVersion) =>
        versions := [newVersion] + versions;
        successMsg := Some(SaveDone);
        viewingVersionId := Some(newVersion.id);
      case Err(message) =>
        error := Some(if message.Some? && message.value != "" then message.value else SaveFailed);
    }

    /**
     * `handleMarkFinal`: `accepted` is whether the server carried it out.
     * Then exactly the versions with that id are final in the local history;
     * otherwise the history is unchanged and an error is shown.
     */
    method HandleMarkFinal(versionId: nat, accepted: bool)
      modifies this
      ensures selectedSlots == old(selectedSlots) && comments == old(comments) && viewingVersionId == old(viewingVersionId)
      ensures accepted ==> versions == MarkOnly(old(versions), versionId) && successMsg == Some(MarkDone) && error == old(error)
      ensures !accepted ==> versions == old(versions) && error == Some(MarkFailed) && successMsg == old(successMsg)
    {
      if !accepted {
        error := Some(MarkFailed);
        return;
      }
      versions := MarkOnly(versions, versionId);
      successMsg := Some(MarkDone);
    }

    /** `handleRestore`: loads a version for editing. */
    method HandleRestore(v: Version)
      modifies this
      ensures Valid()
      ensures versions == old(versions) && error == old(error)
      ensures selectedSlots == Load(v.slots) && comments == v.comments
      ensures viewingVersionId.None? && successMsg == Some(Loaded)
      ensures period.Some? && period.value.isOpen ==> IsEditable()
    {
      LoadVersionToEditor(v, false);
    }
  }
}
