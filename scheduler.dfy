/**
 * The single-page client's availability editor (`AvailabilityScheduler`):
 * a slot selection, a comment, and the id of a version being viewed. Edits
 * are allowed only outside read-only mode, with the submission window open
 * and no historical version on screen; saving validates the selection with
 * the client's continuity rule before handing it to the parent.
 */
module Scheduler {
  import opened Wrappers
  import opened TimeGrid
  import opened Versions
  import opened ClientValidation
  import opened Editor
  import Seqs

  /** The summary card: no versions, a final one, or only drafts. */
  datatype Status = NoAvailability | FinalMarked | DraftRegistered

  function StatusText(s: Status): string {
    match s
    case NoAvailability => "Sin disponibilidad"
    case FinalMarked => "Versión Final Marcada"
    case DraftRegistered => "Disponibilidad Registrada (Borrador)"
  }

  function StatusOf(previousVersions: seq<Version>): Status {
    if |previousVersions| == 0 then NoAvailability
    else if FirstFinal(previousVersions).Some? then FinalMarked
    else DraftRegistered
  }

  /** The status names exactly one of the three situations. */
  lemma StatusRule(vs: seq<Version>)
    ensures StatusOf(vs) == NoAvailability <==> |vs| == 0
    ensures StatusOf(vs) == FinalMarked <==> exists i :: 0 <= i < |vs| && vs[i].isFinal
    ensures StatusOf(vs) == DraftRegistered <==> |vs| > 0 && forall i :: 0 <= i < |vs| ==> !vs[i].isFinal
  {
  }

  /** What the parent's `onSave` receives. */
  datatype SaveRequest = SaveRequest(slots: seq<Slot>, comments: string)

  const ClosedWindow := "La ventana de carga está cerrada."
  const ValidationFallback := "Error de validación"
  const Saved := "Nueva versión guardada correctamente."
  const MarkedFinal := "Versión marcada como final."
  const Restored := "Versión cargada en el editor. Puedes modificarla y guardarla como nueva."

  /** The error shown for a rejected selection: the validator's message, or a fixed text without one. */
  function RejectionText(v: Verdict): string {
    match Message(v)
    case Some(m) => m
    case None => ValidationFallback
  }

  /** The selection and comment the editor starts from: the target version's, or empty. */
  function EditorSlots(target: Option<Version>): seq<Slot> {
    match target
    case Some(v) => Load(v.slots)
    case None => []
  }

  function EditorComments(target: Option<Version>): string {
    match target
    case Some(v) => v.comments
    case None => ""
  }

  class AvailabilityScheduler {
    const readOnly: bool
    /** `period.isOpenForSubmission`. */
    const isOpen: bool
    const previousVersions: seq<Version>
    var selectedSlots: seq<Slot>
    var comments: string
    var error: Option<string>
    var successMsg: Option<string>
    var viewingVersionId: Option<nat>

    /** The selection is a set: no slot twice. */
    ghost predicate Valid()
      reads this
    {
      Seqs.NoDuplicates(selectedSlots)
    }

    /** `isEditable`. */
    predicate IsEditable()
      reads this
    {
      !readOnly && isOpen && viewingVersionId.None?
    }

    /**
     * Mounting: nothing is viewed, and the editor holds the final version,
     * else the newest one, else nothing.
     */
    constructor(readOnly: bool, isOpen: bool, previousVersions: seq<Version>)
      ensures Valid()
      ensures this.readOnly == readOnly && this.isOpen == isOpen && this.previousVersions == previousVersions
      ensures selectedSlots == EditorSlots(FinalOrNewest(previousVersions))
      ensures comments == EditorComments(FinalOrNewest(previousVersions))
      ensures viewingVersionId.None? && error.None? && successMsg.None?
    {
      this.readOnly := readOnly;
      this.isOpen := isOpen;
      this.previousVersions := previousVersions;
      var target := FinalOrNewest(previousVersions);
      if target.Some? {
        selectedSlots := Load(target.value.slots);
        comments := target.value.comments;
      } else {
        selectedSlots := [];
        comments := "";
      }
      error := None;
      successMsg := None;
      viewingVersionId := None;
    }

    /** `toggleSlot`: ignored unless editable; otherwise flips the slot and clears both messages. */
    method ToggleSlot(s: Slot)
      requires Valid()
      modifies this
      ensures Valid()
      ensures comments == old(comments) && viewingVersionId == old(viewingVersionId)
      ensures !old(IsEditable()) ==> selectedSlots == old(selectedSlots) && error == old(error) && successMsg == old(successMsg)
      ensures old(IsEditable()) ==> selectedSlots == Toggle(old(selectedSlots), s) && error.None? && successMsg.None?
    {
      if readOnly || !isOpen || viewingVersionId.Some? {
        return;
      }
      ToggleDistinct(selectedSlots, s);
      selectedSlots := Toggle(selectedSlots, s);
      error := None;
      successMsg := None;
    }

    /**
     * `handleSave`: nothing in read-only mode; with the window closed an
     * error; a selection the validator rejects sets its message; otherwise
     * the selection and comment go to the parent and a success message is
     * shown.
     */
    method HandleSave() returns (request: Option<SaveRequest>)
      modifies this
      ensures selectedSlots == old(selectedSlots) && comments == old(comments) && viewingVersionId == old(viewingVersionId)
      ensures request.Some? <==> !readOnly && isOpen && ClientValidate(selectedSlots).Valid?
      ensures request.Some? ==> request.value == SaveRequest(selectedSlots, comments)
      ensures request.Some? ==> successMsg == Some(Saved) && error == old(error)
      ensures readOnly ==> error == old(error) && successMsg == old(successMsg)
      ensures !readOnly && !isOpen ==> error == Some(ClosedWindow) && successMsg == old(successMsg)
      ensures !readOnly && isOpen && !ClientValidate(selectedSlots).Valid? ==>
        error == Some(RejectionText(ClientValidate(selectedSlots))) && successMsg == old(successMsg)
    {
      if readOnly {
        return None;
      }
      if !isOpen {
        error := Some(ClosedWindow);
        return None;
      }
      var validation := ValidateAvailability(selectedSlots);
      if !validation.Valid? {
        error := Some(RejectionText(validation));
        return None;
      }
      request := Some(SaveRequest(selectedSlots, comments));
      successMsg := Some(Saved);
    }

    /** `handleMarkFinal`: the parent is asked to mark the version only when not read-only and the window is open. */
    method HandleMarkFinal(versionId: nat) returns (call: Option<nat>)
      modifies this
      ensures selectedSlots == old(selectedSlots) && comments == old(comments)
      ensures viewingVersionId == old(viewingVersionId) && error == old(error)
      ensures call.Some? <==> !readOnly && isOpen
      ensures call.Some? ==> call.value == versionId && successMsg == Some(MarkedFinal)
      ensures call.None? ==> successMsg == old(successMsg)
    {
      if readOnly || !isOpen {
        return None;
      }
      call := Some(versionId);
      successMsg := Some(MarkedFinal);
    }

    /** `loadVersionToView`: shows a version read-only and clears both messages. */
    method LoadVersionToView(v: Version)
      modifies this
      ensures Valid()
      ensures selectedSlots == Load(v.slots) && comments == v.comments
      ensures viewingVersionId == Some(v.id) && error.None? && successMsg.None?
      ensures !IsEditable()
    {
      selectedSlots := Load(v.slots);
      comments := v.comments;
      viewingVersionId := Some(v.id);
      error := None;
      successMsg := None;
    }

    /** `restoreVersionToEditor`: when editing is possible at all, copies a version into the editor and leaves view mode. */
    method RestoreVersionToEditor(v: Version)
      requires Valid()
      modifies this
      ensures Valid()
      ensures error == old(error)
      ensures readOnly || !isOpen ==>
        selectedSlots == old(selectedSlots) && comments == old(comments) &&
        viewingVersionId == old(viewingVersionId) && successMsg == old(successMsg)
      ensures !readOnly && isOpen ==>
        selectedSlots == Load(v.slots) && comments == v.comments &&
        successMsg == Some(Restored) && IsEditable()
    {
      if readOnly || !isOpen {
        return;
      }
      selectedSlots := Load(v.slots);
      comments := v.comments;
      viewingVersionId := None;
      successMsg := Some(Restored);
    }

    /** `resetToEditor`: leaves view mode and reloads the final version, else the newest, else nothing. */
    method ResetToEditor()
      modifies this
      ensures Valid()
      ensures viewingVersionId.None?
      ensures selectedSlots == EditorSlots(FinalOrNewest(previousVersions))
      ensures comments == EditorComments(FinalOrNewest(previousVersions))
      ensures error == old(error) && successMsg == old(successMsg)
    {
      viewingVersionId := None;
      var target := FinalOrNewest(previousVersions);
      if target.Some? {
        selectedSlots := Load(target.value.slots);
        comments := target.value.comments;
      } else {
        selectedSlots := [];
        comments := "";
      }
    }
  }

  /**
   * The editor's starting content: the slots and comment of the final
   * version when there is one, else of the newest, else empty; it holds
   * exactly the target's slots, each once.
   */
  lemma EditorStart(vs: seq<Version>)
    ensures FirstFinal(vs).Some? ==>
      EditorSlots(FinalOrNewest(vs)) == Load(FirstFinal(vs).value.slots) &&
      EditorComments(FinalOrNewest(vs)) == FirstFinal(vs).value.comments
    ensures |vs| == 0 ==> EditorSlots(FinalOrNewest(vs)) == [] && EditorComments(FinalOrNewest(vs)) == ""
    ensures FirstFinal(vs).None? && |vs| > 0 ==>
      exists v :: v in vs && !v.isFinal && (forall w :: w in vs ==> w.createdAt <= v.createdAt) &&
        EditorSlots(FinalOrNewest(vs)) == Load(v.slots) && EditorComments(FinalOrNewest(vs)) == v.comments
    ensures Seqs.NoDuplicates(EditorSlots(FinalOrNewest(vs)))
  {
    FinalOrNewestChoice(vs);
    if FirstFinal(vs).None? && |vs| > 0 {
      var v := FinalOrNewest(vs).value;
      assert v in vs;
    }
  }
}
