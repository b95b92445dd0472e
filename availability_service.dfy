/**
 * The server's version store (`AvailabilityService`): the version table as
 * an in-memory sequence, with `create` validating and appending a draft and
 * `markAsFinal` updating the table in one atomic step, so that each
 * (instructor, period) scope keeps at most one final version.
 */
module AvailabilityStore {
  import opened Wrappers
  import opened TimeGrid
  import opened SlotValidation
  import opened Versions

  datatype ServiceError = NotFound(message: string) | Forbidden(message: string) | BadRequest(message: string)

  const PeriodNotFound := "Periodo académico no encontrado"
  const WindowClosed := "La ventana de carga para este periodo está cerrada."
  const VersionNotFound := "Versión de disponibilidad no encontrada"
  const NotOwner := "No puedes marcar como final una versión que no te pertenece"

  /** Where the effective version came from: `FINAL_MARKED` or `LATEST_DRAFT`. */
  datatype Source = FinalMarked | LatestDraft
  datatype Effective = Effective(version: Version, source: Source)

  class AvailabilityService {
    /** The version table, in insertion order. */
    var versions: seq<Version>
    /** The id the next created version receives (the database generates it). */
    var nextId: nat
    /** The academic periods by id, each with its `isOpenForSubmission` flag. */
    const periods: map<string, bool>

    ghost predicate Valid()
      reads this
    {
      && UniqueIds(versions)
      && (forall i :: 0 <= i < |versions| ==> versions[i].id < nextId)
      && SingleFinal(versions)
    }

    constructor(periods: map<string, bool>)
      ensures Valid()
      ensures versions == [] && this.periods == periods
    {
      versions := [];
      nextId := 0;
      this.periods := periods;
    }

    /**
     * `create`: a missing period is NotFound, a closed window Forbidden, a
     * refused selection BadRequest with the validator's message, and none
     * of these stores anything; otherwise a new draft is appended.
     */
    method Create(instructorId: string, periodId: string, slots: seq<Slot>, comments: string, now: int)
      returns (r: Result<Version, ServiceError>)
      requires Valid()
      modifies this
      ensures Valid()
      ensures periodId !in periods ==> r == Err(NotFound(PeriodNotFound))
      ensures periodId in periods && !periods[periodId] ==> r == Err(Forbidden(WindowClosed))
      ensures periodId in periods && periods[periodId] && Validate(slots).Fail? ==>
        r == Err(BadRequest(Message(Validate(slots).error)))
      ensures r.Err? ==> versions == old(versions) && nextId == old(nextId)
      ensures periodId in periods && periods[periodId] && Validate(slots) == Pass ==>
        && r == Ok(Version(old(nextId), instructorId, periodId, slots, comments, false, now))
        && versions == old(versions) + [r.value]
    {
      if periodId !in periods {
        return Err(NotFound(PeriodNotFound));
      }
      if !periods[periodId] {
        return Err(Forbidden(WindowClosed));
      }
      var check := ValidateTimeSlots(slots);
      if check.Fail? {
        return Err(BadRequest(Message(check.error)));
      }
      var v := Version(nextId, instructorId, periodId, slots, comments, false, now);
      Append(v);
      return Ok(v);
    }

    /** The insert: a draft with the next id goes at the end of the table. */
    method Append(v: Version)
      requires Valid() && v.id == nextId && !v.isFinal
      modifies this
      ensures Valid()
      ensures versions == old(versions) + [v] && nextId == old(nextId) + 1
    {
      versions := versions + [v];
      nextId := nextId + 1;
    }

    /** `findAllByInstructor`: exactly the scope's versions, newest first. */
    function FindAllByInstructor(instructorId: string, periodId: string): (r: seq<Version>)
      reads this
      ensures forall v :: v in r <==> v in versions && InScope(v, instructorId, periodId)
      ensures multiset(r) == multiset(Scope(versions, instructorId, periodId))
      ensures forall i, j :: 0 <= i < j < |r| ==> r[i].createdAt >= r[j].createdAt
    {
      var scope := Scope(versions, instructorId, periodId);
      var r := NewestFirst(scope);
      assert forall v :: v in r <==> v in multiset(scope);
      r
    }

    /** `findOne`: the version with that id, or NotFound. */
    function FindOne(id: nat): (r: Result<Version, ServiceError>)
      reads this
      ensures r.Err? <==> forall i :: 0 <= i < |versions| ==> versions[i].id != id
      ensures r.Err? ==> r.error == NotFound(VersionNotFound)
      ensures r.Ok? ==> r.value in versions && r.value.id == id
    {
      match FindById(versions, id)
      case None => Err(NotFound(VersionNotFound))
      case Some(v) => Ok(v)
    }

    /**
     * `markAsFinal`: NotFound for an unknown id, Forbidden when the version
     * belongs to someone else, both changing nothing; otherwise one atomic
     * update of the table.
     */
    method MarkAsFinal(versionId: nat, instructorId: string) returns (r: Outcome<ServiceError>)
      requires Valid()
      modifies this
      ensures Valid()
      ensures nextId == old(nextId)
      ensures old(FindOne(versionId)).Err? ==> r == Fail(NotFound(VersionNotFound)) && versions == old(versions)
      ensures old(FindOne(versionId)).Ok? && old(FindOne(versionId)).value.instructorId != instructorId ==>
        r == Fail(Forbidden(NotOwner)) && versions == old(versions)
      ensures old(FindOne(versionId)).Ok? && old(FindOne(versionId)).value.instructorId == instructorId ==>
        r == Pass &&
        versions == MarkFinalTable(old(versions), versionId, instructorId, old(FindOne(versionId)).value.periodId)
    {
      var found := FindOne(versionId);
      if found.Err? {
        return Fail(found.error);
      }
      var version := found.value;
      if version.instructorId != instructorId {
        return Fail(Forbidden(NotOwner));
      }
      MarkFinalEffect(versions, version);
      versions := MarkFinalTable(versions, versionId, instructorId, version.periodId);
      return Pass;
    }

    /**
     * `getEffectiveVersion`: the scope's final version tagged FINAL_MARKED;
     * without one, the newest version tagged LATEST_DRAFT; with no version,
     * none. With at most one final per scope the final is the only one.
     */
    function GetEffectiveVersion(instructorId: string, periodId: string): (r: Option<Effective>)
      reads this
      ensures r.None? <==> forall v :: v in versions ==> !InScope(v, instructorId, periodId)
      ensures r.Some? ==> r.value.version in versions && InScope(r.value.version, instructorId, periodId)
      ensures r.Some? ==> (r.value.source == FinalMarked <==> r.value.version.isFinal)
      ensures r.Some? && r.value.source == FinalMarked && SingleFinal(versions) ==>
        forall v :: v in versions && InScope(v, instructorId, periodId) && v.isFinal ==> v == r.value.version
      ensures r.Some? && r.value.source == LatestDraft ==>
        forall v :: v in versions && InScope(v, instructorId, periodId) ==>
          !v.isFinal && v.createdAt <= r.value.version.createdAt
    {
      var scope := Scope(versions, instructorId, periodId);
      FinalOrNewestChoice(scope);
      assert |scope| == 0 <==> forall v :: v in versions ==> !InScope(v, instructorId, periodId) by {
        if |scope| > 0 {
          assert scope[0] in scope;
        }
      }
      match FinalOrNewest(scope)
      case None => None
      case Some(v) =>
        if FirstFinal(scope).Some? then Some(Effective(v, FinalMarked)) else Some(Effective(v, LatestDraft))
    }
  }
}
