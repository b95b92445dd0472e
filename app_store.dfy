/**
 * The single-page client's own store of versions (the `App` component):
 * saving appends a new version that is immediately final, unmarking the
 * rest of the user's scope; marking final rewrites the list in place. It
 * also holds the protected-route decision.
 */
module AppStore {
  import opened Wrappers
  import opened TimeGrid
  import opened Users
  import opened Versions

  /** The table with every version of the scope unmarked and nothing else changed. */
  function UnmarkScope(vs: seq<Version>, instructorId: string, periodId: string): (r: seq<Version>)
    ensures |r| == |vs|
    ensures forall i :: 0 <= i < |vs| ==> r[i] == vs[i].(isFinal := r[i].isFinal)
    ensures forall i :: 0 <= i < |vs| && InScope(vs[i], instructorId, periodId) ==> !r[i].isFinal
    ensures forall i :: 0 <= i < |vs| && !InScope(vs[i], instructorId, periodId) ==> r[i] == vs[i]
  {
    seq(|vs|, i requires 0 <= i < |vs| =>
      if InScope(vs[i], instructorId, periodId) then vs[i].(isFinal := false) else vs[i])
  }

  class AppState {
    /** Every version of every user, in creation order. */
    var availabilities: seq<Version>
    var currentUser: Option<User>
    /** The id of the current academic period. */
    const periodId: string

    constructor(periodId: string, availabilities: seq<Version>, currentUser: Option<User>)
      ensures this.periodId == periodId && this.availabilities == availabilities && this.currentUser == currentUser
    {
      this.periodId := periodId;
      this.availabilities := availabilities;
      this.currentUser := currentUser;
    }

    /**
     * `saveAvailability`: without a user nothing changes; otherwise the
     * user's versions for the period are unmarked and a new version, marked
     * final, is appended. `now` is the clock reading used for its id and
     * timestamp.
     */
    method SaveAvailability(slots: seq<Slot>, comments: string, now: nat)
      modifies this
      ensures currentUser == old(currentUser)
      ensures old(currentUser).None? ==> availabilities == old(availabilities)
      ensures old(currentUser).Some? ==>
        var uid := old(currentUser).value.id;
        availabilities == UnmarkScope(old(availabilities), uid, periodId) + [Version(now, uid, periodId, slots, comments, true, now)]
    {
      if currentUser.None? {
        return;
      }
      var uid := currentUser.value.id;
      var newVersion := Version(now, uid, periodId, slots, comments, true, now);
      availabilities := UnmarkScope(availabilities, uid, periodId) + [newVersion];
    }

    /**
     * `handleMarkAsFinal`: without a user nothing changes; otherwise the
     * version with that id becomes final and the rest of the user's scope
     * is unmarked.
     */
    method HandleMarkAsFinal(versionId: nat)
      modifies this
      ensures currentUser == old(currentUser)
      ensures old(currentUser).None? ==> availabilities == old(availabilities)
      ensures old(currentUser).Some? ==>
        availabilities == MarkFinalTable(old(availabilities), versionId, old(currentUser).value.id, periodId)
    {
      if currentUser.None? {
        return;
      }
      availabilities := MarkFinalTable(availabilities, versionId, currentUser.value.id, periodId);
    }
  }

  /**
   * After a save the user's scope has exactly one final version, the new
   * one at the end, and the versions of other scopes are as they were.
   */
  lemma {:induction false} SaveLeavesOneFinal(vs: seq<Version>, v: Version)
    requires v.isFinal
    ensures var r := UnmarkScope(vs, v.instructorId, v.periodId) + [v];
      && |r| == |vs| + 1
      && (forall i :: 0 <= i < |r| && InScope(r[i], v.instructorId, v.periodId) ==> (r[i].isFinal <==> i == |vs|))
      && (forall i :: 0 <= i < |vs| && !InScope(vs[i], v.instructorId, v.periodId) ==> r[i] == vs[i])
      && SingleFinal(r) == SingleFinal(UnmarkScope(vs, v.instructorId, v.periodId))
  {
    var u := UnmarkScope(vs, v.instructorId, v.periodId);
    var r := u + [v];
    forall i | 0 <= i < |r| && InScope(r[i], v.instructorId, v.periodId)
      ensures r[i].isFinal <==> i == |vs|
    {
      if i < |vs| {
        assert r[i] == u[i];
        assert InScope(vs[i], v.instructorId, v.periodId);
      }
    }
    SingleFinalSnoc(u, v);
  }

  /** Appending a final version to a table with no final version in its scope keeps one final per scope. */
  lemma SingleFinalSnoc(u: seq<Version>, v: Version)
    requires forall i :: 0 <= i < |u| && InScope(u[i], v.instructorId, v.periodId) ==> !u[i].isFinal
    ensures SingleFinal(u + [v]) == SingleFinal(u)
  {
    var r := u + [v];
    if SingleFinal(u) {
      forall i, j | 0 <= i < |r| && 0 <= j < |r| && r[i].isFinal && r[j].isFinal &&
        r[i].instructorId == r[j].instructorId && r[i].periodId == r[j].periodId
        ensures i == j
      {
        if i < |u| && j < |u| {
          assert r[i] == u[i] && r[j] == u[j];
        }
      }
    } else {
      var i, j :| 0 <= i < |u| && 0 <= j < |u| && u[i].isFinal && u[j].isFinal &&
        u[i].instructorId == u[j].instructorId && u[i].periodId == u[j].periodId && i != j;
      assert r[i] == u[i] && r[j] == u[j];
    }
  }

  /** Where a protected route sends the current user. */
  datatype Route = ToLogin | ToHome | Render

  /**
   * `ProtectedRoute`: no user goes to the login page, a role outside the
   * allowed list goes home, a super administrator is let in, an
   * administrator lacking the required permission goes home.
   */
  function ProtectedRoute(currentUser: Option<User>, allowedRoles: seq<Role>, requiredPermission: Option<string>): Route {
    if currentUser.None? then ToLogin
    else if currentUser.value.role !in allowedRoles then ToHome
    else if currentUser.value.role == SuperAdmin then Render
    else if requiredPermission.Some? && currentUser.value.role == Admin && !Granted(currentUser.value, requiredPermission.value) then ToHome
    else Render
  }

  /**
   * The route renders exactly for a present user with an allowed role that
   * is not an administrator missing the required permission; the permission
   * is never asked of an instructor or a super administrator.
   */
  lemma ProtectedRouteRule(currentUser: Option<User>, allowedRoles: seq<Role>, requiredPermission: Option<string>)
    ensures ProtectedRoute(currentUser, allowedRoles, requiredPermission) == ToLogin <==> currentUser.None?
    ensures ProtectedRoute(currentUser, allowedRoles, requiredPermission) == Render <==>
      currentUser.Some? && currentUser.value.role in allowedRoles &&
      (currentUser.value.role != Admin || requiredPermission.None? || Granted(currentUser.value, requiredPermission.value))
  {
  }
}
