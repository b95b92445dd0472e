/**
 * The server's two route guards: the role guard, which lets a super
 * administrator through every role check, and the permission guard, which
 * refuses instructors quietly and refuses an administrator lacking a
 * required permission with a Forbidden error.
 */
module Guards {
  import opened Wrappers
  import opened Users

  /** The roles guard's `canActivate`; `None` stands for a route without role metadata. */
  function RolesCanActivate(requiredRoles: Option<seq<Role>>, user: Option<User>): bool {
    if requiredRoles.None? then true
    else if user.None? then false
    else if user.value.role == SuperAdmin then true
    else user.value.role in requiredRoles.value
  }

  /**
   * A route without role metadata is open; otherwise a user is needed, and
   * it passes exactly when it is a super administrator or has a listed role.
   * With an empty list only a super administrator passes.
   */
  lemma RolesGuardRule(requiredRoles: Option<seq<Role>>, user: Option<User>)
    ensures requiredRoles.None? ==> RolesCanActivate(requiredRoles, user)
    ensures requiredRoles.Some? ==>
      (RolesCanActivate(requiredRoles, user) <==>
        user.Some? && (user.value.role == SuperAdmin || user.value.role in requiredRoles.value))
    ensures requiredRoles == Some([]) ==>
      (RolesCanActivate(requiredRoles, user) <==> user.Some? && user.value.role == SuperAdmin)
  {
  }

  /** The permission guard's verdict: let through, refuse (`false`), or throw Forbidden. */
  datatype Verdict = Allow | Deny | Forbidden(message: string)

  const MissingPermissions := "No tiene los permisos granulares necesarios para esta acción."

  /** `required.every(p => permissions[p] === true)`, one permission at a time. */
  function AllGranted(u: User, required: seq<string>): (r: bool)
    ensures r <==> forall i :: 0 <= i < |required| ==> Granted(u, required[i])
  {
    if |required| == 0 then true
    else Granted(u, required[0]) && AllGranted(u, required[1..])
  }

  /** The permissions guard's `canActivate`. */
  function PermissionsCanActivate(required: Option<seq<string>>, user: Option<User>): Verdict {
    if required.None? then Allow
    else if user.None? then Deny
    else if user.value.role == SuperAdmin then Allow
    else if user.value.role == Instructor then Deny
    else if !AllGranted(user.value, required.value) then Forbidden(MissingPermissions)
    else Allow
  }

  /**
   * No metadata lets everyone through. Otherwise a missing user or an
   * instructor is refused without an error, a super administrator passes,
   * and an administrator passes exactly when every required permission is
   * granted, the refusal being a Forbidden error.
   */
  lemma PermissionsGuardRule(required: Option<seq<string>>, user: Option<User>)
    ensures PermissionsCanActivate(required, user) == Allow <==>
      required.None? ||
      (user.Some? && (user.value.role == SuperAdmin ||
        (user.value.role == Admin && forall p :: p in required.value ==> Granted(user.value, p))))
    ensures PermissionsCanActivate(required, user) == Deny <==>
      required.Some? && (user.None? || user.value.role == Instructor)
    ensures PermissionsCanActivate(required, user).Forbidden? ==>
      user.Some? && user.value.role == Admin &&
      exists i :: 0 <= i < |required.value| && !Granted(user.value, required.value[i])
  {
    if required.Some? && user.Some? && user.value.role == Admin {
      var ps := required.value;
      assert (forall p :: p in ps ==> Granted(user.value, p)) <==>
        forall i :: 0 <= i < |ps| ==> Granted(user.value, ps[i]);
    }
  }
}
