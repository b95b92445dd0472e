/** Users and their roles, as both the server and the client see them. */
module Users {
  import opened Wrappers

  datatype Role = Instructor | Admin | SuperAdmin

  /** The role as stored and compared: `INSTRUCTOR`, `ADMIN`, `SUPER_ADMIN`. */
  function RoleName(r: Role): string {
    match r
    case Instructor => "INSTRUCTOR"
    case Admin => "ADMIN"
    case SuperAdmin => "SUPER_ADMIN"
  }

  /**
   * A user. The permission flags are an optional object from permission
   * name to flag; a missing object or a missing name grants nothing.
   */
  datatype User = User(
    id: string,
    name: string,
    email: string,
    role: Role,
    active: bool,
    permissions: Option<map<string, bool>>)

  /** `user.permissions?.[p] === true`. */
  predicate Granted(u: User, p: string) {
    u.permissions.Some? && p in u.permissions.value && u.permissions.value[p]
  }

  /** `findUnique({ where: { id } })`: the user with that id, or none. */
  function FindUser(users: seq<User>, id: string): (r: Option<User>)
    ensures r.None? <==> forall i :: 0 <= i < |users| ==> users[i].id != id
    ensures r.Some? ==> r.value in users && r.value.id == id
  {
    if |users| == 0 then None
    else if users[0].id == id then Some(users[0])
    else FindUser(users[1..], id)
  }
}
