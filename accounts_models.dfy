/** Users and their role (accounts/models.py). */
module AccountsModels {
  import opened Wrappers
  import opened Condominios

  /** `User.Role`: the three choices of the `role` column. */
  datatype Role = Morador | Porteiro | Gestor

  /** The value stored in the `role` column for each choice. */
  function RoleValue(r: Role): string {
    match r
    case Morador => "MORADOR"
    case Porteiro => "PORTEIRO"
    case Gestor => "GESTOR"
  }

  /** The choice a stored value names, if any. */
  function RoleFromValue(s: string): (r: Option<Role>)
    ensures r.Some? ==> RoleValue(r.value) == s
  {
    if s == "MORADOR" then Some(Morador)
    else if s == "PORTEIRO" then Some(Porteiro)
    else if s == "GESTOR" then Some(Gestor)
    else None
  }

  /** Every choice is read back from its stored value, and only the three values name a choice. */
  lemma RoleValues(r: Role, s: string)
    ensures RoleFromValue(RoleValue(r)) == Some(r)
    ensures RoleFromValue(s).Some? <==> s == "MORADOR" || s == "PORTEIRO" || s == "GESTOR"
  {
  }

  const DefaultRole: Role := Morador

  /**
   * The fields of a user row the core reads.  `role` is the raw column: the
   * views compare it with string literals, so any string can appear here.
   */
  datatype User = User(id: Id, role: string, isStaff: bool)

  /** A user created without an explicit role gets the column default. */
  function NewUser(id: Id): (u: User)
    ensures u.id == id && !u.isStaff
    ensures RoleFromValue(u.role) == Some(DefaultRole)
  {
    User(id, RoleValue(DefaultRole), false)
  }

  predicate IsMorador(u: User) {
    u.role == RoleValue(Morador)
  }

  predicate IsPorteiro(u: User) {
    u.role == RoleValue(Porteiro)
  }

  predicate IsGestor(u: User) {
    u.role == RoleValue(Gestor)
  }

  /** Each role predicate holds exactly for its own choice, so a valid role satisfies exactly one. */
  lemma ExactlyOneRole(u: User)
    requires RoleFromValue(u.role).Some?
    ensures IsMorador(u) <==> RoleFromValue(u.role) == Some(Morador)
    ensures IsPorteiro(u) <==> RoleFromValue(u.role) == Some(Porteiro)
    ensures IsGestor(u) <==> RoleFromValue(u.role) == Some(Gestor)
    ensures (if IsMorador(u) then 1 else 0) + (if IsPorteiro(u) then 1 else 0) + (if IsGestor(u) then 1 else 0) == 1
  {
  }

  /** `request.user` where the code tests `is_authenticated`. */
  datatype Principal = Anonymous | Authenticated(user: User)
}
