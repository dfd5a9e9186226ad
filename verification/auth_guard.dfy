/** The global guard: public handlers are open, every other handler needs a request user
    whose token type is 'access'. */
module AuthGuard {
  import opened Wrappers
  import opened Tokens

  /** Whether the handler may run, given its Public mark and the request's user. */
  function CanActivate(isPublic: bool, user: Option<Payload>): (allowed: bool)
    ensures isPublic ==> allowed
    ensures !isPublic && user.None? ==> !allowed
    ensures !isPublic && user.Some? ==> (allowed <==> user.value.typ == AccessType)
  {
    if isPublic then true
    else if user.None? || user.value.typ != AccessType then false
    else true
  }

  /** The decision never depends on the user's role or subject. */
  lemma RoleIsNeverConsulted(isPublic: bool, user: Payload, role: Role, sub: int)
    ensures CanActivate(isPublic, Some(user)) == CanActivate(isPublic, Some(user.(role := role, sub := sub)))
  {
  }
}
