/** The request gates that run before a handler: `authRequired`,
    `authOptional` and `requireRole`. Signature checking is outside the
    model; a header arrives already resolved to a `Credential`. */
module Gates {
  import opened Types

  /** Roles admitted by `requireRole(['owner'])`. */
  const OwnerOnly: set<Role> := {Owner}
  /** Roles admitted by `requireRole(['owner', 'moderator'])`. */
  const Staff: set<Role> := {Owner, Moderator}

  /** Admits exactly the verified callers whose payload is not banned, and
      hands on the payload as it is; the ban flag is the token's, not the
      users table's. */
  function AuthRequired(cred: Credential): (r: Result<Caller>)
    ensures r.Ok? <==> cred.Verified? && !cred.payload.banned
    ensures r.Ok? ==> r.value == cred.payload
    ensures r.Err? ==> r.error in {NoAuthorization, InvalidToken, AccountBanned}
    ensures r == Err(AccountBanned) <==> cred.Verified? && cred.payload.banned
    ensures r == Err(NoAuthorization) <==> cred.NoBearer?
    ensures r == Err(InvalidToken) <==> cred.Unverifiable?
  {
    match cred
    case NoBearer => Err(NoAuthorization)
    case Unverifiable => Err(InvalidToken)
    case Verified(p) => if p.banned then Err(AccountBanned) else Ok(p)
  }

  /** Any verifiable token identifies the caller, banned or not; anything
      else leaves the caller anonymous. */
  function AuthOptional(cred: Credential): (u: Option<Caller>)
    ensures u.Some? <==> cred.Verified?
    ensures u.Some? ==> u.value == cred.payload
  {
    if cred.Verified? then Some(cred.payload) else None
  }

  /** Refuses an absent caller and a caller whose role is not listed. */
  function RequireRole(user: Option<Caller>, roles: set<Role>): (r: Result<Caller>)
    ensures r.Ok? <==> user.Some? && user.value.role in roles
    ensures r.Ok? ==> r.value == user.value
    ensures r.Err? ==> r.error == Forbidden
  {
    if user.None? || user.value.role !in roles then Err(Forbidden) else Ok(user.value)
  }

  /** `authRequired` followed by `requireRole(roles)`, as on the admin routes. */
  function AdminGate(cred: Credential, roles: set<Role>): (r: Result<Caller>)
    ensures r.Ok? <==> cred.Verified? && !cred.payload.banned && cred.payload.role in roles
    ensures r.Ok? ==> r.value == cred.payload
    ensures cred.NoBearer? ==> r == Err(NoAuthorization)
    ensures cred.Unverifiable? ==> r == Err(InvalidToken)
    ensures cred.Verified? && cred.payload.banned ==> r == Err(AccountBanned)
    ensures cred.Verified? && !cred.payload.banned && cred.payload.role !in roles ==> r == Err(Forbidden)
  {
    var a := AuthRequired(cred);
    if a.Err? then Err(a.error) else RequireRole(Some(a.value), roles)
  }
}
