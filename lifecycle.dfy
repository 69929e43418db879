/** The handlers of the report lifecycle as functions from the store before
    a request to the store after it and the answer. Each handler is one
    atomic step; the store's `now()` is the `now` parameter and the fresh
    ids `crypto.randomUUID` would make are parameters too. */
module Lifecycle {
  import opened Types
  import opened Gates
  import opened Guard
  import opened Tables

  datatype Step<T> = Step(db: Db, result: Result<T>)

  /** No write, the given failure. */
  function Refuse<T>(db: Db, e: Error): Step<T>
  {
    Step(db, Err(e))
  }

  predicate HasOwner(users: map<UserId, User>)
  {
    exists u :: u in users && users[u].role == Owner
  }

  /** Some user row already holds this e-mail. */
  predicate EmailTaken(users: map<UserId, User>, email: string)
  {
    exists u :: u in users && users[u].email == Some(email)
  }

  /** `OWNER_EMAIL && OWNER_PASSWORD` holds: an empty e-mail counts as
      unset. */
  predicate Configured(ownerEmail: Option<string>)
  {
    ownerEmail.Some? && ownerEmail.value != ""
  }

  /** Start-up. `ownerEmail` is `OWNER_EMAIL`, `None` when it or
      `OWNER_PASSWORD` is unset or empty. When no owner row exists,
      an owner row with that e-mail is inserted in the fixed start-up city.
      The insert fails on the unique e-mail column when a row (a demoted
      former owner, say) already holds the address; start-up then aborts
      and the store is unchanged. */
  function BootstrapOwner(db: Db, ownerEmail: Option<string>, id: UserId): Step<()>
    requires id !in db.users
  {
    if !Configured(ownerEmail) || HasOwner(db.users) then Step(db, Ok(()))
    else if EmailTaken(db.users, ownerEmail.value) then Refuse(db, StoreFailure)
    else Step(db.(users := db.users[id := User(Owner, ownerEmail, OwnerCity, 0, false)]), Ok(()))
  }

  /** The row the create handler inserts: city and author from the token,
      `created_at` now, the stored count at its default. */
  function NewReport(c: Caller, d: Draft, now: Time): Report
  {
    Report(c.city, d.kind, d.street, d.busNumber, d.direction, d.lat, d.lng, now, 0, Some(c.id))
  }

  /** POST /api/reports. The insert fails on the user_id foreign key when
      the token names no user row. */
  function CreateReport(db: Db, cred: Credential, body: ReportBody, now: Time, id: ReportId): Step<Report>
    requires id !in db.reports
  {
    var auth := AuthRequired(cred);
    if auth.Err? then Refuse(db, auth.error)
    else
      var c := auth.value;
      var draft := Validate(body);
      if draft.Err? then Refuse(db, draft.error)
      else
        var d := draft.value;
        if HasDuplicate(db.reports, c.city, d.kind, d.lat, d.lng, now) then Refuse(db, DuplicateReport)
        else if c.id !in db.users then Refuse(db, StoreFailure)
        else
          var r := NewReport(c, d, now);
          Step(db.(reports := db.reports[id := r]), Ok(r))
  }

  /** POST /api/reports/:id/confirm: the pair check comes before the
      report lookup; the point goes to the report's author. */
  function ConfirmReport(db: Db, cred: Credential, rid: ReportId, now: Time): Step<()>
  {
    var auth := AuthRequired(cred);
    if auth.Err? then Refuse(db, auth.error)
    else
      var u := auth.value.id;
      if (u, rid) in db.confirmations then Refuse(db, AlreadyConfirmed)
      else if rid !in db.reports then Refuse(db, NotFound)
      else if u !in db.users then Refuse(db, StoreFailure)
      else
        Step(db.(confirmations := db.confirmations[(u, rid) := now],
                 users := Credit(db.users, db.reports[rid].author, 1)),
             Ok(()))
  }

  /** The confirmations that survive when the reports are cut down to
      `kept` (`on delete cascade`). */
  function CascadeTo(confirmations: map<ConfirmationKey, Time>, kept: map<ReportId, Report>): map<ConfirmationKey, Time>
  {
    map k | k in confirmations && k.1 in kept :: confirmations[k]
  }

  /** DELETE /api/admin/reports/:id: the report and, by cascade, its
      confirmations go; a truthy author loses one point. */
  function DeleteReport(db: Db, cred: Credential, rid: ReportId): Step<()>
  {
    var gate := AdminGate(cred, Staff);
    if gate.Err? then Refuse(db, gate.error)
    else if rid !in db.reports then Refuse(db, NotFound)
    else
      var kept := db.reports - {rid};
      var author := db.reports[rid].author;
      var users := if author.Some? && author.value != "" then Credit(db.users, author, -1) else db.users;
      Step(Db(users, kept, CascadeTo(db.confirmations, kept)),
           Ok(()))
  }

  predicate Expired(r: Report, now: Time)
  {
    r.createdAt < now - ExpiryAge
  }

  /** The once-a-minute sweep: delete reports created more than 60 minutes
      before `now`, cascading to their confirmations; ratings stay. */
  function SweepExpired(db: Db, now: Time): Db
  {
    var kept := map id | id in db.reports && !Expired(db.reports[id], now) :: db.reports[id];
    db.(reports := kept, confirmations := CascadeTo(db.confirmations, kept))
  }

  /** The roles the role route accepts: "moderator" and "user". */
  function ParseAssignableRole(v: Value): (r: Option<Role>)
    ensures r.Some? ==> r.value != Owner
    ensures r.Some? <==> v == Str("moderator") || v == Str("user")
    ensures r == Some(Moderator) <==> v == Str("moderator")
    ensures r == Some(Member) <==> v == Str("user")
  {
    if v == Str("moderator") then Some(Moderator)
    else if v == Str("user") then Some(Member)
    else None
  }

  /** The target's row, or a placeholder when there is none (then
      `Replace` ignores it). */
  function Row(users: map<UserId, User>, target: UserId): User
  {
    if target in users then users[target] else User(Member, None, "", 0, false)
  }

  /** `update users set ... where id = $2` with the row's new value:
      no row, no change, no error. */
  function Replace(users: map<UserId, User>, target: UserId, row: User): (r: map<UserId, User>)
    ensures r.Keys == users.Keys
    ensures forall u :: u in users && u != target ==> r[u] == users[u]
    ensures target in users ==> r[target] == row
  {
    if target in users then users[target := row] else users
  }

  /** POST /api/admin/users/:id/role, owner only. The target may be the
      owner itself. */
  function SetRole(db: Db, cred: Credential, target: UserId, role: Value): Step<()>
  {
    var gate := AdminGate(cred, OwnerOnly);
    if gate.Err? then Refuse(db, gate.error)
    else
      var r := ParseAssignableRole(role);
      if r.None? then Refuse(db, InvalidRole)
      else Step(db.(users := Replace(db.users, target, Row(db.users, target).(role := r.value))), Ok(()))
  }

  /** POST /api/admin/users/:id/ban, owner or moderator: `Boolean(banned)`. */
  function SetBanned(db: Db, cred: Credential, target: UserId, banned: Value): Step<()>
  {
    var gate := AdminGate(cred, Staff);
    if gate.Err? then Refuse(db, gate.error)
    else Step(db.(users := Replace(db.users, target, Row(db.users, target).(banned := Truthy(banned)))), Ok(()))
  }

  /** POST /api/admin/users/:id/reset-city, owner or moderator. */
  function ResetCity(db: Db, cred: Credential, target: UserId): Step<()>
  {
    var gate := AdminGate(cred, Staff);
    if gate.Err? then Refuse(db, gate.error)
    else Step(db.(users := Replace(db.users, target, Row(db.users, target).(city := UnsetCity))), Ok(()))
  }

  // Every step keeps the store consistent.

  lemma BootstrapPreservesConsistency(db: Db, ownerEmail: Option<string>, id: UserId)
    requires Consistent(db) && id !in db.users && id != ""
    ensures Consistent(BootstrapOwner(db, ownerEmail, id).db)
  {
  }

  lemma CreatePreservesConsistency(db: Db, cred: Credential, body: ReportBody, now: Time, id: ReportId)
    requires Consistent(db) && id !in db.reports
    ensures Consistent(CreateReport(db, cred, body, now, id).db)
  {
  }

  lemma ConfirmPreservesConsistency(db: Db, cred: Credential, rid: ReportId, now: Time)
    requires Consistent(db)
    ensures Consistent(ConfirmReport(db, cred, rid, now).db)
  {
  }

  lemma DeletePreservesConsistency(db: Db, cred: Credential, rid: ReportId)
    requires Consistent(db)
    ensures Consistent(DeleteReport(db, cred, rid).db)
  {
  }

  lemma SweepPreservesConsistency(db: Db, now: Time)
    requires Consistent(db)
    ensures Consistent(SweepExpired(db, now))
  {
  }

  lemma SetRolePreservesConsistency(db: Db, cred: Credential, target: UserId, role: Value)
    requires Consistent(db)
    ensures Consistent(SetRole(db, cred, target, role).db)
  {
  }

  lemma SetBannedPreservesConsistency(db: Db, cred: Credential, target: UserId, banned: Value)
    requires Consistent(db)
    ensures Consistent(SetBanned(db, cred, target, banned).db)
  {
  }

  lemma ResetCityPreservesConsistency(db: Db, cred: Credential, target: UserId)
    requires Consistent(db)
    ensures Consistent(ResetCity(db, cred, target).db)
  {
  }
}
