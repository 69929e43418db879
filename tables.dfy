/** The store as a value: the users, reports and confirmations tables, the
    constraints the schema puts on them, and the confirmation count the
    listing query derives from them. */
module Tables {
  import opened Types

  datatype Db = Db(
    users: map<UserId, User>,
    reports: map<ReportId, Report>,
    confirmations: map<ConfirmationKey, Time>)

  /** At most one user has the owner role: start-up only creates one when
      none exists, and no handler ever grants the role. */
  ghost predicate AtMostOneOwner(users: map<UserId, User>)
  {
    forall a, b :: a in users && b in users && users[a].role == Owner && users[b].role == Owner ==> a == b
  }

  /** The `unique` constraint of the e-mail column; nulls may repeat. */
  ghost predicate UniqueEmails(users: map<UserId, User>)
  {
    forall a, b :: a in users && b in users && users[a].email.Some? && users[a].email == users[b].email ==> a == b
  }

  /** The schema's constraints, plus the stored count column that no
      statement ever raises above its default. Users are never deleted,
      so `on delete set null` never fires and every author is a live user;
      `on delete cascade` keeps every confirmation's report alive. User ids
      are never empty: the server makes them as `user_<uuid>`. */
  ghost predicate Consistent(db: Db)
  {
    && "" !in db.users
    && AtMostOneOwner(db.users)
    && UniqueEmails(db.users)
    && (forall k :: k in db.confirmations ==> k.0 in db.users && k.1 in db.reports)
    && (forall id :: id in db.reports && db.reports[id].author.Some? ==> db.reports[id].author.value in db.users)
    && (forall id :: id in db.reports ==> db.reports[id].confirmationsCount == 0)
  }

  /** The confirmation rows that reference report `id`. */
  function RowsFor(confirmations: map<ConfirmationKey, Time>, id: ReportId): set<ConfirmationKey>
  {
    set k | k in confirmations && k.1 == id
  }

  /** `count(c.user_id)` over the left join for report `id`. */
  function LiveCount(db: Db, id: ReportId): nat
  {
    |RowsFor(db.confirmations, id)|
  }

  /** `r.*` with its confirmations_count replaced by the live count. */
  function Annotated(db: Db, id: ReportId): Report
    requires id in db.reports
  {
    db.reports[id].(confirmationsCount := LiveCount(db, id))
  }

  /** The listing query's filter: the requested city and created strictly
      after `now - window`. */
  predicate Visible(r: Report, city: City, window: int, now: Time)
  {
    r.city == city && r.createdAt > now - window
  }

  function VisibleIds(db: Db, city: City, window: int, now: Time): set<ReportId>
  {
    set id | id in db.reports && Visible(db.reports[id], city, window, now)
  }

  /** A user's rating, or 0 for an id with no row. */
  function RatingOf(db: Db, u: UserId): int
  {
    if u in db.users then db.users[u].rating else 0
  }

  /** Adds `delta` to the rating of `author`'s row, if there is one: an
      `update ... where id = $1` that matches no row (null author, unknown
      id) changes nothing. */
  function Credit(users: map<UserId, User>, author: Option<UserId>, delta: int): (r: map<UserId, User>)
    ensures r.Keys == users.Keys
    ensures forall u :: u in users && Some(u) != author ==> r[u] == users[u]
    ensures forall u :: u in users && Some(u) == author ==> r[u] == users[u].(rating := users[u].rating + delta)
  {
    if author.Some? && author.value in users then
      var a := author.value;
      users[a := users[a].(rating := users[a].rating + delta)]
    else users
  }
}
