# MiastoAlert report lifecycle, modelled in Dafny

MiastoAlert lets users of one city pin short-lived reports (a police
checkpoint, "policja", or ticket inspectors, "kontrola") to a map. The server
keeps three tables: users, reports and confirmations. This project models the
server's report lifecycle engine over those tables:

- creating a report, with input checks and the duplicate guard (same city,
  same type, less than 5 minutes old, strictly inside a ±0.002° box);
- listing a city's reports in a 30- or 60-minute window, newest first, each
  with its live confirmation count;
- confirming a report, at most once per user, which gives the report's
  author one rating point;
- admin deletion, which cascades to the report's confirmations and costs the
  author exactly one point;
- the once-a-minute sweep, which deletes reports older than 60 minutes and
  leaves ratings alone;
- the role-gated user updates (set role, ban, reset city);
- the single-owner bootstrap at start-up;
- the `authRequired`, `authOptional` and `requireRole` gates.

Layout, one module per file:

- `types.dfy` (`Types`): the table rows, the caller record carried by a
  token, untyped request fields, error answers and constants.
  Time is whole seconds. Coordinates are `real`.
- `gates.dfy` (`Gates`): the request gates, over an already-resolved
  `Credential`.
- `guard.dfy` (`Guard`): body validation, the duplicate box, the window
  clamp and the listing's city.
- `tables.dfy` (`Tables`): the store as a value `Db`.
  - `Consistent` is its invariant: user ids are non-empty (the server
    makes them as `user_<uuid>`), the foreign keys hold, e-mails are
    unique, at most one owner exists, and the stored count column is 0.
  - `LiveCount` is the listing's `count(c.user_id)`.
- `listing.dfy` (`Listing`): `IsListing`, the correct answers of the listing
  query, and the newest-first insertion used to build one.
- `lifecycle.dfy` (`Lifecycle`): each handler as one atomic step from a `Db`
  to a `Db` and an answer, plus proofs that each step keeps `Consistent`.
- `engine.dfy` (`Engine`): class `Store`.
  - The three tables are `map` fields that the handlers update in place.
  - Each mutating method is proved to give exactly its `Lifecycle` step.
  - `ListReports` builds the listing with a loop and is proved to return an
    `IsListing` answer.
- `properties.dfy` (`Properties`): the lifecycle's promises, proved of the
  steps.

The store's `now()`, the fresh ids from `crypto.randomUUID` and the owner
login from the environment are parameters. A fresh id must not be in use
and must not be empty. A foreign-key violation is an
error answer with no write. This happens when a token names a user with no
row, on insert of a report or a confirmation.

Points where the server behaves differently from what its routes suggest:

- The ban check reads the token's `banned` flag, so banning a user does not
  revoke a token already issued (`BanLeavesIssuedTokensWorking`).
- The role route does not protect the owner: the owner can be demoted, even
  by itself (`OwnerCanDemoteItself`). No route can make a new owner.
- The demoted owner keeps its e-mail. At the next start-up with the same
  owner login, no owner is found and the owner insert hits the unique e-mail
  column, so start-up aborts and the server does not come up again
  (`DemoteThenRestartAborts`).
- Moderators may reset a user's city, not only the owner.
- The stored `confirmations_count` column is never raised. A created report
  comes back with 0, and only the listing computes the live count.
- Confirm checks for an existing (user, report) pair before it checks that
  the report exists.

## Model

| member | source | states |
|---|---|---|
| Gates.AuthRequired | server.mjs:121-137 | admits exactly verified tokens whose payload is not banned and passes the payload on; a banned payload gets 403 whatever the users table says |
| Gates.AuthOptional | server.mjs:105-119 | any verified token identifies the caller, banned or not; no or bad token means anonymous |
| Gates.RequireRole | server.mjs:139-146 | refuses with 403 an absent caller or one whose role is not listed, otherwise passes the caller on |
| Gates.AdminGate | server.mjs:416-420 | the admin routes admit exactly unbanned verified callers with a listed role; no or a bad token gives 401 as `authRequired` does, banned gives 403 banned, other roles 403 forbidden |
| Guard.ParseKind | server.mjs:255-257 | a type is accepted exactly when it is the string "policja" or "kontrola" |
| Guard.KindNameRoundTrip | server.mjs:65 | the two report types round-trip through their wire names |
| Guard.OrNull | server.mjs:291 | `busNumber`, `direction`: a falsy value is stored as null, a truthy one as given |
| Guard.Validate | server.mjs:254-263 | checks in order: type, then non-empty string street, then numeric lat and lng; accepts exactly when all hold, and carries the body's values |
| Guard.DuplicateWindowIsStrict | server.mjs:273 | a report blocks a same-place candidate exactly while less than 300 s old |
| Guard.IsDuplicateOf | server.mjs:268-275 | one report matches the duplicate query: same city, same type, created less than 5 minutes ago, strictly inside the ±0.002 box |
| Guard.HasDuplicate | server.mjs:267-282 | the duplicate query returns a row: some stored report matches |
| Guard.DuplicateAfterInsert | server.mjs:267-292 | after a report is inserted under a fresh id, a candidate is a duplicate exactly when it was one before or the new report matches it |
| Guard.WindowMinutes | server.mjs:303-304 | the window is 60 exactly when 60 was asked for, otherwise 30 (also when unparseable or 0) |
| Guard.ResolveCity | server.mjs:305-308 | a non-empty query city wins, else exactly the token's non-empty city; none gives the city-required error |
| Types.Truthy | server.mjs:291 | JavaScript truthiness of a JSON value, as used by `||` and `Boolean()` |
| Tables.UniqueEmails | server.mjs:52 | no two user rows share a non-null e-mail |
| Tables.Consistent | server.mjs:47-84 | non-empty user ids, the schema's foreign keys, the unique e-mail, at most one owner and the stored count at its default of 0 |
| Tables.LiveCount | server.mjs:311 | `count(c.user_id)` over the confirmations of one report |
| Tables.Credit | server.mjs:351-354 | the rating update touches only the author's row, and no row when the author is null |
| Listing.IsListing | server.mjs:309-319 | a correct answer of the listing query: newest first, no repeated id, exactly the visible reports of the city, each with its live count |
| Listing.InsertNewestFirstCorrect | server.mjs:317 | inserting a new report keeps the list newest first, with no repeated id and exactly one entry more |
| Listing.DistinctIdsCount | server.mjs:316 | grouped by report id, a listing has one row per listed report |
| Lifecycle.ParseAssignableRole | server.mjs:384-387 | "moderator" gives the moderator role and "user" the user role; nothing else is assignable, owner never |
| Lifecycle.BootstrapOwner | server.mjs:86-98 | start-up step: no change without an owner login (an empty e-mail counts as none) or with an owner present; abort when the owner e-mail is already held; else insert the owner row |
| Lifecycle.CreateReport | server.mjs:252-299 | the create handler as one step: gate, body checks, duplicate query, then the insert |
| Lifecycle.ConfirmReport | server.mjs:328-361 | the confirm handler as one step: gate, pair check, report lookup, then the row and the author's point |
| Lifecycle.DeleteReport | server.mjs:416-443 | the admin delete as one step: gate, lookup, then the cascading delete and a lost point for a truthy author |
| Lifecycle.Expired | server.mjs:463 | a report is expired when created strictly more than 60 minutes before now |
| Lifecycle.SweepExpired | server.mjs:461-467 | the sweep as one step: expired reports and their confirmations go |
| Lifecycle.SetRole | server.mjs:378-395 | the role route as one step: owner gate, role check, then the target's role |
| Lifecycle.SetBanned | server.mjs:397-414 | the ban route as one step: staff gate, then `Boolean(banned)` on the target |
| Lifecycle.ResetCity | server.mjs:445-458 | the reset-city route as one step: staff gate, then the unset city on the target |
| Lifecycle.BootstrapPreservesConsistency | server.mjs:86-98 | start-up inserts an owner only when none exists and its e-mail is free, so at most one owner remains and e-mails stay unique |
| Lifecycle.CreatePreservesConsistency | server.mjs:284-292 | an inserted report has a live author and stored count 0; the tables stay consistent |
| Lifecycle.ConfirmPreservesConsistency | server.mjs:346-354 | a confirmation row references a live user and report; roles are untouched |
| Lifecycle.DeletePreservesConsistency | server.mjs:429-435 | the cascade leaves no confirmation of a deleted report |
| Lifecycle.SweepPreservesConsistency | server.mjs:461-467 | the sweep's cascade leaves no confirmation of a swept report |
| Lifecycle.SetRolePreservesConsistency | server.mjs:385-388 | setting a role never creates a second owner |
| Lifecycle.SetBannedPreservesConsistency | server.mjs:403-407 | banning keeps the tables consistent |
| Lifecycle.ResetCityPreservesConsistency | server.mjs:451 | resetting a city keeps the tables consistent |
| Engine.Store.constructor | server.mjs:47-84 | the store starts with the given users, no reports and no confirmations, consistent |
| Engine.Store.BootstrapOwner | server.mjs:86-98 | start-up inserts the owner row in place, or aborts, exactly as the bootstrap step says, keeping consistency |
| Engine.Store.CreateReport | server.mjs:252-299 | the create handler's new tables and answer are exactly the create step's |
| Engine.Store.CountConfirmations | server.mjs:311-313 | counting the rows that reference a report gives its live count |
| Engine.Store.ListReports | server.mjs:301-326 | fails only for a missing city; otherwise returns every visible report of the city once, newest first, with live counts; writes nothing |
| Engine.Store.ConfirmReport | server.mjs:328-361 | the confirm handler's new tables and answer are exactly the confirm step's |
| Engine.Store.DeleteReport | server.mjs:416-443 | the delete handler's new tables and answer are exactly the delete step's |
| Engine.Store.SweepExpired | server.mjs:461-467 | the sweep leaves exactly the tables of the sweep step |
| Engine.Store.SetRole | server.mjs:378-395 | the role handler's new tables and answer are exactly the role step's |
| Engine.Store.SetBanned | server.mjs:397-414 | the ban handler's new tables and answer are exactly the ban step's |
| Engine.Store.ResetCity | server.mjs:445-458 | the reset-city handler's new tables and answer are exactly the reset step's |
| Properties.CreateRefusals | server.mjs:255-282 | a refused create writes nothing; 429 exactly when an admitted valid request meets a same-city, same-type report under 5 minutes old inside the box; a bad body gives its validation error |
| Properties.CreateSuccess | server.mjs:284-294 | success exactly when no check refuses and the caller has a user row; then one row is added under the new id and nothing else changes; the row has the token's city and id as author, `created_at` now, count 0 and the body's fields |
| Properties.CreatedReportBlocksDuplicates | server.mjs:267-282 | after a create, the same type near the same place in the same city is refused for less than 5 minutes |
| Properties.CreatedReportStopsBlocking | server.mjs:273 | from exactly 5 minutes on the new report blocks nothing |
| Properties.CreatedReportListedUnconfirmed | server.mjs:309-317 | a new report is listed at once in its city with live count 0 |
| Properties.ListingRespectsWindow | server.mjs:303-317 | every listed report has the requested city, is younger than the window (30 minutes unless 60 was asked), carries its live count and is not expired |
| Properties.ListingUniqueUpToOrder | server.mjs:309-319 | two answers to one listing hold the same entries, as many of them; only ties in time may be reordered |
| Properties.ShortWindowWithinLong | server.mjs:303-315 | the 30-minute listing is contained in the 60-minute one |
| Properties.ConfirmRefusals | server.mjs:328-354 | a refused confirm writes nothing; an existing pair gives already-confirmed, else an unknown report gives not-found; it succeeds exactly when an admitted caller with a user row confirms an existing report for the first time |
| Properties.AddedRowCounts | server.mjs:311 | one new (user, report) row raises that report's count by one |
| Properties.ConfirmEffect | server.mjs:346-354 | success adds exactly the caller's row, raising that report's count by one and no other's; the author, and no one else, gains one point; a null author gives no one a point |
| Properties.ConfirmTwiceRefused | server.mjs:333-339 | confirming the same report again is refused with no change, so one row and one point per user and report |
| Properties.DeleteRefusals | server.mjs:416-435 | a refused delete writes nothing; for an admitted owner or moderator an unknown id gives not-found and an existing one is deleted; a plain user is forbidden |
| Properties.DeleteEffect | server.mjs:429-435 | the report and exactly its confirmations go; other reports and users stay; the author loses exactly one point whatever the confirmation count |
| Properties.DeletionCostsOneExpiryNothing | server.mjs:431-435 | admin deletion costs the author one point; expiry of the same report costs nothing |
| Properties.SweepEffect | server.mjs:463 | the sweep removes exactly the reports older than 60 minutes and exactly their confirmations, keeps other rows untouched and does not write users |
| Properties.SweepIdempotent | server.mjs:463 | a second sweep at the same instant changes nothing |
| Properties.SweepKeepsRows | server.mjs:80 | a report the sweep keeps keeps all its confirmations |
| Properties.SweepKeepsListing | server.mjs:315 | a sweep never changes what either listing window returns at the same instant |
| Properties.SixtyMinutesOldNeitherListedNorSwept | server.mjs:315 | a report exactly 60 minutes old is neither listed nor swept (both comparisons strict) |
| Properties.SetRoleEffect | server.mjs:378-395 | only an unbanned owner may set roles, to moderator or user only; the target's role is the only change; a missing target is no error; no one becomes owner |
| Properties.OwnerCanDemoteItself | server.mjs:388 | the owner can set its own role to user, leaving no owner |
| Properties.SetBannedEffect | server.mjs:397-414 | only an unbanned owner or moderator may ban; the target's flag becomes `Boolean(banned)`; no other row, id or table changes; a missing target is no error |
| Properties.BanLeavesIssuedTokensWorking | server.mjs:129 | after a ban the target's row is flagged and reports and confirmations are unchanged (the full frame is `SetBannedEffect`), yet a token issued before still passes the gate |
| Properties.ResetCityEffect | server.mjs:445-458 | owners and moderators may reset; only the target's city changes, to the unset sentinel; the user ids stay the same; reports keep their city |
| Properties.BootstrapYieldsOneOwner | server.mjs:86-98 | without an owner login (an empty e-mail counts as none) or with an owner present, no change; otherwise abort with no write exactly when the owner e-mail is taken, and else exactly one owner, the new row |
| Properties.DemoteThenRestartAborts | server.mjs:86-98 | after the owner demotes itself, start-up with its non-empty e-mail as the owner login aborts with no write |
| Properties.WarsawScenario | server.mjs:252-326 | a filed report has count 0; one confirmation gives count 1 and the author rating 1; a second is refused and the rating stays 1; after 61 minutes the 60-minute listing omits it |

## Left out

- JWT signing and verification, bcrypt login, `/api/auth/login` and
  `/api/auth/me`. A header arrives as a resolved `Credential`.
- Anonymous registration (`/api/auth/anonymous`). The users table is given
  to the `Store` constructor and changed only by the handlers modelled.
- The password hash and `created_at` user columns.
- The `express-rate-limit` limiter on report creation. It is third-party
  middleware.
- The admin overview route (`limit 200` reads), static files, the SPA
  fallback and the `node-cron` timer. The sweep is a method the timer would
  call.
- The pg pool, the SQL text and the DDL. Only the table constraints are
  kept, as `Tables.Consistent`.
- Store failures other than the foreign-key case and the owner insert's
  unique e-mail, such as a lost connection or an overflowing rating. Confirm
  and delete each run two statements outside a transaction. If the rating
  update fails, the caller gets a 500 but the first write stays: a
  confirmation whose author got no point, or a deleted report whose author
  kept the point. The model makes each handler all-or-nothing.
- Concurrency. Each handler is one atomic step. The check-then-insert races
  in create and confirm are not modelled. The same goes for the write
  between confirm's two statements and between delete's two statements.
- Floating point. Coordinates are exact reals, so the box test has no
  rounding.
- Tables.Credit: does not model the 32-bit `integer` overflow of the rating
  column. Ratings are unbounded.
- Guard.WindowMinutes: takes the result of `Number.parseInt` (None for
  NaN). String parsing is not modelled.
- Query parameters that Express parses into arrays or objects. The query
  city is an optional string.
- The text conversion of a non-string `busNumber` or `direction` into the
  text column. The stored value is the request value.
- The answer messages. Each distinct answer is one `Error` value.
- `src/App.jsx` and `public/sw.js`: the browser UI and service worker hold
  no engine logic.
