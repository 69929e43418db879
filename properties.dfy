/** What the lifecycle promises, proved of its steps: refusals write
    nothing, a successful handler changes exactly what it names, a
    duplicate is blocked for exactly 5 minutes, a confirmation is counted
    once and credits the author once, a deletion costs the author one point
    whatever the confirmations, and the sweep removes exactly the expired
    reports without touching ratings or any listing. */
module Properties {
  import opened Types
  import opened Gates
  import opened Guard
  import opened Tables
  import opened Listing
  import opened Lifecycle

  // ---------------------------------------------------------------- create

  /** A refused create writes nothing. It is refused as a duplicate exactly
      when an admitted caller sent a valid body and the store holds a report
      of the caller's city and the same type, created in the last 5 minutes,
      inside the box. */
  lemma CreateRefusals(db: Db, cred: Credential, body: ReportBody, now: Time, id: ReportId)
    requires id !in db.reports
    ensures CreateReport(db, cred, body, now, id).result.Err? ==> CreateReport(db, cred, body, now, id).db == db
    ensures CreateReport(db, cred, body, now, id).result == Err(DuplicateReport) <==>
      && AuthRequired(cred).Ok? && Validate(body).Ok?
      && HasDuplicate(db.reports, cred.payload.city, Validate(body).value.kind,
                      Validate(body).value.lat, Validate(body).value.lng, now)
    ensures AuthRequired(cred).Ok? && Validate(body).Err? ==>
      CreateReport(db, cred, body, now, id).result == Err(Validate(body).error)
  {
  }

  /** A create succeeds exactly when no check refuses it; then it inserts
      one row under the new id and changes nothing else. The row takes its
      city and author from the token, is stamped `now` and stores a count
      of 0; its other fields are the body's. */
  lemma CreateSuccess(db: Db, cred: Credential, body: ReportBody, now: Time, id: ReportId)
    requires id !in db.reports
    ensures CreateReport(db, cred, body, now, id).result.Ok? <==>
      && AuthRequired(cred).Ok? && Validate(body).Ok?
      && !HasDuplicate(db.reports, cred.payload.city, Validate(body).value.kind,
                       Validate(body).value.lat, Validate(body).value.lng, now)
      && cred.payload.id in db.users
    ensures CreateReport(db, cred, body, now, id).result.Ok? ==>
      var s := CreateReport(db, cred, body, now, id);
      var r := s.result.value;
      var d := Validate(body).value;
      && s.db == Db(db.users, db.reports[id := r], db.confirmations)
      && |s.db.reports| == |db.reports| + 1
      && r.city == cred.payload.city && r.author == Some(cred.payload.id)
      && r.createdAt == now && r.confirmationsCount == 0
      && r.kind == d.kind && r.street == d.street && r.lat == d.lat && r.lng == d.lng
      && r.busNumber == d.busNumber && r.direction == d.direction
  {
  }

  /** Once a report is created, the same create at the same place by anyone
      of the same city is refused as a duplicate until 5 minutes have
      passed. */
  lemma CreatedReportBlocksDuplicates(
    db: Db, cred: Credential, body: ReportBody, now: Time, id: ReportId,
    cred2: Credential, body2: ReportBody, later: Time, id2: ReportId)
    requires id !in db.reports
    requires CreateReport(db, cred, body, now, id).result.Ok?
    requires id2 !in CreateReport(db, cred, body, now, id).db.reports
    requires AuthRequired(cred2).Ok? && cred2.payload.city == cred.payload.city
    requires Validate(body2).Ok? && Validate(body2).value.kind == Validate(body).value.kind
    requires Abs(Validate(body2).value.lat - Validate(body).value.lat) < BoxHalfSide
    requires Abs(Validate(body2).value.lng - Validate(body).value.lng) < BoxHalfSide
    requires later < now + DuplicateWindow
    ensures CreateReport(CreateReport(db, cred, body, now, id).db, cred2, body2, later, id2).result
            == Err(DuplicateReport)
  {
    var db1 := CreateReport(db, cred, body, now, id).db;
    var d2 := Validate(body2).value;
    assert IsDuplicateOf(db1.reports[id], cred2.payload.city, d2.kind, d2.lat, d2.lng, later);
  }

  /** From 5 minutes on (the comparison is strict) the new report blocks
      nothing: a create that the earlier store did not block is not refused
      as a duplicate. */
  lemma CreatedReportStopsBlocking(
    db: Db, cred: Credential, body: ReportBody, now: Time, id: ReportId,
    cred2: Credential, body2: ReportBody, later: Time, id2: ReportId)
    requires id !in db.reports
    requires CreateReport(db, cred, body, now, id).result.Ok?
    requires id2 !in CreateReport(db, cred, body, now, id).db.reports
    requires later >= now + DuplicateWindow
    requires AuthRequired(cred2).Ok? && Validate(body2).Ok?
    requires !HasDuplicate(db.reports, cred2.payload.city, Validate(body2).value.kind,
                           Validate(body2).value.lat, Validate(body2).value.lng, later)
    ensures CreateReport(CreateReport(db, cred, body, now, id).db, cred2, body2, later, id2).result
            != Err(DuplicateReport)
  {
  }

  /** The created report is visible at once in any window of its city, and
      the listing counts no confirmation for it. */
  lemma CreatedReportListedUnconfirmed(
    db: Db, cred: Credential, body: ReportBody, now: Time, id: ReportId, window: int)
    requires Consistent(db) && id !in db.reports
    requires CreateReport(db, cred, body, now, id).result.Ok?
    requires window > 0
    ensures id in VisibleIds(CreateReport(db, cred, body, now, id).db, cred.payload.city, window, now)
    ensures LiveCount(CreateReport(db, cred, body, now, id).db, id) == 0
  {
  }

  // --------------------------------------------------------------- listing

  /** Every listed report is of the requested city, younger than the window
      and carries its live count; with either window the listing never
      shows a report the sweep would remove. */
  lemma ListingRespectsWindow(db: Db, city: City, sinceMinutes: Option<int>, now: Time, out: seq<Entry>)
    requires IsListing(db, city, WindowMinutes(sinceMinutes) * 60, now, out)
    ensures forall e :: e in out ==>
      && e.row.city == city
      && now - e.row.createdAt < WindowMinutes(sinceMinutes) * 60
      && e.row.confirmationsCount == |RowsFor(db.confirmations, e.id)|
      && !Expired(e.row, now)
    ensures sinceMinutes != Some(60) ==> forall e :: e in out ==> now - e.row.createdAt < 30 * 60
  {
    var window := WindowMinutes(sinceMinutes) * 60;
    forall e | e in out
      ensures e.row.city == city && now - e.row.createdAt < window
    {
      assert e.id in Ids(out);
      assert e.id in VisibleIds(db, city, window, now);
    }
  }

  /** Two answers to the same listing hold the same entries, the same
      number of times: only the order of equal timestamps may differ. */
  lemma ListingUniqueUpToOrder(db: Db, city: City, window: int, now: Time, a: seq<Entry>, b: seq<Entry>)
    requires IsListing(db, city, window, now, a) && IsListing(db, city, window, now, b)
    ensures |a| == |b|
    ensures forall e :: e in a <==> e in b
  {
    DistinctIdsCount(a);
    DistinctIdsCount(b);
    forall e | e in a ensures e in b {
      assert e.id in Ids(b);
      var x :| x in b && x.id == e.id;
    }
    forall e | e in b ensures e in a {
      assert e.id in Ids(a);
      var x :| x in a && x.id == e.id;
    }
  }

  /** The 30-minute listing is part of the 60-minute one. */
  lemma ShortWindowWithinLong(db: Db, city: City, now: Time, short: seq<Entry>, long: seq<Entry>)
    requires IsListing(db, city, WindowMinutes(None) * 60, now, short)
    requires IsListing(db, city, WindowMinutes(Some(60)) * 60, now, long)
    ensures forall e :: e in short ==> e in long
  {
    forall e | e in short ensures e in long {
      assert e.id in Ids(short);
      assert e.id in VisibleIds(db, city, 60 * 60, now);
      assert e.id in Ids(long);
      var x :| x in long && x.id == e.id;
    }
  }

  // ---------------------------------------------------------- confirmation

  /** A refused confirmation writes nothing. A repeated (user, report) pair
      is refused first; an unknown report next. It succeeds exactly when an
      admitted caller with a user row confirms an existing report for the
      first time. */
  lemma ConfirmRefusals(db: Db, cred: Credential, rid: ReportId, now: Time)
    ensures ConfirmReport(db, cred, rid, now).result.Err? ==> ConfirmReport(db, cred, rid, now).db == db
    ensures ConfirmReport(db, cred, rid, now).result == Err(AlreadyConfirmed) <==>
      AuthRequired(cred).Ok? && (cred.payload.id, rid) in db.confirmations
    ensures ConfirmReport(db, cred, rid, now).result == Err(NotFound) <==>
      AuthRequired(cred).Ok? && (cred.payload.id, rid) !in db.confirmations && rid !in db.reports
    ensures ConfirmReport(db, cred, rid, now).result.Ok? <==>
      && AuthRequired(cred).Ok? && (cred.payload.id, rid) !in db.confirmations
      && rid in db.reports && cred.payload.id in db.users
  {
  }

  /** Adding the row of a new pair raises the report's count by one. */
  lemma AddedRowCounts(confirmations: map<ConfirmationKey, Time>, u: UserId, rid: ReportId, now: Time)
    requires (u, rid) !in confirmations
    ensures |RowsFor(confirmations[(u, rid) := now], rid)| == |RowsFor(confirmations, rid)| + 1
  {
    assert RowsFor(confirmations[(u, rid) := now], rid) == RowsFor(confirmations, rid) + {(u, rid)};
  }

  /** A successful confirmation adds exactly the caller's row, so the
      report's live count rises by one and no other report's count moves;
      the report's author, and no one else, gains one point; a report
      without an author credits no one. */
  lemma ConfirmEffect(db: Db, cred: Credential, rid: ReportId, now: Time)
    requires ConfirmReport(db, cred, rid, now).result.Ok?
    ensures var s := ConfirmReport(db, cred, rid, now);
      && rid in db.reports
      && s.db.confirmations == db.confirmations[(cred.payload.id, rid) := now]
      && (cred.payload.id, rid) !in db.confirmations
      && s.db.reports == db.reports
      && LiveCount(s.db, rid) == LiveCount(db, rid) + 1
      && (forall other :: other != rid ==> LiveCount(s.db, other) == LiveCount(db, other))
      && s.db.users.Keys == db.users.Keys
      && (forall u :: u in db.users ==>
            s.db.users[u] == if Some(u) == db.reports[rid].author
                             then db.users[u].(rating := db.users[u].rating + 1)
                             else db.users[u])
  {
    var u := cred.payload.id;
    AddedRowCounts(db.confirmations, u, rid, now);
    forall other | other != rid
      ensures LiveCount(ConfirmReport(db, cred, rid, now).db, other) == LiveCount(db, other)
    {
      assert RowsFor(db.confirmations[(u, rid) := now], other) == RowsFor(db.confirmations, other);
    }
  }

  /** Confirming the same report again is refused and changes nothing, so
      however often a user confirms, the report gets one row and the author
      one point. */
  lemma ConfirmTwiceRefused(db: Db, cred: Credential, rid: ReportId, now: Time, later: Time)
    requires ConfirmReport(db, cred, rid, now).result.Ok?
    ensures var db1 := ConfirmReport(db, cred, rid, now).db;
      ConfirmReport(db1, cred, rid, later) == Step(db1, Err(AlreadyConfirmed))
  {
  }

  // -------------------------------------------------------------- deletion

  /** A refused deletion writes nothing; an unknown id from an admitted
      owner or moderator gives NotFound, an existing one is deleted, and an
      ordinary user is forbidden. */
  lemma DeleteRefusals(db: Db, cred: Credential, rid: ReportId)
    ensures DeleteReport(db, cred, rid).result.Err? ==> DeleteReport(db, cred, rid).db == db
    ensures DeleteReport(db, cred, rid).result == Err(NotFound) <==>
      AdminGate(cred, Staff).Ok? && rid !in db.reports
    ensures DeleteReport(db, cred, rid).result.Ok? <==>
      AdminGate(cred, Staff).Ok? && rid in db.reports
    ensures cred.Verified? && !cred.payload.banned && cred.payload.role == Member ==>
      DeleteReport(db, cred, rid).result == Err(Forbidden)
  {
  }

  /** A successful deletion removes the report and exactly its
      confirmations, keeps every other report, and takes one point, never
      more, from its author whatever the number of confirmations it had;
      other users keep their rows. */
  lemma DeleteEffect(db: Db, cred: Credential, rid: ReportId)
    requires Consistent(db)
    requires DeleteReport(db, cred, rid).result.Ok?
    ensures var s := DeleteReport(db, cred, rid);
      && rid in db.reports && rid !in s.db.reports
      && (forall id :: id != rid ==> (id in s.db.reports <==> id in db.reports))
      && (forall id :: id in s.db.reports ==> s.db.reports[id] == db.reports[id])
      && (forall k :: k in s.db.confirmations <==> k in db.confirmations && k.1 != rid)
      && RowsFor(s.db.confirmations, rid) == {}
      && (forall k :: k in s.db.confirmations ==> s.db.confirmations[k] == db.confirmations[k])
      && s.db.users.Keys == db.users.Keys
      && (forall u :: u in db.users && Some(u) != db.reports[rid].author ==> s.db.users[u] == db.users[u])
      && (db.reports[rid].author.Some? ==>
            var a := db.reports[rid].author.value;
            s.db.users[a] == db.users[a].(rating := db.users[a].rating - 1))
  {
  }

  /** The asymmetry between the two ways a report goes: the admin deletion
      costs the author a point even when several confirmations earned it
      more, expiry costs nothing. */
  lemma DeletionCostsOneExpiryNothing(db: Db, cred: Credential, rid: ReportId, now: Time)
    requires Consistent(db)
    requires DeleteReport(db, cred, rid).result.Ok?
    requires db.reports[rid].author.Some?
    ensures var a := db.reports[rid].author.value;
      && RatingOf(DeleteReport(db, cred, rid).db, a) == RatingOf(db, a) - 1
      && RatingOf(SweepExpired(db, now), a) == RatingOf(db, a)
  {
  }

  // ----------------------------------------------------------------- sweep

  /** The sweep removes exactly the reports created more than 60 minutes
      before `now`, and with them exactly their confirmations; the rows it
      keeps are untouched and the users table, ratings included, is not
      written. */
  lemma SweepEffect(db: Db, now: Time)
    requires Consistent(db)
    ensures var s := SweepExpired(db, now);
      && (forall id :: id in s.reports <==> id in db.reports && !Expired(db.reports[id], now))
      && (forall id :: id in s.reports ==> s.reports[id] == db.reports[id])
      && (forall k :: k in s.confirmations <==>
            k in db.confirmations && !Expired(db.reports[k.1], now))
      && (forall k :: k in s.confirmations ==> s.confirmations[k] == db.confirmations[k])
      && s.users == db.users
  {
  }

  /** A second sweep at the same instant finds nothing to do. */
  lemma SweepIdempotent(db: Db, now: Time)
    ensures SweepExpired(SweepExpired(db, now), now) == SweepExpired(db, now)
  {
  }

  /** A kept report keeps all its confirmations. */
  lemma SweepKeepsRows(db: Db, now: Time, id: ReportId)
    requires id in SweepExpired(db, now).reports
    ensures RowsFor(SweepExpired(db, now).confirmations, id) == RowsFor(db.confirmations, id)
  {
  }

  /** The sweep never changes what a listing at the same instant returns:
      each window is at most 60 minutes, so every listed report survives
      with all its confirmations. */
  lemma SweepKeepsListing(db: Db, city: City, sinceMinutes: Option<int>, now: Time, out: seq<Entry>)
    ensures var window := WindowMinutes(sinceMinutes) * 60;
      IsListing(db, city, window, now, out) <==> IsListing(SweepExpired(db, now), city, window, now, out)
  {
    var window := WindowMinutes(sinceMinutes) * 60;
    var s := SweepExpired(db, now);
    assert VisibleIds(s, city, window, now) == VisibleIds(db, city, window, now);
    forall id | id in s.reports ensures Annotated(s, id) == Annotated(db, id) {
      SweepKeepsRows(db, now, id);
    }
    if IsListing(db, city, window, now, out) {
      forall e | e in out ensures e.id in s.reports {
        assert e.id in Ids(out);
      }
    }
  }

  /** A report exactly 60 minutes old is in limbo: no listing returns it
      and the sweep does not remove it yet. */
  lemma SixtyMinutesOldNeitherListedNorSwept(db: Db, id: ReportId, city: City, sinceMinutes: Option<int>, now: Time)
    requires id in db.reports && db.reports[id].createdAt == now - ExpiryAge
    ensures id !in VisibleIds(db, city, WindowMinutes(sinceMinutes) * 60, now)
    ensures id in SweepExpired(db, now).reports
  {
  }

  // ----------------------------------------------------------- user admin

  /** Only an unbanned owner token may set roles, and only to moderator or
      user; the target's role is the only change, a missing target is no
      error, and no one becomes owner. */
  lemma SetRoleEffect(db: Db, cred: Credential, target: UserId, role: Value)
    ensures var s := SetRole(db, cred, target, role);
      && (s.result.Ok? <==> AdminGate(cred, OwnerOnly).Ok? && role in {Str("moderator"), Str("user")})
      && (s.result.Err? ==> s.db == db)
      && s.db.reports == db.reports && s.db.confirmations == db.confirmations
      && s.db.users.Keys == db.users.Keys
      && (forall u :: u in db.users && (u != target || s.result.Err?) ==> s.db.users[u] == db.users[u])
      && (s.result.Ok? && target in db.users ==>
            s.db.users[target] == db.users[target].(role := ParseAssignableRole(role).value))
      && (forall u :: u in s.db.users && s.db.users[u].role == Owner ==> db.users[u].role == Owner)
  {
  }

  /** The role route does not protect the owner: the owner may demote
      itself, leaving no owner at all. */
  lemma OwnerCanDemoteItself()
    ensures var owner := Caller("o", Owner, OwnerCity, false);
      var db := Db(map["o" := User(Owner, Some("owner@example.org"), OwnerCity, 0, false)], map[], map[]);
      var s := SetRole(db, Verified(owner), "o", Str("user"));
      s.result.Ok? && !HasOwner(s.db.users)
  {
  }

  /** Only an unbanned owner or moderator token may ban; the target's flag
      becomes `Boolean(banned)` and nothing else changes; a missing target
      is no error. */
  lemma SetBannedEffect(db: Db, cred: Credential, target: UserId, banned: Value)
    ensures var s := SetBanned(db, cred, target, banned);
      && (s.result.Ok? <==> AdminGate(cred, Staff).Ok?)
      && (s.result.Err? ==> s.db == db)
      && s.db.reports == db.reports && s.db.confirmations == db.confirmations
      && s.db.users.Keys == db.users.Keys
      && (forall u :: u in db.users && (u != target || s.result.Err?) ==> s.db.users[u] == db.users[u])
      && (s.result.Ok? && target in db.users ==>
            s.db.users[target] == db.users[target].(banned := Truthy(banned)))
  {
  }

  /** Banning sets the flag on the row and nothing else; a token issued
      before the ban still passes the gates, since they read the token. */
  lemma BanLeavesIssuedTokensWorking(
    db: Db, admin: Credential, target: UserId, p: Caller, rid: ReportId, now: Time)
    requires SetBanned(db, admin, target, Bool(true)).result.Ok?
    requires p.id == target && !p.banned
    ensures var db1 := SetBanned(db, admin, target, Bool(true)).db;
      && (target in db.users ==> db1.users[target] == db.users[target].(banned := true))
      && db1.reports == db.reports && db1.confirmations == db.confirmations
      && ConfirmReport(db1, Verified(p), rid, now).result != Err(AccountBanned)
  {
  }

  /** Moderators may reset a city too; only the target's city changes, to
      the "unset" sentinel, and its reports keep the city they were filed
      in. */
  lemma ResetCityEffect(db: Db, cred: Credential, target: UserId)
    ensures var s := ResetCity(db, cred, target);
      && (s.result.Ok? <==> cred.Verified? && !cred.payload.banned && cred.payload.role in {Owner, Moderator})
      && s.db.reports == db.reports && s.db.confirmations == db.confirmations
      && s.db.users.Keys == db.users.Keys
      && (forall u :: u in db.users && (u != target || s.result.Err?) ==> s.db.users[u] == db.users[u])
      && (s.result.Ok? && target in db.users ==>
            s.db.users[target] == db.users[target].(city := UnsetCity))
  {
  }

  // ------------------------------------------------------------- bootstrap

  /** Without an owner login configured (an empty e-mail is none), or with
      an owner present, start-up changes nothing. Otherwise it aborts,
      writing nothing, exactly when a row already holds the owner e-mail;
      if it does not abort, it leaves exactly one owner, the new row with
      that e-mail. */
  lemma BootstrapYieldsOneOwner(db: Db, ownerEmail: Option<string>, id: UserId)
    requires Consistent(db) && id !in db.users
    ensures var s := BootstrapOwner(db, ownerEmail, id);
      && (s.result.Err? <==> Configured(ownerEmail) && !HasOwner(db.users) && EmailTaken(db.users, ownerEmail.value))
      && (s.result.Err? ==> s.db == db)
      && (!Configured(ownerEmail) || HasOwner(db.users) ==> s.db == db)
      && (s.result.Ok? && Configured(ownerEmail) ==> HasOwner(s.db.users) && AtMostOneOwner(s.db.users))
      && (s.result.Ok? && Configured(ownerEmail) && !HasOwner(db.users) ==>
            s.db.users == db.users[id := User(Owner, ownerEmail, OwnerCity, 0, false)])
      && s.db.reports == db.reports && s.db.confirmations == db.confirmations
  {
    if Configured(ownerEmail) && !HasOwner(db.users) && !EmailTaken(db.users, ownerEmail.value) {
      assert BootstrapOwner(db, ownerEmail, id).db.users[id].role == Owner;
    }
  }

  /** An owner who demotes itself keeps its (non-empty) e-mail. At the next
      start-up with that address as the owner login there is no owner, the owner
      insert hits the unique e-mail column and start-up aborts: the server
      does not come up again until the table is repaired by hand. */
  lemma DemoteThenRestartAborts(db: Db, o: UserId, email: string, id: UserId)
    requires Consistent(db) && id !in db.users
    requires o in db.users && db.users[o].role == Owner && db.users[o].email == Some(email) && email != ""
    ensures var demoted := SetRole(db, Verified(Caller(o, Owner, db.users[o].city, false)), o, Str("user"));
      && demoted.result.Ok?
      && BootstrapOwner(demoted.db, Some(email), id) == Step(demoted.db, Err(StoreFailure))
  {
    var demoted := SetRole(db, Verified(Caller(o, Owner, db.users[o].city, false)), o, Str("user"));
    assert demoted.db.users[o].email == Some(email);
    assert !HasOwner(demoted.db.users) by {
      forall u | u in demoted.db.users ensures demoted.db.users[u].role != Owner {
        if u != o {
          assert demoted.db.users[u] == db.users[u];
        }
      }
    }
  }

  // -------------------------------------------------------------- scenario

  /** User A files a police report in Warsaw; B confirms it (A's rating
      becomes 1, the count 1); B's second confirmation is refused and the
      rating stays 1; 61 minutes after filing, the 60-minute listing no
      longer shows it. */
  lemma WarsawScenario()
    ensures
      var users := map["a" := User(Member, None, "Warszawa", 0, false), "b" := User(Member, None, "Warszawa", 0, false)];
      var a := Verified(Caller("a", Member, "Warszawa", false));
      var b := Verified(Caller("b", Member, "Warszawa", false));
      var body := ReportBody(Str("policja"), Str("Metro Centrum"), Absent, Absent, Num(52.2297), Num(21.0122));
      var created := CreateReport(Db(users, map[], map[]), a, body, 0, "r1");
      var first := ConfirmReport(created.db, b, "r1", 60);
      var second := ConfirmReport(first.db, b, "r1", 120);
      && created.result.Ok? && created.result.value.confirmationsCount == 0
      && first.result.Ok? && LiveCount(first.db, "r1") == 1 && RatingOf(first.db, "a") == 1
      && second.result == Err(AlreadyConfirmed) && RatingOf(second.db, "a") == 1
      && "r1" in VisibleIds(second.db, "Warszawa", WindowMinutes(Some(60)) * 60, 59 * 60)
      && "r1" !in VisibleIds(second.db, "Warszawa", WindowMinutes(Some(60)) * 60, 61 * 60)
  {
    var users := map["a" := User(Member, None, "Warszawa", 0, false), "b" := User(Member, None, "Warszawa", 0, false)];
    var a := Verified(Caller("a", Member, "Warszawa", false));
    var b := Verified(Caller("b", Member, "Warszawa", false));
    var body := ReportBody(Str("policja"), Str("Metro Centrum"), Absent, Absent, Num(52.2297), Num(21.0122));
    var created := CreateReport(Db(users, map[], map[]), a, body, 0, "r1");
    assert created.result.Ok?;
    var first := ConfirmReport(created.db, b, "r1", 60);
    assert first.result.Ok?;
    AddedRowCounts(created.db.confirmations, "b", "r1", 60);
    assert RowsFor(created.db.confirmations, "r1") == {};
  }
}
