/** The report lifecycle engine over a mutable store: the three tables are
    fields that the handlers update in place. Each handler is proved to
    leave the store, and to answer, exactly as its step in `Lifecycle`
    says; the properties of those steps are proved in `Properties`. */
module Engine {
  import opened Types
  import opened Gates
  import opened Guard
  import opened Tables
  import opened Listing
  import Lifecycle

  class Store {
    var users: map<UserId, User>
    var reports: map<ReportId, Report>
    var confirmations: map<ConfirmationKey, Time>

    function Snapshot(): Db
      reads this
    {
      Db(users, reports, confirmations)
    }

    ghost predicate Valid()
      reads this
    {
      Consistent(Snapshot())
    }

    /** A store with the given user rows (the identity provider's) and no
        reports yet. */
    constructor (initialUsers: map<UserId, User>)
      requires "" !in initialUsers && AtMostOneOwner(initialUsers) && UniqueEmails(initialUsers)
      ensures Valid()
      ensures Snapshot() == Db(initialUsers, map[], map[])
    {
      users := initialUsers;
      reports := map[];
      confirmations := map[];
    }

    /** Single-owner bootstrap at start-up; an error means start-up aborts. */
    method BootstrapOwner(ownerEmail: Option<string>, id: UserId) returns (r: Result<()>)
      requires Valid() && id !in users && id != ""
      modifies this
      ensures Valid()
      ensures Lifecycle.Step(Snapshot(), r) == Lifecycle.BootstrapOwner(old(Snapshot()), ownerEmail, id)
    {
      Lifecycle.BootstrapPreservesConsistency(Snapshot(), ownerEmail, id);
      if !Lifecycle.Configured(ownerEmail) || Lifecycle.HasOwner(users) {
        return Ok(());
      }
      if Lifecycle.EmailTaken(users, ownerEmail.value) {
        return Err(StoreFailure);
      }
      users := users[id := User(Owner, ownerEmail, OwnerCity, 0, false)];
      r := Ok(());
    }

    /** POST /api/reports. */
    method CreateReport(cred: Credential, body: ReportBody, now: Time, id: ReportId) returns (r: Result<Report>)
      requires Valid() && id !in reports
      modifies this
      ensures Valid()
      ensures Lifecycle.Step(Snapshot(), r) == Lifecycle.CreateReport(old(Snapshot()), cred, body, now, id)
    {
      Lifecycle.CreatePreservesConsistency(Snapshot(), cred, body, now, id);
      var auth := AuthRequired(cred);
      if auth.Err? {
        return Err(auth.error);
      }
      var caller := auth.value;
      var draft := Validate(body);
      if draft.Err? {
        return Err(draft.error);
      }
      var d := draft.value;
      if HasDuplicate(reports, caller.city, d.kind, d.lat, d.lng, now) {
        return Err(DuplicateReport);
      }
      if caller.id !in users {
        return Err(StoreFailure);
      }
      var row := Lifecycle.NewReport(caller, d, now);
      reports := reports[id := row];
      r := Ok(row);
    }

    /** The live count for one report, counted row by row. */
    method CountConfirmations(id: ReportId) returns (n: nat)
      ensures n == LiveCount(Snapshot(), id)
    {
      n := 0;
      var todo := confirmations.Keys;
      ghost var seen: set<ConfirmationKey> := {};
      while todo != {}
        invariant todo <= confirmations.Keys
        invariant seen == RowsFor(confirmations, id) - todo
        invariant n == |seen|
        decreases todo
      {
        var k :| k in todo;
        if k.1 == id {
          assert k !in seen;
          seen := seen + {k};
          n := n + 1;
        }
        todo := todo - {k};
      }
    }

    /** GET /api/reports: reads only. */
    method ListReports(cred: Credential, queryCity: Option<City>, sinceMinutes: Option<int>, now: Time)
      returns (r: Result<seq<Entry>>)
      ensures r.Err? <==> ResolveCity(queryCity, AuthOptional(cred)).None?
      ensures r.Err? ==> r.error == CityRequired
      ensures r.Ok? ==>
        IsListing(Snapshot(), ResolveCity(queryCity, AuthOptional(cred)).value,
                  WindowMinutes(sinceMinutes) * 60, now, r.value)
    {
      var city := ResolveCity(queryCity, AuthOptional(cred));
      if city.None? {
        return Err(CityRequired);
      }
      var window := WindowMinutes(sinceMinutes) * 60;
      ghost var db := Snapshot();
      ghost var visible := VisibleIds(db, city.value, window, now);
      var out: seq<Entry> := [];
      var todo := reports.Keys;
      while todo != {}
        invariant Snapshot() == db
        invariant todo <= reports.Keys
        invariant NewestFirst(out) && DistinctIds(out)
        invariant Ids(out) == visible - todo
        invariant forall e :: e in out ==> e.id in reports && e.row == Annotated(db, e.id)
        decreases todo
      {
        var id :| id in todo;
        var report := reports[id];
        if report.city == city.value && report.createdAt > now - window {
          assert id in visible;
          var n := CountConfirmations(id);
          var e := Entry(id, report.(confirmationsCount := n));
          InsertNewestFirstCorrect(out, e);
          forall x | x in InsertNewestFirst(out, e) ensures x in out || x == e {
            assert x in multiset(InsertNewestFirst(out, e));
          }
          out := InsertNewestFirst(out, e);
          assert visible - (todo - {id}) == (visible - todo) + {id};
        } else {
          assert id !in visible;
          assert visible - (todo - {id}) == visible - todo;
        }
        todo := todo - {id};
      }
      r := Ok(out);
    }

    /** POST /api/reports/:id/confirm. */
    method ConfirmReport(cred: Credential, rid: ReportId, now: Time) returns (r: Result<()>)
      requires Valid()
      modifies this
      ensures Valid()
      ensures Lifecycle.Step(Snapshot(), r) == Lifecycle.ConfirmReport(old(Snapshot()), cred, rid, now)
    {
      Lifecycle.ConfirmPreservesConsistency(Snapshot(), cred, rid, now);
      var auth := AuthRequired(cred);
      if auth.Err? {
        return Err(auth.error);
      }
      var u := auth.value.id;
      if (u, rid) in confirmations {
        return Err(AlreadyConfirmed);
      }
      if rid !in reports {
        return Err(NotFound);
      }
      if u !in users {
        return Err(StoreFailure);
      }
      confirmations := confirmations[(u, rid) := now];
      users := Credit(users, reports[rid].author, 1);
      r := Ok(());
    }

    /** DELETE /api/admin/reports/:id. */
    method DeleteReport(cred: Credential, rid: ReportId) returns (r: Result<()>)
      requires Valid()
      modifies this
      ensures Valid()
      ensures Lifecycle.Step(Snapshot(), r) == Lifecycle.DeleteReport(old(Snapshot()), cred, rid)
    {
      Lifecycle.DeletePreservesConsistency(Snapshot(), cred, rid);
      var gate := AdminGate(cred, Staff);
      if gate.Err? {
        return Err(gate.error);
      }
      if rid !in reports {
        return Err(NotFound);
      }
      var author := reports[rid].author;
      reports := reports - {rid};
      confirmations := Lifecycle.CascadeTo(confirmations, reports);
      if author.Some? && author.value != "" {
        users := Credit(users, author, -1);
      }
      r := Ok(());
    }

    /** The scheduled sweep. */
    method SweepExpired(now: Time)
      requires Valid()
      modifies this
      ensures Valid()
      ensures Snapshot() == Lifecycle.SweepExpired(old(Snapshot()), now)
    {
      Lifecycle.SweepPreservesConsistency(Snapshot(), now);
      reports := map id | id in reports && !Lifecycle.Expired(reports[id], now) :: reports[id];
      confirmations := Lifecycle.CascadeTo(confirmations, reports);
    }

    /** POST /api/admin/users/:id/role. */
    method SetRole(cred: Credential, target: UserId, role: Value) returns (r: Result<()>)
      requires Valid()
      modifies this
      ensures Valid()
      ensures Lifecycle.Step(Snapshot(), r) == Lifecycle.SetRole(old(Snapshot()), cred, target, role)
    {
      Lifecycle.SetRolePreservesConsistency(Snapshot(), cred, target, role);
      var gate := AdminGate(cred, OwnerOnly);
      if gate.Err? {
        return Err(gate.error);
      }
      var newRole := Lifecycle.ParseAssignableRole(role);
      if newRole.None? {
        return Err(InvalidRole);
      }
      users := Lifecycle.Replace(users, target, Lifecycle.Row(users, target).(role := newRole.value));
      r := Ok(());
    }

    /** POST /api/admin/users/:id/ban. */
    method SetBanned(cred: Credential, target: UserId, banned: Value) returns (r: Result<()>)
      requires Valid()
      modifies this
      ensures Valid()
      ensures Lifecycle.Step(Snapshot(), r) == Lifecycle.SetBanned(old(Snapshot()), cred, target, banned)
    {
      Lifecycle.SetBannedPreservesConsistency(Snapshot(), cred, target, banned);
      var gate := AdminGate(cred, Staff);
      if gate.Err? {
        return Err(gate.error);
      }
      users := Lifecycle.Replace(users, target, Lifecycle.Row(users, target).(banned := Truthy(banned)));
      r := Ok(());
    }

    /** POST /api/admin/users/:id/reset-city. */
    method ResetCity(cred: Credential, target: UserId) returns (r: Result<()>)
      requires Valid()
      modifies this
      ensures Valid()
      ensures Lifecycle.Step(Snapshot(), r) == Lifecycle.ResetCity(old(Snapshot()), cred, target)
    {
      Lifecycle.ResetCityPreservesConsistency(Snapshot(), cred, target);
      var gate := AdminGate(cred, Staff);
      if gate.Err? {
        return Err(gate.error);
      }
      users := Lifecycle.Replace(users, target, Lifecycle.Row(users, target).(city := UnsetCity));
      r := Ok(());
    }
  }
}
