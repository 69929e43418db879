/** The pure decisions of the report handlers: checking a create request's
    body, the duplicate box, the listing window and the listing's city. */
module Guard {
  import opened Types

  /** The fields of a create request's body, untyped as they arrive. */
  datatype ReportBody = ReportBody(
    kind: Value, street: Value, busNumber: Value, direction: Value, lat: Value, lng: Value)

  /** A body that passed the checks, with the optional texts already
      replaced by null when falsy (`busNumber || null`). */
  datatype Draft = Draft(
    kind: ReportKind, street: string, busNumber: Option<Value>, direction: Option<Value>,
    lat: real, lng: real)

  /** The wire name of a report type. */
  function KindName(k: ReportKind): string
  {
    match k
    case Police => "policja"
    case TicketInspection => "kontrola"
  }

  /** Accepts exactly the two wire names, and only as strings. */
  function ParseKind(v: Value): (k: Option<ReportKind>)
    ensures k.Some? <==> v.Str? && v.s in {"policja", "kontrola"}
    ensures k.Some? ==> v == Str(KindName(k.value))
  {
    if v == Str("policja") then Some(Police)
    else if v == Str("kontrola") then Some(TicketInspection)
    else None
  }

  lemma KindNameRoundTrip(k: ReportKind)
    ensures ParseKind(Str(KindName(k))) == Some(k)
  {
  }

  /** `v || null`. */
  function OrNull(v: Value): (o: Option<Value>)
    ensures o.Some? <==> Truthy(v)
    ensures o.Some? ==> o.value == v
  {
    if Truthy(v) then Some(v) else None
  }

  /** The three checks of the create handler, in their order: the type,
      then a non-empty string street, then numeric coordinates. */
  function Validate(body: ReportBody): (r: Result<Draft>)
    ensures r.Ok? <==>
      ParseKind(body.kind).Some? && body.street.Str? && body.street.s != ""
      && body.lat.Num? && body.lng.Num?
    ensures r.Ok? ==>
      && Str(KindName(r.value.kind)) == body.kind
      && Str(r.value.street) == body.street
      && Num(r.value.lat) == body.lat && Num(r.value.lng) == body.lng
      && r.value.busNumber == OrNull(body.busNumber)
      && r.value.direction == OrNull(body.direction)
    ensures ParseKind(body.kind).None? ==> r == Err(InvalidType)
    ensures ParseKind(body.kind).Some? && !(body.street.Str? && body.street.s != "") ==>
      r == Err(MissingStreet)
    ensures (ParseKind(body.kind).Some? && body.street.Str? && body.street.s != ""
             && !(body.lat.Num? && body.lng.Num?)) ==> r == Err(MissingLocation)
    ensures r.Err? ==> r.error in {InvalidType, MissingStreet, MissingLocation}
  {
    var kind := ParseKind(body.kind);
    if kind.None? then Err(InvalidType)
    else if !Truthy(body.street) || !body.street.Str? then Err(MissingStreet)
    else if !body.lat.Num? || !body.lng.Num? then Err(MissingLocation)
    else Ok(Draft(kind.value, body.street.s, OrNull(body.busNumber), OrNull(body.direction),
                  body.lat.n, body.lng.n))
  }

  /** The duplicate query's condition on one existing report: same city,
      same type, created less than 5 minutes before `now`, and strictly
      inside the box of half side 0.002 around the candidate. */
  predicate IsDuplicateOf(r: Report, city: City, kind: ReportKind, lat: real, lng: real, now: Time)
  {
    && r.city == city
    && r.kind == kind
    && r.createdAt > now - DuplicateWindow
    && Abs(r.lat - lat) < BoxHalfSide
    && Abs(r.lng - lng) < BoxHalfSide
  }

  /** The duplicate query returns a row. */
  predicate HasDuplicate(reports: map<ReportId, Report>, city: City, kind: ReportKind,
                         lat: real, lng: real, now: Time)
  {
    exists id :: id in reports && IsDuplicateOf(reports[id], city, kind, lat, lng, now)
  }

  /** A report blocks a same-place, same-type candidate for exactly the
      5 minutes after its creation: at 300 seconds it no longer does. */
  lemma DuplicateWindowIsStrict(r: Report, now: Time)
    ensures IsDuplicateOf(r, r.city, r.kind, r.lat, r.lng, now) <==> now < r.createdAt + DuplicateWindow
  {
  }

  /** Inserting a report under a fresh id adds exactly that report's own
      match to the duplicate query: afterwards a candidate is a duplicate
      exactly when it was one before or the new report blocks it. */
  lemma DuplicateAfterInsert(reports: map<ReportId, Report>, id: ReportId, r: Report,
                             city: City, kind: ReportKind, lat: real, lng: real, now: Time)
    requires id !in reports
    ensures HasDuplicate(reports[id := r], city, kind, lat, lng, now) <==>
      HasDuplicate(reports, city, kind, lat, lng, now) || IsDuplicateOf(r, city, kind, lat, lng, now)
  {
    var after := reports[id := r];
    if HasDuplicate(after, city, kind, lat, lng, now) {
      var x :| x in after && IsDuplicateOf(after[x], city, kind, lat, lng, now);
      if x != id {
        assert x in reports && IsDuplicateOf(reports[x], city, kind, lat, lng, now);
      }
    }
    if HasDuplicate(reports, city, kind, lat, lng, now) {
      var x :| x in reports && IsDuplicateOf(reports[x], city, kind, lat, lng, now);
      assert x in after && after[x] == reports[x];
    }
    if IsDuplicateOf(r, city, kind, lat, lng, now) {
      assert id in after && after[id] == r;
    }
  }

  /** `parseInt(sinceMinutes) || 30`, then 60 only for exactly 60, else 30.
      `None` stands for an absent or unparseable value (NaN). */
  function WindowMinutes(sinceMinutes: Option<int>): (m: int)
    ensures m == 30 || m == 60
    ensures m == 60 <==> sinceMinutes == Some(60)
  {
    var since := if sinceMinutes.None? || sinceMinutes.value == 0 then 30 else sinceMinutes.value;
    if since == 60 then 60 else 30
  }

  /** `req.query.city || req.user?.city`: a non-empty query city wins, then
      a non-empty city from the caller's token. */
  function ResolveCity(queryCity: Option<City>, user: Option<Caller>): (c: Option<City>)
    ensures c.Some? ==> c.value != ""
    ensures queryCity.Some? && queryCity.value != "" ==> c == queryCity
    ensures (queryCity.None? || queryCity.value == "") && user.Some? && user.value.city != "" ==>
      c == Some(user.value.city)
    ensures c.None? <==>
      (queryCity.None? || queryCity.value == "") && (user.None? || user.value.city == "")
  {
    if queryCity.Some? && queryCity.value != "" then queryCity
    else if user.Some? && user.value.city != "" then Some(user.value.city)
    else None
  }
}
