/** The HTTP endpoints: listing with default paging, route update, and
    delete-by-key for the three tables. Creation endpoints hand the body
    straight to `Crud`. */
module Api {
  import opened Outcomes
  import opened Keyed
  import opened Schemas
  import opened Models
  import opened Crud

  /** Query-parameter defaults of the `read_*` endpoints. */
  const DefaultSkip := 0
  const DefaultLimit := 10

  /** A query parameter, or its default when the request leaves it out. */
  function Param(p: Option<int>, default: int): int {
    if p.Some? then p.value else default
  }

  /** `GET /volunteers/`. */
  function ReadVolunteers(db: Db, skip: Option<int>, limit: Option<int>): (r: Result<seq<Person>>)
    ensures var s, l := Param(skip, DefaultSkip), Param(limit, DefaultLimit);
      r.Err? <==> s < 0 || l < 0 || s > Int8Max || l > Int8Max
    ensures r.Ok? ==> |r.value| <= Param(limit, DefaultLimit)
    ensures skip.None? && limit.None? ==> r == Ok(db.volunteers.rows[..Min(DefaultLimit, |db.volunteers.rows|)])
  {
    GetVolunteers(db, Param(skip, DefaultSkip), Param(limit, DefaultLimit))
  }

  /** `GET /drivers/`. */
  function ReadDrivers(db: Db, skip: Option<int>, limit: Option<int>): (r: Result<seq<Person>>)
    ensures var s, l := Param(skip, DefaultSkip), Param(limit, DefaultLimit);
      r.Err? <==> s < 0 || l < 0 || s > Int8Max || l > Int8Max
    ensures r.Ok? ==> |r.value| <= Param(limit, DefaultLimit)
    ensures skip.None? && limit.None? ==> r == Ok(db.drivers.rows[..Min(DefaultLimit, |db.drivers.rows|)])
  {
    GetEmployedDrivers(db, Param(skip, DefaultSkip), Param(limit, DefaultLimit))
  }

  /** `GET /routes/`. */
  function ReadRoutes(db: Db, skip: Option<int>, limit: Option<int>): (r: Result<seq<Route>>)
    ensures var s, l := Param(skip, DefaultSkip), Param(limit, DefaultLimit);
      r.Err? <==> s < 0 || l < 0 || s > Int8Max || l > Int8Max
    ensures r.Ok? ==> |r.value| <= Param(limit, DefaultLimit)
    ensures skip.None? && limit.None? ==> r == Ok(db.routes.rows[..Min(DefaultLimit, |db.routes.rows|)])
  {
    GetRoutes(db, Param(skip, DefaultSkip), Param(limit, DefaultLimit))
  }

  /** What a delete by primary key promises: on a key no row has, a 404 with
      the given detail and no change; otherwise the answer is the row with
      that key, and the table keeps every other row, in order, and its
      sequence. */
  ghost predicate Deleted<R>(before: Table<R>, after: Table<R>, key: R -> int, k: int, response: Result<R>, missing: string) {
    if HasKey(before.rows, key, k) then
      && response.Ok?
      && key(response.value) == k
      && response.value in before.rows
      && after == Table(RemoveKey(before.rows, key, k), before.nextKey)
    else
      response == Err(NotFound(missing)) && after == before
  }

  /** Look the row up by key, 404 if it is missing, else delete it and answer with it. */
  function DeleteRow<R>(t: Table<R>, key: R -> int, k: int, missing: string): (r: (Table<R>, Result<R>))
    requires ValidTable(t, key)
    ensures Deleted(t, r.0, key, k, r.1, missing)
    ensures ValidTable(r.0, key)
    ensures r.1.Ok? ==> |r.0.rows| == |t.rows| - 1
  {
    match FindFirst(t.rows, key, k)
    case None => (t, Err(NotFound(missing)))
    case Some(i) =>
      RemoveUniqueKey(t.rows, key, k, i);
      RemoveAtValid(t, key, i);
      (Table(t.rows[..i] + t.rows[i + 1..], t.nextKey), Ok(t.rows[i]))
  }

  /** Dropping one row keeps the keys unique and within the sequence's range. */
  lemma {:induction false} RemoveAtValid<R>(t: Table<R>, key: R -> int, i: nat)
    requires ValidTable(t, key) && i < |t.rows|
    ensures ValidTable(Table(t.rows[..i] + t.rows[i + 1..], t.nextKey), key)
  {
  }

  /** `DELETE /volunteers/{volunteer_id}`. */
  function DeleteVolunteer(db: Db, id: int): (r: Reply<Person>)
    requires Valid(db)
    ensures Valid(r.db)
    ensures r.db.drivers == db.drivers && r.db.routes == db.routes
    ensures Deleted(db.volunteers, r.db.volunteers, PersonId, id, r.response, "Volunteer not found")
  {
    var (t, res) := DeleteRow(db.volunteers, PersonId, id, "Volunteer not found");
    Reply(db.(volunteers := t), res)
  }

  /** `DELETE /drivers/{driver_id}`. */
  function DeleteDriver(db: Db, id: int): (r: Reply<Person>)
    requires Valid(db)
    ensures Valid(r.db)
    ensures r.db.volunteers == db.volunteers && r.db.routes == db.routes
    ensures Deleted(db.drivers, r.db.drivers, PersonId, id, r.response, "Driver not found")
  {
    var (t, res) := DeleteRow(db.drivers, PersonId, id, "Driver not found");
    Reply(db.(drivers := t), res)
  }

  /** `DELETE /routes/{route_number}`. */
  function DeleteRoute(db: Db, routeNumber: int): (r: Reply<Route>)
    requires Valid(db)
    ensures Valid(r.db)
    ensures r.db.volunteers == db.volunteers && r.db.drivers == db.drivers
    ensures Deleted(db.routes, r.db.routes, RouteNumber, routeNumber, r.response, "Route not found")
  {
    var (t, res) := DeleteRow(db.routes, RouteNumber, routeNumber, "Route not found");
    Reply(db.(routes := t), res)
  }

  /** `PUT /routes/{route_number}`: 404 when no route has the number;
      otherwise the route keeps its number and takes exactly the body's four
      fields, and no other route changes. */
  function UpdateRoute(db: Db, routeNumber: int, b: RouteCreate): (r: Reply<Route>)
    requires Valid(db)
    ensures Valid(r.db)
    ensures r.db.volunteers == db.volunteers && r.db.drivers == db.drivers
    ensures r.db.routes.nextKey == db.routes.nextKey
    ensures r.response.Ok? <==> HasKey(db.routes.rows, RouteNumber, routeNumber) && RouteFits(b)
    ensures !HasKey(db.routes.rows, RouteNumber, routeNumber) ==> r.response == Err(NotFound("Route not found"))
    ensures HasKey(db.routes.rows, RouteNumber, routeNumber) && !RouteFits(b) ==> r.response == Err(InternalServerError)
    ensures r.response.Err? ==> r.db == db
    ensures r.response.Ok? ==> r.response.value.routeNumber == routeNumber && RouteStored(r.response.value, b)
    ensures |r.db.routes.rows| == |db.routes.rows|
    ensures forall i | 0 <= i < |db.routes.rows| ::
      r.db.routes.rows[i] == if r.response.Ok? && db.routes.rows[i].routeNumber == routeNumber then r.response.value else db.routes.rows[i]
  {
    match FindFirst(db.routes.rows, RouteNumber, routeNumber)
    case None => Reply(db, Err(NotFound("Route not found")))
    case Some(i) =>
      if !RouteFits(b) then Reply(db, Err(InternalServerError))
      else
        var updated := NewRoute(routeNumber, b);
        var rows := db.routes.rows[i := updated];
        assert forall j | 0 <= j < |rows| && j != i :: db.routes.rows[j].routeNumber != routeNumber;
        Reply(db.(routes := Table(rows, db.routes.nextKey)), Ok(updated))
  }

  /** Sending the same update twice leaves the database and the answer as
      sending it once. */
  lemma {:induction false} UpdateRouteIdempotent(db: Db, routeNumber: int, b: RouteCreate)
    requires Valid(db)
    ensures UpdateRoute(UpdateRoute(db, routeNumber, b).db, routeNumber, b) == UpdateRoute(db, routeNumber, b)
  {
  }

  /** Once a route is deleted, updating it answers 404. */
  lemma {:induction false} UpdateAfterDeleteRoute(db: Db, routeNumber: int, b: RouteCreate)
    requires Valid(db)
    ensures UpdateRoute(DeleteRoute(db, routeNumber).db, routeNumber, b).response == Err(NotFound("Route not found"))
  {
  }
}
