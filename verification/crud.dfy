/** The data-access functions: offset/limit listing and row creation with a
    key drawn from the table's sequence. */
module Crud {
  import opened Outcomes
  import opened Keyed
  import opened Schemas
  import opened Models

  function Min(a: int, b: int): int { if a <= b then a else b }
  function Max(a: int, b: int): int { if a <= b then b else a }

  /** `query.offset(skip).limit(limit).all()`. The database refuses an
      OFFSET or LIMIT that is negative or past the `bigint` range; otherwise
      the answer is the run of at most `limit` consecutive rows that starts
      at position `skip`. */
  function Page<R>(rows: seq<R>, skip: int, limit: int): (r: Result<seq<R>>)
    ensures r.Err? <==> skip < 0 || limit < 0 || skip > Int8Max || limit > Int8Max
    ensures r.Ok? ==> |r.value| == Min(limit, Max(0, |rows| - skip))
    ensures r.Ok? ==> forall i | 0 <= i < |r.value| :: r.value[i] == rows[skip + i]
  {
    if skip < 0 || limit < 0 || skip > Int8Max || limit > Int8Max then Err(InternalServerError)
    else if skip >= |rows| then Ok([])
    else Ok(rows[skip..Min(|rows|, skip + limit)])
  }

  /** Two consecutive pages are the page that spans both. */
  lemma {:induction false} PageConcat<R>(rows: seq<R>, skip: nat, a: nat, b: nat)
    requires skip + a + b <= Int8Max
    ensures Page(rows, skip, a).value + Page(rows, skip + a, b).value == Page(rows, skip, a + b).value
  {
  }

  /** `get_volunteers`: a page of the volunteers table. */
  function GetVolunteers(db: Db, skip: int, limit: int): (r: Result<seq<Person>>)
    ensures r.Err? <==> skip < 0 || limit < 0 || skip > Int8Max || limit > Int8Max
    ensures r.Ok? ==> |r.value| == Min(limit, Max(0, |db.volunteers.rows| - skip)) <= limit
    ensures r.Ok? ==> forall i | 0 <= i < |r.value| :: r.value[i] == db.volunteers.rows[skip + i]
  {
    Page(db.volunteers.rows, skip, limit)
  }

  /** `get_employed_drivers`: a page of the employed drivers table. */
  function GetEmployedDrivers(db: Db, skip: int, limit: int): (r: Result<seq<Person>>)
    ensures r.Err? <==> skip < 0 || limit < 0 || skip > Int8Max || limit > Int8Max
    ensures r.Ok? ==> |r.value| == Min(limit, Max(0, |db.drivers.rows| - skip)) <= limit
    ensures r.Ok? ==> forall i | 0 <= i < |r.value| :: r.value[i] == db.drivers.rows[skip + i]
  {
    Page(db.drivers.rows, skip, limit)
  }

  /** `get_routes`: a page of the routes table. */
  function GetRoutes(db: Db, skip: int, limit: int): (r: Result<seq<Route>>)
    ensures r.Err? <==> skip < 0 || limit < 0 || skip > Int8Max || limit > Int8Max
    ensures r.Ok? ==> |r.value| == Min(limit, Max(0, |db.routes.rows| - skip)) <= limit
    ensures r.Ok? ==> forall i | 0 <= i < |r.value| :: r.value[i] == db.routes.rows[skip + i]
  {
    Page(db.routes.rows, skip, limit)
  }

  /** Appends a row whose key is the sequence's next value and advances the sequence. */
  function Insert<R>(t: Table<R>, row: R): Table<R> {
    Table(t.rows + [row], t.nextKey + 1)
  }

  /** Inserting a row keyed by the sequence's next value keeps the table valid,
      and that key belonged to no earlier row. */
  lemma {:induction false} InsertValid<R>(t: Table<R>, key: R -> int, row: R)
    requires ValidTable(t, key) && KeyAvailable(t) && key(row) == t.nextKey
    ensures ValidTable(Insert(t, row), key)
    ensures !HasKey(t.rows, key, key(row))
  {
  }

  /** The row a person body becomes once the key is assigned. */
  function NewPerson(id: int, b: PersonCreate): (p: Person)
    ensures p.id == id && PersonStored(p, b)
  {
    Person(
      id,
      VarcharValue(b.firstName, NameWidth),
      VarcharValue(b.lastName, NameWidth),
      b.address,
      if b.phoneNumber.Some? then Some(VarcharValue(b.phoneNumber.value, PhoneWidth)) else None)
  }

  /** The row a route body becomes under the given number. */
  function NewRoute(routeNumber: int, b: RouteCreate): (r: Route)
    ensures r.routeNumber == routeNumber && RouteStored(r, b)
  {
    Route(routeNumber, VarcharValue(b.driverType, DriverTypeWidth), b.driverId, b.pickupLocations, b.dropoffLocations)
  }

  /** Shared by `create_volunteer` and `create_employed_driver`. */
  function CreatePerson(t: Table<Person>, b: PersonCreate): (r: (Table<Person>, Result<Person>))
    ensures r.1.Ok? <==> PersonFits(b) && KeyAvailable(t)
    ensures r.1.Err? ==> r.0 == t && r.1.error == InternalServerError
    ensures r.1.Ok? ==> PersonStored(r.1.value, b) && r.0.rows == t.rows + [r.1.value]
    ensures ValidTable(t, PersonId) ==> ValidTable(r.0, PersonId)
    ensures ValidTable(t, PersonId) && r.1.Ok? ==> !HasKey(t.rows, PersonId, r.1.value.id)
  {
    if !PersonFits(b) || !KeyAvailable(t) then (t, Err(InternalServerError))
    else
      var p := NewPerson(t.nextKey, b);
      assert ValidTable(t, PersonId) ==> ValidTable(Insert(t, p), PersonId) && !HasKey(t.rows, PersonId, p.id) by {
        if ValidTable(t, PersonId) {
          InsertValid(t, PersonId, p);
        }
      }
      (Insert(t, p), Ok(p))
  }

  /** `create_volunteer`: a new volunteer row with the body's four fields and
      a fresh id, appended to the volunteers table; no other table changes. */
  function CreateVolunteer(db: Db, b: PersonCreate): (r: Reply<Person>)
    ensures r.db.drivers == db.drivers && r.db.routes == db.routes
    ensures r.response.Ok? <==> PersonFits(b) && KeyAvailable(db.volunteers)
    ensures r.response.Err? ==> r.db == db
    ensures r.response.Ok? ==> PersonStored(r.response.value, b)
    ensures r.response.Ok? ==> r.db.volunteers.rows == db.volunteers.rows + [r.response.value]
    ensures Valid(db) ==> Valid(r.db)
    ensures Valid(db) && r.response.Ok? ==> !HasKey(db.volunteers.rows, PersonId, r.response.value.id)
  {
    var (t, res) := CreatePerson(db.volunteers, b);
    Reply(db.(volunteers := t), res)
  }

  /** A first name that overflows its column only by trailing spaces is
      still accepted: the volunteer is created with the name cut back to
      its first 50 characters. */
  lemma {:induction false} PaddedNameIsCut(db: Db, b: PersonCreate, name: string, pad: nat)
    requires |name| == NameWidth && b.firstName == name + seq(pad, _ => ' ')
    ensures CreateVolunteer(db, b).response.Ok? <==> PersonFits(b.(firstName := name)) && KeyAvailable(db.volunteers)
    ensures CreateVolunteer(db, b).response.Ok? ==> CreateVolunteer(db, b).response.value.firstName == name
  {
  }

  /** Once the id sequence has handed out its last value, every create is
      refused with a 500 and the database stays as it was. */
  lemma {:induction false} UsedUpSequenceRefuses(db: Db, b: PersonCreate)
    requires db.volunteers.nextKey == Int4Max + 1
    ensures CreateVolunteer(db, b) == Reply(db, Err(InternalServerError))
  {
  }

  /** `create_employed_driver`: the same for the employed drivers table. */
  function CreateEmployedDriver(db: Db, b: PersonCreate): (r: Reply<Person>)
    ensures r.db.volunteers == db.volunteers && r.db.routes == db.routes
    ensures r.response.Ok? <==> PersonFits(b) && KeyAvailable(db.drivers)
    ensures r.response.Err? ==> r.db == db
    ensures r.response.Ok? ==> PersonStored(r.response.value, b)
    ensures r.response.Ok? ==> r.db.drivers.rows == db.drivers.rows + [r.response.value]
    ensures Valid(db) ==> Valid(r.db)
    ensures Valid(db) && r.response.Ok? ==> !HasKey(db.drivers.rows, PersonId, r.response.value.id)
  {
    var (t, res) := CreatePerson(db.drivers, b);
    Reply(db.(drivers := t), res)
  }

  /** `create_route`: a new route with the body's four fields; its
      `route_number` comes from the table's sequence, never from the client. */
  function CreateRoute(db: Db, b: RouteCreate): (r: Reply<Route>)
    ensures r.db.volunteers == db.volunteers && r.db.drivers == db.drivers
    ensures r.response.Ok? <==> RouteFits(b) && KeyAvailable(db.routes)
    ensures r.response.Err? ==> r.db == db
    ensures r.response.Ok? ==> RouteStored(r.response.value, b)
    ensures r.response.Ok? ==> r.db.routes.rows == db.routes.rows + [r.response.value]
    ensures Valid(db) ==> Valid(r.db)
    ensures Valid(db) && r.response.Ok? ==> !HasKey(db.routes.rows, RouteNumber, r.response.value.routeNumber)
  {
    if !RouteFits(b) || !KeyAvailable(db.routes) then Reply(db, Err(InternalServerError))
    else
      var route := NewRoute(db.routes.nextKey, b);
      assert Valid(db) ==> ValidTable(Insert(db.routes, route), RouteNumber) && !HasKey(db.routes.rows, RouteNumber, route.routeNumber) by {
        if Valid(db) {
          InsertValid(db.routes, RouteNumber, route);
        }
      }
      Reply(db.(routes := Insert(db.routes, route)), Ok(route))
  }
}
