/** The administration screen: cached lists of volunteers, drivers and
    routes, loaded together and pruned by key after the server confirms a
    delete. */
module AdminManagement {
  import opened Outcomes
  import opened Keyed
  import opened Models
  import Crud
  import Api

  datatype State = State(volunteers: seq<Person>, drivers: seq<Person>, routes: seq<Route>)

  /** `fetchData`: the three `GET` requests run one after another inside one
      `try`, and the lists are set only after all three have answered, so a
      failure of any of them leaves all three lists as they were. */
  function FetchData(s: State, volunteers: Option<seq<Person>>, drivers: Option<seq<Person>>, routes: Option<seq<Route>>): (r: State)
    ensures volunteers.Some? && drivers.Some? && routes.Some? ==>
      r.volunteers == volunteers.value && r.drivers == drivers.value && r.routes == routes.value
    ensures volunteers.None? || drivers.None? || routes.None? ==> r == s
  {
    match (volunteers, drivers, routes)
    case (Some(v), Some(d), Some(rt)) => State(v, d, rt)
    case _ => s
  }

  /** `handleDeleteVolunteer(id)`, where `deleted` is whether
      `DELETE /volunteers/{id}` succeeded: only then are the volunteers with
      that id dropped; the other two lists never change. */
  function HandleDeleteVolunteer(s: State, id: int, deleted: bool): (r: State)
    ensures r.drivers == s.drivers && r.routes == s.routes
    ensures !deleted ==> r == s
    ensures deleted ==> r.volunteers == RemoveKey(s.volunteers, PersonId, id)
    ensures forall v | v in r.volunteers :: v in s.volunteers
    ensures deleted ==> forall v | v in r.volunteers :: v.id != id
  {
    if deleted then s.(volunteers := RemoveKey(s.volunteers, PersonId, id)) else s
  }

  /** `handleDeleteDriver(id)`: the same for the drivers list. */
  function HandleDeleteDriver(s: State, id: int, deleted: bool): (r: State)
    ensures r.volunteers == s.volunteers && r.routes == s.routes
    ensures !deleted ==> r == s
    ensures deleted ==> r.drivers == RemoveKey(s.drivers, PersonId, id)
    ensures forall d | d in r.drivers :: d in s.drivers
    ensures deleted ==> forall d | d in r.drivers :: d.id != id
  {
    if deleted then s.(drivers := RemoveKey(s.drivers, PersonId, id)) else s
  }

  /** `handleDeleteRoute(route_number)`: the same for the routes list, by route number. */
  function HandleDeleteRoute(s: State, routeNumber: int, deleted: bool): (r: State)
    ensures r.volunteers == s.volunteers && r.drivers == s.drivers
    ensures !deleted ==> r == s
    ensures deleted ==> r.routes == RemoveKey(s.routes, RouteNumber, routeNumber)
    ensures forall rt | rt in r.routes :: rt in s.routes
    ensures deleted ==> forall rt | rt in r.routes :: rt.routeNumber != routeNumber
  {
    if deleted then s.(routes := RemoveKey(s.routes, RouteNumber, routeNumber)) else s
  }

  /** Deleting the same volunteer twice leaves the lists as deleting it once,
      whatever the second request answers. */
  lemma {:induction false} DeleteVolunteerTwice(s: State, id: int, again: bool)
    ensures HandleDeleteVolunteer(HandleDeleteVolunteer(s, id, true), id, again) == HandleDeleteVolunteer(s, id, true)
  {
    RemoveKeyIdempotent(s.volunteers, PersonId, id);
  }

  /** Deleting a route whose number is not listed leaves the lists unchanged. */
  lemma {:induction false} DeleteUnlistedRoute(s: State, routeNumber: int, deleted: bool)
    requires !HasKey(s.routes, RouteNumber, routeNumber)
    ensures HandleDeleteRoute(s, routeNumber, deleted) == s
  {
    RemoveAbsentKey(s.routes, RouteNumber, routeNumber);
  }

  /** The screen's load asks for every list with the default paging, so it
      shows at most the first `DefaultLimit` (ten) rows of each table. */
  lemma {:induction false} LoadShowsFirstPage(s: State, db: Db)
    ensures var r := FetchData(s, Api.ReadVolunteers(db, None, None).ToOption(),
                                  Api.ReadDrivers(db, None, None).ToOption(),
                                  Api.ReadRoutes(db, None, None).ToOption());
      && r.volunteers == db.volunteers.rows[..Crud.Min(Api.DefaultLimit, |db.volunteers.rows|)]
      && r.drivers == db.drivers.rows[..Crud.Min(Api.DefaultLimit, |db.drivers.rows|)]
      && r.routes == db.routes.rows[..Crud.Min(Api.DefaultLimit, |db.routes.rows|)]
  {
  }

  /** When the screen's volunteer list mirrors the table, it still mirrors it
      after the delete request and the handler that follows it. */
  lemma {:induction false} DeleteVolunteerKeepsMirror(s: State, db: Db, id: int)
    requires Valid(db) && s.volunteers == db.volunteers.rows
    ensures var reply := Api.DeleteVolunteer(db, id);
      HandleDeleteVolunteer(s, id, reply.response.Ok?).volunteers == reply.db.volunteers.rows
  {
  }

  /** The same for the route list. */
  lemma {:induction false} DeleteRouteKeepsMirror(s: State, db: Db, routeNumber: int)
    requires Valid(db) && s.routes == db.routes.rows
    ensures var reply := Api.DeleteRoute(db, routeNumber);
      HandleDeleteRoute(s, routeNumber, reply.response.Ok?).routes == reply.db.routes.rows
  {
  }
}
