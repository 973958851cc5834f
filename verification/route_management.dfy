/** The route editor screen: a cached list of routes as the browser holds
    them (JSON objects), and a one-field edit session in a modal dialog that
    is written back to the list only after the server accepts it. */
module RouteManagement {
  import opened Outcomes
  import opened Text
  import opened Keyed

  /** A JSON property value as it arrives from, or is typed into, the page. */
  datatype Value = Null | Num(n: int) | Str(s: string) | List(items: seq<string>)

  /** A route as a JavaScript object: property name to value. This screen
      writes any property by name (`{ ...route, [field]: value }`) and sends
      the object back as it is, so a route is a property map here, whereas
      the admin screen only shows and filters whole rows and holds the back
      end's row type. */
  type Record = map<string, Value>

  const KeyField := "route_number"
  const PickupField := "pickup_locations"
  const DropoffField := "dropoff_locations"

  /** `record[field]`; `None` stands for `undefined`. */
  function Get(r: Record, field: string): Option<Value> {
    if field in r then Some(r[field]) else None
  }

  /** `record.route_number`, the key the list is updated by. */
  function RouteKey(r: Record): Option<Value> { Get(r, KeyField) }

  /** JavaScript truthiness: `undefined`, `null`, `0` and `""` are falsy;
      every array, even an empty one, is truthy. */
  predicate Truthy(v: Option<Value>) {
    match v
    case None => false
    case Some(Null) => false
    case Some(Num(n)) => n != 0
    case Some(Str(s)) => s != ""
    case Some(List(_)) => true
  }

  /** The component's state: the route list and the edit dialog. */
  datatype State = State(
    routes: seq<Record>,
    isModalOpen: bool,
    currentRoute: Option<Record>,
    editField: string,
    editValue: Value)

  /** The dialog is closed and the edit session is empty. */
  predicate Closed(s: State) {
    && !s.isModalOpen
    && s.currentRoute.None?
    && s.editField == ""
    && s.editValue == Str("")
  }

  const Initial := State([], false, None, "", Str(""))

  /** The screen mounts with an empty list and the dialog closed. */
  lemma {:induction false} InitialClosed()
    ensures Closed(Initial) && Initial.routes == []
  {
  }

  /** The mount-time load: the list is replaced when `GET /routes/` answers
      and left as it is when the request fails; the dialog is not touched. */
  function FetchRoutes(s: State, response: Option<seq<Record>>): (r: State)
    ensures response.Some? ==> r.routes == response.value
    ensures response.None? ==> r.routes == s.routes
    ensures r.isModalOpen == s.isModalOpen && r.currentRoute == s.currentRoute
    ensures r.editField == s.editField && r.editValue == s.editValue
  {
    if response.Some? then s.(routes := response.value) else s
  }

  /** `openModal(route, field)`: starts editing `field` of `route`, seeded
      with the field's current value when that is truthy and with `""`
      otherwise. */
  function OpenModal(s: State, route: Record, field: string): (r: State)
    ensures r.isModalOpen && r.currentRoute == Some(route) && r.editField == field
    ensures r.routes == s.routes
    ensures Truthy(Get(route, field)) ==> Some(r.editValue) == Get(route, field)
    ensures !Truthy(Get(route, field)) ==> r.editValue == Str("")
  {
    var seed := if Truthy(Get(route, field)) then route[field] else Str("");
    State(s.routes, true, Some(route), field, seed)
  }

  /** `closeModal()`: ends the session without touching the list. */
  function CloseModal(s: State): (r: State)
    ensures Closed(r)
    ensures r.routes == s.routes
  {
    State(s.routes, false, None, "", Str(""))
  }

  /** The text input's `onChange`: the typed text replaces the edit value. */
  function ChangeValue(s: State, text: string): (r: State)
    ensures r.editValue == Str(text)
    ensures r.routes == s.routes && r.isModalOpen == s.isModalOpen
    ensures r.currentRoute == s.currentRoute && r.editField == s.editField
  {
    s.(editValue := Str(text))
  }

  predicate IsLocationField(field: string) {
    field == PickupField || field == DropoffField
  }

  /** `pieces.map(item => item.trim())`. */
  function TrimAll(pieces: seq<string>): (r: seq<string>)
    ensures |r| == |pieces|
    ensures forall i | 0 <= i < |r| :: r[i] == Trim(pieces[i])
  {
    if |pieces| == 0 then [] else [Trim(pieces[0])] + TrimAll(pieces[1..])
  }

  /** `text.split(",").map(item => item.trim())`: one piece per comma plus
      one, each free of commas and of surrounding whitespace. */
  function ParseLocations(text: string): (r: seq<string>)
    ensures |r| == multiset(text)[','] + 1
    ensures forall i | 0 <= i < |r| :: ',' !in r[i] && Trimmed(r[i])
  {
    var pieces := Split(text, ',');
    SplitCount(text, ',');
    TrimAll(pieces)
  }

  /** Piece `i` of the parsed list is the `i`-th comma-separated segment of
      the text with its surrounding whitespace removed. */
  lemma {:induction false} ParseLocationsSegments(text: string)
    ensures exists segments: seq<string> ::
      (&& |segments| == |ParseLocations(text)|
       && Join(segments, ',') == text
       && forall i | 0 <= i < |segments| :: ',' !in segments[i] && ParseLocations(text)[i] == Trim(segments[i]))
  {
    var pieces := Split(text, ',');
    JoinSplit(text, ',');
    var r := ParseLocations(text);
    assert r == TrimAll(pieces);
    assert forall i | 0 <= i < |pieces| :: ',' !in pieces[i] && r[i] == Trim(pieces[i]);
  }

  /** A location list shown as an array's string form (`xs.join(",")`)
      parses back to the same list when its entries are trimmed and
      comma-free. */
  lemma {:induction false} ParseJoinedLocations(xs: seq<string>)
    requires |xs| >= 1
    requires forall i | 0 <= i < |xs| :: ',' !in xs[i] && Trimmed(xs[i])
    ensures ParseLocations(Join(xs, ',')) == xs
  {
    SplitJoin(xs, ',');
  }

  /** The record `handleSave` sends: `{ ...current }` with `field` overwritten
      by the edit value, split into trimmed locations for the two location
      fields. Calling `split` on a value that is not a string throws, which
      is `None` here. */
  function ApplyEdit(current: Record, field: string, value: Value): (r: Option<Record>)
    ensures IsLocationField(field) ==> (r.Some? <==> value.Str?)
    ensures !IsLocationField(field) ==> r.Some?
    ensures r.Some? ==> r.value.Keys == current.Keys + {field}
    ensures r.Some? ==> forall f | f in current && f != field :: r.value[f] == current[f]
    ensures r.Some? && IsLocationField(field) ==> r.value[field] == List(ParseLocations(value.s))
    ensures r.Some? && !IsLocationField(field) ==> r.value[field] == value
  {
    if IsLocationField(field) then
      if value.Str? then Some(current[field := List(ParseLocations(value.s))]) else None
    else Some(current[field := value])
  }

  /** `routes.map(route => route.route_number === key ? updated : route)`:
      the list keeps its length and order, entries with the key become
      `updated` and every other entry stays as it was. */
  function ReplaceByKey(routes: seq<Record>, key: Option<Value>, updated: Record): (r: seq<Record>)
    ensures |r| == |routes|
    ensures forall i | 0 <= i < |routes| && RouteKey(routes[i]) == key :: r[i] == updated
    ensures forall i | 0 <= i < |routes| && RouteKey(routes[i]) != key :: r[i] == routes[i]
  {
    if |routes| == 0 then []
    else
      var rest := ReplaceByKey(routes[1..], key, updated);
      [if RouteKey(routes[0]) == key then updated else routes[0]] + rest
  }

  /** When the replacement carries the key it replaces, the entries with
      other keys are exactly those of the original list, in the same order. */
  lemma {:induction false} ReplaceKeepsOthers(routes: seq<Record>, key: Option<Value>, updated: Record)
    requires RouteKey(updated) == key
    ensures RemoveKey(ReplaceByKey(routes, key, updated), RouteKey, key) == RemoveKey(routes, RouteKey, key)
  {
    if |routes| > 0 {
      ReplaceKeepsOthers(routes[1..], key, updated);
      var r := ReplaceByKey(routes, key, updated);
      assert r[1..] == ReplaceByKey(routes[1..], key, updated);
      assert RouteKey(r[0]) == key <==> RouteKey(routes[0]) == key;
      if RouteKey(routes[0]) != key {
        assert r[0] == routes[0];
      }
    }
  }

  /** When the replacement carries the key it replaces, a second replacement
      changes nothing. */
  lemma {:induction false} ReplaceByKeyIdempotent(routes: seq<Record>, key: Option<Value>, updated: Record)
    requires RouteKey(updated) == key
    ensures ReplaceByKey(ReplaceByKey(routes, key, updated), key, updated) == ReplaceByKey(routes, key, updated)
  {
  }

  /** `handleSave(putOk)`, where `putOk` is whether `PUT /routes/{n}` succeeded.
      The list changes only when there is a current route, the edit could be
      applied and the server accepted it; then every entry with the current
      route's number is replaced by the edited record. The dialog closes and
      the session is cleared on every path. */
  function HandleSave(s: State, putOk: bool): (r: State)
    ensures Closed(r)
    ensures s.currentRoute.None? ==> r.routes == s.routes
    ensures s.currentRoute.Some? && ApplyEdit(s.currentRoute.value, s.editField, s.editValue).None? ==> r.routes == s.routes
    ensures !putOk ==> r.routes == s.routes
    ensures s.currentRoute.Some? && putOk ==>
      match ApplyEdit(s.currentRoute.value, s.editField, s.editValue)
      case None => r.routes == s.routes
      case Some(u) => r.routes == ReplaceByKey(s.routes, RouteKey(s.currentRoute.value), u)
  {
    var routes :=
      match s.currentRoute
      case None => s.routes
      case Some(current) =>
        match ApplyEdit(current, s.editField, s.editValue)
        case None => s.routes
        case Some(updated) =>
          if putOk then ReplaceByKey(s.routes, RouteKey(current), updated) else s.routes;
    CloseModal(s.(routes := routes))
  }

  /** Opening a field other than the two location fields and saving without
      typing writes the route back unchanged when the field was truthy (the
      edit value is the field's own value, not a string). */
  lemma {:induction false} UntouchedSaveKeepsRoute(s: State, route: Record, field: string)
    requires !IsLocationField(field) && Truthy(Get(route, field))
    ensures HandleSave(OpenModal(s, route, field), true).routes == ReplaceByKey(s.routes, RouteKey(route), route)
  {
    assert route[field := route[field]] == route;
  }

  /** Opening a location field that holds an array and saving without typing
      makes `split` throw: the list is left as it was whatever the server
      would have answered. */
  lemma {:induction false} UntouchedLocationListSaveThrows(s: State, route: Record, field: string, putOk: bool)
    requires IsLocationField(field) && Get(route, field).Some? && Get(route, field).value.List?
    ensures HandleSave(OpenModal(s, route, field), putOk).routes == s.routes
  {
  }

  /** A location field that is missing or null is seeded with `""`, and saving
      it without typing stores the one-piece list `[""]`. */
  lemma {:induction false} UntouchedFalsyLocationSave(s: State, route: Record, field: string)
    requires IsLocationField(field) && !Truthy(Get(route, field))
    ensures HandleSave(OpenModal(s, route, field), true).routes
         == ReplaceByKey(s.routes, RouteKey(route), route[field := List([""])])
  {
    assert Split("", ',') == [""];
    assert ParseLocations("") == [""];
  }

  /** A save of any field except `route_number` keeps the list's length and
      every entry's route number, and leaves the entries with other numbers
      exactly as they were, in order. */
  lemma {:induction false} SaveKeepsKeys(s: State, putOk: bool)
    requires s.currentRoute.Some? && s.editField != KeyField
    ensures |HandleSave(s, putOk).routes| == |s.routes|
    ensures forall i | 0 <= i < |s.routes| :: RouteKey(HandleSave(s, putOk).routes[i]) == RouteKey(s.routes[i])
    ensures RemoveKey(HandleSave(s, putOk).routes, RouteKey, RouteKey(s.currentRoute.value))
         == RemoveKey(s.routes, RouteKey, RouteKey(s.currentRoute.value))
  {
    var current := s.currentRoute.value;
    var e := ApplyEdit(current, s.editField, s.editValue);
    if e.Some? && putOk {
      assert RouteKey(e.value) == RouteKey(current);
      ReplaceKeepsOthers(s.routes, RouteKey(current), e.value);
    }
  }
}
