# Food routing back office — keyed record stores in Dafny

This project models the record-keeping rules of a small food-delivery back
office. A FastAPI/SQLAlchemy back end keeps three tables: volunteers, employed
drivers and routes. A React front end caches those tables in lists and edits
them through modal dialogs.

The model covers three parts:

- **Back end** (`Models`, `Schemas`, `Crud`, `Api`). Each table is a sequence of
  rows plus the next value of its integer primary-key sequence. The model covers
  offset/limit listing with the endpoint defaults (`skip = 0`, `limit = 10`),
  creation with a server-assigned key, `update_route`, and delete by key with
  a 404 on a miss. The listing operations return a `Result` only (the rows
  or an HTTP error). The operations that write return the new database
  together with such a `Result`, and they keep the table invariant: keys
  are unique and all lie below the sequence's next value, which never
  passes 2147483648.
- **Route editor** (`RouteManagement`). This is the browser-side list of routes
  as JSON objects (`map<string, Value>`) plus a one-field edit session.
  Opening a dialog seeds the edit value from the route. Saving builds
  `{ ...currentRoute }` with one field overwritten. The two location fields are
  split on `","` and each piece is trimmed. The list entry is replaced by route
  number only after the PUT succeeds. The dialog closes on every path.
- **Admin screen** (`AdminManagement`). It holds three cached lists. They are
  loaded all together or not at all, and each one is filtered by key after a
  DELETE succeeds.

`Text` models the JavaScript string operations the editor uses: `trim` with
the full ECMAScript whitespace set, single-character `split`, and `join` as
its inverse. `Keyed` holds the generic lookups and removals on keyed
sequences, which the back end and the front end share.

Network and database outcomes that the code cannot see are parameters:
- `putOk` and `deleted` say whether a request succeeded;
- the fetch responses are `Option`s.

The database is taken to be PostgreSQL, because the models use `ARRAY(Text)`.
A statement the database refuses is answered with a 500 and leaves the
tables unchanged. PostgreSQL refuses:
- an OFFSET or LIMIT that is negative or larger than the `bigint` maximum;
- any text holding the NUL character, in any column or array element;
- a `driver_id` outside the 32-bit `integer` range;
- an insert once the table's key sequence is used up. The `id` and
  `route_number` keys are `Integer` columns, so their sequences stop after
  handing out 2147483647;
- a value longer than its `String(n)` column, unless every character past
  the n-th is a space. Such a value is cut back to n characters and stored,
  and the stored row (the shortened value included) is what the create or
  update answers.

## Behaviour of the code worth knowing

- A failed save closes the dialog and discards the edit (`HandleSave`,
  RouteManagement.jsx lines 66-70).
- Neither screen offers a search filter or a column sort, validates input
  before sending it, or tracks whether a save is still in flight.
- `route_number` is assigned by the table's sequence on creation. The body of
  `POST /routes/` has no `route_number` field.
- The volunteer and driver models have no `notes` column, and no code edits
  volunteers or drivers after creation.

## Model

| member | source | states |
|---|---|---|
| Text.Trim | src/components/RouteManagement.jsx:52 | the result has no whitespace at either end; it is the input minus a whitespace prefix and a whitespace suffix; it adds no character; an already-trimmed string is returned unchanged |
| Text.Split | src/components/RouteManagement.jsx:51 | splitting always yields at least one piece (the empty text gives `[""]`) and no piece contains the separator |
| Text.SplitCount | src/components/RouteManagement.jsx:50-52 | the number of pieces is the number of commas plus one |
| Text.JoinSplit | src/components/RouteManagement.jsx:51 | joining the pieces with the separator rebuilds the text exactly |
| Text.SplitJoin | src/components/RouteManagement.jsx:50-52 | splitting the join of a non-empty list of separator-free pieces gives back the same pieces (the empty list joins to `""`, which splits to `[""]`) |
| Keyed.FindFirst | food_routing_backend/main.py:99-101 | `filter(key == k).first()` finds nothing exactly when no row has the key; otherwise it finds the first row with the key |
| Keyed.RemoveKey | src/components/AdminManagement.jsx:28 | the filtered list never grows; it keeps exactly the entries whose key differs, so no survivor has the deleted key |
| Keyed.RemoveAbsentKey | src/components/AdminManagement.jsx:28 | filtering out a key that no entry has leaves the list unchanged |
| Keyed.RemoveKeyIdempotent | src/components/AdminManagement.jsx:28 | filtering out the same key twice equals filtering it out once |
| Keyed.RemoveKeyAppend | src/components/AdminManagement.jsx:28 | the filter works piece by piece, so the survivors keep their original order |
| Keyed.RemoveUniqueKey | food_routing_backend/models.py:31 | with unique primary keys, removing a present key drops exactly that one entry and the list shrinks by one |
| Crud.Page | food_routing_backend/crud.py:40-41 | offset/limit fails exactly on a skip or limit that is negative or past the `bigint` range; otherwise it returns the contiguous rows from position `skip`, and there are `min(limit, max(0, n - skip))` of them |
| Crud.PageConcat | food_routing_backend/crud.py:41 | two consecutive pages together equal the page that spans both |
| Crud.GetVolunteers | food_routing_backend/crud.py:6-7 | a page of the volunteers table, never longer than `limit` |
| Crud.GetEmployedDrivers | food_routing_backend/crud.py:23-24 | a page of the employed drivers table, never longer than `limit` |
| Crud.GetRoutes | food_routing_backend/crud.py:40-41 | a page of the routes table, never longer than `limit` |
| Crud.InsertValid | food_routing_backend/crud.py:51-53 | while the sequence is not used up, a row keyed by its next value keeps the keys unique and within the sequence's range, and its key was not used before |
| Models.VarcharValue | food_routing_backend/models.py:12-15 | a `String(n)` column holds a prefix of the value given: all of it when it fits, else exactly its first n characters |
| Models.VarcharValueStable | food_routing_backend/models.py:12-15 | an accepted value loses only trailing spaces; what was stored is itself accepted and is stored unchanged a second time |
| Models.EmptyDbValid | food_routing_backend/models.py:8-35 | three empty tables with their sequences at 1 satisfy the table invariant |
| Crud.CreateVolunteer | food_routing_backend/crud.py:10-20 | succeeds exactly when the id sequence is not used up and the database accepts every column (no NUL anywhere; names and phone number over their widths only by trailing spaces); stores the address and the other three fields cut to their widths; the id is fresh; the table grows by exactly that row at the end; other tables are untouched; a refused row gives a 500 and no change |
| Crud.PaddedNameIsCut | food_routing_backend/crud.py:10-20 | a first name of 50 characters followed by spaces is accepted when the rest of the body is and the id sequence is not used up, and the volunteer is stored with the 50-character name |
| Crud.UsedUpSequenceRefuses | food_routing_backend/models.py:11 | once the volunteers' id sequence has handed out 2147483647, a create answers 500 and changes nothing |
| Crud.CreateEmployedDriver | food_routing_backend/crud.py:27-37 | the same as creating a volunteer, with the same acceptance condition, for the employed drivers table |
| Crud.CreateRoute | food_routing_backend/crud.py:44-54 | succeeds exactly when the route-number sequence is not used up, `driver_id` is a 32-bit integer, no text holds NUL and `driver_type` is over 50 characters only by trailing spaces; stores `driver_type` cut to 50 characters and the other three fields as given; the route number comes from the sequence and differs from every existing one; the table grows by one row; a refused route gives a 500 and no change |
| Api.ReadVolunteers | food_routing_backend/main.py:37-40 | with no query parameters the answer is the first `min(10, n)` volunteers; it fails only on a parameter that is negative or past the `bigint` range |
| Api.ReadDrivers | food_routing_backend/main.py:63-66 | with no query parameters the answer is the first `min(10, n)` drivers |
| Api.ReadRoutes | food_routing_backend/main.py:89-92 | with no query parameters the answer is the first `min(10, n)` routes |
| Api.DeleteVolunteer | food_routing_backend/main.py:43-52 | a missing id gives 404 "Volunteer not found" and no change; otherwise it returns the row with that id and removes exactly it; the other rows keep their order; the other tables are untouched |
| Api.DeleteDriver | food_routing_backend/main.py:69-80 | a missing id gives 404 "Driver not found" and no change; otherwise it removes and returns exactly that driver |
| Api.DeleteRoute | food_routing_backend/main.py:115-124 | a missing number gives 404 "Route not found" and no change; otherwise it removes and returns exactly that route |
| Api.UpdateRoute | food_routing_backend/main.py:95-112 | a missing number gives 404 and no change; a body the database refuses (the same condition as creating a route) gives 500 and no change; otherwise the route keeps its number and takes the four body fields, `driver_type` cut to 50 characters; no other route, table or key changes |
| Api.UpdateRouteIdempotent | food_routing_backend/main.py:105-108 | sending the same update twice gives the same database and answer as sending it once |
| Api.UpdateAfterDeleteRoute | food_routing_backend/main.py:95-124 | after a route is deleted, updating it answers 404 |
| RouteManagement.FetchRoutes | src/components/RouteManagement.jsx:15-25 | a successful load replaces the list; a failed one leaves it unchanged; the dialog is never touched |
| RouteManagement.OpenModal | src/components/RouteManagement.jsx:27-32 | opens the dialog on the route and field; the edit value is the field's value when truthy, else `""`; the list is unchanged |
| RouteManagement.CloseModal | src/components/RouteManagement.jsx:34-39 | the dialog is closed with no route, an empty field and an empty value; the list is unchanged |
| RouteManagement.ChangeValue | src/components/RouteManagement.jsx:131 | typing replaces only the edit value, with the typed string |
| RouteManagement.InitialClosed | src/components/RouteManagement.jsx:9-13 | the screen starts with an empty list and the dialog closed |
| RouteManagement.ParseLocations | src/components/RouteManagement.jsx:50-52 | there is one piece per comma plus one, and every piece is comma-free with no surrounding whitespace |
| RouteManagement.ParseLocationsSegments | src/components/RouteManagement.jsx:50-52 | for every text, piece i is the i-th comma-separated segment of the text with its surrounding whitespace removed (the segments joined with commas rebuild the text) |
| RouteManagement.ParseJoinedLocations | src/components/RouteManagement.jsx:50-52 | a non-empty list of trimmed, comma-free locations, shown as its array string, parses back to the same list |
| RouteManagement.ApplyEdit | src/components/RouteManagement.jsx:44-55 | the edited record differs from the current route only in the edited field; a location field gets the parsed list; any other field gets the raw edit value; a location edit whose value is not a string throws |
| RouteManagement.ReplaceByKey | src/components/RouteManagement.jsx:59-65 | the list keeps its length and order; every entry with the route's number becomes the edited record; every other entry is unchanged |
| RouteManagement.ReplaceKeepsOthers | src/components/RouteManagement.jsx:59-65 | the entries with other route numbers are the same entries, in the same order, before and after |
| RouteManagement.ReplaceByKeyIdempotent | src/components/RouteManagement.jsx:59-65 | replacing with the same record twice gives the same list as replacing once |
| RouteManagement.HandleSave | src/components/RouteManagement.jsx:41-71 | the session always ends closed and cleared; the list changes only when there is a current route, the edit applies and the PUT succeeds, and then by replacement on route number |
| RouteManagement.UntouchedSaveKeepsRoute | src/components/RouteManagement.jsx:27-65 | opening a truthy non-location field and saving without typing writes the route back unchanged |
| RouteManagement.UntouchedLocationListSaveThrows | src/components/RouteManagement.jsx:27-68 | opening a location field that holds an array and saving without typing throws in `split`, so the list is unchanged |
| RouteManagement.UntouchedFalsyLocationSave | src/components/RouteManagement.jsx:27-65 | a missing or null location field saved without typing is stored as `[""]` |
| RouteManagement.SaveKeepsKeys | src/components/RouteManagement.jsx:44-65 | a save of any field except `route_number` keeps the list length and every entry's route number; entries with other numbers keep their place |
| AdminManagement.FetchData | src/components/AdminManagement.jsx:10-20 | the three lists are set together when all three fetches succeed, and none is set when any fails |
| AdminManagement.HandleDeleteVolunteer | src/components/AdminManagement.jsx:25-32 | after a successful delete no volunteer with the id remains and the rest keep their order; a failed delete changes nothing; drivers and routes are untouched |
| AdminManagement.HandleDeleteDriver | src/components/AdminManagement.jsx:34-41 | the same for drivers by id |
| AdminManagement.HandleDeleteRoute | src/components/AdminManagement.jsx:43-50 | the same for routes by route number |
| AdminManagement.DeleteVolunteerTwice | src/components/AdminManagement.jsx:28 | deleting the same volunteer twice leaves the screen as deleting it once |
| AdminManagement.DeleteUnlistedRoute | src/components/AdminManagement.jsx:46 | deleting a route number that is not listed leaves the screen unchanged |
| AdminManagement.LoadShowsFirstPage | src/components/AdminManagement.jsx:12-17 | the screen asks for each list without paging parameters, so it shows exactly the first `min(10, n)` rows of each table |
| AdminManagement.DeleteVolunteerKeepsMirror | src/components/AdminManagement.jsx:25-32 | if the volunteer list mirrors the table, it still mirrors it after the DELETE and the handler, whether the DELETE hit or missed |
| AdminManagement.DeleteRouteKeepsMirror | src/components/AdminManagement.jsx:43-50 | the same for the route list and the routes table |

## Left out

- Database and HTTP plumbing are left out: CORS, the session lifecycle, and
  SQLAlchemy's `commit`/`refresh`/query mechanics (main.py lines 1-28). A
  table is a sequence, and HTTP errors are a `Result` variant.
- The `POST` endpoints of main.py (lines 32-34, 56-60, 84-86) pass the body
  to crud.py unchanged, so `Crud.CreateVolunteer`, `Crud.CreateEmployedDriver`
  and `Crud.CreateRoute` model them too.
- Pydantic checking of request bodies is not modelled: a malformed body gets
  a 422. The model's types already enforce the schema. The front end PUTs
  `driver_id` as a string, which pydantic converts. Whether a PUT succeeds is
  the `putOk` parameter.
- Asynchrony is not modelled. Each handler runs as one step on the state it
  started from. Interleaving with other handlers while a request is pending is
  not modelled.
- Rendering, react-modal, Bootstrap markup and the navigation in App.jsx are
  left out. VolunteerList.jsx is left out because it only fetches and renders.
- The migrations are left out: they are schema DDL. The foreign-key columns
  of models.py lines 37-47 are left out too, because no code path uses them.
- Row order: the model treats storage order as listing order and appends new
  rows at the end. A query without `ORDER BY` has no guaranteed order.
- Crud.CreateVolunteer: a failed insert leaves the sequence unchanged here.
  PostgreSQL may have already used up a value. The same holds for the other
  creates.
- RouteManagement.Value: JSON numbers are integers only, and values are
  compared structurally. JavaScript's `===` compares arrays by identity; this
  matters only if a `route_number` were an array.
- Text.Trim: the whitespace set is ECMAScript's WhiteSpace and LineTerminator
  code points with the Unicode 15 "Space_Separator" list written out. A later
  Unicode version could add characters.
