/** The three tables of the back end and the rows they hold. Each table is a
    sequence of rows in storage order together with the next value of the
    integer primary key's sequence. */
module Models {
  import opened Outcomes
  import opened Keyed
  import opened Schemas

  /** A row of `volunteers` or of `employed_drivers`: both tables have the
      same columns, and `id` is the primary key. */
  datatype Person = Person(
    id: int,
    firstName: string,
    lastName: string,
    address: Option<string>,
    phoneNumber: Option<string>)

  /** A row of `routes`; `route_number` is the primary key. */
  datatype Route = Route(
    routeNumber: int,
    driverType: string,
    driverId: int,
    pickupLocations: seq<string>,
    dropoffLocations: seq<string>)

  /** Declared widths of the bounded text columns. */
  const NameWidth := 50
  const PhoneWidth := 15
  const DriverTypeWidth := 50

  /** Range of a PostgreSQL `integer` column. */
  const Int4Min := -0x8000_0000
  const Int4Max := 0x7FFF_FFFF

  /** Largest PostgreSQL `bigint`, the type of OFFSET and LIMIT. */
  const Int8Max := 0x7FFF_FFFF_FFFF_FFFF

  function PersonId(p: Person): int { p.id }
  function RouteNumber(r: Route): int { r.routeNumber }

  /** PostgreSQL text values cannot hold the NUL character; the driver
      refuses a statement that carries one. */
  predicate TextAccepts(s: string) {
    '\0' !in s
  }

  predicate TextsAccepted(xs: seq<string>) {
    forall i | 0 <= i < |xs| :: TextAccepts(xs[i])
  }

  /** A `varchar(width)` column takes a string when it holds no NUL and
      everything past `width` characters is spaces: PostgreSQL cuts such
      spaces off and refuses any other over-long value. */
  predicate VarcharAccepts(s: string, width: nat) {
    && TextAccepts(s)
    && forall i | width <= i < |s| :: s[i] == ' '
  }

  /** What a `varchar(width)` column holds after taking `s`. */
  function VarcharValue(s: string, width: nat): (v: string)
    ensures v <= s
    ensures |s| <= width ==> v == s
    ensures |s| > width ==> |v| == width
  {
    if |s| <= width then s else s[..width]
  }

  /** An accepted value loses only spaces, and storing what was stored
      changes nothing. */
  lemma {:induction false} VarcharValueStable(s: string, width: nat)
    requires VarcharAccepts(s, width)
    ensures s == VarcharValue(s, width) + s[|VarcharValue(s, width)|..]
    ensures forall i | |VarcharValue(s, width)| <= i < |s| :: s[i] == ' '
    ensures VarcharAccepts(VarcharValue(s, width), width)
    ensures VarcharValue(VarcharValue(s, width), width) == VarcharValue(s, width)
  {
  }

  predicate Int4Accepts(n: int) {
    Int4Min <= n <= Int4Max
  }

  /** The database accepts a person row built from the body: names and
      phone number in their `String(n)` columns, the address as `Text`. */
  predicate PersonFits(b: PersonCreate) {
    && VarcharAccepts(b.firstName, NameWidth)
    && VarcharAccepts(b.lastName, NameWidth)
    && (b.address.None? || TextAccepts(b.address.value))
    && (b.phoneNumber.None? || VarcharAccepts(b.phoneNumber.value, PhoneWidth))
  }

  /** The database accepts a route built from the body: `driver_type` in
      `String(50)`, `driver_id` in `integer`, the locations as `Text[]`. */
  predicate RouteFits(b: RouteCreate) {
    && VarcharAccepts(b.driverType, DriverTypeWidth)
    && Int4Accepts(b.driverId)
    && TextsAccepted(b.pickupLocations)
    && TextsAccepted(b.dropoffLocations)
  }

  /** Every column of the row except the key holds what the database made
      of the body's value. */
  predicate PersonStored(p: Person, b: PersonCreate) {
    && p.firstName == VarcharValue(b.firstName, NameWidth)
    && p.lastName == VarcharValue(b.lastName, NameWidth)
    && p.address == b.address
    && (b.phoneNumber.None? ==> p.phoneNumber.None?)
    && (b.phoneNumber.Some? ==> p.phoneNumber == Some(VarcharValue(b.phoneNumber.value, PhoneWidth)))
  }

  predicate RouteStored(r: Route, b: RouteCreate) {
    && r.driverType == VarcharValue(b.driverType, DriverTypeWidth)
    && r.driverId == b.driverId
    && r.pickupLocations == b.pickupLocations
    && r.dropoffLocations == b.dropoffLocations
  }

  /** Rows in storage order and the next key the table's sequence hands out. */
  datatype Table<R> = Table(rows: seq<R>, nextKey: int)

  /** The key columns are `Integer` primary keys, so their sequences are
      `integer` sequences that stop after handing out `Int4Max`: an insert
      into a table whose sequence is used up fails. */
  predicate KeyAvailable<R>(t: Table<R>) {
    t.nextKey <= Int4Max
  }

  /** Keys are unique and were all handed out by the sequence, which starts
      at 1 and never goes past `Int4Max`. */
  ghost predicate ValidTable<R>(t: Table<R>, key: R -> int) {
    && UniqueKeys(t.rows, key)
    && 1 <= t.nextKey <= Int4Max + 1
    && forall i | 0 <= i < |t.rows| :: 1 <= key(t.rows[i]) < t.nextKey
  }

  datatype Db = Db(volunteers: Table<Person>, drivers: Table<Person>, routes: Table<Route>)

  ghost predicate Valid(db: Db) {
    && ValidTable(db.volunteers, PersonId)
    && ValidTable(db.drivers, PersonId)
    && ValidTable(db.routes, RouteNumber)
  }

  /** A freshly created database: no rows, every sequence at 1. */
  const EmptyDb := Db(Table([], 1), Table([], 1), Table([], 1))

  lemma {:induction false} EmptyDbValid()
    ensures Valid(EmptyDb)
  {
  }

  /** The database after a request, and what the request answered. */
  datatype Reply<T> = Reply(db: Db, response: Result<T>)
}
