/** The request bodies the back end accepts (the pydantic "Create" schemas).
    The response schemas carry exactly the columns of a row, so they are the
    row types of `Models`. */
module Schemas {
  import opened Outcomes

  /** Body of `POST /volunteers/` and `POST /drivers/`: VolunteerCreate and
      EmployedDriverCreate declare the same four fields. */
  datatype PersonCreate = PersonCreate(
    firstName: string,
    lastName: string,
    address: Option<string>,
    phoneNumber: Option<string>)

  /** Body of `POST /routes/` and `PUT /routes/{route_number}`: a route
      without its number. */
  datatype RouteCreate = RouteCreate(
    driverType: string,
    driverId: int,
    pickupLocations: seq<string>,
    dropoffLocations: seq<string>)
}
