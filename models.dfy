/**
  The records and enumerations of the ride-scheduling backend: the three stored
  tables (users, volunteers, ride requests), the payloads that create them, the
  ride-status and user-type enumerations and the all-optional ride patch.
 */
module Models {
  import opened Wrappers
  import Availability

  /** A point in time (`datetime`); the model only stores and copies timestamps. */
  type Timestamp = int

  // ---------------------------------------------------------------------------
  // Enumerations and the tokens their database columns store

  datatype UserType = Elderly | Accessibility

  /** The values the `user_type` column admits. */
  const UserTypeColumn: set<string> := {"elderly", "accessibility"}

  /** The value the `user_type` column takes when none is given. */
  const UserTypeColumnDefault: string := "elderly"

  /** The token a user type is stored as (`user_type.value`). */
  function UserTypeToken(t: UserType): (s: string)
    ensures s in UserTypeColumn
  {
    match t
    case Elderly => "elderly"
    case Accessibility => "accessibility"
  }

  /** Reads a stored `user_type` token back; `None` for anything the enumeration does not name. */
  function ParseUserType(s: string): (r: Option<UserType>)
    ensures r.Some? <==> s in UserTypeColumn
  {
    if s == "elderly" then Some(Elderly)
    else if s == "accessibility" then Some(Accessibility)
    else None
  }

  /** The user-type tokens and the enumeration are in one-to-one correspondence. */
  lemma UserTypeTokens(t: UserType, s: string)
    ensures ParseUserType(UserTypeToken(t)) == Some(t)
    ensures ParseUserType(s) == Some(t) <==> UserTypeToken(t) == s
    ensures UserTypeToken(Elderly) == UserTypeColumnDefault
  {
  }

  datatype RideStatus = Pending | Assigned | InProgress | Completed | Cancelled

  /** The values the `status` column admits. */
  const RideStatusColumn: set<string> := {"pending", "assigned", "in_progress", "completed", "cancelled"}

  /** The value the `status` column takes when none is given. */
  const RideStatusColumnDefault: string := "pending"

  /** The token a ride status is stored and serialised as (`status.value`). */
  function StatusToken(s: RideStatus): (t: string)
    ensures t in RideStatusColumn
  {
    match s
    case Pending => "pending"
    case Assigned => "assigned"
    case InProgress => "in_progress"
    case Completed => "completed"
    case Cancelled => "cancelled"
  }

  /** Reads a stored status token back; `None` for anything outside the five tokens. */
  function ParseStatus(t: string): (r: Option<RideStatus>)
    ensures r.Some? <==> t in RideStatusColumn
  {
    if t == "pending" then Some(Pending)
    else if t == "assigned" then Some(Assigned)
    else if t == "in_progress" then Some(InProgress)
    else if t == "completed" then Some(Completed)
    else if t == "cancelled" then Some(Cancelled)
    else None
  }

  /** The five status tokens and the enumeration are in one-to-one correspondence. */
  lemma StatusTokens(s: RideStatus, t: string)
    ensures ParseStatus(StatusToken(s)) == Some(s)
    ensures ParseStatus(t) == Some(s) <==> StatusToken(s) == t
    ensures StatusToken(Pending) == RideStatusColumnDefault
  {
  }

  // ---------------------------------------------------------------------------
  // Users

  /** A row of the `users` table; `userType` holds the column's token. */
  datatype User = User(
    id: int,
    name: string,
    phone: string,
    address: string,
    userType: string,
    createdAt: Timestamp)

  /** The payload that creates a user. */
  datatype UserCreate = UserCreate(name: string, phone: string, address: string, userType: UserType)

  // ---------------------------------------------------------------------------
  // Volunteers

  /** A row of the `volunteers` table; `availability` holds the comma-joined slots. */
  datatype Volunteer = Volunteer(
    id: int,
    name: string,
    phone: string,
    carModel: Option<string>,
    licensePlate: Option<string>,
    availability: string,
    currentLocation: Option<string>,
    createdAt: Timestamp)

  /** The payload that creates a volunteer; `availability` is a list of slots such as "Monday 9-12". */
  datatype VolunteerCreate = VolunteerCreate(
    name: string,
    phone: string,
    carModel: Option<string>,
    licensePlate: Option<string>,
    availability: seq<string>,
    currentLocation: Option<string>)

  /** The availability list a volunteer payload carries when none is given. */
  const NoAvailability: seq<string> := []

  /** The value the `availability` column takes when none is given. */
  const AvailabilityColumnDefault: string := ""

  /** A volunteer created without availability stores the column's default. */
  lemma DefaultAvailabilityStored()
    ensures Availability.Join(NoAvailability) == AvailabilityColumnDefault
  {
  }

  // ---------------------------------------------------------------------------
  // Ride requests

  /** The payload that requests a ride. */
  datatype RideRequestCreate = RideRequestCreate(
    requesterId: int,
    pickupAddress: string,
    destinationAddress: string,
    requestedTime: Timestamp,
    specialNeeds: Option<string>)

  /** A row of the `ride_requests` table. */
  datatype RideRequest = RideRequest(
    id: int,
    requesterId: int,
    pickupAddress: string,
    destinationAddress: string,
    requestedTime: Timestamp,
    specialNeeds: Option<string>,
    status: RideStatus,
    assignedVolunteerId: Option<int>,
    assignedTime: Option<Timestamp>,
    completedTime: Option<Timestamp>,
    createdAt: Timestamp,
    distanceKm: Option<real>,
    estimatedDurationMinutes: Option<real>)

  /** The request fields a ride record carries, read back as a payload. */
  function RequestOf(r: RideRequest): RideRequestCreate {
    RideRequestCreate(r.requesterId, r.pickupAddress, r.destinationAddress, r.requestedTime, r.specialNeeds)
  }

  /**
    A ride record as the schema builds it from a payload when only the id and
    creation time are supplied: every other field takes its declared default.
   */
  function RideRequestInDB(id: int, request: RideRequestCreate, createdAt: Timestamp): (r: RideRequest)
    ensures RequestOf(r) == request && r.id == id && r.createdAt == createdAt
    ensures r.status == Pending
    ensures r.assignedVolunteerId.None? && r.assignedTime.None? && r.completedTime.None?
    ensures r.distanceKm.None? && r.estimatedDurationMinutes.None?
  {
    RideRequest(id, request.requesterId, request.pickupAddress, request.destinationAddress,
                request.requestedTime, request.specialNeeds, Pending, None, None, None,
                createdAt, None, None)
  }

  /** A partial ride update: each field is either absent (`None`) or a new value. */
  datatype RideUpdate = RideUpdate(
    status: Option<RideStatus>,
    assignedVolunteerId: Option<int>,
    assignedTime: Option<Timestamp>,
    completedTime: Option<Timestamp>)

  /** The ride update with every field left at its default. */
  const EmptyRideUpdate: RideUpdate := RideUpdate(None, None, None, None)
}
