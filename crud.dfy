/**
  The record store: three tables keyed by integer primary key, with the create,
  get, list, update and delete operations the backend performs on them.
 */
module Crud {
  import opened Wrappers
  import opened Models
  import opened Patching
  import opened Query
  import Availability

  /** The exceptions the store operations raise. */
  datatype Exception =
    | IntegrityError(column: string)  // a unique column would hold the same value twice
    | NameError(name: string)         // a name is used that was never bound

  /** No two users share a phone number (the column is unique). */
  ghost predicate UniqueUserPhones(m: map<int, User>) {
    forall a, b :: a in m && b in m && m[a].phone == m[b].phone ==> a == b
  }

  /** No two volunteers share a phone number (the column is unique). */
  ghost predicate UniqueVolunteerPhones(m: map<int, Volunteer>) {
    forall a, b :: a in m && b in m && m[a].phone == m[b].phone ==> a == b
  }

  /** Every id of a table lies in `[FirstId, next)`. */
  ghost predicate IdsBelow<T>(m: map<int, T>, next: int) {
    FirstId <= next && forall k :: k in m ==> FirstId <= k < next
  }

  /** The ride requests of `m` that have `status`, or all of them when no status is given. */
  function WithStatus(m: map<int, RideRequest>, status: Option<RideStatus>): (f: map<int, RideRequest>)
    ensures forall k :: k in f <==> k in m && (status.None? || m[k].status == status.value)
    ensures forall k :: k in f ==> f[k] == m[k]
  {
    if status.None? then m else map k | k in m && m[k].status == status.value :: m[k]
  }

  class Database {
    var users: map<int, User>
    var volunteers: map<int, Volunteer>
    var rides: map<int, RideRequest>
    var nextUserId: int
    var nextVolunteerId: int
    var nextRideId: int

    /** Every row is stored under its own id, ids are below the counters, phones are unique. */
    ghost predicate Valid()
      reads this
    {
      && IdsBelow(users, nextUserId) && KeyedBy(users, (u: User) => u.id) && UniqueUserPhones(users)
      && IdsBelow(volunteers, nextVolunteerId) && KeyedBy(volunteers, (v: Volunteer) => v.id)
      && UniqueVolunteerPhones(volunteers)
      && IdsBelow(rides, nextRideId) && KeyedBy(rides, (r: RideRequest) => r.id)
    }

    constructor ()
      ensures Valid()
      ensures users == map[] && volunteers == map[] && rides == map[]
    {
      users, volunteers, rides := map[], map[], map[];
      nextUserId, nextVolunteerId, nextRideId := FirstId, FirstId, FirstId;
    }

    // -------------------------------------------------------------------------
    // Users

    /** Inserts a user with a fresh id; a phone number already on file raises an integrity error. */
    method CreateUser(user: UserCreate, now: Timestamp) returns (r: Result<User, Exception>)
      requires Valid()
      modifies this
      ensures Valid()
      ensures volunteers == old(volunteers) && rides == old(rides)
      ensures nextVolunteerId == old(nextVolunteerId) && nextRideId == old(nextRideId)
      ensures r.Failure? <==> exists k :: k in old(users) && old(users)[k].phone == user.phone
      ensures r.Failure? ==> r.error == IntegrityError("phone") && users == old(users)
      ensures r.Success? ==>
        && r.value.id !in old(users)
        && users == old(users)[r.value.id := r.value]
        && r.value.name == user.name && r.value.phone == user.phone && r.value.address == user.address
        && r.value.userType == UserTypeToken(user.userType) && r.value.createdAt == now
    {
      if exists k :: k in users && users[k].phone == user.phone {
        return Failure(IntegrityError("phone"));
      }
      var row := User(nextUserId, user.name, user.phone, user.address, UserTypeToken(user.userType), now);
      users := users[nextUserId := row];
      nextUserId := nextUserId + 1;
      r := Success(row);
    }

    /** The user with the given id, or `None`. */
    method GetUser(userId: int) returns (r: Option<User>)
      requires Valid()
      ensures r.Some? <==> userId in users
      ensures r.Some? ==> r.value == users[userId] && r.value.id == userId
    {
      r := if userId in users then Some(users[userId]) else None;
    }

    /** Users in ascending id order, the first `skip` left out, at most `limit` of them. */
    method GetUsers(skip: nat := 0, limit: nat := DefaultLimit) returns (r: seq<User>)
      requires Valid()
      ensures r == Page(Rows(users, nextUserId), skip, limit)
      ensures |r| <= limit
      ensures forall i :: 0 <= i < |r| ==> r[i].id in users && users[r[i].id] == r[i]
      ensures forall i, j :: 0 <= i < j < |r| ==> r[i].id < r[j].id
    {
      var all: seq<User> := [];
      for id := FirstId to nextUserId
        invariant all == Rows(users, id)
      {
        if id in users {
          all := all + [users[id]];
        }
      }
      r := Page(all, skip, limit);
      PageKeyed(users, (u: User) => u.id, nextUserId, skip, limit);
    }

    /**
      Writes each entry of `data` onto the stored user, the user type as its token;
      a missing id gives `None`, and a phone number another user holds raises an
      integrity error. Either failure leaves the store unchanged.
     */
    method UpdateUser(userId: int, data: seq<UserEntry>) returns (r: Result<Option<User>, Exception>)
      requires Valid()
      modifies this
      ensures Valid()
      ensures volunteers == old(volunteers) && rides == old(rides)
      ensures nextUserId == old(nextUserId) && nextVolunteerId == old(nextVolunteerId) && nextRideId == old(nextRideId)
      ensures userId !in old(users) ==> r == Success(None) && users == old(users)
      ensures userId in old(users) ==>
        var row := ApplyUserEntries(old(users)[userId], data);
        if exists k :: k in old(users) && k != userId && old(users)[k].phone == row.phone
        then r == Failure(IntegrityError("phone")) && users == old(users)
        else r == Success(Some(row)) && users == old(users)[userId := row]
    {
      if userId !in users {
        return Success(None);
      }
      var row := users[userId];
      for i := 0 to |data|
        invariant row == ApplyUserEntries(users[userId], data[..i])
      {
        assert data[..i + 1][..i] == data[..i];
        row := SetUserAttr(row, data[i]);
      }
      assert data[..|data|] == data;
      if exists k :: k in users && k != userId && users[k].phone == row.phone {
        return Failure(IntegrityError("phone"));
      }
      users := users[userId := row];
      r := Success(Some(row));
    }

    /** Removes the user with the given id; true exactly when there was one. */
    method DeleteUser(userId: int) returns (deleted: bool)
      requires Valid()
      modifies this
      ensures Valid()
      ensures deleted <==> userId in old(users)
      ensures users == old(users) - {userId}
      ensures volunteers == old(volunteers) && rides == old(rides)
      ensures nextUserId == old(nextUserId) && nextVolunteerId == old(nextVolunteerId) && nextRideId == old(nextRideId)
    {
      deleted := userId in users;
      if deleted {
        users := users - {userId};
      }
    }

    // -------------------------------------------------------------------------
    // Volunteers

    /**
      Inserts a volunteer with a fresh id, the availability slots stored comma-joined;
      a phone number already on file raises an integrity error.
     */
    method CreateVolunteer(volunteer: VolunteerCreate, now: Timestamp) returns (r: Result<Volunteer, Exception>)
      requires Valid()
      modifies this
      ensures Valid()
      ensures users == old(users) && rides == old(rides)
      ensures nextUserId == old(nextUserId) && nextRideId == old(nextRideId)
      ensures r.Failure? <==> exists k :: k in old(volunteers) && old(volunteers)[k].phone == volunteer.phone
      ensures r.Failure? ==> r.error == IntegrityError("phone") && volunteers == old(volunteers)
      ensures r.Success? ==>
        && r.value.id !in old(volunteers)
        && volunteers == old(volunteers)[r.value.id := r.value]
        && r.value.name == volunteer.name && r.value.phone == volunteer.phone
        && r.value.carModel == volunteer.carModel && r.value.licensePlate == volunteer.licensePlate
        && r.value.availability == Availability.Join(volunteer.availability)
        && r.value.currentLocation == volunteer.currentLocation && r.value.createdAt == now
    {
      if exists k :: k in volunteers && volunteers[k].phone == volunteer.phone {
        return Failure(IntegrityError("phone"));
      }
      var row := Volunteer(nextVolunteerId, volunteer.name, volunteer.phone, volunteer.carModel,
                           volunteer.licensePlate, Availability.Join(volunteer.availability),
                           volunteer.currentLocation, now);
      volunteers := volunteers[nextVolunteerId := row];
      nextVolunteerId := nextVolunteerId + 1;
      r := Success(row);
    }

    /** The volunteer with the given id, or `None`. */
    method GetVolunteer(volunteerId: int) returns (r: Option<Volunteer>)
      requires Valid()
      ensures r.Some? <==> volunteerId in volunteers
      ensures r.Some? ==> r.value == volunteers[volunteerId] && r.value.id == volunteerId
    {
      r := if volunteerId in volunteers then Some(volunteers[volunteerId]) else None;
    }

    /** Volunteers in ascending id order, the first `skip` left out, at most `limit` of them. */
    method GetVolunteers(skip: nat := 0, limit: nat := DefaultLimit) returns (r: seq<Volunteer>)
      requires Valid()
      ensures r == Page(Rows(volunteers, nextVolunteerId), skip, limit)
      ensures |r| <= limit
      ensures forall i :: 0 <= i < |r| ==> r[i].id in volunteers && volunteers[r[i].id] == r[i]
      ensures forall i, j :: 0 <= i < j < |r| ==> r[i].id < r[j].id
    {
      var all: seq<Volunteer> := [];
      for id := FirstId to nextVolunteerId
        invariant all == Rows(volunteers, id)
      {
        if id in volunteers {
          all := all + [volunteers[id]];
        }
      }
      r := Page(all, skip, limit);
      PageKeyed(volunteers, (v: Volunteer) => v.id, nextVolunteerId, skip, limit);
    }

    /**
      Writes each entry of `data` onto the stored volunteer, a slot list comma-joined;
      a missing id gives `None`, and a phone number another volunteer holds raises an
      integrity error. Either failure leaves the store unchanged.
     */
    method UpdateVolunteer(volunteerId: int, data: seq<VolunteerEntry>) returns (r: Result<Option<Volunteer>, Exception>)
      requires Valid()
      modifies this
      ensures Valid()
      ensures users == old(users) && rides == old(rides)
      ensures nextUserId == old(nextUserId) && nextVolunteerId == old(nextVolunteerId) && nextRideId == old(nextRideId)
      ensures volunteerId !in old(volunteers) ==> r == Success(None) && volunteers == old(volunteers)
      ensures volunteerId in old(volunteers) ==>
        var row := ApplyVolunteerEntries(old(volunteers)[volunteerId], data);
        if exists k :: k in old(volunteers) && k != volunteerId && old(volunteers)[k].phone == row.phone
        then r == Failure(IntegrityError("phone")) && volunteers == old(volunteers)
        else r == Success(Some(row)) && volunteers == old(volunteers)[volunteerId := row]
    {
      if volunteerId !in volunteers {
        return Success(None);
      }
      var row := volunteers[volunteerId];
      for i := 0 to |data|
        invariant row == ApplyVolunteerEntries(volunteers[volunteerId], data[..i])
      {
        assert data[..i + 1][..i] == data[..i];
        row := SetVolunteerAttr(row, data[i]);
      }
      assert data[..|data|] == data;
      if exists k :: k in volunteers && k != volunteerId && volunteers[k].phone == row.phone {
        return Failure(IntegrityError("phone"));
      }
      volunteers := volunteers[volunteerId := row];
      r := Success(Some(row));
    }

    /** Removes the volunteer with the given id; true exactly when there was one. */
    method DeleteVolunteer(volunteerId: int) returns (deleted: bool)
      requires Valid()
      modifies this
      ensures Valid()
      ensures deleted <==> volunteerId in old(volunteers)
      ensures volunteers == old(volunteers) - {volunteerId}
      ensures users == old(users) && rides == old(rides)
      ensures nextUserId == old(nextUserId) && nextVolunteerId == old(nextVolunteerId) && nextRideId == old(nextRideId)
    {
      deleted := volunteerId in volunteers;
      if deleted {
        volunteers := volunteers - {volunteerId};
      }
    }

    // -------------------------------------------------------------------------
    // Ride requests

    /**
      Inserts a pending ride request with a fresh id, the request fields copied from
      the payload and the route estimate stored as given.
     */
    method CreateRideRequest(rideRequest: RideRequestCreate, distanceKm: real, estimatedDurationMinutes: real,
                             now: Timestamp) returns (r: RideRequest)
      requires Valid()
      modifies this
      ensures Valid()
      ensures users == old(users) && volunteers == old(volunteers)
      ensures nextUserId == old(nextUserId) && nextVolunteerId == old(nextVolunteerId)
      ensures r.id !in old(rides) && rides == old(rides)[r.id := r]
      ensures RequestOf(r) == rideRequest && r.status == Pending && r.createdAt == now
      ensures r.assignedVolunteerId.None? && r.assignedTime.None? && r.completedTime.None?
      ensures r.distanceKm == Some(distanceKm) && r.estimatedDurationMinutes == Some(estimatedDurationMinutes)
    {
      r := RideRequestInDB(nextRideId, rideRequest, now).(distanceKm := Some(distanceKm),
                                                         estimatedDurationMinutes := Some(estimatedDurationMinutes));
      rides := rides[nextRideId := r];
      nextRideId := nextRideId + 1;
    }

    /** The ride request with the given id, or `None`. */
    method GetRideRequest(rideRequestId: int) returns (r: Option<RideRequest>)
      requires Valid()
      ensures r.Some? <==> rideRequestId in rides
      ensures r.Some? ==> r.value == rides[rideRequestId] && r.value.id == rideRequestId
    {
      r := if rideRequestId in rides then Some(rides[rideRequestId]) else None;
    }

    /**
      Ride requests with the given status (all of them when none is given) in
      ascending id order, the first `skip` matches left out, at most `limit` of them.
     */
    method GetRideRequests(status: Option<RideStatus> := None, skip: nat := 0, limit: nat := DefaultLimit)
      returns (r: seq<RideRequest>)
      requires Valid()
      ensures r == Page(Rows(WithStatus(rides, status), nextRideId), skip, limit)
      ensures |r| <= limit
      ensures forall i :: 0 <= i < |r| ==> r[i].id in rides && rides[r[i].id] == r[i]
      ensures status.Some? ==> forall i :: 0 <= i < |r| ==> r[i].status == status.value
      ensures forall i, j :: 0 <= i < j < |r| ==> r[i].id < r[j].id
    {
      var all: seq<RideRequest> := [];
      for id := FirstId to nextRideId
        invariant all == Rows(WithStatus(rides, status), id)
      {
        if id in rides && (status.None? || rides[id].status == status.value) {
          all := all + [rides[id]];
        }
      }
      r := Page(all, skip, limit);
      PageKeyed(WithStatus(rides, status), (x: RideRequest) => x.id, nextRideId, skip, limit);
    }

    /**
      Writes the fields of `data` that carry a value onto the stored ride request,
      one field at a time; a missing id gives `None` and changes nothing.
     */
    method UpdateRideRequest(rideRequestId: int, data: RideUpdate) returns (r: Option<RideRequest>)
      requires Valid()
      modifies this
      ensures Valid()
      ensures users == old(users) && volunteers == old(volunteers)
      ensures nextUserId == old(nextUserId) && nextVolunteerId == old(nextVolunteerId) && nextRideId == old(nextRideId)
      ensures rideRequestId !in old(rides) ==> r.None? && rides == old(rides)
      ensures rideRequestId in old(rides) ==>
        && r == Some(PatchRide(old(rides)[rideRequestId], data))
        && rides == old(rides)[rideRequestId := r.value]
    {
      if rideRequestId !in rides {
        return None;
      }
      var row := rides[rideRequestId];
      var updateData := RideUpdateEntries(data);
      for i := 0 to |updateData|
        invariant row == ApplyRideEntries(rides[rideRequestId], updateData[..i])
      {
        assert updateData[..i + 1][..i] == updateData[..i];
        row := SetRideAttr(row, updateData[i]);
      }
      assert updateData[..|updateData|] == updateData;
      RideEntriesArePatch(rides[rideRequestId], data);
      rides := rides[rideRequestId := row];
      r := Some(row);
    }

    /** Removes the ride request with the given id; true exactly when there was one. */
    method DeleteRideRequest(rideRequestId: int) returns (deleted: bool)
      requires Valid()
      modifies this
      ensures Valid()
      ensures deleted <==> rideRequestId in old(rides)
      ensures rides == old(rides) - {rideRequestId}
      ensures users == old(users) && volunteers == old(volunteers)
      ensures nextUserId == old(nextUserId) && nextVolunteerId == old(nextVolunteerId) && nextRideId == old(nextRideId)
    {
      deleted := rideRequestId in rides;
      if deleted {
        rides := rides - {rideRequestId};
      }
    }
  }

  /**
    The ride-request update as the code is written: the record it writes to is
    never looked up, so the first use of that name raises, whatever the id and the
    update, and nothing reaches the store.
   */
  function UpdateRideRequestAsWritten(rides: map<int, RideRequest>, rideRequestId: int, data: RideUpdate)
    : (r: Result<Option<RideRequest>, Exception>)
    ensures r.Failure? && r.error.NameError?
  {
    Failure(NameError("db_ride_request"))
  }

  /**
    As written, updating a stored ride never returns the patched record, which the
    corrected `Database.UpdateRideRequest` does.
   */
  lemma UpdateRideRequestAsWrittenNeverPatches(rides: map<int, RideRequest>, rideRequestId: int, data: RideUpdate)
    requires rideRequestId in rides
    ensures UpdateRideRequestAsWritten(rides, rideRequestId, data) != Success(Some(PatchRide(rides[rideRequestId], data)))
  {
  }
}
