/**
  The scheduling service: requesting a ride, the three guarded lifecycle
  transitions as read-modify-write operations on the store, and the choice of a
  volunteer for a ride. The service object holds no state of its own, so its
  operations are methods over the store; the route estimate and the current
  time are their inputs.
 */
module Services {
  import opened Wrappers
  import opened Models
  import opened Query
  import opened Crud
  import opened Lifecycle

  /** What the route estimator returns for a pickup and a destination. */
  datatype RouteEstimate = RouteEstimate(distanceKm: real, estimatedDurationMinutes: real)

  /** Stores a new pending ride request carrying the estimate exactly as given. */
  method RequestRide(db: Database, rideRequestData: RideRequestCreate, route: RouteEstimate, now: Timestamp)
    returns (r: RideRequest)
    requires db.Valid()
    modifies db
    ensures db.Valid()
    ensures db.users == old(db.users) && db.volunteers == old(db.volunteers)
    ensures db.nextUserId == old(db.nextUserId) && db.nextVolunteerId == old(db.nextVolunteerId)
    ensures r.id !in old(db.rides) && db.rides == old(db.rides)[r.id := r]
    ensures RequestOf(r) == rideRequestData && r.status == Pending && Consistent(r)
    ensures r.distanceKm == Some(route.distanceKm)
    ensures r.estimatedDurationMinutes == Some(route.estimatedDurationMinutes)
  {
    r := db.CreateRideRequest(rideRequestData, route.distanceKm, route.estimatedDurationMinutes, now);
  }

  /**
    Assigns a volunteer to a ride: succeeds only when both exist and the ride is
    pending, and then only that ride changes; otherwise `None` and no change.
   */
  method AssignVolunteerToRide(db: Database, rideRequestId: int, volunteerId: int, now: Timestamp)
    returns (r: Option<RideRequest>)
    requires db.Valid()
    modifies db
    ensures db.Valid()
    ensures db.users == old(db.users) && db.volunteers == old(db.volunteers)
    ensures db.nextUserId == old(db.nextUserId) && db.nextVolunteerId == old(db.nextVolunteerId)
    ensures db.nextRideId == old(db.nextRideId)
    ensures r.Some? <==>
      rideRequestId in old(db.rides) && volunteerId in old(db.volunteers) && old(db.rides)[rideRequestId].status == Pending
    ensures r.Some? ==>
      && r == Assign(old(db.rides)[rideRequestId], volunteerId, now)
      && db.rides == old(db.rides)[rideRequestId := r.value]
    ensures r.None? ==> db.rides == old(db.rides)
    ensures rideRequestId in old(db.rides) ==>
      var found := if volunteerId in old(db.volunteers) then Some(volunteerId) else None;
      db.rides[rideRequestId] == Step(old(db.rides)[rideRequestId], AssignEvent(found, now))
  {
    var rideRequest := db.GetRideRequest(rideRequestId);
    var volunteer := db.GetVolunteer(volunteerId);
    if rideRequest.None? || volunteer.None? {
      return None;
    }
    if rideRequest.value.status != Pending {
      return None;
    }
    var updateData := RideUpdate(Some(Assigned), Some(volunteer.value.id), Some(now), None);
    r := db.UpdateRideRequest(rideRequestId, updateData);
  }

  /**
    Completes a ride: succeeds only for an assigned or in-progress ride, and then
    only that ride changes; otherwise `None` and no change.
   */
  method CompleteRide(db: Database, rideRequestId: int, now: Timestamp) returns (r: Option<RideRequest>)
    requires db.Valid()
    modifies db
    ensures db.Valid()
    ensures db.users == old(db.users) && db.volunteers == old(db.volunteers)
    ensures db.nextUserId == old(db.nextUserId) && db.nextVolunteerId == old(db.nextVolunteerId)
    ensures db.nextRideId == old(db.nextRideId)
    ensures r.Some? <==>
      rideRequestId in old(db.rides) && old(db.rides)[rideRequestId].status in {Assigned, InProgress}
    ensures r.Some? ==>
      && r == Complete(old(db.rides)[rideRequestId], now)
      && db.rides == old(db.rides)[rideRequestId := r.value]
    ensures r.None? ==> db.rides == old(db.rides)
    ensures rideRequestId in old(db.rides) ==>
      db.rides[rideRequestId] == Step(old(db.rides)[rideRequestId], CompleteEvent(now))
  {
    var rideRequest := db.GetRideRequest(rideRequestId);
    if rideRequest.None? {
      return None;
    }
    if rideRequest.value.status != Assigned && rideRequest.value.status != InProgress {
      return None;
    }
    var updateData := RideUpdate(Some(Completed), None, None, Some(now));
    r := db.UpdateRideRequest(rideRequestId, updateData);
  }

  /**
    Cancels a ride: refused (`None`, no change) for a missing or completed ride;
    otherwise only the status of that ride becomes cancelled.
   */
  method CancelRide(db: Database, rideRequestId: int) returns (r: Option<RideRequest>)
    requires db.Valid()
    modifies db
    ensures db.Valid()
    ensures db.users == old(db.users) && db.volunteers == old(db.volunteers)
    ensures db.nextUserId == old(db.nextUserId) && db.nextVolunteerId == old(db.nextVolunteerId)
    ensures db.nextRideId == old(db.nextRideId)
    ensures r.Some? <==> rideRequestId in old(db.rides) && old(db.rides)[rideRequestId].status != Completed
    ensures r.Some? ==>
      && r == Cancel(old(db.rides)[rideRequestId])
      && db.rides == old(db.rides)[rideRequestId := r.value]
    ensures r.None? ==> db.rides == old(db.rides)
    ensures rideRequestId in old(db.rides) ==>
      db.rides[rideRequestId] == Step(old(db.rides)[rideRequestId], CancelEvent)
  {
    var rideRequest := db.GetRideRequest(rideRequestId);
    if rideRequest.None? {
      return None;
    }
    if rideRequest.value.status == Completed {
      return None;
    }
    var updateData := RideUpdate(Some(Cancelled), None, None, None);
    r := db.UpdateRideRequest(rideRequestId, updateData);
  }

  /**
    The volunteer chosen for a ride: the first of the default volunteer listing,
    which is the volunteer with the smallest id; `None` exactly when there are no
    volunteers. Neither the ride nor availability nor location is consulted.
   */
  method FindBestVolunteer(db: Database, rideRequest: RideRequest) returns (r: Option<Volunteer>)
    requires db.Valid()
    ensures var listed := Page(Rows(db.volunteers, db.nextVolunteerId), 0, DefaultLimit);
      r == if listed == [] then None else Some(listed[0])
    ensures r.None? <==> db.volunteers == map[]
    ensures r.Some? ==> r.value.id in db.volunteers && db.volunteers[r.value.id] == r.value
    ensures r.Some? ==> forall k :: k in db.volunteers ==> r.value.id <= k
  {
    var availableVolunteers := db.GetVolunteers();
    RowsFirst(db.volunteers, db.nextVolunteerId);
    if |availableVolunteers| > 0 {
      r := Some(availableVolunteers[0]);
    } else {
      assert forall k :: k !in db.volunteers;
      assert db.volunteers.Keys == {};
      r := None;
    }
  }
}
