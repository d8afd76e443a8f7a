/**
  The ride-request lifecycle: the guard and the record change of each of the
  three transitions (assign, complete, cancel), a ride's history as a sequence of
  transition attempts, and what such histories can and cannot do.
 */
module Lifecycle {
  import opened Wrappers
  import opened Models
  import opened Patching

  /**
    Assignment: only a pending ride can be assigned; it becomes assigned to the
    volunteer at `now`, and no other field changes.
   */
  function Assign(ride: RideRequest, volunteerId: int, now: Timestamp): (r: Option<RideRequest>)
    ensures r.Some? <==> ride.status == Pending
    ensures r.Some? ==>
      r.value == ride.(status := Assigned, assignedVolunteerId := Some(volunteerId), assignedTime := Some(now))
  {
    if ride.status != Pending then None
    else Some(PatchRide(ride, RideUpdate(Some(Assigned), Some(volunteerId), Some(now), None)))
  }

  /**
    Completion: only an assigned or in-progress ride can be completed; it becomes
    completed at `now`, and no other field changes.
   */
  function Complete(ride: RideRequest, now: Timestamp): (r: Option<RideRequest>)
    ensures r.Some? <==> ride.status == Assigned || ride.status == InProgress
    ensures r.Some? ==> r.value == ride.(status := Completed, completedTime := Some(now))
  {
    if ride.status != Assigned && ride.status != InProgress then None
    else Some(PatchRide(ride, RideUpdate(Some(Completed), None, None, Some(now))))
  }

  /**
    Cancellation: every ride but a completed one can be cancelled, a cancelled one
    included; only the status changes, so an assignment is kept.
   */
  function Cancel(ride: RideRequest): (r: Option<RideRequest>)
    ensures r.Some? <==> ride.status != Completed
    ensures r.Some? ==> r.value == ride.(status := Cancelled)
  {
    if ride.status == Completed then None
    else Some(PatchRide(ride, RideUpdate(Some(Cancelled), None, None, None)))
  }

  /** Cancelling twice is the same as cancelling once. */
  lemma CancelIdempotent(ride: RideRequest)
    requires ride.status != Completed
    ensures Cancel(Cancel(ride).value) == Cancel(ride)
  {
  }

  /**
    An attempted transition on one ride. An assignment carries the volunteer the
    lookup found, `None` when the volunteer id is unknown.
   */
  datatype Event =
    | AssignEvent(volunteer: Option<int>, at: Timestamp)
    | CompleteEvent(at: Timestamp)
    | CancelEvent

  /** The ride after an attempt: the transition's record, or the ride unchanged when it is refused. */
  function Step(ride: RideRequest, e: Event): (r: RideRequest)
    ensures e.AssignEvent? && (e.volunteer.None? || ride.status != Pending) ==> r == ride
    ensures e.CompleteEvent? && ride.status != Assigned && ride.status != InProgress ==> r == ride
    ensures e.CancelEvent? && ride.status == Completed ==> r == ride
    ensures Reachable(ride.status, r.status)
  {
    var outcome :=
      match e
      case AssignEvent(v, at) => if v.Some? then Assign(ride, v.value, at) else None
      case CompleteEvent(at) => Complete(ride, at)
      case CancelEvent => Cancel(ride);
    outcome.GetOr(ride)
  }

  /** The ride after a sequence of attempts, first to last. */
  function Run(ride: RideRequest, es: seq<Event>): (r: RideRequest)
    ensures Reachable(ride.status, r.status)
    decreases |es|
  {
    if es == [] then ride else Run(Step(ride, es[0]), es[1..])
  }

  /** The statuses a ride in status `a` can be in after any number of attempts. */
  predicate Reachable(a: RideStatus, b: RideStatus) {
    a == b ||
    match a
    case Pending => b == Assigned || b == Completed || b == Cancelled
    case Assigned => b == Completed || b == Cancelled
    case InProgress => b == Completed || b == Cancelled
    case Completed => false
    case Cancelled => false
  }

  /**
    What every record the lifecycle produces satisfies: volunteer and assignment
    time are set together, the completion time is set exactly for a completed ride,
    a pending ride has no volunteer, and an assigned, in-progress or completed ride
    has one.
   */
  predicate Consistent(r: RideRequest) {
    && r.assignedVolunteerId.Some? == r.assignedTime.Some?
    && r.completedTime.Some? == (r.status == Completed)
    && (r.status == Pending ==> r.assignedVolunteerId.None?)
    && (r.status == Assigned || r.status == InProgress || r.status == Completed ==> r.assignedVolunteerId.Some?)
  }

  /** A freshly created ride request is consistent. */
  lemma NewRideConsistent(id: int, request: RideRequestCreate, createdAt: Timestamp, distanceKm: real, minutes: real)
    ensures Consistent(RideRequestInDB(id, request, createdAt).(distanceKm := Some(distanceKm),
                                                                estimatedDurationMinutes := Some(minutes)))
  {
  }

  /** A completed ride never changes again. */
  lemma {:induction false} CompletedIsFinal(ride: RideRequest, es: seq<Event>)
    requires ride.status == Completed
    ensures Run(ride, es) == ride
    decreases |es|
  {
    if es != [] {
      assert Step(ride, es[0]) == ride;
      CompletedIsFinal(ride, es[1..]);
    }
  }

  /** A cancelled ride never changes again: a repeated cancellation rewrites the same record. */
  lemma {:induction false} CancelledIsFinal(ride: RideRequest, es: seq<Event>)
    requires ride.status == Cancelled
    ensures Run(ride, es) == ride
    decreases |es|
  {
    if es != [] {
      assert Step(ride, es[0]) == ride;
      CancelledIsFinal(ride, es[1..]);
    }
  }

  /**
    Every history moves the status only along the transitions; in particular no
    history enters `InProgress`, and none leaves `Completed` or `Cancelled`.
   */
  lemma {:induction false} RunReachable(ride: RideRequest, es: seq<Event>)
    ensures Reachable(ride.status, Run(ride, es).status)
    ensures ride.status != InProgress ==> Run(ride, es).status != InProgress
    decreases |es|
  {
    if es != [] {
      var next := Step(ride, es[0]);
      assert Reachable(ride.status, next.status);
      RunReachable(next, es[1..]);
    }
  }

  /** Every history keeps a consistent ride consistent. */
  lemma {:induction false} RunConsistent(ride: RideRequest, es: seq<Event>)
    requires Consistent(ride)
    ensures Consistent(Run(ride, es))
    decreases |es|
  {
    if es != [] {
      RunConsistent(Step(ride, es[0]), es[1..]);
    }
  }

  /**
    Once a consistent ride has a volunteer, every history keeps that volunteer and
    that assignment time: a ride is never assigned twice.
   */
  lemma {:induction false} AssignmentIsFinal(ride: RideRequest, es: seq<Event>)
    requires Consistent(ride) && ride.assignedVolunteerId.Some?
    ensures Run(ride, es).assignedVolunteerId == ride.assignedVolunteerId
    ensures Run(ride, es).assignedTime == ride.assignedTime
    decreases |es|
  {
    if es != [] {
      AssignmentIsFinal(Step(ride, es[0]), es[1..]);
    }
  }

  /**
    No history touches the request itself: id, requester, addresses, requested time,
    special needs, creation time, distance and duration stay as created.
   */
  lemma {:induction false} RunKeepsRequest(ride: RideRequest, es: seq<Event>)
    ensures var after := Run(ride, es);
      && RequestOf(after) == RequestOf(ride) && after.id == ride.id && after.createdAt == ride.createdAt
      && after.distanceKm == ride.distanceKm && after.estimatedDurationMinutes == ride.estimatedDurationMinutes
    decreases |es|
  {
    if es != [] {
      RunKeepsRequest(Step(ride, es[0]), es[1..]);
    }
  }
}
