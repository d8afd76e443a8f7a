/**
  The field-by-field updates the store performs: each update walks a list of
  (field, value) entries and sets one attribute of the stored record per entry.
  For each record kind this module gives the single-field write, the effect of
  a whole entry list (applied left to right), and a reference statement of that
  effect that does not mention the order of the writes.
 */
module Patching {
  import opened Wrappers
  import opened Models
  import Availability

  // ---------------------------------------------------------------------------
  // Users: the entries of the dictionary handed to the user update

  datatype UserKey = NameKey | PhoneKey | AddressKey | UserTypeKey

  datatype UserEntry =
    | SetName(name: string)
    | SetPhone(phone: string)
    | SetAddress(address: string)
    | SetUserType(userType: UserType)
  {
    function Key(): UserKey {
      match this
      case SetName(_) => NameKey
      case SetPhone(_) => PhoneKey
      case SetAddress(_) => AddressKey
      case SetUserType(_) => UserTypeKey
    }
  }

  /** The keys an entry list mentions. */
  function UserKeys(es: seq<UserEntry>): set<UserKey> {
    set i | 0 <= i < |es| :: es[i].Key()
  }

  /** A dictionary has each key once. */
  ghost predicate DistinctUserKeys(es: seq<UserEntry>) {
    forall i, j :: 0 <= i < j < |es| ==> es[i].Key() != es[j].Key()
  }

  /** `u` holds the value the entry carries; the user type is held as its token. */
  predicate UserEntryHolds(u: User, e: UserEntry) {
    match e
    case SetName(n) => u.name == n
    case SetPhone(p) => u.phone == p
    case SetAddress(a) => u.address == a
    case SetUserType(t) => u.userType == UserTypeToken(t)
  }

  /** `u` and `v` agree on the field that `k` names. */
  predicate UserFieldAgrees(u: User, v: User, k: UserKey) {
    match k
    case NameKey => u.name == v.name
    case PhoneKey => u.phone == v.phone
    case AddressKey => u.address == v.address
    case UserTypeKey => u.userType == v.userType
  }

  /** One attribute write of the user update. */
  function SetUserAttr(u: User, e: UserEntry): (v: User)
    ensures UserEntryHolds(v, e)
    ensures forall k :: k != e.Key() ==> UserFieldAgrees(v, u, k)
    ensures v.id == u.id && v.createdAt == u.createdAt
  {
    match e
    case SetName(n) => u.(name := n)
    case SetPhone(p) => u.(phone := p)
    case SetAddress(a) => u.(address := a)
    case SetUserType(t) => u.(userType := UserTypeToken(t))
  }

  /** The entries written in order, first to last. */
  function ApplyUserEntries(u: User, es: seq<UserEntry>): (v: User)
    ensures v.id == u.id && v.createdAt == u.createdAt
    decreases |es|
  {
    if es == [] then u else SetUserAttr(ApplyUserEntries(u, es[..|es| - 1]), es[|es| - 1])
  }

  /**
    A user update writes every key of the dictionary and leaves every other field
    as it was.
   */
  lemma {:induction false} UserEntriesWritten(u: User, es: seq<UserEntry>)
    requires DistinctUserKeys(es)
    ensures var v := ApplyUserEntries(u, es);
      && (forall i :: 0 <= i < |es| ==> UserEntryHolds(v, es[i]))
      && (forall k :: k !in UserKeys(es) ==> UserFieldAgrees(v, u, k))
  {
    if es != [] {
      var init, last := es[..|es| - 1], es[|es| - 1];
      UserEntriesWritten(u, init);
      var w := ApplyUserEntries(u, init);
      var v := SetUserAttr(w, last);
      forall i | 0 <= i < |es| ensures UserEntryHolds(v, es[i]) {
        if i < |es| - 1 {
          assert es[i] == init[i];
          assert UserFieldAgrees(v, w, es[i].Key());
        }
      }
      forall k | k !in UserKeys(es) ensures UserFieldAgrees(v, u, k) {
        assert last.Key() in UserKeys(es);
        assert forall i :: 0 <= i < |init| ==> init[i] == es[i];
        assert k !in UserKeys(init);
      }
    }
  }

  // ---------------------------------------------------------------------------
  // Volunteers: the entries of the dictionary handed to the volunteer update

  datatype VolunteerKey = VNameKey | VPhoneKey | CarModelKey | LicensePlateKey | AvailabilityKey | LocationKey

  datatype VolunteerEntry =
    | SetVolunteerName(name: string)
    | SetVolunteerPhone(phone: string)
    | SetCarModel(carModel: Option<string>)
    | SetLicensePlate(licensePlate: Option<string>)
    | SetAvailability(slots: seq<string>)
    | SetCurrentLocation(location: Option<string>)
  {
    function Key(): VolunteerKey {
      match this
      case SetVolunteerName(_) => VNameKey
      case SetVolunteerPhone(_) => VPhoneKey
      case SetCarModel(_) => CarModelKey
      case SetLicensePlate(_) => LicensePlateKey
      case SetAvailability(_) => AvailabilityKey
      case SetCurrentLocation(_) => LocationKey
    }
  }

  function VolunteerKeys(es: seq<VolunteerEntry>): set<VolunteerKey> {
    set i | 0 <= i < |es| :: es[i].Key()
  }

  ghost predicate DistinctVolunteerKeys(es: seq<VolunteerEntry>) {
    forall i, j :: 0 <= i < j < |es| ==> es[i].Key() != es[j].Key()
  }

  /** `v` holds the value the entry carries; availability is held comma-joined. */
  predicate VolunteerEntryHolds(v: Volunteer, e: VolunteerEntry) {
    match e
    case SetVolunteerName(n) => v.name == n
    case SetVolunteerPhone(p) => v.phone == p
    case SetCarModel(c) => v.carModel == c
    case SetLicensePlate(l) => v.licensePlate == l
    case SetAvailability(slots) => v.availability == Availability.Join(slots)
    case SetCurrentLocation(l) => v.currentLocation == l
  }

  predicate VolunteerFieldAgrees(v: Volunteer, w: Volunteer, k: VolunteerKey) {
    match k
    case VNameKey => v.name == w.name
    case VPhoneKey => v.phone == w.phone
    case CarModelKey => v.carModel == w.carModel
    case LicensePlateKey => v.licensePlate == w.licensePlate
    case AvailabilityKey => v.availability == w.availability
    case LocationKey => v.currentLocation == w.currentLocation
  }

  /** One attribute write of the volunteer update; a slot list is stored joined. */
  function SetVolunteerAttr(v: Volunteer, e: VolunteerEntry): (w: Volunteer)
    ensures VolunteerEntryHolds(w, e)
    ensures forall k :: k != e.Key() ==> VolunteerFieldAgrees(w, v, k)
    ensures w.id == v.id && w.createdAt == v.createdAt
  {
    match e
    case SetVolunteerName(n) => v.(name := n)
    case SetVolunteerPhone(p) => v.(phone := p)
    case SetCarModel(c) => v.(carModel := c)
    case SetLicensePlate(l) => v.(licensePlate := l)
    case SetAvailability(slots) => v.(availability := Availability.Join(slots))
    case SetCurrentLocation(l) => v.(currentLocation := l)
  }

  function ApplyVolunteerEntries(v: Volunteer, es: seq<VolunteerEntry>): (w: Volunteer)
    ensures w.id == v.id && w.createdAt == v.createdAt
    decreases |es|
  {
    if es == [] then v else SetVolunteerAttr(ApplyVolunteerEntries(v, es[..|es| - 1]), es[|es| - 1])
  }

  /**
    A volunteer update writes every key of the dictionary and leaves every other
    field as it was.
   */
  lemma {:induction false} VolunteerEntriesWritten(v: Volunteer, es: seq<VolunteerEntry>)
    requires DistinctVolunteerKeys(es)
    ensures var w := ApplyVolunteerEntries(v, es);
      && (forall i :: 0 <= i < |es| ==> VolunteerEntryHolds(w, es[i]))
      && (forall k :: k !in VolunteerKeys(es) ==> VolunteerFieldAgrees(w, v, k))
  {
    if es != [] {
      var init, last := es[..|es| - 1], es[|es| - 1];
      VolunteerEntriesWritten(v, init);
      var u := ApplyVolunteerEntries(v, init);
      var w := SetVolunteerAttr(u, last);
      forall i | 0 <= i < |es| ensures VolunteerEntryHolds(w, es[i]) {
        if i < |es| - 1 {
          assert es[i] == init[i];
          assert VolunteerFieldAgrees(w, u, es[i].Key());
        }
      }
      forall k | k !in VolunteerKeys(es) ensures VolunteerFieldAgrees(w, v, k) {
        assert last.Key() in VolunteerKeys(es);
        assert forall i :: 0 <= i < |init| ==> init[i] == es[i];
        assert k !in VolunteerKeys(init);
      }
    }
  }

  // ---------------------------------------------------------------------------
  // Ride requests: the ride update, filtered to the fields that carry a value

  datatype RideEntry =
    | SetStatus(status: RideStatus)
    | SetAssignedVolunteer(volunteerId: int)
    | SetAssignedTime(assignedTime: Timestamp)
    | SetCompletedTime(completedTime: Timestamp)

  function Present<T>(o: Option<T>, entry: T -> RideEntry): seq<RideEntry> {
    if o.Some? then [entry(o.value)] else []
  }

  /**
    The items of the update that are set and not `None`, in the order the update
    declares its fields.
   */
  function RideUpdateEntries(u: RideUpdate): (es: seq<RideEntry>)
    ensures |es| <= 4
    ensures u == EmptyRideUpdate ==> es == []
  {
    Present(u.status, s => SetStatus(s))
    + Present(u.assignedVolunteerId, v => SetAssignedVolunteer(v))
    + Present(u.assignedTime, t => SetAssignedTime(t))
    + Present(u.completedTime, t => SetCompletedTime(t))
  }

  /** `r` holds the value the entry carries. */
  predicate RideEntryHolds(r: RideRequest, e: RideEntry) {
    match e
    case SetStatus(s) => r.status == s
    case SetAssignedVolunteer(v) => r.assignedVolunteerId == Some(v)
    case SetAssignedTime(t) => r.assignedTime == Some(t)
    case SetCompletedTime(t) => r.completedTime == Some(t)
  }

  /** One attribute write of the ride update; the status is stored as given. */
  function SetRideAttr(r: RideRequest, e: RideEntry): (p: RideRequest)
    ensures RideEntryHolds(p, e)
    ensures !e.SetStatus? ==> p.status == r.status
    ensures !e.SetAssignedVolunteer? ==> p.assignedVolunteerId == r.assignedVolunteerId
    ensures !e.SetAssignedTime? ==> p.assignedTime == r.assignedTime
    ensures !e.SetCompletedTime? ==> p.completedTime == r.completedTime
    ensures RequestOf(p) == RequestOf(r) && p.id == r.id && p.createdAt == r.createdAt
    ensures p.distanceKm == r.distanceKm && p.estimatedDurationMinutes == r.estimatedDurationMinutes
  {
    match e
    case SetStatus(s) => r.(status := s)
    case SetAssignedVolunteer(v) => r.(assignedVolunteerId := Some(v))
    case SetAssignedTime(t) => r.(assignedTime := Some(t))
    case SetCompletedTime(t) => r.(completedTime := Some(t))
  }

  /**
    The entries written in order, first to last: the request itself, id, creation
    time and estimate never change, and a field that holds a value keeps one.
   */
  function ApplyRideEntries(r: RideRequest, es: seq<RideEntry>): (p: RideRequest)
    ensures RequestOf(p) == RequestOf(r) && p.id == r.id && p.createdAt == r.createdAt
    ensures p.distanceKm == r.distanceKm && p.estimatedDurationMinutes == r.estimatedDurationMinutes
    ensures r.assignedVolunteerId.Some? ==> p.assignedVolunteerId.Some?
    ensures r.assignedTime.Some? ==> p.assignedTime.Some?
    ensures r.completedTime.Some? ==> p.completedTime.Some?
    decreases |es|
  {
    if es == [] then r else SetRideAttr(ApplyRideEntries(r, es[..|es| - 1]), es[|es| - 1])
  }

  /**
    Reference statement of a ride update: each field of the update that carries a
    value replaces the stored one, every absent field keeps the stored value.
   */
  function PatchRide(r: RideRequest, u: RideUpdate): (p: RideRequest)
    ensures p.status == u.status.GetOr(r.status)
    ensures p.assignedVolunteerId == if u.assignedVolunteerId.Some? then u.assignedVolunteerId else r.assignedVolunteerId
    ensures p.assignedTime == if u.assignedTime.Some? then u.assignedTime else r.assignedTime
    ensures p.completedTime == if u.completedTime.Some? then u.completedTime else r.completedTime
    ensures RequestOf(p) == RequestOf(r)
    ensures p.id == r.id && p.createdAt == r.createdAt
    ensures p.distanceKm == r.distanceKm && p.estimatedDurationMinutes == r.estimatedDurationMinutes
  {
    r.(status := u.status.GetOr(r.status),
       assignedVolunteerId := if u.assignedVolunteerId.Some? then u.assignedVolunteerId else r.assignedVolunteerId,
       assignedTime := if u.assignedTime.Some? then u.assignedTime else r.assignedTime,
       completedTime := if u.completedTime.Some? then u.completedTime else r.completedTime)
  }

  lemma {:induction false} ApplyRideEntriesConcat(r: RideRequest, a: seq<RideEntry>, b: seq<RideEntry>)
    ensures ApplyRideEntries(r, a + b) == ApplyRideEntries(ApplyRideEntries(r, a), b)
    decreases |b|
  {
    if b != [] {
      var b' := b[..|b| - 1];
      assert (a + b)[..|a + b| - 1] == a + b';
      assert (a + b)[|a + b| - 1] == b[|b| - 1];
      ApplyRideEntriesConcat(r, a, b');
    } else {
      assert a + b == a;
    }
  }

  lemma ApplyPresent<T>(r: RideRequest, o: Option<T>, entry: T -> RideEntry)
    ensures ApplyRideEntries(r, Present(o, entry)) == if o.Some? then SetRideAttr(r, entry(o.value)) else r
  {
    if o.Some? {
      assert Present(o, entry)[..0] == [];
    }
  }

  /** Writing the entries one at a time gives exactly the reference patch. */
  lemma {:induction false} RideEntriesArePatch(r: RideRequest, u: RideUpdate)
    ensures ApplyRideEntries(r, RideUpdateEntries(u)) == PatchRide(r, u)
  {
    var e1 := Present(u.status, s => SetStatus(s));
    var e2 := Present(u.assignedVolunteerId, v => SetAssignedVolunteer(v));
    var e3 := Present(u.assignedTime, t => SetAssignedTime(t));
    var e4 := Present(u.completedTime, t => SetCompletedTime(t));
    assert RideUpdateEntries(u) == e1 + e2 + e3 + e4;
    ApplyRideEntriesConcat(r, e1 + e2 + e3, e4);
    ApplyRideEntriesConcat(r, e1 + e2, e3);
    ApplyRideEntriesConcat(r, e1, e2);
    var r1 := ApplyRideEntries(r, e1);
    var r2 := ApplyRideEntries(r1, e2);
    var r3 := ApplyRideEntries(r2, e3);
    ApplyPresent(r, u.status, s => SetStatus(s));
    ApplyPresent(r1, u.assignedVolunteerId, v => SetAssignedVolunteer(v));
    ApplyPresent(r2, u.assignedTime, t => SetAssignedTime(t));
    ApplyPresent(r3, u.completedTime, t => SetCompletedTime(t));
  }

  /**
    Properties of the ride update: an empty update changes nothing, no field can
    be cleared, and applying the same update twice is the same as once.
   */
  lemma PatchRideProperties(r: RideRequest, u: RideUpdate)
    ensures PatchRide(r, EmptyRideUpdate) == r
    ensures r.assignedVolunteerId.Some? ==> PatchRide(r, u).assignedVolunteerId.Some?
    ensures r.assignedTime.Some? ==> PatchRide(r, u).assignedTime.Some?
    ensures r.completedTime.Some? ==> PatchRide(r, u).completedTime.Some?
    ensures PatchRide(PatchRide(r, u), u) == PatchRide(r, u)
  {
  }
}
