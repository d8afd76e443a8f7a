# Ride dispatch backend — a Dafny model

This project models the core of a volunteer ride-scheduling backend: the store of
users, volunteers and ride requests (create, get, list with status filter and
pagination, field-by-field update, delete), and the scheduling service on top of
it. A ride request is created `pending`. It can be assigned to a volunteer,
completed from `assigned` or `in_progress`, and cancelled from anything except
`completed`. A volunteer is chosen by taking the first one listed.

Modules:

- `Wrappers`: `Option` (Python's `None`) and `Result` (a raised exception).
- `Models` (models.py): the two enumerations and the tokens their columns store, the three table rows, the create payloads, the record defaults and the all-optional `RideUpdate`.
- `Availability` (crud.py): the comma-joined string a volunteer's slot list is stored as, with the inverse reading `Split`.
- `Patching` (crud.py): the `setattr` loops of the three updates as entry lists applied left to right, each with a reference statement of its effect.
- `Query` (crud.py): what `offset(skip).limit(limit).all()` returns.
- `Crud` (crud.py): class `Database` with one `map<int, …>` per table and a next-id counter per table. Its invariant `Valid()` says every row is stored under its own id, ids lie below the counter, and phone numbers are unique. Its methods are the fifteen store operations.
- `Lifecycle` (services.py): the three transitions as pure functions, a ride's history as a sequence of attempts, and the lemmas about histories.
- `Services` (services.py): the schedule manager's operations as methods over a `Database`. The manager holds no state of its own.

Timestamps (`datetime.utcnow()`) and the route estimate are parameters. Distances and durations are `real` values that are only copied.

The model follows what the code does, not what its comments and docstrings promise. The one exception is the ride update: as written it always raises (see "## Findings"), and the model uses the repaired update instead. Otherwise:
- there is no `start` transition into `in_progress`;
- refused transitions return `None`, not a typed error;
- there is no version check or lock;
- the requester is not validated by `request_ride`;
- volunteer choice ignores availability and location.

## Model

| member | source | states |
|---|---|---|
| `Models.UserTypeToken` | models.py:72-74 | every user type is stored as one of the two tokens the `user_type` column admits |
| `Models.ParseUserType` | models.py:25 | a stored token reads back as a user type exactly when it is one of the column's two values |
| `Models.UserTypeTokens` | models.py:72-74 | tokens and user types correspond one to one; the column default `elderly` is the token of `ELDERLY` |
| `Models.StatusToken` | models.py:76-81 | every status is stored as one of the five tokens the `status` column admits |
| `Models.ParseStatus` | models.py:57 | a stored token reads back as a status exactly when it is one of the column's five values |
| `Models.StatusTokens` | models.py:76-81 | the five tokens and the five statuses correspond one to one; the column default `pending` is the token of `PENDING` |
| `Models.RideRequestInDB` | models.py:127-135 | a record built from a payload gives the payload back, is `pending`, and has no volunteer, assignment time, completion time, distance or duration |
| `Models.DefaultAvailabilityStored` | models.py:104 | a volunteer created with the default empty slot list stores the `availability` column's default `""` |
| `Availability.Join` | crud.py:68 | joining one slot gives that slot; joining n slots gives their total length plus n-1 characters, and exactly n-1 separators when no slot holds one |
| `Availability.SplitJoin` | crud.py:89-91 | the stored string splits back into the slot list when the list is non-empty and no slot holds a comma |
| `Availability.JoinNotInjective` | models.py:39-41 | the stored string cannot tell no slots from one empty slot, nor a slot holding a comma from two slots |
| `Patching.SetUserAttr` | crud.py:41-45 | one write sets the entry's field (the user type as its token) and leaves the other fields, id and creation time alone |
| `Patching.ApplyUserEntries` | crud.py:41-45 | writing a list of user entries never changes the id or the creation time |
| `Patching.UserEntriesWritten` | crud.py:37-49 | after a user update with distinct keys, every key holds its value and every field not named keeps its old value |
| `Patching.SetVolunteerAttr` | crud.py:89-93 | one write sets the entry's field (a slot list comma-joined) and leaves the other fields, id and creation time alone |
| `Patching.ApplyVolunteerEntries` | crud.py:89-93 | writing a list of volunteer entries never changes the id or the creation time |
| `Patching.VolunteerEntriesWritten` | crud.py:85-97 | after a volunteer update with distinct keys, every key holds its value and every field not named keeps its old value |
| `Patching.RideUpdateEntries` | crud.py:140 | the items kept from an update number at most four, and none are kept from the empty update |
| `Patching.SetRideAttr` | crud.py:142-145 | one write sets the entry's field (the status as given) and leaves every other field, the request, id, creation time and estimate alone |
| `Patching.ApplyRideEntries` | crud.py:141-145 | writing the kept items in order never changes the request, id, creation time or estimate, and never clears a field that holds a value |
| `Patching.PatchRide` | crud.py:138-148 | each field the update carries (status, volunteer, assignment time, completion time) replaces the stored one; an absent field keeps it; request fields, id, creation time, distance and duration never change |
| `Patching.RideEntriesArePatch` | crud.py:141-145 | writing the kept items one at a time gives exactly the reference patch |
| `Patching.PatchRideProperties` | models.py:144-148 | the all-`None` update changes nothing, no field can be cleared, and applying an update twice equals applying it once |
| `Query.Page` | crud.py:33-35 | a page has at most `limit` rows, exactly as many as remain after `skip` up to `limit`, and its i-th row is row `skip + i` of the listing |
| `Query.Rows` | crud.py:33-35 | the unordered scan, taken to run in ascending id order, lists at most one row per id in `[FirstId, hi)` |
| `Query.RowsMembers` | crud.py:131-136 | a row is listed exactly when it is stored under an id in range |
| `Query.RowsKeyed` | crud.py:81-83 | rows stored under their own ids are listed as the stored rows, in strictly ascending id order |
| `Query.PageKeyed` | crud.py:33-35 | a page of such a listing holds only stored rows, in strictly ascending id order |
| `Query.RowsFirst` | services.py:159-171 | the listing is empty exactly when nothing is stored; otherwise it starts with the row of the smallest id |
| `Crud.WithStatus` | crud.py:131-135 | the filtered table holds exactly the rides with the given status, or all rides when no status is given |
| `Crud.Database.constructor` | database.py:51-57 | the new store is empty and satisfies the table invariant |
| `Crud.Database.CreateUser` | crud.py:15-27 | a new user gets a fresh id, the payload's fields and the user type's token; a phone number already stored raises an integrity error and changes nothing |
| `Crud.Database.GetUser` | crud.py:29-31 | returns the user stored under the id, which carries that id, or `None` when there is none |
| `Crud.Database.GetUsers` | crud.py:33-35 | returns at most `limit` stored users, in ascending id order, after skipping `skip` |
| `Crud.Database.UpdateUser` | crud.py:37-49 | a missing id gives `None`; otherwise the entries are written in order; a phone number held by another user raises and changes nothing |
| `Crud.Database.DeleteUser` | crud.py:51-58 | returns true exactly when the id was stored; afterwards it is not; other users and the other tables are untouched |
| `Crud.Database.CreateVolunteer` | crud.py:61-75 | a new volunteer gets a fresh id, the payload's fields and the slots comma-joined; a phone number already stored raises and changes nothing |
| `Crud.Database.GetVolunteer` | crud.py:77-79 | returns the volunteer stored under the id, which carries that id, or `None` |
| `Crud.Database.GetVolunteers` | crud.py:81-83 | returns at most `limit` stored volunteers, in ascending id order, after skipping `skip` |
| `Crud.Database.UpdateVolunteer` | crud.py:85-97 | a missing id gives `None`; otherwise the entries are written in order; a phone number held by another volunteer raises and changes nothing |
| `Crud.Database.DeleteVolunteer` | crud.py:99-106 | returns true exactly when the id was stored; afterwards it is not; everything else is untouched |
| `Crud.Database.CreateRideRequest` | crud.py:109-125 | a new ride gets a fresh id, the payload's request fields and status `pending`; it has no assignment or completion, and carries exactly the given distance and duration |
| `Crud.Database.GetRideRequest` | crud.py:127-129 | returns the ride stored under the id, which carries that id, or `None` |
| `Crud.Database.GetRideRequests` | crud.py:131-136 | with a status, returns only rides with that status; returns at most `limit` stored rides in ascending id order after skipping `skip` matches |
| `Crud.Database.UpdateRideRequest` | crud.py:138-148 | a missing id gives `None` and no change; otherwise the stored ride becomes the reference patch of the update, and nothing else changes |
| `Crud.Database.DeleteRideRequest` | crud.py:150-157 | returns true exactly when the id was stored; afterwards it is not; everything else is untouched |
| `Crud.UpdateRideRequestAsWritten` | crud.py:138-148 | as written, every call raises a name error |
| `Crud.UpdateRideRequestAsWrittenNeverPatches` | crud.py:138-148 | as written, updating a stored ride never returns the patched record |
| `Lifecycle.Assign` | services.py:82-92 | assignment succeeds exactly from `pending`; it sets status `assigned`, the volunteer and the assignment time, and nothing else |
| `Lifecycle.Complete` | services.py:106-114 | completion succeeds exactly from `assigned` or `in_progress`; it sets status `completed` and the completion time, and nothing else |
| `Lifecycle.Cancel` | services.py:126-134 | cancellation succeeds exactly when the ride is not `completed`; it changes only the status, keeping the volunteer and assignment time |
| `Lifecycle.CancelIdempotent` | services.py:126-133 | cancelling a cancelled ride gives the same record again |
| `Lifecycle.NewRideConsistent` | crud.py:111-121 | a freshly created ride satisfies the lifecycle invariant |
| `Lifecycle.Step` | services.py:79-134 | a refused attempt (unknown volunteer, not pending; not assigned or in progress; completed) leaves the ride as it was; every attempt moves the status along the transitions |
| `Lifecycle.Run` | services.py:79-134 | a sequence of attempts moves the status only along the transitions |
| `Lifecycle.CompletedIsFinal` | services.py:82-128 | no sequence of assign, complete and cancel attempts changes a completed ride |
| `Lifecycle.CancelledIsFinal` | services.py:82-134 | no sequence of attempts changes a cancelled ride |
| `Lifecycle.RunReachable` | services.py:82-134 | every sequence of attempts moves the status only along the transitions and never into `in_progress` |
| `Lifecycle.RunConsistent` | services.py:87-133 | every sequence of attempts keeps the invariant: volunteer and assignment time are set together; completion time is set exactly when completed; assigned or completed rides have a volunteer |
| `Lifecycle.AssignmentIsFinal` | services.py:82-92 | once a consistent ride has a volunteer, no sequence of attempts changes the volunteer or the assignment time |
| `Lifecycle.RunKeepsRequest` | services.py:87-133 | no sequence of attempts changes the request fields, id, creation time, distance or duration |
| `Services.RequestRide` | services.py:52-69 | stores a new consistent `pending` ride carrying the payload and exactly the estimated distance and duration |
| `Services.AssignVolunteerToRide` | services.py:71-96 | succeeds exactly when the ride and the volunteer exist and the ride is `pending`; then only that ride changes, as `Assign` says; otherwise `None` and no change |
| `Services.CompleteRide` | services.py:98-116 | succeeds exactly for an existing `assigned` or `in_progress` ride; then only that ride changes, as `Complete` says; otherwise `None` and no change |
| `Services.CancelRide` | services.py:118-135 | refused for a missing or `completed` ride with no change; otherwise only that ride's status becomes `cancelled` |
| `Services.FindBestVolunteer` | services.py:137-171 | returns the first volunteer of the default listing, the one with the smallest id, or `None` exactly when there are no volunteers |

## Left out

- The route estimator (services.py:26-41) draws random numbers. The model takes its result as the `RouteEstimate` parameter of `RequestRide`, so rounding to two decimals is not modelled.
- The shortest-path placeholders (services.py:174-194) return `(0, [])` and no algorithm. They are not modelled.
- The conceptual matching by availability and travel time (services.py:153-167) exists only in comments. `FindBestVolunteer` models what the code does.
- The HTTP routes of main.py, the engine and session setup of database.py, the desktop front ends and the charts are not part of this model. main.py's raw ride update bypasses the transition guards and is not a transition.
- The code has no locking, versioning or transactions across calls, so operations are modelled one at a time. Sessions, commits and refreshes are folded into each operation; a failed commit leaves the store as it was.
- Printing and logging are left out.
- Row order: the queries have no `ORDER BY`. The model fixes the storage engine's scan order as ascending id.
- Id allocation: the model hands out ids from a per-table counter. The storage engine may reuse the largest id after it is deleted; the model keeps only the guarantee that a new id is not in use.
- `Crud.Database.GetUsers`, `Crud.Database.GetVolunteers` and `Crud.Database.GetRideRequests` take `skip` and `limit` as natural numbers. What the engine does with negative values is not modelled.
- Crud.Database.DeleteUser and Crud.Database.DeleteVolunteer do not touch rides. The ORM's default of clearing `requester_id` or `assigned_volunteer_id` on referencing rides is not modelled, so ride rows keep the deleted id.
- Services.AssignVolunteerToRide, Services.CompleteRide, Services.CancelRide and Crud.Database.UpdateRideRequest model the repaired ride update. As written, the update raises `NameError` on every call, so the three transitions raise once their guards pass (see "## Findings").
- Foreign keys (requester, assigned volunteer) are not checked on insert or update, as in the storage engine's default.
- `Crud.Database.UpdateUser` and `Crud.Database.UpdateVolunteer` take the update dictionary as a list of entries for the payload's own fields. Keys outside those fields are not modelled: `setattr` of an unknown attribute, or of `id` or `created_at`.
- Returned rows are values. The aliasing between a returned ORM object and the stored row is not modelled.
- Timestamps are plain integers and floats are reals; neither is ever compared or computed with.

## Findings

| source | as written | input that shows it | evidently intended | confidence | as-written member | corrected member |
|---|---|---|---|---|---|---|
| crud.py:138-148 | `update_ride_request` writes to `db_ride_request`, a name it never binds, so every call raises `NameError`. As a consequence, assign, complete and cancel raise after passing their guards instead of returning the updated ride. | any call, e.g. ride 1 stored as `pending` and the update `status=cancelled` | look the record up by id first and return `None` when it is absent, as `update_user` does (crud.py:39-49) | high; not executed | `Crud.UpdateRideRequestAsWrittenNeverPatches` | `Crud.Database.UpdateRideRequest` |
