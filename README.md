# Parking store model

A Dafny model of the reservation and lot-inventory logic of the vehicle parking
web application (`vehicle_parking_app/app.py`). The application keeps four
SQLite tables: users, parking lots, parking spots and reservations. Its Flask
handlers read and update these tables. In this model the tables are the `map`
fields of one class, `Store.ParkingStore`, keyed by row id. Each table has a
counter that plays the part of SQLite's `AUTOINCREMENT`: ids start at 1 and are
never reused. Each handler is a method of the class. The signed-in user's id,
the current instant and the form fields are passed in as parameters.

- `billing.dfy`, module `Billing`: the fee for a stay. A stay is billed per
  started hour, `hours = ceil(duration / 1 h)` and `cost = hours * price`.
  Durations are whole seconds and prices are integers (for example cents).
- `tables.dfy`, module `Tables`: the rows and the closed enumerations for role
  (`admin`/`user`) and spot status (`A`/`O`). It also holds:
  - the queries the handlers run: the lowest-id available spot of a lot, and
    the per-status spot counts of a lot;
  - the invariants of the tables;
  - the central invariant: every user has at most one active reservation, and
    a spot is occupied exactly when exactly one active reservation refers to it.
- `store.dfy`, module `Store`: the class and the handlers `register`,
  `reserve_spot`, `occupy_spot`, `release_spot`, `create_lot`, `edit_lot`,
  `delete_lot` and the counting loop of `admin_dashboard`. Every handler keeps
  the invariant `Valid()`. Each one's postcondition gives the new tables in
  terms of the old ones, and lists its refusals as `Err` results.
- `scenarios.dfy`, module `Scenarios`: callers that use only the contracts.
  They show that of two users competing for the last spot only the first gets
  it, and that a release after 61 minutes at price 10 costs 20 while a second
  release finds nothing. They also show that a lot with an occupied spot cannot
  be deleted, and that a duplicate username is refused.

At the edges the handlers behave as follows, and the model keeps it:
- `occupy_spot` reports no error when the user has no active reservation. Its
  UPDATE then matches no row, and the handler redirects as usual.
- `edit_lot` and `delete_lot` on an unknown lot id change nothing and report
  success. There is no "not found" outcome.
- A stay of exactly zero seconds is billed 0 hours and costs 0, because the
  ceiling of 0 is 0. It is not rounded up to a minimum of one hour.
- A `max_spots` that is zero or negative creates the lot with no spots, since
  `range(max_spots)` is then empty.

## Model

| member | source | states |
|---|---|---|
| `Billing.BilledHours` | vehicle_parking_app/app.py:225-228 | the billed hours `h` are the ceiling of the duration in hours: `(h - 1)` hours `< secs <= h` hours, for every integer duration |
| `Billing.ParkingCost` | vehicle_parking_app/app.py:229 | a zero-length stay costs 0; any stay of up to one hour costs exactly one hour's price |
| `Billing.BilledHoursUnique` | vehicle_parking_app/app.py:228 | the ceiling is the only integer that brackets the duration |
| `Billing.ParkingCostOfBracket` | vehicle_parking_app/app.py:225-229 | the cost is the price times the whole number of hours that brackets the stay |
| `Billing.MinutesRoundUpToHours` | vehicle_parking_app/app.py:225-228 | for a whole number of minutes, billing in seconds agrees with `ceil(minutes / 60)` |
| `Billing.BilledHoursMonotone` | vehicle_parking_app/app.py:225-228 | a longer stay is never billed fewer hours |
| `Billing.WorkedExamples` | vehicle_parking_app/app.py:225-229 | 61 minutes at 10 is 2 hours and costs 20; 30 minutes at 5 is 1 hour and costs 5; 0 seconds is 0 hours |
| `Tables.FirstAvailableFrom` | vehicle_parking_app/app.py:155-160 | the result is an available spot of the requested lot, and no smaller id in range is one; `None` only when the range holds no available spot of that lot |
| `Tables.FirstAvailableIsLowest` | vehicle_parking_app/app.py:155-160 | scanning every issued id finds a spot exactly when it is the lowest-id available spot of the lot |
| `Tables.LowestAvailableUnique` | vehicle_parking_app/app.py:158-159 | at most one spot is the lowest-id available spot of a lot |
| `Tables.StatusCounts` | vehicle_parking_app/app.py:77-82 | a status is present exactly when some spot of the lot has it, and its count is the number of the lot's spots with that status; the counts add up to the number of spots of the lot |
| `Tables.StatusPartition` | vehicle_parking_app/app.py:77-82 | the available and occupied spots of a lot together are all its spots, counted once each |
| `Tables.IdRange` | vehicle_parking_app/setup_db.py:34 | `n` inserts under an autoincrement counter receive `n` distinct consecutive ids |
| `Tables.AtMostOneActivePerUser` | vehicle_parking_app/app.py:145-152 | under the invariant, a user has at most one active reservation |
| `Tables.OccupiedIffExactlyOneActive` | vehicle_parking_app/app.py:166-175 | under the invariant, a spot has status `O` exactly when exactly one active reservation refers to it |
| `Store.ParkingStore.constructor` | vehicle_parking_app/setup_db.py:8-54 | empty tables, every counter at 1, invariant established |
| `Store.ParkingStore.Register` | vehicle_parking_app/app.py:32-37 | a taken username gives `DuplicateUsername` and no row; otherwise exactly one new user row with role `user` under the next user id, and nothing else changes |
| `Store.ParkingStore.Reserve` | vehicle_parking_app/app.py:135-177 | a user with an active reservation gets `AlreadyActive`, and a lot with no available spot gives `NoAvailableSpot`; both leave every table unchanged. Otherwise it succeeds, and only then: the lowest-id available spot of that lot becomes `O`, and one active reservation is added for that spot and user, starting at `now`, with no leaving time or cost. Users, lots and other spots are unchanged and the invariant is kept |
| `Store.ParkingStore.Occupy` | vehicle_parking_app/app.py:182-197 | only the start time of the user's active reservation changes, to `now`; every other row and table is unchanged and the invariant is kept |
| `Store.ParkingStore.Release` | vehicle_parking_app/app.py:201-243 | without an active reservation it gives `NoActiveReservation` and changes nothing. Otherwise the cost is the billed hours since the start times the price of the spot's lot. Exactly that reservation gets leaving time `now` and that cost, and exactly its spot becomes `A`. Afterwards the user has no active reservation, so a second release is refused. The invariant is kept |
| `Store.ParkingStore.CreateLot` | vehicle_parking_app/app.py:248-274 | one new lot under the next lot id, plus exactly `max_spots` new spots (none if not positive) under fresh ids, all `A` and all in the new lot. The lot then has that many available spots and no occupied one. Existing lots, spots, users and reservations are unchanged |
| `Store.ParkingStore.InsertSpots` | vehicle_parking_app/app.py:267-268 | `count` inserts add available spots of the lot under consecutive fresh ids and keep every existing spot |
| `Store.ParkingStore.EditLot` | vehicle_parking_app/app.py:278-300 | only name, address, pin code and price of that lot change, and an unknown id changes nothing; its spot count and all spots are unchanged |
| `Store.ParkingStore.DeleteLot` | vehicle_parking_app/app.py:304-322 | any occupied spot in the lot gives `LotOccupied` and changes nothing. Otherwise the lot and exactly its spots are removed, and other lots, other spots, users and all reservations are unchanged |
| `Store.ParkingStore.SpotCounts` | vehicle_parking_app/app.py:72-82 | one entry per lot, holding that lot's per-status spot counts |
| `Store.ReserveKeepsInvariant` | vehicle_parking_app/app.py:145-175 | occupying an available spot for a user with no active reservation keeps both halves of the invariant |
| `Store.ReleaseKeepsInvariant` | vehicle_parking_app/app.py:211-239 | closing an active reservation and freeing its spot keeps the invariant |
| `Store.SameActivityKeepsInvariant` | vehicle_parking_app/app.py:190-194 | re-stamping reservations without changing their spot, user or activity keeps the invariant |
| `Store.FreshSpotKeepsInvariant` | vehicle_parking_app/app.py:268 | adding an available spot under an id no reservation refers to keeps the invariant |
| `Store.NewLotSpots` | vehicle_parking_app/app.py:261-268 | the spots of a newly created lot are exactly the freshly inserted ones, all available |

## Left out

- HTTP routing, form parsing, templates, redirects and message strings are not
  modelled. Outcomes are the `Result` datatype instead.
- The session and role checks are not modelled. The caller passes the
  signed-in user's id, and which role may call which handler is not checked.
- Login (`login`, the plaintext password comparison) is not modelled. Neither
  are the read-only user dashboard queries with their joins and ordering, nor
  logout.
- SQLite connections, SQL text, commits and closes are not modelled. Each
  handler is one atomic step on the in-memory tables. Therefore the race between
  two concurrent `reserve_spot` calls, which can give one spot to both, is not
  represented.
- The default admin account inserted by `vehicle_parking_app/setup_db.py` is
  not modelled; the store starts empty. From that script only its constraints
  are kept: unique usernames, the role and status enumerations, and ids that
  are never reused.
- Floating point is not modelled. Prices are integers, and durations are whole
  seconds, so sub-second timestamps are not represented. The same goes for the
  timestamp string formatting and parsing. This hides an asymmetry in the
  handlers: `reserve_spot` stores the start time truncated to the second
  (vehicle_parking_app/app.py:173), `occupy_spot` stores it with microseconds
  (app.py:194), and `release_spot` subtracts it from an untruncated `now`
  (app.py:206, 225). So the handlers bill a release within the same second as
  1 hour, and a stay of exactly k hours plus a fraction of a second as k + 1
  hours; the whole-second model bills 0 and k hours.
- Foreign keys are not enforced by SQLite in this application, and the model
  does not check that a reservation's user exists. It keeps spot-to-lot
  integrity as part of its invariant, because only `delete_lot` removes rows.
  That handler removes the lot together with all of its spots.
- `Store.ParkingStore.SpotCounts`: a `map` stands for the dictionary; the order
  in which the dashboard lists lots is not modelled.
- `spot_number` is not modelled; no handler writes the optional spot label.
  `created_at` is modelled as the `now` passed to `CreateLot`, whereas the
  database fills it from `CURRENT_TIMESTAMP` (vehicle_parking_app/setup_db.py:27);
  no handler reads it.
