/** The rows of the four tables of the parking store (users, parking lots,
    parking spots, reservations), the invariant that ties spots to
    reservations, and the queries over the tables that the handlers run. */
module Tables {

  /** Row ids. SQLite's AUTOINCREMENT hands them out from a counter that never
      goes back, so an id, once used, is never given to another row. */
  type Id = nat

  /** Instants and durations in whole seconds. */
  type Time = nat

  /** The `role` column, constrained to 'admin' or 'user'. */
  datatype Role = Admin | User

  /** The `status` column of a spot, constrained to 'A' or 'O'. */
  datatype SpotStatus = Available | Occupied

  datatype Option<T> = None | Some(value: T)

  datatype UserRow = UserRow(fullName: string, username: string, password: string, role: Role)

  datatype LotRow = LotRow(name: string, address: string, pinCode: string,
                           pricePerHour: int, maxSpots: int, createdAt: Time)

  datatype SpotRow = SpotRow(lotId: Id, status: SpotStatus)

  /** A reservation is active while its leaving time is unset. */
  datatype ReservationRow = ReservationRow(spotId: Id, userId: Id, parkingTime: Time,
                                           leavingTime: Option<Time>, parkingCost: Option<int>)
  {
    predicate IsActive() { leavingTime.None? }
  }

  /** The outcomes a handler reports instead of performing its update. */
  datatype Error = DuplicateUsername | AlreadyActive | NoAvailableSpot
                 | NoActiveReservation | LotOccupied

  datatype Result<T> = Ok(value: T) | Err(error: Error)

  // ---------------------------------------------------------------------
  // Queries

  /** Row `a` is an active reservation of user `u`. */
  predicate IsActiveOf(res: map<Id, ReservationRow>, a: Id, u: Id)
  {
    a in res && res[a].IsActive() && res[a].userId == u
  }

  /** Some active reservation belongs to user `u`. */
  predicate HasActive(res: map<Id, ReservationRow>, u: Id)
  {
    ActiveOfUser(res, u) != {}
  }

  /** Spot `s` is in lot `lotId` and available. */
  predicate IsAvailableIn(spots: map<Id, SpotRow>, lotId: Id, s: Id)
  {
    s in spots && spots[s].lotId == lotId && spots[s].status == Available
  }

  /** The smallest id in [from, bound) of an available spot of lot `lotId`,
      the first row of the query ordered by id. */
  function FirstAvailableFrom(spots: map<Id, SpotRow>, lotId: Id, from: Id, bound: Id): (r: Option<Id>)
    decreases bound - from
    ensures r.Some? ==> from <= r.value < bound && IsAvailableIn(spots, lotId, r.value)
    ensures r.Some? ==> forall k :: from <= k < r.value ==> !IsAvailableIn(spots, lotId, k)
    ensures r.None? ==> forall k :: from <= k < bound ==> !IsAvailableIn(spots, lotId, k)
  {
    if bound <= from then None
    else if IsAvailableIn(spots, lotId, from) then Some(from)
    else FirstAvailableFrom(spots, lotId, from + 1, bound)
  }

  /** Spot `s` is the available spot of lot `lotId` with the smallest id. */
  ghost predicate IsLowestAvailable(spots: map<Id, SpotRow>, lotId: Id, s: Id)
  {
    IsAvailableIn(spots, lotId, s) && forall k: Id :: k < s ==> !IsAvailableIn(spots, lotId, k)
  }

  /** A scan over every issued id finds exactly the lowest available spot. */
  lemma FirstAvailableIsLowest(spots: map<Id, SpotRow>, lotId: Id, bound: Id, s: Id)
    requires forall k :: k in spots ==> k < bound
    ensures FirstAvailableFrom(spots, lotId, 0, bound) == Some(s) <==> IsLowestAvailable(spots, lotId, s)
  {
  }

  /** At most one spot is the lowest available one. */
  lemma LowestAvailableUnique(spots: map<Id, SpotRow>, lotId: Id, a: Id, b: Id)
    requires IsLowestAvailable(spots, lotId, a) && IsLowestAvailable(spots, lotId, b)
    ensures a == b
  {
  }

  /** Spots in lot `lotId`. */
  function SpotsOfLot(spots: map<Id, SpotRow>, lotId: Id): set<Id>
  {
    set s | s in spots && spots[s].lotId == lotId
  }

  /** Spots in lot `lotId` with status `st` (COUNT(*) of one status group). */
  function SpotsWithStatus(spots: map<Id, SpotRow>, lotId: Id, st: SpotStatus): set<Id>
  {
    set s | s in spots && spots[s].lotId == lotId && spots[s].status == st
  }

  /** The per-status counts of one lot, as GROUP BY status returns them: a
      status appears only when at least one spot of the lot has it. */
  function StatusCounts(spots: map<Id, SpotRow>, lotId: Id): (m: map<SpotStatus, nat>)
    ensures forall st :: st in m <==> SpotsWithStatus(spots, lotId, st) != {}
    ensures forall st :: st in m ==> m[st] == |SpotsWithStatus(spots, lotId, st)|
    ensures (if Available in m then m[Available] else 0) + (if Occupied in m then m[Occupied] else 0)
            == |SpotsOfLot(spots, lotId)|
  {
    StatusPartition(spots, lotId);
    map st | st in {Available, Occupied} && |SpotsWithStatus(spots, lotId, st)| > 0
           :: |SpotsWithStatus(spots, lotId, st)|
  }

  /** Every spot of a lot is counted under exactly one of the two statuses. */
  lemma StatusPartition(spots: map<Id, SpotRow>, lotId: Id)
    ensures |SpotsWithStatus(spots, lotId, Available)| + |SpotsWithStatus(spots, lotId, Occupied)|
            == |SpotsOfLot(spots, lotId)|
  {
    var a, o := SpotsWithStatus(spots, lotId, Available), SpotsWithStatus(spots, lotId, Occupied);
    assert SpotsOfLot(spots, lotId) == a + o;
    assert a * o == {};
  }

  /** The n consecutive ids lo, lo + 1, ..., lo + n - 1 that a counter
      standing at lo hands out for n inserts: n distinct ids. */
  function IdRange(lo: Id, n: nat): (r: set<Id>)
    ensures forall s :: s in r <==> lo <= s < lo + n
    ensures |r| == n
  {
    if n == 0 then {} else IdRange(lo, n - 1) + {lo + n - 1}
  }

  // ---------------------------------------------------------------------
  // Integrity of the tables

  /** Every row id of a table was handed out by its counter, which stands at
      `next`. */
  ghost predicate IdsBelow<T>(table: map<Id, T>, next: Id)
  {
    forall k :: k in table ==> k < next
  }

  /** The UNIQUE constraint on usernames. */
  ghost predicate UniqueUsernames(users: map<Id, UserRow>)
  {
    forall a, b :: a in users && b in users && users[a].username == users[b].username ==> a == b
  }

  /** Every spot belongs to an existing lot. */
  ghost predicate SpotsInLots(spots: map<Id, SpotRow>, lots: map<Id, LotRow>)
  {
    forall s :: s in spots ==> spots[s].lotId in lots
  }

  /** No reservation refers to a spot id the spot counter has not handed out
      yet, so a newly inserted spot is referenced by no reservation. */
  ghost predicate ReservedSpotsIssued(res: map<Id, ReservationRow>, nextSpot: Id)
  {
    forall a :: a in res ==> res[a].spotId < nextSpot
  }

  // ---------------------------------------------------------------------
  // The invariant linking spots and reservations

  ghost predicate OneActivePerUser(res: map<Id, ReservationRow>)
  {
    forall a, b ::
      a in res && b in res && res[a].IsActive() && res[b].IsActive() && res[a].userId == res[b].userId
      ==> a == b
  }

  ghost predicate OneActivePerSpot(res: map<Id, ReservationRow>)
  {
    forall a, b ::
      a in res && b in res && res[a].IsActive() && res[b].IsActive() && res[a].spotId == res[b].spotId
      ==> a == b
  }

  /** An active reservation holds an existing, occupied spot. */
  ghost predicate ActiveHoldsOccupied(spots: map<Id, SpotRow>, res: map<Id, ReservationRow>)
  {
    forall a :: a in res && res[a].IsActive() ==>
      res[a].spotId in spots && spots[res[a].spotId].status == Occupied
  }

  /** An occupied spot is held by some active reservation. */
  ghost predicate OccupiedIsHeld(spots: map<Id, SpotRow>, res: map<Id, ReservationRow>)
  {
    forall s :: s in spots && spots[s].status == Occupied ==>
      exists a :: a in res && res[a].IsActive() && res[a].spotId == s
  }

  ghost predicate ReservationInvariant(spots: map<Id, SpotRow>, res: map<Id, ReservationRow>)
  {
    OneActivePerUser(res) && OneActivePerSpot(res)
    && ActiveHoldsOccupied(spots, res) && OccupiedIsHeld(spots, res)
  }

  /** Active reservations of user `u`. */
  function ActiveOfUser(res: map<Id, ReservationRow>, u: Id): set<Id>
  {
    set a | a in res && IsActiveOf(res, a, u)
  }

  /** Active reservations on spot `s`. */
  function ActiveOnSpot(res: map<Id, ReservationRow>, s: Id): set<Id>
  {
    set a | a in res && res[a].IsActive() && res[a].spotId == s
  }

  /** Every user has at most one active reservation. */
  lemma AtMostOneActivePerUser(res: map<Id, ReservationRow>, u: Id)
    requires OneActivePerUser(res)
    ensures |ActiveOfUser(res, u)| <= 1
  {
    var act := ActiveOfUser(res, u);
    if act != {} {
      var a :| a in act;
      assert act == {a};
    }
  }

  /** A spot is occupied exactly when exactly one active reservation
      references it. */
  lemma OccupiedIffExactlyOneActive(spots: map<Id, SpotRow>, res: map<Id, ReservationRow>, s: Id)
    requires ReservationInvariant(spots, res)
    requires s in spots
    ensures spots[s].status == Occupied <==> |ActiveOnSpot(res, s)| == 1
  {
    var act := ActiveOnSpot(res, s);
    if spots[s].status == Occupied {
      var a :| a in res && res[a].IsActive() && res[a].spotId == s;
      assert act == {a};
    } else {
      assert act == {};
    }
  }
}
