/** The parking store: the four tables the request handlers of
    vehicle_parking_app/app.py read and update, held in memory. Every handler
    is one method; the signed-in user's id, the current instant and the form
    fields are its parameters. */
module Store {
  import opened Tables
  import opened Billing

  class ParkingStore {
    var users: map<Id, UserRow>
    var lots: map<Id, LotRow>
    var spots: map<Id, SpotRow>
    var reservations: map<Id, ReservationRow>

    // The AUTOINCREMENT counters: the id the next inserted row receives.
    var nextUserId: Id
    var nextLotId: Id
    var nextSpotId: Id
    var nextReservationId: Id

    /** The store's invariant: ids come from the counters, usernames are
        unique, every spot belongs to an existing lot, no reservation refers
        to a spot id not yet handed out, and the spot/reservation invariant. */
    ghost predicate Valid()
      reads this
    {
      && IdsBelow(users, nextUserId) && IdsBelow(lots, nextLotId)
      && IdsBelow(spots, nextSpotId) && IdsBelow(reservations, nextReservationId)
      && UniqueUsernames(users)
      && SpotsInLots(spots, lots)
      && ReservedSpotsIssued(reservations, nextSpotId)
      && ReservationInvariant(spots, reservations)
    }

    /** An empty store; SQLite's AUTOINCREMENT starts every table at id 1. */
    constructor ()
      ensures Valid()
      ensures users == map[] && lots == map[] && spots == map[] && reservations == map[]
      ensures nextUserId == 1 && nextLotId == 1 && nextSpotId == 1 && nextReservationId == 1
    {
      users, lots, spots, reservations := map[], map[], map[], map[];
      nextUserId, nextLotId, nextSpotId, nextReservationId := 1, 1, 1, 1;
    }

    /** register: inserts a user with role 'user'; the UNIQUE constraint on
        the username turns a duplicate into an error and no row. */
    method Register(fullName: string, username: string, password: string) returns (r: Result<Id>)
      requires Valid()
      modifies this
      ensures Valid()
      ensures lots == old(lots) && spots == old(spots) && reservations == old(reservations)
      ensures nextLotId == old(nextLotId) && nextSpotId == old(nextSpotId)
      ensures nextReservationId == old(nextReservationId)
      ensures (exists u :: u in old(users) && old(users)[u].username == username) ==>
                r == Err(DuplicateUsername) && users == old(users) && nextUserId == old(nextUserId)
      ensures (forall u :: u in old(users) ==> old(users)[u].username != username) ==>
                && r == Ok(old(nextUserId))
                && users == old(users)[old(nextUserId) := UserRow(fullName, username, password, User)]
                && nextUserId == old(nextUserId) + 1
    {
      if exists u :: u in users && users[u].username == username {
        return Err(DuplicateUsername);
      }
      r := Ok(nextUserId);
      users := users[nextUserId := UserRow(fullName, username, password, User)];
      nextUserId := nextUserId + 1;
    }

    /** reserve_spot: refuses when the user already has an active
        reservation, or when the lot has no available spot; otherwise claims
        the available spot of the lot with the smallest id and inserts an
        active reservation on it starting at `now`. */
    method Reserve(userId: Id, lotId: Id, now: Time) returns (r: Result<Id>)
      requires Valid()
      modifies this
      ensures Valid()
      ensures users == old(users) && lots == old(lots)
      ensures nextUserId == old(nextUserId) && nextLotId == old(nextLotId) && nextSpotId == old(nextSpotId)
      ensures HasActive(old(reservations), userId) ==>
                r == Err(AlreadyActive) && unchanged(this)
      ensures !HasActive(old(reservations), userId) && (forall s :: s in old(spots) ==> !IsAvailableIn(old(spots), lotId, s)) ==>
                r == Err(NoAvailableSpot) && unchanged(this)
      ensures r.Ok? ==>
                && r.value == old(nextReservationId) && r.value !in old(reservations)
                && nextReservationId == old(nextReservationId) + 1
                && exists sid :: && IsLowestAvailable(old(spots), lotId, sid)
                                 && spots == old(spots)[sid := SpotRow(lotId, Occupied)]
                                 && reservations == old(reservations)[r.value := ReservationRow(sid, userId, now, None, None)]
      ensures r.Ok? <==> !HasActive(old(reservations), userId) && exists s :: s in old(spots) && IsAvailableIn(old(spots), lotId, s)
      ensures r.Ok? ==> HasActive(reservations, userId)
    {
      if HasActive(reservations, userId) {
        return Err(AlreadyActive);
      }
      var found := FirstAvailableFrom(spots, lotId, 0, nextSpotId);
      if found.None? {
        return Err(NoAvailableSpot);
      }
      var sid := found.value;
      var rid := nextReservationId;
      ghost var oldSpots, oldRes := spots, reservations;
      spots := spots[sid := SpotRow(lotId, Occupied)];
      reservations := reservations[rid := ReservationRow(sid, userId, now, None, None)];
      nextReservationId := nextReservationId + 1;
      r := Ok(rid);
      assert rid in ActiveOfUser(reservations, userId);
      ReserveKeepsInvariant(oldSpots, oldRes, sid, rid, userId, now);
    }

    /** occupy_spot: re-stamps the start time of the user's active
        reservations (there is at most one) to `now`; nothing else changes,
        and nothing happens when there is none. */
    method Occupy(userId: Id, now: Time)
      requires Valid()
      modifies this
      ensures Valid()
      ensures users == old(users) && lots == old(lots) && spots == old(spots)
      ensures nextUserId == old(nextUserId) && nextLotId == old(nextLotId)
      ensures nextSpotId == old(nextSpotId) && nextReservationId == old(nextReservationId)
      ensures reservations.Keys == old(reservations).Keys
      ensures forall a :: a in reservations ==>
                reservations[a] == if IsActiveOf(old(reservations), a, userId)
                                   then old(reservations)[a].(parkingTime := now)
                                   else old(reservations)[a]
    {
      ghost var oldRes := reservations;
      reservations := map a | a in reservations ::
        if IsActiveOf(reservations, a, userId) then reservations[a].(parkingTime := now) else reservations[a];
      SameActivityKeepsInvariant(spots, oldRes, reservations);
    }

    /** release_spot: bills the user's active reservation for the time since
        its start, at the hourly price of the lot its spot belongs to, stamps
        the leaving time and the cost on it, and frees the spot. Without an
        active reservation nothing changes. */
    method Release(userId: Id, now: Time) returns (r: Result<int>)
      requires Valid()
      modifies this
      ensures Valid()
      ensures users == old(users) && lots == old(lots)
      ensures nextUserId == old(nextUserId) && nextLotId == old(nextLotId)
      ensures nextSpotId == old(nextSpotId) && nextReservationId == old(nextReservationId)
      ensures !HasActive(old(reservations), userId) ==>
                r == Err(NoActiveReservation) && unchanged(this)
      ensures HasActive(old(reservations), userId) ==> r.Ok?
      ensures forall a :: IsActiveOf(old(reservations), a, userId) ==>
                var row := old(reservations)[a];
                var cost := ParkingCost(now - row.parkingTime, old(lots)[old(spots)[row.spotId].lotId].pricePerHour);
                && r == Ok(cost)
                && reservations == old(reservations)[a := row.(leavingTime := Some(now), parkingCost := Some(cost))]
                && spots == old(spots)[row.spotId := old(spots)[row.spotId].(status := Available)]
      ensures !HasActive(reservations, userId)
    {
      if !HasActive(reservations, userId) {
        assert forall a :: IsActiveOf(reservations, a, userId) ==> a in ActiveOfUser(reservations, userId);
        return Err(NoActiveReservation);
      }
      var a :| a in ActiveOfUser(reservations, userId);
      var row := reservations[a];
      var price := lots[spots[row.spotId].lotId].pricePerHour;
      var cost := ParkingCost(now - row.parkingTime, price);
      ghost var oldSpots, oldRes := spots, reservations;
      reservations := reservations[a := row.(leavingTime := Some(now), parkingCost := Some(cost))];
      spots := spots[row.spotId := spots[row.spotId].(status := Available)];
      r := Ok(cost);
      ReleaseKeepsInvariant(oldSpots, oldRes, a, now, cost);
    }

    /** create_lot: inserts the lot, then `maxSpots` available spots of it
        one by one (none when `maxSpots` is not positive, as a range over it
        is empty). */
    method CreateLot(name: string, address: string, pinCode: string, pricePerHour: int,
                     maxSpots: int, now: Time) returns (lotId: Id)
      requires Valid()
      modifies this
      ensures Valid()
      ensures users == old(users) && reservations == old(reservations)
      ensures nextUserId == old(nextUserId) && nextReservationId == old(nextReservationId)
      ensures lotId == old(nextLotId) && lotId !in old(lots) && nextLotId == old(nextLotId) + 1
      ensures lots == old(lots)[lotId := LotRow(name, address, pinCode, pricePerHour, maxSpots, now)]
      ensures nextSpotId == old(nextSpotId) + (if maxSpots > 0 then maxSpots else 0)
      ensures forall s :: s in old(spots) ==> s in spots && spots[s] == old(spots)[s]
      ensures forall s :: s in spots && s !in old(spots) <==> old(nextSpotId) <= s < nextSpotId
      ensures forall s :: old(nextSpotId) <= s < nextSpotId ==> s in spots && spots[s] == SpotRow(lotId, Available)
      ensures |SpotsWithStatus(spots, lotId, Available)| == nextSpotId - old(nextSpotId)
      ensures SpotsWithStatus(spots, lotId, Occupied) == {}
    {
      lotId := nextLotId;
      lots := lots[lotId := LotRow(name, address, pinCode, pricePerHour, maxSpots, now)];
      nextLotId := nextLotId + 1;
      var count := if maxSpots > 0 then maxSpots else 0;
      InsertSpots(lotId, count);
      NewLotSpots(old(spots), spots, old(lots), lotId, old(nextSpotId), count);
    }

    /** The loop of create_lot: `count` INSERTs into the spot table, each an
        available spot of lot `lotId` under the next spot id. */
    method InsertSpots(lotId: Id, count: nat)
      requires Valid() && lotId in lots
      modifies this`spots, this`nextSpotId
      ensures Valid()
      ensures nextSpotId == old(nextSpotId) + count
      ensures forall s :: s in old(spots) ==> s in spots && spots[s] == old(spots)[s]
      ensures forall s :: s in spots && s !in old(spots) <==> old(nextSpotId) <= s < nextSpotId
      ensures forall s :: old(nextSpotId) <= s < nextSpotId ==> s in spots && spots[s] == SpotRow(lotId, Available)
    {
      var i := 0;
      while i < count
        invariant 0 <= i <= count
        invariant nextSpotId == old(nextSpotId) + i
        invariant forall s :: s in old(spots) ==> s in spots && spots[s] == old(spots)[s]
        invariant forall s :: s in spots && s !in old(spots) <==> old(nextSpotId) <= s < nextSpotId
        invariant forall s :: old(nextSpotId) <= s < nextSpotId ==> s in spots && spots[s] == SpotRow(lotId, Available)
        invariant Valid()
      {
        FreshSpotKeepsInvariant(spots, reservations, nextSpotId, lotId);
        spots := spots[nextSpotId := SpotRow(lotId, Available)];
        nextSpotId := nextSpotId + 1;
        i := i + 1;
      }
    }

    /** edit_lot: overwrites name, address, pin code and price of the lot;
        its spot count and spots stay as they are. An unknown id updates no
        row. */
    method EditLot(lotId: Id, name: string, address: string, pinCode: string, pricePerHour: int)
      requires Valid()
      modifies this
      ensures Valid()
      ensures users == old(users) && spots == old(spots) && reservations == old(reservations)
      ensures nextUserId == old(nextUserId) && nextLotId == old(nextLotId)
      ensures nextSpotId == old(nextSpotId) && nextReservationId == old(nextReservationId)
      ensures lotId !in old(lots) ==> lots == old(lots)
      ensures lotId in old(lots) ==>
                lots == old(lots)[lotId := old(lots)[lotId].(name := name, address := address,
                                                             pinCode := pinCode, pricePerHour := pricePerHour)]
    {
      if lotId in lots {
        lots := lots[lotId := lots[lotId].(name := name, address := address,
                                          pinCode := pinCode, pricePerHour := pricePerHour)];
      }
    }

    /** delete_lot: refuses while any spot of the lot is occupied; otherwise
        deletes the lot's spots and then the lot. Reservations, including
        historical ones on the deleted spots, are kept. */
    method DeleteLot(lotId: Id) returns (r: Result<()>)
      requires Valid()
      modifies this
      ensures Valid()
      ensures users == old(users) && reservations == old(reservations)
      ensures nextUserId == old(nextUserId) && nextLotId == old(nextLotId)
      ensures nextSpotId == old(nextSpotId) && nextReservationId == old(nextReservationId)
      ensures (exists s :: s in old(spots) && old(spots)[s].lotId == lotId && old(spots)[s].status == Occupied) ==>
                r == Err(LotOccupied) && unchanged(this)
      ensures (forall s :: s in old(spots) && old(spots)[s].lotId == lotId ==> old(spots)[s].status == Available) ==>
                && r == Ok(())
                && lots == old(lots) - {lotId}
                && spots.Keys == old(spots).Keys - SpotsOfLot(old(spots), lotId)
                && (forall s :: s in spots ==> spots[s] == old(spots)[s])
    {
      if exists s :: s in spots && spots[s].lotId == lotId && spots[s].status == Occupied {
        return Err(LotOccupied);
      }
      spots := map s | s in spots && spots[s].lotId != lotId :: spots[s];
      lots := lots - {lotId};
      r := Ok(());
    }

    /** admin_dashboard: for every lot, the number of its spots per status. */
    method SpotCounts() returns (counts: map<Id, map<SpotStatus, nat>>)
      ensures counts.Keys == lots.Keys
      ensures forall l :: l in counts ==> counts[l] == StatusCounts(spots, l)
    {
      counts := map[];
      var todo := lots.Keys;
      while todo != {}
        invariant todo <= lots.Keys
        invariant counts.Keys == lots.Keys - todo
        invariant forall l :: l in counts ==> counts[l] == StatusCounts(spots, l)
        decreases todo
      {
        var l :| l in todo;
        counts := counts[l := StatusCounts(spots, l)];
        todo := todo - {l};
      }
    }
  }

  /** A reserve step keeps the spot/reservation invariant: the chosen spot was
      available (so no active reservation held it), and the user had none. */
  lemma ReserveKeepsInvariant(spots: map<Id, SpotRow>, res: map<Id, ReservationRow>,
                              sid: Id, rid: Id, userId: Id, now: Time)
    requires ReservationInvariant(spots, res)
    requires sid in spots && spots[sid].status == Available
    requires rid !in res
    requires !HasActive(res, userId)
    ensures ReservationInvariant(spots[sid := spots[sid].(status := Occupied)],
                                 res[rid := ReservationRow(sid, userId, now, None, None)])
  {
    var spots', res' := spots[sid := spots[sid].(status := Occupied)],
                        res[rid := ReservationRow(sid, userId, now, None, None)];
    forall a | a in res && res[a].IsActive() ensures res[a].userId != userId && res[a].spotId != sid {
      assert a !in ActiveOfUser(res, userId);
    }
    forall s | s in spots' && spots'[s].status == Occupied
      ensures exists a :: a in res' && res'[a].IsActive() && res'[a].spotId == s
    {
      if s == sid {
        assert res'[rid].spotId == s;
      } else {
        var a :| a in res && res[a].IsActive() && res[a].spotId == s;
        assert res'[a] == res[a];
      }
    }
  }

  /** A release step keeps the spot/reservation invariant: the reservation
      that ends was the only active one on its spot. */
  lemma ReleaseKeepsInvariant(spots: map<Id, SpotRow>, res: map<Id, ReservationRow>,
                              a: Id, now: Time, cost: int)
    requires ReservationInvariant(spots, res)
    requires a in res && res[a].IsActive()
    ensures var row := res[a];
            ReservationInvariant(spots[row.spotId := spots[row.spotId].(status := Available)],
                                 res[a := row.(leavingTime := Some(now), parkingCost := Some(cost))])
  {
    var row := res[a];
    var spots', res' := spots[row.spotId := spots[row.spotId].(status := Available)],
                        res[a := row.(leavingTime := Some(now), parkingCost := Some(cost))];
    forall s | s in spots' && spots'[s].status == Occupied
      ensures exists b :: b in res' && res'[b].IsActive() && res'[b].spotId == s
    {
      var b :| b in res && res[b].IsActive() && res[b].spotId == s;
      assert b != a;
      assert res'[b] == res[b];
    }
  }

  /** Changing reservation rows in ways that keep their spot, their user and
      whether they are active keeps the spot/reservation invariant. */
  lemma SameActivityKeepsInvariant(spots: map<Id, SpotRow>, res: map<Id, ReservationRow>,
                                   res': map<Id, ReservationRow>)
    requires ReservationInvariant(spots, res)
    requires res'.Keys == res.Keys
    requires forall a :: a in res ==>
               res'[a].IsActive() == res[a].IsActive() && res'[a].spotId == res[a].spotId
               && res'[a].userId == res[a].userId
    ensures ReservationInvariant(spots, res')
  {
    forall s | s in spots && spots[s].status == Occupied
      ensures exists a :: a in res' && res'[a].IsActive() && res'[a].spotId == s
    {
      var a :| a in res && res[a].IsActive() && res[a].spotId == s;
      assert res'[a].IsActive() && res'[a].spotId == s;
    }
  }

  /** Adding an available spot under an id no reservation refers to keeps
      the spot/reservation invariant. */
  lemma FreshSpotKeepsInvariant(spots: map<Id, SpotRow>, res: map<Id, ReservationRow>, s: Id, lotId: Id)
    requires ReservationInvariant(spots, res)
    requires forall a :: a in res ==> res[a].spotId != s
    ensures ReservationInvariant(spots[s := SpotRow(lotId, Available)], res)
  {
  }

  /** The spots of a lot id no earlier spot belonged to are exactly the
      available spots just inserted for it under consecutive ids. */
  lemma NewLotSpots(before: map<Id, SpotRow>, after: map<Id, SpotRow>, lots: map<Id, LotRow>,
                    lotId: Id, lo: Id, n: nat)
    requires lotId !in lots
    requires forall s :: s in before ==> before[s].lotId in lots
    requires forall s :: s in before ==> s in after && after[s] == before[s]
    requires forall s :: s in after && s !in before <==> lo <= s < lo + n
    requires forall s :: lo <= s < lo + n ==> s in after && after[s] == SpotRow(lotId, Available)
    ensures SpotsWithStatus(after, lotId, Available) == IdRange(lo, n)
    ensures SpotsWithStatus(after, lotId, Occupied) == {}
  {
  }
}
