/** Client walks through the store, using nothing but the handlers' contracts:
    what a caller can conclude about a sequence of requests. */
module Scenarios {
  import opened Tables
  import opened Billing
  import opened Store

  /** The last available spot of a lot: the first user gets it, a second
      user is turned away, and the first user cannot reserve a second time. */
  method LastSpotScenario(store: ParkingStore, lot: Id)
    requires store.Valid()
    requires store.spots == map[1 := SpotRow(lot, Available)]
    requires !HasActive(store.reservations, 7) && !HasActive(store.reservations, 8)
    modifies store
  {
    assert IsAvailableIn(store.spots, lot, 1);
    var first := store.Reserve(7, lot, 100);
    assert first.Ok?;
    assert store.spots[1].status == Occupied && store.spots.Keys == {1};
    assert forall s :: s in store.spots ==> !IsAvailableIn(store.spots, lot, s);
    var second := store.Reserve(8, lot, 100);
    assert second == Err(NoAvailableSpot);
    var again := store.Reserve(7, lot, 200);
    assert again == Err(AlreadyActive);
  }

  /** Releasing a reservation that started at 100 s after 61 minutes at price
      10 costs 20 and frees the spot; a second release finds nothing. */
  method ReleaseScenario(store: ParkingStore, lot: Id)
    requires store.Valid()
    requires 1 in store.spots && store.spots[1].lotId == lot
    requires lot in store.lots && store.lots[lot].pricePerHour == 10
    requires 1 in store.reservations && store.reservations[1] == ReservationRow(1, 7, 100, None, None)
    modifies store
  {
    assert IsActiveOf(store.reservations, 1, 7);
    var cost := store.Release(7, 100 + 61 * 60);
    assert cost == Ok(ParkingCost(61 * 60, 10));
    assert BilledHours(61 * 60) == 2;
    assert cost == Ok(20);
    assert store.spots[1].status == Available;
    var twice := store.Release(7, 100 + 62 * 60);
    assert twice == Err(NoActiveReservation);
  }

  /** A lot with an occupied spot cannot be deleted. */
  method OccupiedLotScenario()
  {
    var store := new ParkingStore();
    var lot := store.CreateLot("Market", "Bazaar Street", "500002", 5, 2, 0);
    ghost var before := store.spots;
    assert IsLowestAvailable(before, lot, 1);
    var reserved := store.Reserve(3, lot, 0);
    assert reserved.Ok?;
    ghost var sid :| IsLowestAvailable(before, lot, sid) && store.spots == before[sid := SpotRow(lot, Occupied)];
    LowestAvailableUnique(before, lot, sid, 1);
    assert store.spots[1].status == Occupied;
    var deleted := store.DeleteLot(lot);
    assert deleted == Err(LotOccupied);
  }

  /** A second registration under a taken username is refused. */
  method DuplicateUsernameScenario()
  {
    var store := new ParkingStore();
    var ann := store.Register("Ann", "ann", "pw");
    assert ann == Ok(1);
    assert store.users[1].username == "ann";
    var bob := store.Register("Bob", "ann", "pw2");
    assert bob == Err(DuplicateUsername);
    assert store.users.Keys == {1} && store.users[1].fullName == "Ann";
  }
}
