/**
  The exclusivity invariant of the lease lifecycle: an account is marked
  rented exactly when one active rental references it, and then it carries
  that rental's renter and window. Every operation that touches the account
  or rental table preserves it.
 */
module Exclusivity {

  import opened Wrappers
  import opened Tables
  import opened Inventory
  import opened Ledger
  import opened Sweeper

  /** Rental `r` is active and holds account `id`. */
  predicate Holds(r: Rental, id: int) {
    r.status == Active && r.accountId == id
  }

  function ActiveOn(id: int): Rental -> bool {
    (r: Rental) => Holds(r, id)
  }

  /** Account `a` is marked rented with `r`'s renter and window. */
  predicate StampedBy(a: Account, r: Rental) {
    && a.isRented
    && a.renter == Some(r.renter)
    && a.rentalStart == Some(r.startTime)
    && a.rentalEnd == Some(r.endTime)
  }

  /** The account row with id `id`. */
  function AccountOf(db: Db, id: int): Account
    requires HasRow(db.accounts, id)
  {
    db.accounts[id - 1]
  }

  /** Every rental references an existing account. */
  predicate RefsValid(db: Db) {
    forall j :: 0 <= j < |db.rentals| ==> HasRow(db.accounts, db.rentals[j].accountId)
  }

  /** No account is held by two active rentals. */
  predicate NoDoubleLease(db: Db) {
    forall j, k :: 0 <= j < |db.rentals| && 0 <= k < |db.rentals| && j != k
      && db.rentals[j].status == Active && db.rentals[k].status == Active
      ==> db.rentals[j].accountId != db.rentals[k].accountId
  }

  /** The account of an active rental is stamped by it. */
  predicate ActiveStamped(db: Db) {
    forall j :: 0 <= j < |db.rentals| && db.rentals[j].status == Active ==>
      HasRow(db.accounts, db.rentals[j].accountId)
      && StampedBy(AccountOf(db, db.rentals[j].accountId), db.rentals[j])
  }

  /** A rented account is held by some active rental. */
  predicate RentedHeld(db: Db) {
    forall id :: 1 <= id <= |db.accounts| && AccountOf(db, id).isRented ==>
      exists j :: 0 <= j < |db.rentals| && Holds(db.rentals[j], id)
  }

  /** A free account carries no renter and no window. */
  predicate FreeClear(db: Db) {
    forall id :: 1 <= id <= |db.accounts| && !AccountOf(db, id).isRented ==> AccountOf(db, id) == Free(AccountOf(db, id))
  }

  predicate Consistent(db: Db) {
    RefsValid(db) && NoDoubleLease(db) && ActiveStamped(db) && RentedHeld(db) && FreeClear(db)
  }

  /** The invariant in the words of the rentals table: a rented account has exactly one active rental, a free one none. */
  lemma ExactlyOneActiveRental(db: Db, id: int)
    requires Consistent(db) && HasRow(db.accounts, id)
    ensures Count(db.rentals, ActiveOn(id)) <= 1
    ensures AccountOf(db, id).isRented <==> Count(db.rentals, ActiveOn(id)) == 1
  {
    CountAtMostOne(db.rentals, ActiveOn(id));
    if AccountOf(db, id).isRented {
      var j :| 0 <= j < |db.rentals| && Holds(db.rentals[j], id);
      assert ActiveOn(id)(db.rentals[j]);
    }
    if Count(db.rentals, ActiveOn(id)) == 1 {
      var j :| 0 <= j < |db.rentals| && ActiveOn(id)(db.rentals[j]);
      assert StampedBy(AccountOf(db, db.rentals[j].accountId), db.rentals[j]);
    }
  }

  lemma EmptyDbConsistent()
    ensures Consistent(EmptyDb)
  {
  }

  /** A new account is free, so it cannot break the invariant. */
  lemma AddSteamAccountPreserves(db: Db, username: string, password: string, game: string)
    requires Consistent(db)
    ensures Consistent(AddSteamAccount(db, username, password, game).0)
  {
    var (db', newId) := AddSteamAccount(db, username, password, game);
    assert db'.rentals == db.rentals;
    assert forall id :: HasRow(db.accounts, id) ==> AccountOf(db', id) == AccountOf(db, id);
    assert !AccountOf(db', newId).isRented && AccountOf(db', newId) == Free(AccountOf(db', newId));
    assert RefsValid(db');
    assert ActiveStamped(db');
    assert RentedHeld(db');
    assert FreeClear(db');
  }

  /** Before an allocation passes its check, no active rental holds the account. */
  lemma NoActiveLeaseOnFreeAccount(db: Db, accountId: int)
    requires ActiveStamped(db) && CanRent(db, accountId)
    ensures forall j :: 0 <= j < |db.rentals| && db.rentals[j].status == Active ==> db.rentals[j].accountId != accountId
  {
  }

  /** Any allocation of an account that passed the availability check preserves the invariant. */
  lemma AllocationPreserves(db: Db, db': Db, accountId: int, renter: string, hours: int, now: Time)
    requires Consistent(db) && CanRent(db, accountId)
    requires Allocated(db, db', accountId, renter, hours, now)
    ensures Consistent(db')
  {
    var n := |db.rentals|;
    var lease := Rental(accountId, renter, now, LeaseEnd(now, hours), hours, Active);
    assert db'.rentals[n] == lease;
    assert forall j :: 0 <= j < n ==> db'.rentals[j] == db.rentals[j];
    assert forall id :: HasRow(db.accounts, id) && id != accountId ==> AccountOf(db', id) == AccountOf(db, id);
    assert StampedBy(AccountOf(db', accountId), lease);
    NoActiveLeaseOnFreeAccount(db, accountId);
    assert RefsValid(db');
    assert NoDoubleLease(db');
    assert ActiveStamped(db');
    assert RentedHeld(db') by {
      forall id | 1 <= id <= |db'.accounts| && AccountOf(db', id).isRented
        ensures exists j :: 0 <= j < |db'.rentals| && Holds(db'.rentals[j], id)
      {
        if id == accountId {
          assert Holds(db'.rentals[n], id);
        } else {
          assert AccountOf(db, id).isRented;
          var j :| 0 <= j < n && Holds(db.rentals[j], id);
          assert Holds(db'.rentals[j], id);
        }
      }
    }
    assert FreeClear(db');
  }

  lemma RentAccountPreserves(db: Db, accountId: int, renter: string, hours: int, now: Time)
    requires Consistent(db)
    ensures Consistent(RentAccount(db, accountId, renter, hours, now).0)
  {
    if CanRent(db, accountId) {
      AllocationPreserves(db, RentAccount(db, accountId, renter, hours, now).0, accountId, renter, hours, now);
    }
  }

  lemma CreateRentalPreserves(db: Db, accountId: int, renter: string, hours: int, now: Time)
    requires Consistent(db)
    ensures Consistent(CreateRental(db, accountId, renter, hours, now).0)
  {
    if CanRent(db, accountId) {
      AllocationPreserves(db, CreateRental(db, accountId, renter, hours, now).0, accountId, renter, hours, now);
    }
  }

  /** How the reference sweep changes one account row. */
  lemma SweptAccount(db: Db, now: Time, id: int)
    requires HasRow(db.accounts, id)
    ensures HasRow(SweptDb(db, now).accounts, id)
    ensures AccountOf(SweptDb(db, now), id)
         == if HasLapsedLease(db.rentals, now, id) then Free(AccountOf(db, id)) else AccountOf(db, id)
  {
  }

  lemma SweptRefsValid(db: Db, now: Time)
    requires RefsValid(db)
    ensures RefsValid(SweptDb(db, now))
  {
  }

  lemma SweptNoDoubleLease(db: Db, now: Time)
    requires NoDoubleLease(db)
    ensures NoDoubleLease(SweptDb(db, now))
  {
  }

  /** A rental that survives the sweep keeps its account stamped: no other active rental held it. */
  lemma SweptActiveStamped(db: Db, now: Time)
    requires NoDoubleLease(db) && ActiveStamped(db)
    ensures ActiveStamped(SweptDb(db, now))
  {
  }

  /** An account the sweep leaves rented is still held by a rental the sweep left active. */
  lemma SweptRentedHeld(db: Db, now: Time)
    requires RentedHeld(db)
    ensures RentedHeld(SweptDb(db, now))
  {
    var db' := SweptDb(db, now);
    forall id | 1 <= id <= |db'.accounts| && AccountOf(db', id).isRented
      ensures exists j :: 0 <= j < |db'.rentals| && Holds(db'.rentals[j], id)
    {
      SweptAccount(db, now, id);
      assert !HasLapsedLease(db.rentals, now, id);
      var j :| 0 <= j < |db.rentals| && Holds(db.rentals[j], id);
      assert !Lapsed(db.rentals[j], now);
      assert Holds(db'.rentals[j], id);
    }
  }

  lemma SweptFreeClear(db: Db, now: Time)
    requires FreeClear(db)
    ensures FreeClear(SweptDb(db, now))
  {
    var db' := SweptDb(db, now);
    forall id | 1 <= id <= |db'.accounts| && !AccountOf(db', id).isRented
      ensures AccountOf(db', id) == Free(AccountOf(db', id))
    {
      SweptAccount(db, now, id);
    }
  }

  /** The sweep preserves the invariant: each lapsed rental frees the one account it alone held. */
  lemma SweepPreserves(db: Db, now: Time)
    requires Consistent(db)
    ensures Consistent(EndExpiredRentals(db, now).0)
  {
    SweepEffect(db, now);
    SweptRefsValid(db, now);
    SweptNoDoubleLease(db, now);
    SweptActiveStamped(db, now);
    SweptRentedHeld(db, now);
    SweptFreeClear(db, now);
  }

  /** Operations that touch neither accounts nor rentals cannot break the invariant. */
  lemma LedgerUntouchedPreserves(db: Db, db': Db)
    requires Consistent(db)
    requires db'.accounts == db.accounts && db'.rentals == db.rentals
    ensures Consistent(db')
  {
    assert forall id :: HasRow(db.accounts, id) ==> AccountOf(db', id) == AccountOf(db, id);
  }
}
