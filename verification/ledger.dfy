/**
  The rental ledger: the two allocation paths (`rent_account`, `create_rental`),
  the active-rental lookup (`get_rental_info`) and the remaining-time report
  (`get_remaining_time`).
 */
module Ledger {

  import opened Wrappers
  import opened Tables

  /** `start + timedelta(hours=hours)`, in seconds. */
  function LeaseEnd(start: Time, hours: int): Time {
    start + hours * SecondsPerHour
  }

  /** The availability check both allocation paths make: the row exists and `is_rented` is false. */
  predicate CanRent(db: Db, accountId: int) {
    HasRow(db.accounts, accountId) && !db.accounts[accountId - 1].isRented
  }

  /**
    The account and rental changes an allocation makes: the account is stamped
    with the renter and the window [now, now + hours], one active rental with
    the same account, renter, window and duration is appended, and no other
    account, rental, bonus or notification changes.
   */
  predicate Allocated(db: Db, db': Db, accountId: int, renter: string, hours: int, now: Time) {
    && HasRow(db.accounts, accountId)
    && |db'.accounts| == |db.accounts|
    && (forall i :: 0 <= i < |db.accounts| && i != accountId - 1 ==> db'.accounts[i] == db.accounts[i])
    && db'.accounts[accountId - 1].username == db.accounts[accountId - 1].username
    && db'.accounts[accountId - 1].password == db.accounts[accountId - 1].password
    && db'.accounts[accountId - 1].game == db.accounts[accountId - 1].game
    && db'.accounts[accountId - 1].isRented
    && db'.accounts[accountId - 1].renter == Some(renter)
    && db'.accounts[accountId - 1].rentalStart == Some(now)
    && db'.accounts[accountId - 1].rentalEnd == Some(LeaseEnd(now, hours))
    && db'.rentals == db.rentals + [Rental(accountId, renter, now, LeaseEnd(now, hours), hours, Active)]
    && db'.bonuses == db.bonuses
    && db'.notifications == db.notifications
  }

  /** The writes both allocation paths make once the availability check has passed. */
  function Allocate(db: Db, accountId: int, renter: string, hours: int, now: Time): (r: Db)
    requires CanRent(db, accountId)
    ensures Allocated(db, r, accountId, renter, hours, now)
    ensures r.history == db.history
  {
    var end := LeaseEnd(now, hours);
    var a := db.accounts[accountId - 1];
    db.(accounts := db.accounts[accountId - 1 := a.(isRented := true, renter := Some(renter),
                                                      rentalStart := Some(now), rentalEnd := Some(end))],
        rentals := db.rentals + [Rental(accountId, renter, now, end, hours, Active)])
  }

  /**
    `rent_account`: False and no change when the account does not exist or is
    already rented; otherwise the allocation plus exactly one `rental_start`
    history entry for the renter, and True.
   */
  function RentAccount(db: Db, accountId: int, renter: string, hours: int, now: Time): (r: (Db, bool))
    ensures r.1 <==> CanRent(db, accountId)
    ensures !r.1 ==> r.0 == db
    ensures r.1 ==> Allocated(db, r.0, accountId, renter, hours, now)
    ensures r.1 ==> r.0.history == db.history + [HistoryEntry(renter, RentalStart(hours))]
  {
    if !CanRent(db, accountId) then (db, false)
    else
      var db' := Allocate(db, accountId, renter, hours, now);
      (db'.(history := db'.history + [HistoryEntry(renter, RentalStart(hours))]), true)
  }

  /**
    `create_rental`: the same check and the same account and rental changes as
    `rent_account`, but no history entry.
   */
  function CreateRental(db: Db, accountId: int, renter: string, hours: int, now: Time): (r: (Db, bool))
    ensures r.1 <==> CanRent(db, accountId)
    ensures !r.1 ==> r.0 == db
    ensures r.1 ==> Allocated(db, r.0, accountId, renter, hours, now)
    ensures r.1 ==> r.0.history == db.history
  {
    if !CanRent(db, accountId) then (db, false)
    else (Allocate(db, accountId, renter, hours, now), true)
  }

  /** The two allocation paths differ only in the history entry. */
  lemma CreateRentalIsRentWithoutHistory(db: Db, accountId: int, renter: string, hours: int, now: Time)
    ensures CreateRental(db, accountId, renter, hours, now).1 == RentAccount(db, accountId, renter, hours, now).1
    ensures CreateRental(db, accountId, renter, hours, now).0
         == RentAccount(db, accountId, renter, hours, now).0.(history := db.history)
  {
  }

  /** Once an account is allocated, every further allocation of it, by either path, is refused and changes nothing. */
  lemma AllocatedAccountIsRefused(db: Db, accountId: int, renter: string, hours: int, now: Time,
                                  other: string, hours': int, now': Time)
    requires RentAccount(db, accountId, renter, hours, now).1 || CreateRental(db, accountId, renter, hours, now).1
    ensures var db' := if RentAccount(db, accountId, renter, hours, now).1
                       then RentAccount(db, accountId, renter, hours, now).0
                       else CreateRental(db, accountId, renter, hours, now).0;
      && RentAccount(db', accountId, other, hours', now') == (db', false)
      && CreateRental(db', accountId, other, hours', now') == (db', false)
  {
  }

  predicate IsActive(r: Rental) { r.status == Active }

  /** `get_active_rentals`, and `active_rentals` in `get_detailed_stats`. */
  function ActiveRentals(db: Db): (n: nat)
    ensures n <= |db.rentals|
    ensures n == 0 <==> forall j :: 0 <= j < |db.rentals| ==> db.rentals[j].status == Expired
  {
    Count(db.rentals, IsActive)
  }

  /** What `get_rental_info` reports about a rental: its account's name and game and its window. */
  datatype RentalInfo = RentalInfo(username: string, game: string, startTime: Time, endTime: Time, hours: int)

  /** Rental `j` is an active rental of `renter` whose account row exists: a row of the JOIN in `get_rental_info`. */
  predicate IsActiveLeaseOf(db: Db, renter: string, j: int) {
    && 0 <= j < |db.rentals|
    && db.rentals[j].renter == renter
    && db.rentals[j].status == Active
    && HasRow(db.accounts, db.rentals[j].accountId)
  }

  function InfoOf(db: Db, j: int): RentalInfo
    requires 0 <= j < |db.rentals| && HasRow(db.accounts, db.rentals[j].accountId)
  {
    var r := db.rentals[j];
    var a := db.accounts[r.accountId - 1];
    RentalInfo(a.username, a.game, r.startTime, r.endTime, r.hours)
  }

  /**
    Among the first `n` rentals, the renter's active rental with the latest end
    (the first of them on a tie, which SQL leaves open).
   */
  function LatestLease(db: Db, renter: string, n: nat): (r: Option<nat>)
    requires n <= |db.rentals|
    ensures r.None? <==> forall j :: 0 <= j < n ==> !IsActiveLeaseOf(db, renter, j)
    ensures r.Some? ==> r.value < n && IsActiveLeaseOf(db, renter, r.value)
    ensures r.Some? ==> forall j :: 0 <= j < n && IsActiveLeaseOf(db, renter, j) ==>
                          db.rentals[j].endTime <= db.rentals[r.value].endTime
  {
    if n == 0 then None
    else
      var best := LatestLease(db, renter, n - 1);
      if IsActiveLeaseOf(db, renter, n - 1)
         && (best.None? || db.rentals[best.value].endTime < db.rentals[n - 1].endTime)
      then Some(n - 1)
      else best
  }

  /**
    `get_rental_info`: None exactly when the renter has no active rental;
    otherwise one of the renter's active rentals, with the latest end time.
   */
  function GetRentalInfo(db: Db, renter: string): (r: Option<RentalInfo>)
    ensures r.None? <==> forall j :: !IsActiveLeaseOf(db, renter, j)
    ensures r.Some? ==> exists j :: IsActiveLeaseOf(db, renter, j) && r.value == InfoOf(db, j)
    ensures r.Some? ==> forall j :: IsActiveLeaseOf(db, renter, j) ==> db.rentals[j].endTime <= r.value.endTime
  {
    match LatestLease(db, renter, |db.rentals|)
    case None => None
    case Some(j) => Some(InfoOf(db, j))
  }

  /** The outcomes of `get_remaining_time`, without their display text. */
  datatype TimeLeft = NoActiveRental | TimeUp | Left(hours: nat, minutes: nat)

  /** `hours` and `minutes` are the whole hours and the leftover whole minutes of `remaining` seconds. */
  predicate SplitsRemaining(remaining: int, hours: nat, minutes: nat) {
    && remaining > 0
    && minutes < 60
    && hours * SecondsPerHour + minutes * SecondsPerMinute <= remaining
    && remaining < hours * SecondsPerHour + minutes * SecondsPerMinute + SecondsPerMinute
  }

  /**
    `get_remaining_time`: no active rental; expired once `now` has reached the
    end of the latest active rental (whether or not the sweep has run); else
    the time still left, in whole hours and minutes.
   */
  function GetRemainingTime(db: Db, renter: string, now: Time): (r: TimeLeft)
    ensures r.NoActiveRental? <==> GetRentalInfo(db, renter).None?
    ensures r.TimeUp? <==> GetRentalInfo(db, renter).Some? && now >= GetRentalInfo(db, renter).value.endTime
    ensures r.Left? ==> SplitsRemaining(GetRentalInfo(db, renter).value.endTime - now, r.hours, r.minutes)
  {
    match GetRentalInfo(db, renter)
    case None => NoActiveRental
    case Some(info) =>
      if now >= info.endTime then TimeUp
      else
        var remaining := info.endTime - now;
        Left(remaining / SecondsPerHour, remaining % SecondsPerHour / SecondsPerMinute)
  }

  /** Whole minutes a report promises; none when there is no rental or it is over. */
  function MinutesLeft(t: TimeLeft): nat {
    if t.Left? then t.hours * 60 + t.minutes else 0
  }

  /** As the clock advances the reported time left never grows. */
  lemma RemainingTimeNonIncreasing(db: Db, renter: string, t1: Time, t2: Time)
    requires t1 <= t2
    ensures MinutesLeft(GetRemainingTime(db, renter, t2)) <= MinutesLeft(GetRemainingTime(db, renter, t1))
    ensures GetRemainingTime(db, renter, t1).TimeUp? ==> GetRemainingTime(db, renter, t2).TimeUp?
  {
  }

  /**
    A renter with no other active rental who rents for a positive number of
    hours, and asks at the very instant of renting, is told exactly that many
    hours and no minutes.
   */
  lemma FreshRentalReportsFullTime(db: Db, accountId: int, renter: string, hours: int, now: Time)
    requires RentAccount(db, accountId, renter, hours, now).1
    requires GetRentalInfo(db, renter).None?
    requires hours > 0
    ensures var db' := RentAccount(db, accountId, renter, hours, now).0;
      && GetRentalInfo(db', renter)
         == Some(RentalInfo(db.accounts[accountId - 1].username, db.accounts[accountId - 1].game,
                            now, LeaseEnd(now, hours), hours))
      && GetRemainingTime(db', renter, now) == Left(hours, 0)
  {
    var db' := RentAccount(db, accountId, renter, hours, now).0;
    var n := |db.rentals|;
    assert IsActiveLeaseOf(db', renter, n);
    forall j | 0 <= j < n
      ensures !IsActiveLeaseOf(db', renter, j)
    {
      assert db'.rentals[j] == db.rentals[j] && !IsActiveLeaseOf(db, renter, j);
    }
  }

  /**
    The same renter asking at any later moment of the first minute, as the
    code's second reading of the clock always is, is told one hour less and
    59 minutes.
   */
  lemma FreshRentalFirstMinute(db: Db, accountId: int, renter: string, hours: int, now: Time, t: Time)
    requires RentAccount(db, accountId, renter, hours, now).1
    requires GetRentalInfo(db, renter).None?
    requires hours > 0
    requires now < t <= now + SecondsPerMinute
    ensures GetRemainingTime(RentAccount(db, accountId, renter, hours, now).0, renter, t) == Left(hours - 1, 59)
  {
    FreshRentalReportsFullTime(db, accountId, renter, hours, now);
    var remaining := LeaseEnd(now, hours) - t;
    assert (hours - 1) * SecondsPerHour + 59 * SecondsPerMinute <= remaining < hours * SecondsPerHour;
  }
}
