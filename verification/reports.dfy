/**
  The administrator's `get_detailed_stats` report, restricted to the figures
  that do not depend on the users table.
 */
module Reports {

  import opened Tables
  import opened Inventory
  import opened Ledger
  import opened Sweeper
  import opened Exclusivity
  import Lifecycle

  const SecondsPerDay: int := 86400

  /** SQLite's `DATE(...)`, as a day number on the model's one clock. */
  function Day(t: Time): int {
    t / SecondsPerDay
  }

  /** The text the code stores in `rentals.status`. */
  function StatusText(s: Status): string {
    match s
    case Active => "active"
    case Expired => "expired"
  }

  /** Rentals whose status text is `status` and whose end falls on `day`. */
  function EndedOn(status: string, day: int): Rental -> bool {
    (r: Rental) => StatusText(r.status) == status && Day(r.endTime) == day
  }

  /** `completed_today` as the code computes it: rentals with status "completed" that end today. */
  function CompletedTodayAsWritten(db: Db, now: Time): nat {
    Count(db.rentals, EndedOn("completed", Day(now)))
  }

  /** No rental ever carries the status "completed", so the figure is always zero. */
  lemma CompletedTodayAlwaysZero(db: Db, now: Time)
    ensures CompletedTodayAsWritten(db, now) == 0
  {
  }

  /** `completed_today` counting the status the sweep actually writes. */
  function CompletedToday(db: Db, now: Time): nat {
    Count(db.rentals, EndedOn("expired", Day(now)))
  }

  /**
    A rental that ended earlier today and is reclaimed by the sweep is counted
    by the corrected figure, while the figure as written still reports zero.
   */
  lemma SweptTodayIsCounted(db: Db, now: Time, j: nat)
    requires j < |db.rentals| && Lapsed(db.rentals[j], now) && Day(db.rentals[j].endTime) == Day(now)
    ensures CompletedToday(EndExpiredRentals(db, now).0, now) >= 1
    ensures CompletedTodayAsWritten(EndExpiredRentals(db, now).0, now) == 0
  {
    var db' := EndExpiredRentals(db, now).0;
    SweepRentals(db, now);
    assert EndedOn("expired", Day(now))(db'.rentals[j]);
    CompletedTodayAlwaysZero(db', now);
  }

  /** Finished rentals ending today are among the rentals that are not active. */
  lemma CompletedTodayAmongInactive(db: Db, now: Time)
    ensures CompletedToday(db, now) + ActiveRentals(db) <= |db.rentals|
  {
    var isExpired := (r: Rental) => r.status == Expired;
    var any := (r: Rental) => true;
    CountSplit(db.rentals, any, IsActive, isExpired);
    CountMonotone(db.rentals, EndedOn("expired", Day(now)), isExpired);
  }

  datatype DetailedStats = DetailedStats(accounts: AccountStats, activeRentals: nat, completedToday: nat)

  /** The account and rental figures of `get_detailed_stats`, with `completed_today` corrected. */
  function GetDetailedStats(db: Db, now: Time): (s: DetailedStats)
    ensures s.accounts.available + s.accounts.rented == s.accounts.total
    ensures Consistent(db) ==> s.activeRentals == s.accounts.rented
    ensures s.completedToday + s.activeRentals <= |db.rentals|
  {
    CompletedTodayAmongInactive(db, now);
    var stats := DetailedStats(AccountStatsOf(db), ActiveRentals(db), CompletedToday(db, now));
    if Consistent(db) then Lifecycle.RentedEqualsActiveRentals(db); stats else stats
  }
}
