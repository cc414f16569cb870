/**
  Facts that relate several operations of the lease lifecycle: what the
  counting queries report before and after an allocation or a sweep, and
  what each renter finds in the history and the notifications.
 */
module Lifecycle {

  import opened Tables
  import opened Inventory
  import opened Ledger
  import opened Sweeper
  import opened Exclusivity
  import Outbox

  /** Active rentals on accounts with ids 1..n. */
  function ActiveUpTo(n: int): Rental -> bool {
    (r: Rental) => r.status == Active && 1 <= r.accountId <= n
  }

  /** Active rentals per account, summed over the accounts with ids 1..n. */
  function SumActive(rentals: seq<Rental>, n: nat): nat {
    if n == 0 then 0 else SumActive(rentals, n - 1) + Count(rentals, ActiveOn(n))
  }

  lemma {:induction false} SumActiveCounts(rentals: seq<Rental>, n: nat)
    ensures SumActive(rentals, n) == Count(rentals, ActiveUpTo(n))
  {
    if n > 0 {
      SumActiveCounts(rentals, n - 1);
      CountSplit(rentals, ActiveUpTo(n), ActiveUpTo(n - 1), ActiveOn(n));
    }
  }

  lemma {:induction false} SumActiveIsRented(db: Db, n: nat)
    requires Consistent(db) && n <= |db.accounts|
    ensures SumActive(db.rentals, n) == Count(db.accounts[..n], IsRented)
  {
    if n > 0 {
      SumActiveIsRented(db, n - 1);
      ExactlyOneActiveRental(db, n);
      assert db.accounts[..n][..n - 1] == db.accounts[..n - 1];
    }
  }

  /**
    Under the invariant the two counts `get_detailed_stats` reports side by
    side agree: rented accounts and active rentals are equally many.
   */
  lemma RentedEqualsActiveRentals(db: Db)
    requires Consistent(db)
    ensures RentedAccounts(db) == ActiveRentals(db)
  {
    SumActiveIsRented(db, |db.accounts|);
    SumActiveCounts(db.rentals, |db.accounts|);
    assert db.accounts[..|db.accounts|] == db.accounts;
    CountSame(db.rentals, ActiveUpTo(|db.accounts|), db.rentals, IsActive);
  }

  /**
    A successful allocation, by either path, takes one account of its game out
    of the available counts and adds one rented account and one active rental.
   */
  lemma AllocationCounts(db: Db, db': Db, accountId: int, renter: string, hours: int, now: Time, g: string)
    requires CanRent(db, accountId)
    requires Allocated(db, db', accountId, renter, hours, now)
    ensures AvailableAccounts(db') == AvailableAccounts(db) - 1
    ensures RentedAccounts(db') == RentedAccounts(db) + 1
    ensures ActiveRentals(db') == ActiveRentals(db) + 1
    ensures AccountsCountByGame(db', g)
         == AccountsCountByGame(db, g) - (if db.accounts[accountId - 1].game == g then 1 else 0)
  {
    var i := accountId - 1;
    assert db'.accounts == db.accounts[i := db'.accounts[i]];
    CountUpdate(db.accounts, i, db'.accounts[i], IsAvailable);
    CountUpdate(db.accounts, i, db'.accounts[i], IsRented);
    CountUpdate(db.accounts, i, db'.accounts[i], AvailableFor(g));
    var lease := Rental(accountId, renter, now, LeaseEnd(now, hours), hours, Active);
    CountAppend(db.rentals, [lease], IsActive);
    assert [lease][..0] == [];
  }

  lemma RentAccountCounts(db: Db, accountId: int, renter: string, hours: int, now: Time, g: string)
    requires RentAccount(db, accountId, renter, hours, now).1
    ensures var db' := RentAccount(db, accountId, renter, hours, now).0;
      && AvailableAccounts(db') == AvailableAccounts(db) - 1
      && RentedAccounts(db') == RentedAccounts(db) + 1
      && ActiveRentals(db') == ActiveRentals(db) + 1
      && AccountsCountByGame(db', g)
         == AccountsCountByGame(db, g) - (if db.accounts[accountId - 1].game == g then 1 else 0)
  {
    AllocationCounts(db, RentAccount(db, accountId, renter, hours, now).0, accountId, renter, hours, now, g);
  }

  lemma CreateRentalCounts(db: Db, accountId: int, renter: string, hours: int, now: Time, g: string)
    requires CreateRental(db, accountId, renter, hours, now).1
    ensures var db' := CreateRental(db, accountId, renter, hours, now).0;
      && AvailableAccounts(db') == AvailableAccounts(db) - 1
      && RentedAccounts(db') == RentedAccounts(db) + 1
      && ActiveRentals(db') == ActiveRentals(db) + 1
      && AccountsCountByGame(db', g)
         == AccountsCountByGame(db, g) - (if db.accounts[accountId - 1].game == g then 1 else 0)
  {
    AllocationCounts(db, CreateRental(db, accountId, renter, hours, now).0, accountId, renter, hours, now, g);
  }

  /** Active rentals the sweep at `now` leaves alone. */
  function ActiveAfter(now: Time): Rental -> bool {
    (r: Rental) => r.status == Active && !(r.endTime < now)
  }

  /**
    Under the invariant a sweep that reclaims `n` rentals makes `n` more
    accounts available, `n` fewer rented and `n` fewer rentals active.
   */
  lemma SweepCounts(db: Db, now: Time)
    requires Consistent(db)
    ensures var (db', n) := EndExpiredRentals(db, now);
      && AvailableAccounts(db') == AvailableAccounts(db) + n
      && RentedAccounts(db') == RentedAccounts(db) - n
      && ActiveRentals(db') == ActiveRentals(db) - n
  {
    var (db', n) := EndExpiredRentals(db, now);
    SweepEffect(db, now);
    SweepPreserves(db, now);
    CountSplit(db.rentals, IsActive, LapsedAt(now), ActiveAfter(now));
    CountSame(db'.rentals, IsActive, db.rentals, ActiveAfter(now));
    RentedEqualsActiveRentals(db);
    RentedEqualsActiveRentals(db');
    AvailablePlusRented(db.accounts);
    AvailablePlusRented(db'.accounts);
  }

  /** Selected rows for `renter`, and lapsed rentals of `renter`. */
  function RenterIs(renter: string): Expiring -> bool {
    (e: Expiring) => e.renter == renter
  }

  function LapsedFor(renter: string, now: Time): Rental -> bool {
    (r: Rental) => Lapsed(r, now) && r.renter == renter
  }

  lemma {:induction false} SelectedForRenter(rentals: seq<Rental>, now: Time, renter: string)
    ensures Count(SelectLapsed(rentals, now), RenterIs(renter)) == Count(rentals, LapsedFor(renter, now))
    decreases |rentals|
  {
    if |rentals| > 0 {
      var n := |rentals| - 1;
      var prefix := rentals[..n];
      var es := SelectLapsed(prefix, now);
      SelectedForRenter(prefix, now, renter);
      assert Count(rentals, LapsedFor(renter, now))
          == Count(prefix, LapsedFor(renter, now)) + (if LapsedFor(renter, now)(rentals[n]) then 1 else 0);
      if Lapsed(rentals[n], now) {
        var e := ExpiringOf(rentals, n);
        assert SelectLapsed(rentals, now) == es + [e];
        CountAppend(es, [e], RenterIs(renter));
        assert [e][..0] == [];
      } else {
        assert SelectLapsed(rentals, now) == es;
      }
    }
  }

  /** The history entries a renter's rentals ended with. */
  function EndOf(renter: string): HistoryEntry -> bool {
    (h: HistoryEntry) => h == HistoryEntry(renter, RentalEnd)
  }

  /**
    Audit completeness of the sweep: each renter gains exactly one
    `rental_end` history entry and exactly one unread `rental_expired`
    notification per rental of theirs that the sweep reclaimed.
   */
  lemma SweepAuditPerRenter(db: Db, now: Time, renter: string)
    ensures var db' := EndExpiredRentals(db, now).0;
      && Count(db'.history, EndOf(renter)) == Count(db.history, EndOf(renter)) + Count(db.rentals, LapsedFor(renter, now))
      && Outbox.UnreadCount(db', renter) == Outbox.UnreadCount(db, renter) + Count(db.rentals, LapsedFor(renter, now))
  {
    var db' := EndExpiredRentals(db, now).0;
    var es := SelectLapsed(db.rentals, now);
    SweepEffect(db, now);
    CountAppend(db.history, EndEntries(es), EndOf(renter));
    CountAppend(db.notifications, ExpiryNotifications(es), Outbox.Shows(renter, true));
    CountSame(EndEntries(es), EndOf(renter), es, RenterIs(renter));
    CountSame(ExpiryNotifications(es), Outbox.Shows(renter, true), es, RenterIs(renter));
    SelectedForRenter(db.rentals, now, renter);
  }

  /** The reclaimed rental's row is the one whose expiry notification the sweep appends. */
  lemma SweepNotifiesLapsed(db: Db, now: Time, j: nat)
    requires j < |db.rentals| && Lapsed(db.rentals[j], now)
    ensures var db' := EndExpiredRentals(db, now).0;
      Notification(db.rentals[j].renter, ExpiryNotice, ExpiredKind, false) in db'.notifications[|db.notifications|..]
  {
    var es := SelectLapsed(db.rentals, now);
    LapsedAreSelected(db.rentals, now, j);
    var k :| 0 <= k < |es| && es[k] == ExpiringOf(db.rentals, j);
    ExpireAllNotifications(db, es);
    var db' := EndExpiredRentals(db, now).0;
    assert db'.notifications[|db.notifications|..] == ExpiryNotifications(es);
    assert ExpiryNotifications(es)[k] == ExpiryNotification(es[k]);
  }

  /** What the sweep does to one lapsed rental: the rental expires, its account is freed, its renter is notified. */
  lemma ReclaimedAt(db: Db, now: Time, j: nat)
    requires j < |db.rentals| && Lapsed(db.rentals[j], now) && HasRow(db.accounts, db.rentals[j].accountId)
    ensures var db' := EndExpiredRentals(db, now).0;
      && |db'.rentals| == |db.rentals|
      && db'.rentals[j] == db.rentals[j].(status := Expired)
      && HasRow(db'.accounts, db.rentals[j].accountId)
      && !db'.accounts[db.rentals[j].accountId - 1].isRented
      && Notification(db.rentals[j].renter, ExpiryNotice, ExpiredKind, false) in db'.notifications[|db.notifications|..]
  {
    assert HasLapsedLease(db.rentals, now, db.rentals[j].accountId);
    SweepRentals(db, now);
    SweepAccounts(db, now);
    SweepNotifiesLapsed(db, now, j);
  }

  /**
    The lifecycle end to end: an account rented at `start` for `hours` hours is
    reclaimed by the first sweep after its end; the account is available again,
    the rental is expired, and the renter has an unread expiry notification.
   */
  lemma RentThenSweep(db: Db, accountId: int, renter: string, hours: int, start: Time, now: Time)
    requires RentAccount(db, accountId, renter, hours, start).1
    requires now > LeaseEnd(start, hours)
    ensures var db1 := RentAccount(db, accountId, renter, hours, start).0;
      var db2 := EndExpiredRentals(db1, now).0;
      && HasRow(db2.accounts, accountId) && !db2.accounts[accountId - 1].isRented
      && |db2.rentals| == |db.rentals| + 1
      && db2.rentals[|db.rentals|] == Rental(accountId, renter, start, LeaseEnd(start, hours), hours, Expired)
      && Notification(renter, ExpiryNotice, ExpiredKind, false) in db2.notifications[|db1.notifications|..]
  {
    var db1 := RentAccount(db, accountId, renter, hours, start).0;
    var n := |db.rentals|;
    assert db1.rentals == db.rentals + [Rental(accountId, renter, start, LeaseEnd(start, hours), hours, Active)];
    assert |db1.accounts| == |db.accounts|;
    ReclaimedAt(db1, now, n);
  }

  /**
    The window between a rental's end and its reclamation: a renter whose
    latest active rental ends exactly at `now` is told the time is up, and the
    sweep at `now` leaves that rental active, so they are still told so after it.
   */
  lemma EndingNowIsTimeUpBeforeAndAfterSweep(db: Db, renter: string, now: Time)
    requires GetRentalInfo(db, renter).Some? && GetRentalInfo(db, renter).value.endTime == now
    ensures GetRemainingTime(db, renter, now) == TimeUp
    ensures GetRemainingTime(EndExpiredRentals(db, now).0, renter, now) == TimeUp
  {
    var db' := EndExpiredRentals(db, now).0;
    SweepEffect(db, now);
    var j :| IsActiveLeaseOf(db, renter, j) && GetRentalInfo(db, renter).value == InfoOf(db, j);
    assert db'.rentals[j] == db.rentals[j];
    assert IsActiveLeaseOf(db', renter, j);
    forall k | IsActiveLeaseOf(db', renter, k)
      ensures db'.rentals[k].endTime <= now
    {
      assert db'.rentals[k] == db.rentals[k];
      assert IsActiveLeaseOf(db, renter, k);
    }
  }
}
