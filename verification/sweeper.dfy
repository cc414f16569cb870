/**
  The expiry sweep, `end_expired_rentals`: select every active rental whose
  end lies strictly before `now`, then, for each selected row, mark it
  expired, free its account, and append one `rental_end` history entry and one
  `rental_expired` notification for its renter.
 */
module Sweeper {

  import opened Tables

  /** The notification body the sweep sends (the code sends the same fixed text every time). */
  const ExpiryNotice: string := "Rental time is over. The password was changed automatically."

  /** The notification type the sweep uses. */
  const ExpiredKind: string := "rental_expired"

  /** A rental the sweep reclaims at `now`: still active, and its end strictly before `now`. */
  predicate Lapsed(r: Rental, now: Time) {
    r.status == Active && r.endTime < now
  }

  function LapsedAt(now: Time): Rental -> bool {
    r => Lapsed(r, now)
  }

  /** A selected row: the `(id, account_id, renter_id)` triple the sweep's SELECT returns. */
  datatype Expiring = Expiring(rentalId: int, accountId: int, renter: string)

  function ExpiringOf(rentals: seq<Rental>, j: nat): Expiring
    requires j < |rentals|
  {
    Expiring(j + 1, rentals[j].accountId, rentals[j].renter)
  }

  /** The sweep's SELECT: the lapsed rentals, in row order. */
  function SelectLapsed(rentals: seq<Rental>, now: Time): (es: seq<Expiring>)
    ensures |es| == Count(rentals, LapsedAt(now))
  {
    if |rentals| == 0 then []
    else
      var n := |rentals| - 1;
      var es := SelectLapsed(rentals[..n], now);
      if Lapsed(rentals[n], now) then es + [ExpiringOf(rentals, n)] else es
  }

  /** Every selected row is a lapsed rental, with that rental's account and renter. */
  lemma {:induction false} SelectedAreLapsed(rentals: seq<Rental>, now: Time, e: Expiring)
    requires e in SelectLapsed(rentals, now)
    ensures HasRow(rentals, e.rentalId) && Lapsed(rentals[e.rentalId - 1], now)
    ensures e == ExpiringOf(rentals, e.rentalId - 1)
    decreases |rentals|
  {
    var n := |rentals| - 1;
    var prefix := rentals[..n];
    if e in SelectLapsed(prefix, now) {
      SelectedAreLapsed(prefix, now, e);
      assert prefix[e.rentalId - 1] == rentals[e.rentalId - 1];
    }
  }

  /** Every lapsed rental is selected. */
  lemma {:induction false} LapsedAreSelected(rentals: seq<Rental>, now: Time, j: nat)
    requires j < |rentals| && Lapsed(rentals[j], now)
    ensures ExpiringOf(rentals, j) in SelectLapsed(rentals, now)
    decreases |rentals|
  {
    var n := |rentals| - 1;
    var prefix := rentals[..n];
    if j < n {
      LapsedAreSelected(prefix, now, j);
      assert ExpiringOf(prefix, j) == ExpiringOf(rentals, j);
    }
  }

  /** The rental ids of `es` strictly increase. */
  predicate IdsIncrease(es: seq<Expiring>) {
    forall a, b :: 0 <= a < b < |es| ==> es[a].rentalId < es[b].rentalId
  }

  /**
    The selection comes back in row order: its rental ids strictly increase,
    so its k-th row is the k-th lapsed rental by id.
   */
  lemma {:induction false} SelectLapsedInRowOrder(rentals: seq<Rental>, now: Time)
    ensures IdsIncrease(SelectLapsed(rentals, now))
    decreases |rentals|
  {
    if |rentals| > 0 {
      var n := |rentals| - 1;
      var prefix := rentals[..n];
      var ps := SelectLapsed(prefix, now);
      SelectLapsedInRowOrder(prefix, now);
      if Lapsed(rentals[n], now) {
        var es := ps + [ExpiringOf(rentals, n)];
        forall a, b | 0 <= a < b < |es|
          ensures es[a].rentalId < es[b].rentalId
        {
          assert es[a] == ps[a] && ps[a] in ps;
          if b < |ps| {
            assert es[b] == ps[b];
          } else {
            SelectedAreLapsed(prefix, now, ps[a]);
          }
        }
        assert SelectLapsed(rentals, now) == es;
      }
    }
  }

  /** The history entry the sweep writes for one reclaimed rental. */
  function EndEntry(e: Expiring): HistoryEntry {
    HistoryEntry(e.renter, RentalEnd)
  }

  /** The notification the sweep writes for one reclaimed rental. */
  function ExpiryNotification(e: Expiring): Notification {
    Notification(e.renter, ExpiryNotice, ExpiredKind, false)
  }

  /** `UPDATE rentals SET status = 'expired' WHERE id = ?` */
  function ExpireRow(rentals: seq<Rental>, id: int): seq<Rental> {
    if HasRow(rentals, id) then rentals[id - 1 := rentals[id - 1].(status := Expired)] else rentals
  }

  /** `UPDATE steam_accounts SET is_rented = FALSE, ... = NULL WHERE id = ?` */
  function FreeRow(accounts: seq<Account>, id: int): seq<Account> {
    if HasRow(accounts, id) then accounts[id - 1 := Free(accounts[id - 1])] else accounts
  }

  /** The body of the sweep's loop for one selected row. */
  function ExpireOne(db: Db, e: Expiring): Db {
    db.(rentals := ExpireRow(db.rentals, e.rentalId),
        accounts := FreeRow(db.accounts, e.accountId),
        history := db.history + [EndEntry(e)],
        notifications := db.notifications + [ExpiryNotification(e)])
  }

  /** The sweep's loop over the selected rows, in order. */
  function ExpireAll(db: Db, es: seq<Expiring>): Db
    decreases |es|
  {
    if |es| == 0 then db else ExpireAll(ExpireOne(db, es[0]), es[1..])
  }

  /** `end_expired_rentals(now)`: the database after the sweep, and how many rentals it reclaimed. */
  function EndExpiredRentals(db: Db, now: Time): (r: (Db, nat))
    ensures r.1 == Count(db.rentals, LapsedAt(now))
    ensures |r.0.rentals| == |db.rentals| && |r.0.accounts| == |db.accounts|
    ensures |r.0.history| == |db.history| + r.1 && |r.0.notifications| == |db.notifications| + r.1
  {
    var es := SelectLapsed(db.rentals, now);
    ExpireAllRentals(db, es);
    ExpireAllAccounts(db, es);
    ExpireAllHistory(db, es);
    ExpireAllNotifications(db, es);
    (ExpireAll(db, es), |es|)
  }

  /** Does some selected row name rental `id`? */
  predicate NamesRental(es: seq<Expiring>, id: int) {
    exists e :: e in es && e.rentalId == id
  }

  /** Does some selected row name account `id`? */
  predicate NamesAccount(es: seq<Expiring>, id: int) {
    exists e :: e in es && e.accountId == id
  }

  /** Some rental lapsed at `now` references account `id`. */
  predicate HasLapsedLease(rentals: seq<Rental>, now: Time, id: int) {
    exists j :: 0 <= j < |rentals| && Lapsed(rentals[j], now) && rentals[j].accountId == id
  }

  function EndEntries(es: seq<Expiring>): (h: seq<HistoryEntry>)
    ensures |h| == |es| && forall k :: 0 <= k < |es| ==> h[k] == EndEntry(es[k])
  {
    if |es| == 0 then [] else [EndEntry(es[0])] + EndEntries(es[1..])
  }

  function ExpiryNotifications(es: seq<Expiring>): (ns: seq<Notification>)
    ensures |ns| == |es| && forall k :: 0 <= k < |es| ==> ns[k] == ExpiryNotification(es[k])
  {
    if |es| == 0 then [] else [ExpiryNotification(es[0])] + ExpiryNotifications(es[1..])
  }

  lemma NamesSplit(es: seq<Expiring>)
    requires |es| > 0
    ensures forall id :: NamesRental(es, id) <==> es[0].rentalId == id || NamesRental(es[1..], id)
    ensures forall id :: NamesAccount(es, id) <==> es[0].accountId == id || NamesAccount(es[1..], id)
  {
  }

  /** The loop over any list of selected rows expires exactly the rentals the rows name. */
  lemma {:induction false} ExpireAllRentals(db: Db, es: seq<Expiring>)
    ensures var rentals := ExpireAll(db, es).rentals;
      && |rentals| == |db.rentals|
      && forall j :: 0 <= j < |db.rentals| ==>
           rentals[j] == if NamesRental(es, j + 1) then db.rentals[j].(status := Expired) else db.rentals[j]
    decreases |es|
  {
    if |es| > 0 {
      ExpireAllRentals(ExpireOne(db, es[0]), es[1..]);
      NamesSplit(es);
    }
  }

  /** The loop over any list of selected rows frees exactly the accounts the rows name. */
  lemma {:induction false} ExpireAllAccounts(db: Db, es: seq<Expiring>)
    ensures var accounts := ExpireAll(db, es).accounts;
      && |accounts| == |db.accounts|
      && forall i :: 0 <= i < |db.accounts| ==>
           accounts[i] == if NamesAccount(es, i + 1) then Free(db.accounts[i]) else db.accounts[i]
    decreases |es|
  {
    if |es| > 0 {
      ExpireAllAccounts(ExpireOne(db, es[0]), es[1..]);
      NamesSplit(es);
    }
  }

  /** The loop over any list of selected rows appends one history entry per row, in order. */
  lemma {:induction false} ExpireAllHistory(db: Db, es: seq<Expiring>)
    ensures ExpireAll(db, es).history == db.history + EndEntries(es)
    decreases |es|
  {
    if |es| > 0 {
      var db1 := ExpireOne(db, es[0]);
      ExpireAllHistory(db1, es[1..]);
      assert ExpireAll(db, es) == ExpireAll(db1, es[1..]);
      assert EndEntries(es) == [EndEntry(es[0])] + EndEntries(es[1..]);
      assert db1.history == db.history + [EndEntry(es[0])];
    }
  }

  /** The loop over any list of selected rows appends one notification per row, in order. */
  lemma {:induction false} ExpireAllNotifications(db: Db, es: seq<Expiring>)
    ensures ExpireAll(db, es).notifications == db.notifications + ExpiryNotifications(es)
    decreases |es|
  {
    if |es| > 0 {
      var db1 := ExpireOne(db, es[0]);
      ExpireAllNotifications(db1, es[1..]);
      assert ExpireAll(db, es) == ExpireAll(db1, es[1..]);
      assert ExpiryNotifications(es) == [ExpiryNotification(es[0])] + ExpiryNotifications(es[1..]);
      assert db1.notifications == db.notifications + [ExpiryNotification(es[0])];
    }
  }

  /** The loop never touches the bonus ledger. */
  lemma {:induction false} ExpireAllKeepsBonuses(db: Db, es: seq<Expiring>)
    ensures ExpireAll(db, es).bonuses == db.bonuses
    decreases |es|
  {
    if |es| > 0 {
      ExpireAllKeepsBonuses(ExpireOne(db, es[0]), es[1..]);
    }
  }

  /**
    The sweep stated directly, as a reference for the loop: exactly the lapsed
    rentals become expired, exactly the accounts of lapsed rentals are freed,
    and the history and the notifications each grow by one entry per lapsed
    rental, in row order.
   */
  function SweptDb(db: Db, now: Time): Db {
    var es := SelectLapsed(db.rentals, now);
    db.(rentals := seq(|db.rentals|, j requires 0 <= j < |db.rentals| =>
                     if Lapsed(db.rentals[j], now) then db.rentals[j].(status := Expired) else db.rentals[j]),
        accounts := seq(|db.accounts|, i requires 0 <= i < |db.accounts| =>
                     if HasLapsedLease(db.rentals, now, i + 1) then Free(db.accounts[i]) else db.accounts[i]),
        history := db.history + EndEntries(es),
        notifications := db.notifications + ExpiryNotifications(es))
  }

  lemma SweepRentals(db: Db, now: Time)
    ensures EndExpiredRentals(db, now).0.rentals == SweptDb(db, now).rentals
  {
    var es := SelectLapsed(db.rentals, now);
    var rentals, ref := ExpireAll(db, es).rentals, SweptDb(db, now).rentals;
    ExpireAllRentals(db, es);
    forall j | 0 <= j < |db.rentals|
      ensures rentals[j] == ref[j]
    {
      if Lapsed(db.rentals[j], now) {
        LapsedAreSelected(db.rentals, now, j);
      }
      if NamesRental(es, j + 1) {
        var e :| e in es && e.rentalId == j + 1;
        SelectedAreLapsed(db.rentals, now, e);
      }
    }
  }

  /** A selected row names an account exactly when some lapsed rental holds it. */
  lemma NamesAccountIffLapsedLease(rentals: seq<Rental>, now: Time, id: int)
    ensures NamesAccount(SelectLapsed(rentals, now), id) <==> HasLapsedLease(rentals, now, id)
  {
  }

  lemma SweepAccounts(db: Db, now: Time)
    ensures EndExpiredRentals(db, now).0.accounts == SweptDb(db, now).accounts
  {
    var es := SelectLapsed(db.rentals, now);
    var accounts, ref := ExpireAll(db, es).accounts, SweptDb(db, now).accounts;
    ExpireAllAccounts(db, es);
    forall i | 0 <= i < |db.accounts|
      ensures accounts[i] == ref[i]
    {
      NamesAccountIffLapsedLease(db.rentals, now, i + 1);
    }
  }

  /** The sweep's select-then-loop agrees with the reference. */
  lemma SweepEffect(db: Db, now: Time)
    ensures EndExpiredRentals(db, now).0 == SweptDb(db, now)
  {
    var es := SelectLapsed(db.rentals, now);
    SweepRentals(db, now);
    SweepAccounts(db, now);
    ExpireAllHistory(db, es);
    ExpireAllNotifications(db, es);
    ExpireAllKeepsBonuses(db, es);
  }

  /** The entries the sweep appends are, row for row, one per lapsed rental and for its renter. */
  lemma SweepEntriesMatchLapsed(db: Db, now: Time, k: int)
    requires 0 <= k < |SelectLapsed(db.rentals, now)|
    ensures var e := SelectLapsed(db.rentals, now)[k];
      && HasRow(db.rentals, e.rentalId) && Lapsed(db.rentals[e.rentalId - 1], now)
      && EndEntries(SelectLapsed(db.rentals, now))[k] == HistoryEntry(db.rentals[e.rentalId - 1].renter, RentalEnd)
      && ExpiryNotifications(SelectLapsed(db.rentals, now))[k]
         == Notification(db.rentals[e.rentalId - 1].renter, ExpiryNotice, ExpiredKind, false)
  {
    var es := SelectLapsed(db.rentals, now);
    SelectedAreLapsed(db.rentals, now, es[k]);
  }

  /** A second sweep at the same instant reclaims nothing and changes nothing. */
  lemma SweepIdempotent(db: Db, now: Time)
    ensures var db' := EndExpiredRentals(db, now).0;
      EndExpiredRentals(db', now) == (db', 0)
  {
    var db' := EndExpiredRentals(db, now).0;
    SweepEffect(db, now);
    assert forall j :: 0 <= j < |db'.rentals| ==> !Lapsed(db'.rentals[j], now);
    assert SelectLapsed(db'.rentals, now) == [];
  }

  /** A rental that ends exactly at `now` is not reclaimed: the comparison is strict. */
  lemma SweepSparesRentalEndingNow(db: Db, now: Time, j: int)
    requires 0 <= j < |db.rentals| && db.rentals[j].status == Active && db.rentals[j].endTime == now
    ensures EndExpiredRentals(db, now).0.rentals[j] == db.rentals[j]
  {
    var ref := SweptDb(db, now);
    SweepEffect(db, now);
    assert ref.rentals[j] == db.rentals[j];
  }
}
