# Lease lifecycle of the account-rental database

This project models the `Database` class of `database.py`, the storage core of a bot that rents out
Steam accounts for a number of hours. Five SQLite tables become five sequences of immutable records
in one `Db` value:

- `steam_accounts`: `Account`, with `is_rented`, the current renter, and the rental window.
- `rentals`: `Rental`, with status `active` or `expired`.
- `bonuses`: `Bonus`, with the minutes granted and `is_used`.
- `notifications`: `Notification`, with `is_read`.
- `operation_history`: `HistoryEntry`, append-only.

Every method the model covers becomes a pure function from a `Db` (and an integer clock `now`, in
seconds) to the new `Db` and the method's result. Rows are never deleted and every table uses an
AUTOINCREMENT key, so the id of a row is its position plus one (`Tables.HasRow`).

Modules:

- `Tables` (tables.dfy): records, the database value, and counting over sequences (`SELECT COUNT(*)`).
- `Inventory` (inventory.dfy): `add_steam_account` and the account counts.
- `Ledger` (ledger.dfy): `rent_account`, `create_rental`, `get_rental_info`, `get_remaining_time`
  and the active-rental count.
- `Sweeper` (sweeper.dfy): `end_expired_rentals`. It is written the way the code runs: first the
  SELECT of lapsed rows, then a loop over those rows. `SweptDb` states the same sweep directly, and
  `SweepEffect` proves the two agree.
- `Bonuses` (bonuses.dfy): `add_bonus_time` and `get_total_bonus_time`.
- `Outbox` (outbox.dfy): `add_notification`, `mark_notification_read` and `get_user_notifications`.
- `Exclusivity` (exclusivity.dfy): the invariant `Consistent`, with a proof that every operation
  preserves it. The invariant says that an account is marked rented exactly when one active rental
  references it, and that it then carries that rental's renter and window.
- `Lifecycle` (lifecycle.dfy): facts that span operations. These cover the counts after renting and
  sweeping, audit completeness for each renter, and the rent-then-expire scenario.
- `Reports` (reports.dfy): the account and rental figures of `get_detailed_stats`.

Notes on the code, which the model follows:

- The sweep reclaims a rental only when `end_time < now`, strictly. It does not use `<=`.
- The end of a rental is `start + duration_hours` hours. No bonus minutes are added, because the
  code never applies or consumes a bonus. Bonus consumption is therefore not modelled: no code path
  sets `is_used`.
- Both allocation paths return a boolean, not the created rental.
- `create_rental` writes no history entry.

## Model

| member | source | states |
|---|---|---|
| Tables.Free | database.py:259-264 | freeing an account clears `is_rented`, the renter and both window ends, and keeps its name, password and game |
| Inventory.AddSteamAccount | database.py:109-118 | the returned id is fresh and names the new row; the row is a free account with the given name, password and game; no other row or table changes |
| Inventory.TotalAccounts | database.py:484-489 | the total equals the available count plus the rented count, the partner figures of `get_detailed_stats` |
| Inventory.AvailableAccounts | database.py:491-496 | at most the number of accounts; zero exactly when every account is rented |
| Inventory.RentedAccounts | database.py:581-582 | at most the number of accounts; zero exactly when no account is rented |
| Inventory.AccountsCountByGame | database.py:220-228 | the count is zero exactly when every account of that game is rented |
| Inventory.AccountStatsOf | database.py:575-582 | in `get_detailed_stats`, available plus rented accounts equals the total number of accounts |
| Inventory.AvailablePlusRented | database.py:575-582 | every account is counted once, as either available or rented |
| Inventory.CountByGameAtMostAvailable | database.py:220-228 | the per-game available count never exceeds the overall available count of `get_available_accounts` |
| Inventory.AddAccountCounts | database.py:109-118 | adding an account raises the total, the available count and its own game's count by one, and leaves the rented count unchanged |
| Ledger.Allocate | database.py:152-167 | the account is stamped with the renter and the window [now, now + hours·3600]; one active rental with the same account, renter, window and duration is appended; nothing else changes |
| Ledger.RentAccount | database.py:138-176 | returns True exactly when the account exists and is not rented; on False nothing changes; on True the allocation happens plus exactly one `rental_start` history entry for the renter |
| Ledger.CreateRental | database.py:650-680 | the same check and the same account and rental changes as `rent_account`, with no history entry |
| Ledger.CreateRentalIsRentWithoutHistory | database.py:650-680 | `create_rental` gives the same answer and state as `rent_account` with the history left as it was |
| Ledger.AllocatedAccountIsRefused | database.py:144-150 | once an account is allocated, every further allocation of it by either path is refused and changes nothing |
| Ledger.ActiveRentals | database.py:498-503 | at most the number of rentals; zero exactly when every rental is expired |
| Ledger.LatestLease | database.py:182-189 | finds one of the renter's active rentals (with an existing account) that has the latest end, or none exactly when the renter has no active rental |
| Ledger.GetRentalInfo | database.py:178-200 | None exactly when the renter has no active rental; otherwise the account name, game and window of an active rental whose end is the latest of the renter's |
| Ledger.GetRemainingTime | database.py:202-218 | "no rental" exactly when the lookup finds none; "expired" exactly when now ≥ end; otherwise whole hours and minutes with minutes < 60 and h·3600 + m·60 ≤ end − now < h·3600 + m·60 + 60 |
| Ledger.RemainingTimeNonIncreasing | database.py:208-218 | as the clock advances the reported minutes never grow, and once "expired" the report stays "expired" |
| Ledger.FreshRentalReportsFullTime | database.py:202-218 | at the instant of a first rental of h > 0 hours, the lookup returns that rental and the time left is h hours and 0 minutes |
| Ledger.FreshRentalFirstMinute | database.py:202-218 | at any later moment of the first minute of that rental, the time left is h − 1 hours and 59 minutes |
| Sweeper.SelectLapsed | database.py:245-250 | the SELECT returns as many rows as there are active rentals with end < now |
| Sweeper.SelectedAreLapsed | database.py:245-250 | every selected row is an active rental with end < now, with that rental's account and renter |
| Sweeper.LapsedAreSelected | database.py:245-250 | every active rental with end < now is selected |
| Sweeper.NamesAccountIffLapsedLease | database.py:245-264 | the loop frees an account exactly when some lapsed rental references it |
| Sweeper.EndExpiredRentals | database.py:239-279 | returns the number of lapsed rentals; the rental and account tables keep their size; history and notifications each grow by that number |
| Sweeper.ExpireAllRentals | database.py:252-256 | the loop marks expired exactly the rentals its rows name and leaves every other rental unchanged |
| Sweeper.ExpireAllAccounts | database.py:258-264 | the loop frees exactly the accounts its rows name and leaves every other account unchanged |
| Sweeper.ExpireAllHistory | database.py:266-270 | the loop appends one `rental_end` entry per row, in row order, for that row's renter |
| Sweeper.ExpireAllNotifications | database.py:272-276 | the loop appends one unread `rental_expired` notification per row, in row order, for that row's renter |
| Sweeper.ExpireAllKeepsBonuses | database.py:252-276 | the loop never changes the bonus table |
| Sweeper.SweepRentals | database.py:245-256 | after the sweep, exactly the rentals that were active with end < now are expired |
| Sweeper.SweepAccounts | database.py:245-264 | after the sweep, exactly the accounts of the lapsed rentals are freed |
| Sweeper.SweepEffect | database.py:239-279 | the select-then-loop sweep equals the sweep stated directly (`SweptDb`) |
| Sweeper.SweepEntriesMatchLapsed | database.py:266-276 | the k-th appended history entry and notification belong to the renter of the rental named by the k-th selected row |
| Sweeper.SelectLapsedInRowOrder | database.py:245-250 | the selected rows come in strictly increasing rental id, so the k-th selected row is the k-th lapsed rental by id |
| Sweeper.SweepIdempotent | database.py:245-256 | a second sweep at the same time reclaims 0 rentals and changes nothing |
| Sweeper.SweepSparesRentalEndingNow | database.py:247-248 | a rental ending exactly at now is not reclaimed, because the comparison is strict |
| Bonuses.AddBonusTime | database.py:293-301 | appends one unused bonus for the user with the given minutes and reason; nothing else changes |
| Bonuses.UnusedMinutes | database.py:317-327 | the total is 0 when the user has no unused bonus, and non-negative when no bonus is negative |
| Bonuses.GetTotalBonusTime | database.py:317-327 | 0 when the user has no unused bonus; non-negative when no bonus is negative |
| Bonuses.UnusedMinutesAppend | database.py:317-327 | bonus totals are additive over the rows of the table |
| Bonuses.AddBonusRaisesTotal | database.py:293-327 | granting m minutes raises that user's total by exactly m and leaves every other user's total unchanged |
| Outbox.AddNotification | database.py:329-337 | appends one unread notification with the given user, message and type; nothing else changes |
| Outbox.MarkNotificationRead | database.py:360-367 | the notification with that id becomes read and is otherwise unchanged; an unknown id changes nothing; no other row changes |
| Outbox.NewestFirst | database.py:339-358 | lists exactly the matching notifications, each as many times as it occurs among the matching rows |
| Outbox.NewestFirstIsReversedTableOrder | database.py:339-358 | the listing is the matching rows in table order, reversed, so the latest row comes first |
| Outbox.GetUserNotificationsNewest | database.py:339-358 | the result is the user's matching rows newest first; when read rows are included, only the newest 50 are kept |
| Outbox.NewNotificationListedFirstAll | database.py:329-358 | a new notification heads its user's full list, which is then cut to 50 rows |
| Outbox.GetUserNotifications | database.py:339-358 | only the user's notifications (only unread ones when asked); with `unread_only`, all of them; otherwise min(50, count) rows |
| Outbox.NewNotificationListedFirst | database.py:329-358 | a new notification heads its user's unread list, followed by the earlier list; other users' lists do not change |
| Outbox.MarkReadUnreadCount | database.py:360-367 | marking an unread notification read lowers its owner's unread count by one; every other case leaves the count unchanged |
| Outbox.MarkReadIdempotent | database.py:360-367 | marking twice is the same as marking once |
| Exclusivity.ExactlyOneActiveRental | database.py:156-167 | under the invariant, an account has at most one active rental, and it is rented exactly when it has one |
| Exclusivity.EmptyDbConsistent | database.py:16-45 | the freshly created tables satisfy the invariant |
| Exclusivity.AddSteamAccountPreserves | database.py:109-118 | adding an account preserves the invariant |
| Exclusivity.NoActiveLeaseOnFreeAccount | database.py:144-150 | an account that passes the availability check is held by no active rental |
| Exclusivity.AllocationPreserves | database.py:143-167 | an allocation after a passed check preserves the invariant |
| Exclusivity.RentAccountPreserves | database.py:138-176 | `rent_account` preserves the invariant |
| Exclusivity.CreateRentalPreserves | database.py:650-680 | `create_rental` preserves the invariant |
| Exclusivity.SweptAccount | database.py:258-264 | the sweep frees an account exactly when a lapsed rental holds it |
| Exclusivity.SweptRefsValid | database.py:252-256 | after the sweep every rental still references an existing account |
| Exclusivity.SweptNoDoubleLease | database.py:252-256 | after the sweep no account is held by two active rentals |
| Exclusivity.SweptActiveStamped | database.py:252-264 | a rental the sweep leaves active keeps its account stamped with its renter and window |
| Exclusivity.SweptRentedHeld | database.py:252-264 | an account the sweep leaves rented is still held by an active rental |
| Exclusivity.SweptFreeClear | database.py:258-264 | a free account carries no renter and no window after the sweep |
| Exclusivity.SweepPreserves | database.py:239-279 | `end_expired_rentals` preserves the invariant |
| Exclusivity.LedgerUntouchedPreserves | database.py:293-367 | the bonus and notification operations, which touch neither accounts nor rentals, preserve the invariant |
| Lifecycle.RentedEqualsActiveRentals | database.py:578-586 | under the invariant the rented-account count equals the active-rental count |
| Lifecycle.AllocationCounts | database.py:156-167 | an allocation lowers the available count and the count of its own game by one; it raises the rented and active-rental counts by one |
| Lifecycle.RentAccountCounts | database.py:138-176 | a successful `rent_account` makes one fewer account available overall and for its own game (other games unchanged), one more rented and one more active |
| Lifecycle.CreateRentalCounts | database.py:650-680 | a successful `create_rental` makes one fewer account available overall and for its own game (other games unchanged), one more rented and one more active |
| Lifecycle.SweepCounts | database.py:239-279 | under the invariant, a sweep that reclaims n rentals makes n more accounts available, n fewer rented, and n fewer rentals active |
| Lifecycle.SelectedForRenter | database.py:245-250 | for each renter, the SELECT returns as many rows as that renter has lapsed rentals |
| Lifecycle.SweepAuditPerRenter | database.py:266-276 | each renter gains exactly one `rental_end` entry and one unread notification per lapsed rental of theirs |
| Lifecycle.SweepNotifiesLapsed | database.py:272-276 | every lapsed rental's renter finds the expiry notification among the rows the sweep appends |
| Lifecycle.ReclaimedAt | database.py:252-276 | a lapsed rental is expired, its account freed and its renter notified |
| Lifecycle.RentThenSweep | database.py:239-279 | an account rented for h hours is free again after a sweep past its end; the rental is expired and the renter has an unread expiry notification |
| Lifecycle.EndingNowIsTimeUpBeforeAndAfterSweep | database.py:202-250 | a rental ending exactly now is reported expired, both before and after a sweep at now, although the sweep leaves it active |
| Reports.CompletedTodayAlwaysZero | database.py:588-593 | as written, `completed_today` is always 0 |
| Reports.SweptTodayIsCounted | database.py:588-593 | a rental reclaimed today is counted by the corrected figure, but not by the figure as written |
| Reports.CompletedTodayAmongInactive | database.py:584-593 | rentals counted as completed today are never active |
| Reports.GetDetailedStats | database.py:569-622 | available plus rented equals total; under the invariant, active rentals equal rented accounts; the corrected completed-today figure (status `expired`, not the program's `completed`) plus active rentals is at most all rentals |

## Findings

| source | as written | input that shows it | evidently intended | confidence | as-written member | corrected member |
|---|---|---|---|---|---|---|
| database.py:588-593 | `completed_today` counts rentals whose status is `"completed"`, but the code only ever writes `active` or `expired` | any database, e.g. one rental that the sweep expired earlier today: the figure is 0 | count the rentals the sweep finished today, i.e. status `expired` | medium, not executed | Reports.CompletedTodayAlwaysZero | Reports.SweptTodayIsCounted |

`Reports.CompletedTodayAsWritten` is the figure as written, and `Reports.CompletedToday` is the
corrected figure. `Reports.GetDetailedStats` uses the corrected one.

## Left out

- SQLite plumbing is not modelled: connections, SQL text, schema statements, and `cursor.lastrowid`. The id of a row is its position plus one.
- Transactions and concurrency are not modelled. The model is sequential, so it says nothing about two concurrent `rent_account` calls both passing the availability check.
- Sweeper.SelectLapsed: the SELECT at database.py:245-248 has no `ORDER BY`, so SQL leaves the row order open. The model returns rows in rental id order, which `Sweeper.SelectLapsedInRowOrder` states.
- Outbox.MarkNotificationRead: an id outside SQLite's 64-bit integer range [−2^63, 2^63 − 1] makes the UPDATE at database.py:364-366 raise OverflowError. The model treats it as an unknown id and changes nothing. No code in the source calls `mark_notification_read`.
- Bonuses.AddBonusTime: `minutes` outside the 64-bit range makes the INSERT at database.py:297-300 raise OverflowError. The model appends the row, because its integers are unbounded.
- Bonuses.GetTotalBonusTime: once a partial sum of a user's unused minutes leaves the 64-bit range, SQLite's `SUM` at database.py:321-324 fails with "integer overflow". The model returns the exact sum.
- Bonuses.AddBonusRaisesTotal: "raises the total by exactly m" holds for unbounded integers only. Past 64 bits the source raises on the insert or on the sum, as the two lines above say. No code in the source calls `add_bonus_time`.
- Default arguments become explicit parameters: `reason="Отзыв"` of `add_bonus_time` (database.py:293), `notification_type="info"` of `add_notification` (database.py:329) and `unread_only=True` of `get_user_notifications` (database.py:339).
- Clocks are not modelled. `datetime.now()` becomes the parameter `now`, in whole seconds. `created_at` columns are not stored.
- Ledger.GetRemainingTime: works in whole seconds. The source's `total_seconds()` float carries microseconds. A later reading of the clock, even a fraction of a second later, turns h:00 into (h−1):59 for the caller; `Ledger.FreshRentalFirstMinute` states that case in whole seconds.
- Display strings are not modelled. Russian texts become the `Operation` datatype for history descriptions, an English constant for the expiry notification, and the `TimeLeft` datatype for `get_remaining_time`.
- Outbox.GetUserNotifications: `ORDER BY created_at DESC` is modelled as reverse insertion order. The order, multiplicities and the newest-50 cut are stated by `Outbox.GetUserNotificationsNewest`, not by the function's own contract. Rows stamped in the same second have no defined order in SQL, and the model fixes one.
- Ledger.GetRentalInfo: when several active rentals share the latest end time, the SQL leaves the choice open. The model takes the earliest row, and the contract does not fix the choice.
- Ledger.RentAccount: Python's `datetime` only reaches the year 9999, so `start_time + timedelta(hours=duration_hours)` (database.py:153) raises OverflowError for durations beyond roughly 7·10^7 hours forward or 1.8·10^7 hours back. The exception comes before any write and propagates. The model has unbounded time and returns True. No code in the source calls `rent_account`. The bot's only allocation call is `create_rental` (telegram_bot_simple_fix.py:396), with 1, 3, 6, 12 or 24 hours (telegram_bot_simple_fix.py:371-375). Separately, an `account_id` outside SQLite's 64-bit integer range [−2^63, 2^63 − 1] makes the SELECT at database.py:144-146 raise OverflowError; the model returns False with no change, which is what `create_rental`'s `except` does but not `rent_account`.
- Ledger.CreateRental: the same overflow at database.py:664 is caught by the `except` branch (database.py:681-683), which returns False with nothing written. The model returns True for such durations. A database error caught by the same branch is not modelled either.
- Ledger.Allocate: stamps `now + hours·3600` for every integer `hours`, with no calendar bound, for the reason above.
- Reports.GetDetailedStats: `completed_today` is the corrected figure (`Reports.CompletedToday`, status `expired`), not the program's, which is always 0 (see Findings). The user figures (`total_users`, `active_users_today`, `new_users_today`) and the constant stubs are left out. SQLite's `DATE('now')` is UTC while `end_time` is stored in local time, and the model uses one clock for both.
- The `users` table and `add_user` (defined twice, identically, at database.py:281 and database.py:640) are left out. No operation of the lease lifecycle reads them.
- The list version of `get_available_accounts` at database.py:120 is left out. It is dead code, because the count version at database.py:491 overrides it.
- Listing and reporting queries outside the lifecycle are left out: `get_all_games`, `search_accounts`, `get_user_bonuses`, `get_operation_history`, `get_statistics`, `get_user_statistics`, `get_recent_activity`, `get_available_accounts_list`, `get_user_rentals`, `get_account`, `get_total_users` and `get_users_list`. They are read-only SQL aggregations over the same tables.
- Password rotation is not modelled, and nothing in the source performs it. The expiry notification the sweep sends (database.py:272-276) says the password was changed automatically, but that is untrue. `change_steam_password` in steam_manager.py:18-39 is a stub that only prints and returns True, and no code calls it. The Telegram front-end, the marketplace client and the configuration files are not part of this model.
