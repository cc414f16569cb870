/** The `steam_accounts` table: adding accounts and the counting queries over it. */
module Inventory {

  import opened Wrappers
  import opened Tables

  predicate IsAvailable(a: Account) { !a.isRented }

  predicate IsRented(a: Account) { a.isRented }

  /** An account that a renter of `game` could take right now. */
  function AvailableFor(game: string): Account -> bool {
    (a: Account) => !a.isRented && a.game == game
  }

  /**
    `add_steam_account`: inserts a free account and returns its fresh id.
    Nothing but the account table changes, and no existing row is touched.
   */
  function AddSteamAccount(db: Db, username: string, password: string, game: string): (r: (Db, int))
    ensures var (db', id) := r;
      && !HasRow(db.accounts, id) && HasRow(db'.accounts, id)
      && |db'.accounts| == |db.accounts| + 1
      && db'.accounts[..|db.accounts|] == db.accounts
      && db'.accounts[id - 1] == Account(username, password, game, false, None, None, None)
      && db' == db.(accounts := db'.accounts)
  {
    (db.(accounts := db.accounts + [Account(username, password, game, false, None, None, None)]),
     |db.accounts| + 1)
  }

  /** `get_total_accounts`, and `total_accounts` in `get_detailed_stats`. */
  function TotalAccounts(db: Db): (n: nat)
    ensures forall id :: HasRow(db.accounts, id) <==> 1 <= id <= n
    ensures n == AvailableAccounts(db) + RentedAccounts(db)
  {
    AvailablePlusRented(db.accounts);
    |db.accounts|
  }

  /** `get_available_accounts` (the count version), and `available_accounts` in `get_detailed_stats`. */
  function AvailableAccounts(db: Db): (n: nat)
    ensures n <= |db.accounts|
    ensures n == 0 <==> forall i :: 0 <= i < |db.accounts| ==> db.accounts[i].isRented
  {
    Count(db.accounts, IsAvailable)
  }

  /** `rented_accounts` in `get_detailed_stats`. */
  function RentedAccounts(db: Db): (n: nat)
    ensures n <= |db.accounts|
    ensures n == 0 <==> forall i :: 0 <= i < |db.accounts| ==> !db.accounts[i].isRented
  {
    Count(db.accounts, IsRented)
  }

  /** `get_accounts_count_by_game`: free accounts of one game. */
  function AccountsCountByGame(db: Db, game: string): (n: nat)
    ensures n == 0 <==> forall i :: 0 <= i < |db.accounts| ==> db.accounts[i].isRented || db.accounts[i].game != game
  {
    Count(db.accounts, AvailableFor(game))
  }

  /** The three account counts of `get_detailed_stats`. */
  datatype AccountStats = AccountStats(total: nat, available: nat, rented: nat)

  function AccountStatsOf(db: Db): (s: AccountStats)
    ensures s.available + s.rented == s.total
    ensures s.total == |db.accounts|
  {
    AvailablePlusRented(db.accounts);
    AccountStats(TotalAccounts(db), AvailableAccounts(db), RentedAccounts(db))
  }

  /** Every account is either free or rented, never both. */
  lemma {:induction false} AvailablePlusRented(accounts: seq<Account>)
    ensures Count(accounts, IsAvailable) + Count(accounts, IsRented) == |accounts|
    decreases |accounts|
  {
    if |accounts| > 0 {
      AvailablePlusRented(accounts[..|accounts| - 1]);
    }
  }

  /** The per-game count never exceeds the overall available count. */
  lemma CountByGameAtMostAvailable(db: Db, game: string)
    ensures AccountsCountByGame(db, game) <= AvailableAccounts(db)
  {
    CountMonotone(db.accounts, AvailableFor(game), IsAvailable);
  }

  /** A new account is free: it adds one to the total, the available count and its own game's count, and none to the rented count. */
  lemma AddAccountCounts(db: Db, username: string, password: string, game: string, g: string)
    ensures var db' := AddSteamAccount(db, username, password, game).0;
      && TotalAccounts(db') == TotalAccounts(db) + 1
      && AvailableAccounts(db') == AvailableAccounts(db) + 1
      && RentedAccounts(db') == RentedAccounts(db)
      && AccountsCountByGame(db', g) == AccountsCountByGame(db, g) + (if g == game then 1 else 0)
  {
  }
}
