/**
  The five tables of the rental database, as immutable sequences of rows.

  Every table uses an AUTOINCREMENT primary key and the lease lifecycle never
  deletes a row, so the id of a row is its position plus one. A lookup
  "WHERE id = ?" is therefore `HasRow(table, id)` followed by `table[id - 1]`.
 */
module Tables {

  import opened Wrappers

  /** Whole seconds on the clock the database stamps its rows with. */
  type Time = int

  const SecondsPerMinute: int := 60
  const SecondsPerHour: int := 3600

  /** A row of `steam_accounts`; the last three fields are NULL while the account is free. */
  datatype Account = Account(
    username: string,
    password: string,
    game: string,
    isRented: bool,
    renter: Option<string>,
    rentalStart: Option<Time>,
    rentalEnd: Option<Time>)

  /** The two statuses the code ever writes into `rentals.status`. */
  datatype Status = Active | Expired

  /** A row of `rentals`. */
  datatype Rental = Rental(
    accountId: int,
    renter: string,
    startTime: Time,
    endTime: Time,
    hours: int,
    status: Status)

  /** A row of `bonuses`. */
  datatype Bonus = Bonus(user: string, minutes: int, reason: string, isUsed: bool)

  /** A row of `notifications`. */
  datatype Notification = Notification(user: string, message: string, kind: string, isRead: bool)

  /** The event an `operation_history` row records: its `operation_type` with the facts its description carries. */
  datatype Operation = RentalStart(hours: int) | RentalEnd

  /** A row of `operation_history`. */
  datatype HistoryEntry = HistoryEntry(user: string, op: Operation)

  datatype Db = Db(
    accounts: seq<Account>,
    rentals: seq<Rental>,
    bonuses: seq<Bonus>,
    notifications: seq<Notification>,
    history: seq<HistoryEntry>)

  /** The database right after its tables are created. */
  const EmptyDb: Db := Db([], [], [], [], [])

  /** Does `table` hold a row whose id is `id`? */
  predicate HasRow<T>(table: seq<T>, id: int) {
    1 <= id <= |table|
  }

  /** The account with its renter and rental window cleared, as the expiry sweep leaves it. */
  function Free(a: Account): (r: Account)
    ensures !r.isRented && r.renter == None && r.rentalStart == None && r.rentalEnd == None
    ensures r.username == a.username && r.password == a.password && r.game == a.game
  {
    a.(isRented := false, renter := None, rentalStart := None, rentalEnd := None)
  }

  /** Number of elements of `s` that satisfy `p`: what `SELECT COUNT(*) ... WHERE p` returns. */
  function Count<T>(s: seq<T>, p: T -> bool): (n: nat)
    ensures n <= |s|
    ensures n == 0 <==> forall i :: 0 <= i < |s| ==> !p(s[i])
  {
    if |s| == 0 then 0
    else Count(s[..|s| - 1], p) + (if p(s[|s| - 1]) then 1 else 0)
  }

  lemma {:induction false} CountAppend<T>(a: seq<T>, b: seq<T>, p: T -> bool)
    ensures Count(a + b, p) == Count(a, p) + Count(b, p)
    decreases |b|
  {
    if |b| == 0 {
      assert a + b == a;
    } else {
      var b' := b[..|b| - 1];
      assert (a + b)[..|a + b| - 1] == a + b';
      CountAppend(a, b', p);
    }
  }

  /** Counting over two sequences that agree, position by position, on the predicates. */
  lemma {:induction false} CountSame<T, U>(s: seq<T>, p: T -> bool, t: seq<U>, q: U -> bool)
    requires |s| == |t|
    requires forall i :: 0 <= i < |s| ==> p(s[i]) == q(t[i])
    ensures Count(s, p) == Count(t, q)
    decreases |s|
  {
    if |s| > 0 {
      CountSame(s[..|s| - 1], p, t[..|t| - 1], q);
    }
  }

  /** A predicate that splits into two disjoint cases is counted by the sum of their counts. */
  lemma {:induction false} CountSplit<T>(s: seq<T>, p: T -> bool, q: T -> bool, r: T -> bool)
    requires forall i :: 0 <= i < |s| ==> (p(s[i]) <==> q(s[i]) || r(s[i]))
    requires forall i :: 0 <= i < |s| ==> !(q(s[i]) && r(s[i]))
    ensures Count(s, p) == Count(s, q) + Count(s, r)
    decreases |s|
  {
    if |s| > 0 {
      CountSplit(s[..|s| - 1], p, q, r);
    }
  }

  /** A predicate that implies another is counted no more often. */
  lemma {:induction false} CountMonotone<T>(s: seq<T>, p: T -> bool, q: T -> bool)
    requires forall i :: 0 <= i < |s| ==> p(s[i]) ==> q(s[i])
    ensures Count(s, p) <= Count(s, q)
    decreases |s|
  {
    if |s| > 0 {
      CountMonotone(s[..|s| - 1], p, q);
    }
  }

  /** Overwriting one element changes the count by what that element contributes. */
  lemma {:induction false} CountUpdate<T>(s: seq<T>, i: int, x: T, p: T -> bool)
    requires 0 <= i < |s|
    ensures Count(s[i := x], p) + (if p(s[i]) then 1 else 0) == Count(s, p) + (if p(x) then 1 else 0)
    decreases |s|
  {
    var n := |s| - 1;
    var t := s[i := x];
    assert Count(t, p) == Count(t[..n], p) + (if p(t[n]) then 1 else 0);
    assert Count(s, p) == Count(s[..n], p) + (if p(s[n]) then 1 else 0);
    if i < n {
      assert t[..n] == s[..n][i := x];
      assert t[n] == s[n];
      CountUpdate(s[..n], i, x, p);
    } else {
      assert t[..n] == s[..n];
    }
  }

  /** When no two positions satisfy `p`, it is counted at most once, and once exactly when some position does. */
  lemma {:induction false} CountAtMostOne<T>(s: seq<T>, p: T -> bool)
    requires forall j, k :: 0 <= j < |s| && 0 <= k < |s| && j != k && p(s[j]) ==> !p(s[k])
    ensures Count(s, p) <= 1
    ensures Count(s, p) == 1 <==> exists j :: 0 <= j < |s| && p(s[j])
    decreases |s|
  {
    if |s| > 0 {
      var n := |s| - 1;
      CountAtMostOne(s[..n], p);
      if p(s[n]) {
        assert forall j :: 0 <= j < n ==> !p(s[..n][j]);
      }
    }
  }
}
