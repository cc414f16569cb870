/** The `bonuses` table: granting bonus minutes and totalling the unused ones. */
module Bonuses {

  import opened Tables

  /** A bonus row that counts toward `user`'s total: theirs and not yet used. */
  function UnusedOf(user: string): Bonus -> bool {
    (b: Bonus) => b.user == user && !b.isUsed
  }

  /** `add_bonus_time`: appends an unused bonus for the user; nothing else changes. */
  function AddBonusTime(db: Db, user: string, minutes: int, reason: string): (r: Db)
    ensures |r.bonuses| == |db.bonuses| + 1
    ensures r.bonuses[..|db.bonuses|] == db.bonuses
    ensures UnusedOf(user)(r.bonuses[|db.bonuses|]) && r.bonuses[|db.bonuses|].minutes == minutes
    ensures r.bonuses[|db.bonuses|].reason == reason
    ensures r == db.(bonuses := r.bonuses)
  {
    db.(bonuses := db.bonuses + [Bonus(user, minutes, reason, false)])
  }

  /** `SUM(bonus_minutes)` over the user's unused rows, with the empty sum read as 0. */
  function UnusedMinutes(bonuses: seq<Bonus>, user: string): (total: int)
    ensures (forall i :: 0 <= i < |bonuses| ==> !UnusedOf(user)(bonuses[i])) ==> total == 0
    ensures (forall i :: 0 <= i < |bonuses| ==> bonuses[i].minutes >= 0) ==> total >= 0
  {
    if |bonuses| == 0 then 0
    else
      var n := |bonuses| - 1;
      UnusedMinutes(bonuses[..n], user) + (if UnusedOf(user)(bonuses[n]) then bonuses[n].minutes else 0)
  }

  /** `get_total_bonus_time`. */
  function GetTotalBonusTime(db: Db, user: string): (total: int)
    ensures (forall i :: 0 <= i < |db.bonuses| ==> !UnusedOf(user)(db.bonuses[i])) ==> total == 0
    ensures (forall i :: 0 <= i < |db.bonuses| ==> db.bonuses[i].minutes >= 0) ==> total >= 0
  {
    UnusedMinutes(db.bonuses, user)
  }

  /** Bonus totals are additive over the rows of the table. */
  lemma {:induction false} UnusedMinutesAppend(a: seq<Bonus>, b: seq<Bonus>, user: string)
    ensures UnusedMinutes(a + b, user) == UnusedMinutes(a, user) + UnusedMinutes(b, user)
    decreases |b|
  {
    if |b| == 0 {
      assert a + b == a;
    } else {
      var n := |b| - 1;
      assert (a + b)[..|a + b| - 1] == a + b[..n];
      UnusedMinutesAppend(a, b[..n], user);
    }
  }

  /** Granting `minutes` to `user` raises their total by exactly that much and leaves every other user's total alone. */
  lemma AddBonusRaisesTotal(db: Db, user: string, minutes: int, reason: string, other: string)
    ensures GetTotalBonusTime(AddBonusTime(db, user, minutes, reason), user) == GetTotalBonusTime(db, user) + minutes
    ensures other != user ==>
      GetTotalBonusTime(AddBonusTime(db, user, minutes, reason), other) == GetTotalBonusTime(db, other)
  {
  }
}
