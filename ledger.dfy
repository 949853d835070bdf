/**
 * A point movement as the services write it: the balance update on the
 * user's row, then a history row with the same amount.
 */
module Ledger {
  import opened Entities
  import opened Repositories

  /** `incrPoint(userId, amount)` followed by a history row with `increasedAmount = amount`. */
  method Credit(db: Database, userId: string, amount: int)
    requires db.Valid()
    modifies db
    ensures db.Valid()
    ensures db.reviews == old(db.reviews)
    ensures Balances(db.userPoints) == Shift(Balances(old(db.userPoints)), userId, amount)
    ensures Movements(db.histories) == Movements(old(db.histories)) + [Movement(userId, amount, 0)]
    ensures HistoryBalanced(Balances(old(db.userPoints)), Movements(old(db.histories))) && userId in old(db.userPoints) ==>
              HistoryBalanced(Balances(db.userPoints), Movements(db.histories))
  {
    var updated := db.IncrPoint(userId, amount);
    var row := db.SaveHistory(UserPointHistory(userId := userId, increasedAmount := amount));
    if HistoryBalanced(Balances(old(db.userPoints)), Movements(old(db.histories))) && userId in old(db.userPoints) {
      BalancedAfterMovement(Balances(old(db.userPoints)), Movements(old(db.histories)), Movement(userId, amount, 0));
    }
  }

  /** `decrPoint(userId, amount)` followed by a history row with `decreasedAmount = amount`. */
  method Debit(db: Database, userId: string, amount: int)
    requires db.Valid()
    modifies db
    ensures db.Valid()
    ensures db.reviews == old(db.reviews)
    ensures Balances(db.userPoints) == Shift(Balances(old(db.userPoints)), userId, -amount)
    ensures Movements(db.histories) == Movements(old(db.histories)) + [Movement(userId, 0, amount)]
    ensures HistoryBalanced(Balances(old(db.userPoints)), Movements(old(db.histories))) && userId in old(db.userPoints) ==>
              HistoryBalanced(Balances(db.userPoints), Movements(db.histories))
  {
    var updated := db.DecrPoint(userId, amount);
    var row := db.SaveHistory(UserPointHistory(userId := userId, decreasedAmount := amount));
    if HistoryBalanced(Balances(old(db.userPoints)), Movements(old(db.histories))) && userId in old(db.userPoints) {
      BalancedAfterMovement(Balances(old(db.userPoints)), Movements(old(db.histories)), Movement(userId, 0, amount));
    }
  }
}
