/** The point controller: two reads and two updates over the balance table
    and the history log. Each update reads the current balance, checks the
    request, writes the new balance, then appends one history entry. */
module PointControllers {
  import opened PointTypes
  import opened PointTables
  import opened PointLedger

  class PointController {
    const userPointTable: UserPointTable
    const pointHistoryTable: PointHistoryTable

    /** Wires the controller to its two stores. */
    constructor (userPointTable: UserPointTable, pointHistoryTable: PointHistoryTable)
      ensures this.userPointTable == userPointTable && this.pointHistoryTable == pointHistoryTable
    {
      this.userPointTable := userPointTable;
      this.pointHistoryTable := pointHistoryTable;
    }

    /** Both stores seen as one ledger value. */
    function State(): Ledger
      reads userPointTable, pointHistoryTable
    {
      Ledger(userPointTable.table, pointHistoryTable.log)
    }

    /** The balance row of `id`; a user never written reads as 0 points. */
    function Point(id: int, now: int): (r: UserPoint)
      reads userPointTable, pointHistoryTable
      ensures r.point == Balance(State(), id)
      ensures id in userPointTable.table ==> r == userPointTable.table[id]
      ensures id !in userPointTable.table ==> r.id == id && r.point == 0 && r.updateMillis == now
    {
      userPointTable.SelectById(id, now)
    }

    /** The history of `id`, oldest first; empty for a user with no
        transactions. */
    function History(id: int): (r: seq<PointHistory>)
      reads userPointTable, pointHistoryTable
      ensures r == PointLedger.History(State(), id)
      ensures forall e :: e in r <==> e in pointHistoryTable.log && e.userId == id
      ensures r == [] <==> forall e :: e in pointHistoryTable.log ==> e.userId != id
    {
      pointHistoryTable.SelectAllByUserId(id)
    }

    /** Charges `amount` points to `id`; `now` is the balance store's clock
        reading for the write. The new state and the answer are those of
        ChargeStep, and the ledger invariant is kept. */
    method Charge(id: int, amount: int, now: int) returns (r: Result<UserPoint>)
      modifies userPointTable, pointHistoryTable
      ensures State() == ChargeStep(old(State()), id, amount, now).next
      ensures r == ChargeStep(old(State()), id, amount, now).response
      ensures Consistent(old(State())) ==> Consistent(State())
    {
      ghost var before := State();
      if amount < 0 {
        return Err(InvalidAmount);
      }
      var curr := userPointTable.SelectById(id, now);
      var newPoint := curr.point + amount;
      var chargePoint := userPointTable.InsertOrUpdate(id, newPoint, now);
      var _ := pointHistoryTable.Insert(id, amount, TransactionType.Charge, chargePoint.updateMillis);
      r := Ok(chargePoint);
      if Consistent(before) {
        ChargeKeepsConsistent(before, id, amount, now);
      }
    }

    /** Uses `amount` points of `id`; `now` is the balance store's clock
        reading for the write. The new state and the answer are those of
        UseStep, and the ledger invariant is kept. */
    method Use(id: int, amount: int, now: int) returns (r: Result<UserPoint>)
      modifies userPointTable, pointHistoryTable
      ensures State() == UseStep(old(State()), id, amount, now).next
      ensures r == UseStep(old(State()), id, amount, now).response
      ensures Consistent(old(State())) ==> Consistent(State())
    {
      ghost var before := State();
      if amount < 0 {
        return Err(InvalidAmount);
      }
      var curr := userPointTable.SelectById(id, now);
      if curr.point < amount {
        return Err(InsufficientBalance);
      }
      var newPoint := curr.point - amount;
      var usePoint := userPointTable.InsertOrUpdate(id, newPoint, now);
      var _ := pointHistoryTable.Insert(id, -amount, TransactionType.Use, usePoint.updateMillis);
      r := Ok(usePoint);
      if Consistent(before) {
        UseKeepsConsistent(before, id, amount, now);
      }
    }
  }
}
