/** The point ledger as values: the state of both stores together, the effect
    of one charge or one use on it, the invariant every reachable state keeps,
    and what a run of requests from the empty state leads to. */
module PointLedger {
  import opened PointTypes
  import opened PointTables

  /** Both stores at one instant: the balance table and the history log. */
  datatype Ledger = Ledger(points: map<int, UserPoint>, log: seq<PointHistory>)

  /** What one request does: the state afterwards and the caller's answer. */
  datatype Outcome = Outcome(next: Ledger, response: Result<UserPoint>)

  /** The state before any request. */
  function EmptyLedger(): Ledger
  {
    Ledger(map[], [])
  }

  /** The balance of `id`: its stored points, or 0 for a user never written. */
  function Balance(l: Ledger, id: int): int
  {
    StoredPoint(l.points, id)
  }

  /** The transactions of `id`, oldest first. */
  function History(l: Ledger, id: int): seq<PointHistory>
  {
    EntriesOf(l.log, id)
  }

  /** `after` differs from `before` at most in the row of `id`. */
  ghost predicate OtherRowsKept(before: Ledger, after: Ledger, id: int)
  {
    forall u :: u != id ==> (u in after.points <==> u in before.points) &&
                            (u in after.points ==> after.points[u] == before.points[u])
  }

  /** A charge of `amount` points to `id`, with the balance store's clock
      reading `now`. A negative amount is refused before either store is
      read or written; otherwise the balance grows by `amount` and one CHARGE
      entry stamped like the new row is appended. */
  function ChargeStep(l: Ledger, id: int, amount: int, now: int): (o: Outcome)
    ensures o.response.Err? <==> amount < 0
    ensures o.response.Err? ==> o.response.error == InvalidAmount && o.next == l
    ensures o.response.Ok? ==>
      var row := o.response.value;
      && row.id == id && row.updateMillis == now
      && row.point == Balance(l, id) + amount
      && Balance(o.next, id) == row.point
      && o.next.log == l.log + [PointHistory(id, amount, Charge, row.updateMillis)]
      && id in o.next.points && o.next.points[id] == row
      && OtherRowsKept(l, o.next, id)
  {
    if amount < 0 then Outcome(l, Err(InvalidAmount))
    else
      var row := UserPoint(id, Balance(l, id) + amount, now);
      Outcome(Ledger(l.points[id := row], l.log + [PointHistory(id, amount, Charge, row.updateMillis)]), Ok(row))
  }

  /** A use of `amount` points by `id`. A negative amount is refused first;
      then a debit larger than the current balance is refused; either way
      nothing is written. Otherwise the balance shrinks by `amount` and one USE
      entry of `-amount` stamped like the new row is appended. */
  function UseStep(l: Ledger, id: int, amount: int, now: int): (o: Outcome)
    ensures o.response == Err(InvalidAmount) <==> amount < 0
    ensures o.response == Err(InsufficientBalance) <==> 0 <= amount && Balance(l, id) < amount
    ensures o.response.Err? ==> o.next == l
    ensures o.response.Ok? ==>
      var row := o.response.value;
      && row.id == id && row.updateMillis == now
      && row.point == Balance(l, id) - amount
      && 0 <= row.point <= Balance(l, id)
      && Balance(o.next, id) == row.point
      && o.next.log == l.log + [PointHistory(id, -amount, Use, row.updateMillis)]
      && id in o.next.points && o.next.points[id] == row
      && OtherRowsKept(l, o.next, id)
  {
    if amount < 0 then Outcome(l, Err(InvalidAmount))
    else if Balance(l, id) < amount then Outcome(l, Err(InsufficientBalance))
    else
      var row := UserPoint(id, Balance(l, id) - amount, now);
      Outcome(Ledger(l.points[id := row], l.log + [PointHistory(id, -amount, Use, row.updateMillis)]), Ok(row))
  }

  /** The invariant of every reachable state: each row is keyed by its own
      user and holds a non-negative balance; a user has a row exactly when
      the user has history; each balance is the sum of the user's logged
      amounts; the row's timestamp is that of the user's latest entry; and
      every logged amount has the sign of its kind. */
  ghost predicate Consistent(l: Ledger)
  {
    && (forall u :: ConsistentFor(l, u))
    && (forall i :: 0 <= i < |l.log| ==> WellSigned(l.log[i]))
  }

  /** The per-user part of the invariant, for user `u`. */
  ghost predicate ConsistentFor(l: Ledger, u: int)
  {
    && (u in l.points ==> l.points[u].id == u && l.points[u].point >= 0)
    && (u in l.points <==> History(l, u) != [])
    && Balance(l, u) == SumAmounts(History(l, u))
    && (u in l.points ==>
          var h := History(l, u); h != [] && h[|h| - 1].updateMillis == l.points[u].updateMillis)
  }

  /** A successful charge or use appends entry `e` for `id` and installs
      `row` as `id`'s row with the balance moved by `e.amount`: user `u` keeps
      its part of the invariant. */
  lemma {:induction false} AppendStepKeepsUser(l: Ledger, l': Ledger, id: int, row: UserPoint, e: PointHistory, u: int)
    requires ConsistentFor(l, u)
    requires e.userId == id && e.updateMillis == row.updateMillis
    requires row.id == id && row.point >= 0 && row.point == Balance(l, id) + e.amount
    requires l'.points == l.points[id := row] && l'.log == l.log + [e]
    ensures ConsistentFor(l', u)
  {
    EntriesOfAppend(l.log, e, u);
    if u == id {
      SumAmountsAppend(History(l, u), e);
      assert History(l', u) == History(l, u) + [e];
      assert Balance(l', u) == row.point;
    } else {
      assert History(l', u) == History(l, u);
      assert Balance(l', u) == Balance(l, u);
    }
  }

  /** A successful charge or use appends a well-signed entry `e` for `id`,
      installs `row` as `id`'s row with the balance moved by `e.amount`, and
      touches no other row: such a step keeps the invariant. */
  lemma {:induction false} AppendStepKeepsConsistent(l: Ledger, l': Ledger, id: int, row: UserPoint, e: PointHistory)
    requires Consistent(l)
    requires e.userId == id && WellSigned(e) && e.updateMillis == row.updateMillis
    requires row.id == id && row.point >= 0 && row.point == Balance(l, id) + e.amount
    requires l'.points == l.points[id := row] && l'.log == l.log + [e]
    ensures Consistent(l')
  {
    forall u ensures ConsistentFor(l', u) {
      assert ConsistentFor(l, u);
      AppendStepKeepsUser(l, l', id, row, e, u);
    }
    forall i | 0 <= i < |l'.log|
      ensures WellSigned(l'.log[i])
    {
      if i < |l.log| {
        assert l'.log[i] == l.log[i];
      }
    }
  }

  /** A charge keeps the invariant, whether it succeeds or is refused. */
  lemma ChargeKeepsConsistent(l: Ledger, id: int, amount: int, now: int)
    requires Consistent(l)
    ensures Consistent(ChargeStep(l, id, amount, now).next)
  {
    var o := ChargeStep(l, id, amount, now);
    if o.response.Ok? {
      assert ConsistentFor(l, id);
      AppendStepKeepsConsistent(l, o.next, id, o.response.value, PointHistory(id, amount, Charge, now));
    }
  }

  /** A use keeps the invariant, whether it succeeds or is refused; in
      particular no balance ever goes below zero. */
  lemma UseKeepsConsistent(l: Ledger, id: int, amount: int, now: int)
    requires Consistent(l)
    ensures Consistent(UseStep(l, id, amount, now).next)
  {
    var o := UseStep(l, id, amount, now);
    if o.response.Ok? {
      AppendStepKeepsConsistent(l, o.next, id, o.response.value, PointHistory(id, -amount, Use, now));
    }
  }

  /** A charge to `id` leaves every other user's balance and history as they
      were. */
  lemma ChargeIsolated(l: Ledger, id: int, amount: int, now: int, other: int)
    requires other != id
    ensures Balance(ChargeStep(l, id, amount, now).next, other) == Balance(l, other)
    ensures History(ChargeStep(l, id, amount, now).next, other) == History(l, other)
  {
    if amount >= 0 {
      EntriesOfAppend(l.log, PointHistory(id, amount, Charge, now), other);
    }
  }

  /** A use by `id` leaves every other user's balance and history as they
      were. */
  lemma UseIsolated(l: Ledger, id: int, amount: int, now: int, other: int)
    requires other != id
    ensures Balance(UseStep(l, id, amount, now).next, other) == Balance(l, other)
    ensures History(UseStep(l, id, amount, now).next, other) == History(l, other)
  {
    if 0 <= amount <= Balance(l, id) {
      EntriesOfAppend(l.log, PointHistory(id, -amount, Use, now), other);
    }
  }

  /** A successful charge or use adds exactly one entry to the caller's own
      history: the entry whose amount moved the balance. */
  lemma ChargeHistoryGrowsByOne(l: Ledger, id: int, amount: int, now: int)
    requires amount >= 0
    ensures History(ChargeStep(l, id, amount, now).next, id)
         == History(l, id) + [PointHistory(id, amount, Charge, now)]
  {
    EntriesOfAppend(l.log, PointHistory(id, amount, Charge, now), id);
  }

  /** See ChargeHistoryGrowsByOne; a use logs the negated amount. */
  lemma UseHistoryGrowsByOne(l: Ledger, id: int, amount: int, now: int)
    requires 0 <= amount <= Balance(l, id)
    ensures History(UseStep(l, id, amount, now).next, id)
         == History(l, id) + [PointHistory(id, -amount, Use, now)]
  {
    EntriesOfAppend(l.log, PointHistory(id, -amount, Use, now), id);
  }

  /** A state-changing request, with the clock reading its write will get. */
  datatype Request =
    | ChargeRequest(id: int, amount: int, now: int)
    | UseRequest(id: int, amount: int, now: int)

  /** Serves one request. */
  function Serve(l: Ledger, q: Request): Outcome
  {
    match q
    case ChargeRequest(id, amount, now) => ChargeStep(l, id, amount, now)
    case UseRequest(id, amount, now) => UseStep(l, id, amount, now)
  }

  /** The state after serving `qs` one at a time, in order, from the empty
      state. */
  function Replay(qs: seq<Request>): Ledger
  {
    if qs == [] then EmptyLedger()
    else Serve(Replay(qs[..|qs| - 1]), qs[|qs| - 1]).next
  }

  /** Every state reached from the empty one, by any mix of charges and uses,
      successful or refused, keeps the invariant. */
  lemma {:induction false} ReplayConsistent(qs: seq<Request>)
    ensures Consistent(Replay(qs))
  {
    if qs == [] {
      forall u ensures History(EmptyLedger(), u) == [] {
      }
    } else {
      var l := Replay(qs[..|qs| - 1]);
      ReplayConsistent(qs[..|qs| - 1]);
      match qs[|qs| - 1]
      case ChargeRequest(id, amount, now) => ChargeKeepsConsistent(l, id, amount, now);
      case UseRequest(id, amount, now) => UseKeepsConsistent(l, id, amount, now);
    }
  }

  /** In every reachable state, each user's balance is non-negative and
      equals the sum of the amounts in that user's history. */
  lemma BalanceIsHistorySum(qs: seq<Request>, u: int)
    ensures Balance(Replay(qs), u) >= 0
    ensures Balance(Replay(qs), u) == SumAmounts(History(Replay(qs), u))
  {
    ReplayConsistent(qs);
    assert ConsistentFor(Replay(qs), u);
  }

  /** `n` charges of one point each to `id`, at clock readings `nows`. */
  function UnitCharges(id: int, nows: seq<int>): (qs: seq<Request>)
    ensures |qs| == |nows|
    ensures forall i :: 0 <= i < |qs| ==> qs[i] == ChargeRequest(id, 1, nows[i])
  {
    if nows == [] then []
    else UnitCharges(id, nows[..|nows| - 1]) + [ChargeRequest(id, 1, nows[|nows| - 1])]
  }

  /** Serving `n` one-point charges to a user from the empty state leaves a
      balance of exactly `n` and exactly `n` history entries: no charge is
      lost and none is logged twice. */
  lemma {:induction false} UnitChargesCount(id: int, nows: seq<int>)
    ensures Balance(Replay(UnitCharges(id, nows)), id) == |nows|
    ensures |History(Replay(UnitCharges(id, nows)), id)| == |nows|
  {
    if nows != [] {
      var qs := UnitCharges(id, nows);
      var init := nows[..|nows| - 1];
      assert qs[..|qs| - 1] == UnitCharges(id, init);
      UnitChargesCount(id, init);
      ChargeHistoryGrowsByOne(Replay(UnitCharges(id, init)), id, 1, nows[|nows| - 1]);
    }
  }
}
