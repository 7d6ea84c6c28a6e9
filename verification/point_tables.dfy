/** The two stores the controller works over, modelled by the behaviour the
    controller relies on: a balance table keyed by user id that reads as zero
    for a user never written, and an append-only history log read back per
    user in insertion order. */
module PointTables {
  import opened PointTypes

  /** The points stored for `id`; a user who has never been written holds 0. */
  function StoredPoint(points: map<int, UserPoint>, id: int): int
  {
    if id in points then points[id].point else 0
  }

  /** The entries of `log` that belong to `userId`, in the order they were
      appended. */
  function EntriesOf(log: seq<PointHistory>, userId: int): (r: seq<PointHistory>)
    ensures |r| <= |log|
    ensures forall e :: e in r <==> e in log && e.userId == userId
  {
    if log == [] then []
    else
      var last := log[|log| - 1];
      EntriesOf(log[..|log| - 1], userId) + (if last.userId == userId then [last] else [])
  }

  /** Position `i` is one of the positions in `idx`. */
  ghost predicate Listed(idx: seq<nat>, i: nat)
  {
    exists k :: 0 <= k < |idx| && idx[k] == i
  }

  /** The positions in `log` of the entries of `userId`, in log order. */
  ghost function Positions(log: seq<PointHistory>, userId: int): (idx: seq<nat>)
    ensures |idx| <= |log|
    ensures forall k :: 0 <= k < |idx| ==> idx[k] < |log|
  {
    if log == [] then []
    else
      var n := |log| - 1;
      Positions(log[..n], userId) + (if log[n].userId == userId then [n] else [])
  }

  /** The k-th entry of the user's view is the log entry at the k-th
      position. */
  lemma {:induction false} PositionsSelect(log: seq<PointHistory>, userId: int)
    ensures |Positions(log, userId)| == |EntriesOf(log, userId)|
    ensures forall k :: 0 <= k < |Positions(log, userId)| ==>
      EntriesOf(log, userId)[k] == log[Positions(log, userId)[k]]
  {
    if log != [] {
      var n := |log| - 1;
      var init := log[..n];
      var last := log[n];
      PositionsSelect(init, userId);
      var pre := Positions(init, userId);
      assert log == init + [last];
      EntriesOfAppend(init, last, userId);
      var idx := Positions(log, userId);
      forall k | 0 <= k < |idx|
        ensures EntriesOf(log, userId)[k] == log[idx[k]]
      {
        if k < |pre| {
          assert idx[k] == pre[k] && log[pre[k]] == init[pre[k]];
        }
      }
    }
  }

  /** The positions are listed in strictly increasing order. */
  lemma {:induction false} PositionsIncreasing(log: seq<PointHistory>, userId: int)
    ensures forall k, j :: 0 <= k < j < |Positions(log, userId)| ==>
      Positions(log, userId)[k] < Positions(log, userId)[j]
  {
    if log != [] {
      PositionsIncreasing(log[..|log| - 1], userId);
    }
  }

  /** Every position holding an entry of the user is listed. */
  lemma {:induction false} PositionsCover(log: seq<PointHistory>, userId: int)
    ensures forall i :: 0 <= i < |log| && log[i].userId == userId ==> Listed(Positions(log, userId), i)
  {
    if log != [] {
      var n := |log| - 1;
      var init := log[..n];
      PositionsCover(init, userId);
      var pre := Positions(init, userId);
      var idx := Positions(log, userId);
      forall i | 0 <= i < |log| && log[i].userId == userId
        ensures Listed(idx, i)
      {
        if i < n {
          assert init[i] == log[i];
          var k :| 0 <= k < |pre| && pre[k] == i;
          assert idx[k] == i;
        } else {
          assert idx[|pre|] == i;
        }
      }
    }
  }

  /** `EntriesOf` is an order-preserving selection from the log: `Positions`
      lists, in increasing order, the positions of exactly the entries of
      `userId`, and the k-th entry returned is the log entry at the k-th
      position. */
  lemma EntriesOfInOrder(log: seq<PointHistory>, userId: int)
    ensures var idx := Positions(log, userId);
      && |idx| == |EntriesOf(log, userId)|
      && (forall k :: 0 <= k < |idx| ==> idx[k] < |log| && EntriesOf(log, userId)[k] == log[idx[k]])
      && (forall k :: 0 <= k < |idx| ==> log[idx[k]].userId == userId)
      && (forall k, j :: 0 <= k < j < |idx| ==> idx[k] < idx[j])
      && (forall i :: 0 <= i < |log| && log[i].userId == userId ==> Listed(idx, i))
  {
    PositionsSelect(log, userId);
    PositionsIncreasing(log, userId);
    PositionsCover(log, userId);
    var idx := Positions(log, userId);
    forall k | 0 <= k < |idx|
      ensures log[idx[k]].userId == userId
    {
      assert EntriesOf(log, userId)[k] in EntriesOf(log, userId);
    }
  }

  /** The sum of the amounts of a run of history entries. */
  function SumAmounts(h: seq<PointHistory>): int
  {
    if h == [] then 0 else SumAmounts(h[..|h| - 1]) + h[|h| - 1].amount
  }

  /** Appending one entry extends the owner's entries by it and leaves every
      other user's entries as they were. */
  lemma {:induction false} EntriesOfAppend(log: seq<PointHistory>, e: PointHistory, userId: int)
    ensures EntriesOf(log + [e], userId)
         == EntriesOf(log, userId) + (if e.userId == userId then [e] else [])
  {
    assert (log + [e])[..|log|] == log;
  }

  /** The sum over a run extended by one entry grows by that entry's amount. */
  lemma {:induction false} SumAmountsAppend(h: seq<PointHistory>, e: PointHistory)
    ensures SumAmounts(h + [e]) == SumAmounts(h) + e.amount
  {
    assert (h + [e])[..|h|] == h;
  }

  /** The balance table: one row per user that has been written. */
  class UserPointTable {
    var table: map<int, UserPoint>

    /** A table with no rows: every user reads as zero. */
    constructor ()
      ensures table == map[]
    {
      table := map[];
    }

    /** The stored row of `id`, or an empty row stamped `now` for a user never
        written. Reading changes nothing. */
    function SelectById(id: int, now: int): (r: UserPoint)
      reads this
      ensures r.point == StoredPoint(table, id)
      ensures id in table ==> r == table[id]
      ensures id !in table ==> r.id == id && r.updateMillis == now
    {
      if id in table then table[id] else UserPoint(id, 0, now)
    }

    /** Sets the points of `id` unconditionally, stamping the row with `now`,
        and returns the row written. */
    method InsertOrUpdate(id: int, point: int, now: int) returns (r: UserPoint)
      modifies this
      ensures r == UserPoint(id, point, now)
      ensures table == old(table)[id := r]
    {
      r := UserPoint(id, point, now);
      table := table[id := r];
    }
  }

  /** The history log: append-only, in insertion order. */
  class PointHistoryTable {
    var log: seq<PointHistory>

    /** An empty log. */
    constructor ()
      ensures log == []
    {
      log := [];
    }

    /** Appends one entry and returns it. */
    method Insert(userId: int, amount: int, kind: TransactionType, updateMillis: int) returns (r: PointHistory)
      modifies this
      ensures r == PointHistory(userId, amount, kind, updateMillis)
      ensures log == old(log) + [r]
    {
      r := PointHistory(userId, amount, kind, updateMillis);
      log := log + [r];
    }

    /** The entries of `userId`, in insertion order; empty when the user has
        none. Reading changes nothing. */
    function SelectAllByUserId(userId: int): (r: seq<PointHistory>)
      reads this
      ensures r == EntriesOf(log, userId)
      ensures forall e :: e in r <==> e in log && e.userId == userId
      ensures r == [] <==> forall e :: e in log ==> e.userId != userId
    {
      var r := EntriesOf(log, userId);
      assert r != [] ==> r[0] in r;
      r
    }
  }
}
