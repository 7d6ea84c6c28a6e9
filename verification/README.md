# Point ledger

This project models the point controller of a per-user point (credit) service.
The controller works over two stores:

- the **balance table** (`UserPointTable`) holds one row `(id, point, updateMillis)` per user; a user who has never been written reads as 0 points;
- the **history log** (`PointHistoryTable`) is append-only and holds entries `(userId, amount, type, updateMillis)`.

The controller has four operations:

- `point(id)` reads a user's row;
- `history(id)` reads a user's entries in insertion order;
- `charge(id, amount)` refuses a negative amount. Otherwise it reads the balance, writes `balance + amount`, appends one CHARGE entry of `amount` stamped with the written row's timestamp, and returns the row;
- `use(id, amount)` refuses a negative amount. It then refuses a debit larger than the balance. Otherwise it writes `balance - amount` and appends one USE entry of `-amount`.

Files:

- `point_types.dfy`: the values (rows, entries, transaction types, the two error kinds, `Result`).
- `point_tables.dfy`: the two stores as classes with a `map` field and a `seq` field. It also holds the per-user view of the log (`EntriesOf`) and the sum of amounts.
- `point_ledger.dfy`: the specification. It gives the effect of one charge or one use on the pair of stores as functions (`ChargeStep`, `UseStep`) and the invariant every reachable state keeps (`Consistent`). It proves that both operations keep the invariant, that they leave other users alone, and that from the empty state every balance is non-negative and equals the sum of that user's logged amounts.
- `point_controller.dfy`: the controller as a class holding the two stores. `Charge` and `Use` run the source's steps in the same order (check, read, write row, append entry). Each is proved to produce exactly the state and answer of `ChargeStep` / `UseStep`. `Point` and `History` are functions, so they change nothing.

Errors are returned as `Result` values instead of exceptions. `InvalidAmount` stands for `IllegalArgumentException`. `InsufficientBalance` stands for `IllegalStateException`. The clock reading the balance store stamps its rows with is a parameter `now`.

## Model

| member | source | states |
|---|---|---|
| `PointTables.UserPointTable.SelectById` | src/main/java/io/hhplus/tdd/point/PointController.java:36 | returns the stored row of `id`, or a row of 0 points for `id` stamped with the clock reading when the user was never written; changes nothing |
| `PointTables.UserPointTable.InsertOrUpdate` | src/main/java/io/hhplus/tdd/point/PointController.java:62 | sets the row of `id` to the given points stamped `now`, returns that row, leaves every other row as it was |
| `PointTables.PointHistoryTable.Insert` | src/main/java/io/hhplus/tdd/point/PointController.java:63 | appends exactly one entry with the given user, amount, type and timestamp, and returns it |
| `PointTables.PointHistoryTable.SelectAllByUserId` | src/main/java/io/hhplus/tdd/point/PointController.java:46 | returns the user's entries in insertion order (the ordered selection `EntriesOf`), holding exactly the logged entries of the user; the result is empty iff the user has no entry |
| `PointTables.EntriesOf` | src/main/java/io/hhplus/tdd/point/PointController.java:46 | the per-user view of the log holds exactly that user's entries and is no longer than the log |
| `PointTables.EntriesOfInOrder` | src/main/java/io/hhplus/tdd/point/PointController.java:46 | the per-user view is an order-preserving selection of the log: its k-th entry is the log entry at the k-th of a strictly increasing list of positions (`Positions`), every listed position holds an entry of the user, and every position holding one is listed |
| `PointTables.PositionsSelect` | src/main/java/io/hhplus/tdd/point/PointController.java:46 | the user's view has one entry per listed position, and its k-th entry is the log entry at the k-th position |
| `PointTables.PositionsIncreasing` | src/main/java/io/hhplus/tdd/point/PointController.java:46 | the listed positions strictly increase, so the view keeps insertion order and drops no repeated entry |
| `PointTables.PositionsCover` | src/main/java/io/hhplus/tdd/point/PointController.java:46 | every log position holding an entry of the user is listed |
| `PointTables.EntriesOfAppend` | src/main/java/io/hhplus/tdd/point/PointController.java:63 | appending an entry extends its owner's history by that entry, at the end, and leaves every other user's history unchanged |
| `PointLedger.ChargeStep` | src/main/java/io/hhplus/tdd/point/PointController.java:57-64 | fails iff the amount is negative, and then fails with InvalidAmount and leaves both stores unchanged; on success the returned row belongs to `id`, holds the previous balance plus `amount`, is the stored row, and the log gains exactly one `(id, amount, CHARGE)` entry stamped with the row's timestamp; every other row is kept |
| `PointLedger.UseStep` | src/main/java/io/hhplus/tdd/point/PointController.java:75-83 | InvalidAmount iff the amount is negative; InsufficientBalance iff the amount is non-negative and exceeds the balance; any failure leaves both stores unchanged; on success the row holds the previous balance minus `amount` (between 0 and the previous balance), and the log gains exactly one `(id, -amount, USE)` entry stamped with the row's timestamp; every other row is kept |
| `PointLedger.AppendStepKeepsUser` | src/main/java/io/hhplus/tdd/point/PointController.java:59-63 | writing a row and appending its matching entry keeps, for every user, the link between row, history, balance sum and latest timestamp |
| `PointLedger.AppendStepKeepsConsistent` | src/main/java/io/hhplus/tdd/point/PointController.java:77-82 | a row write plus a matching, well-signed entry append keeps the whole ledger invariant |
| `PointLedger.ChargeKeepsConsistent` | src/main/java/io/hhplus/tdd/point/PointController.java:57-63 | a charge, successful or refused, keeps the ledger invariant |
| `PointLedger.UseKeepsConsistent` | src/main/java/io/hhplus/tdd/point/PointController.java:75-82 | a use, successful or refused, keeps the ledger invariant, so no balance goes below zero |
| `PointLedger.ChargeIsolated` | src/main/java/io/hhplus/tdd/point/PointController.java:59-63 | a charge to `id` leaves every other user's balance and history unchanged |
| `PointLedger.UseIsolated` | src/main/java/io/hhplus/tdd/point/PointController.java:77-82 | a use by `id` leaves every other user's balance and history unchanged |
| `PointLedger.ChargeHistoryGrowsByOne` | src/main/java/io/hhplus/tdd/point/PointController.java:62-63 | a successful charge extends the user's own history by exactly its CHARGE entry |
| `PointLedger.UseHistoryGrowsByOne` | src/main/java/io/hhplus/tdd/point/PointController.java:81-82 | a successful use extends the user's own history by exactly its USE entry of `-amount` |
| `PointLedger.ReplayConsistent` | src/main/java/io/hhplus/tdd/point/PointController.java:52-84 | every state reached from the empty one by any sequence of charges and uses keeps the ledger invariant |
| `PointLedger.BalanceIsHistorySum` | src/main/java/io/hhplus/tdd/point/PointController.java:57-82 | in every reachable state each user's balance is non-negative and equals the sum of the amounts in that user's history |
| `PointLedger.UnitChargesCount` | src/main/java/io/hhplus/tdd/point/PointController.java:57-64 | serving n one-point charges to a user from the empty state leaves a balance of n and exactly n history entries |
| `PointControllers.PointController.constructor` | src/main/java/io/hhplus/tdd/point/PointController.java:24-27 | the controller works over the two stores it is given |
| `PointControllers.PointController.Point` | src/main/java/io/hhplus/tdd/point/PointController.java:32-37 | returns the stored row, or a row of 0 points stamped with the clock reading for a user never written; its points are the ledger balance of the user; reads only |
| `PointControllers.PointController.History` | src/main/java/io/hhplus/tdd/point/PointController.java:42-47 | returns the ledger history of the user, that is its entries in insertion order; holds exactly the user's logged entries, empty iff there are none; reads only |
| `PointControllers.PointController.Charge` | src/main/java/io/hhplus/tdd/point/PointController.java:52-65 | the new stores and the answer are exactly those of `ChargeStep` on the old stores, and the ledger invariant is kept |
| `PointControllers.PointController.Use` | src/main/java/io/hhplus/tdd/point/PointController.java:70-84 | the new stores and the answer are exactly those of `UseStep` on the old stores, and the ledger invariant is kept |

## Left out

- Java `long` arithmetic: balances and amounts are unbounded integers, so the overflow of `currUserPoint.point() + amount` in `charge` is not modelled. The source has no policy for it.
- History ids: the log's id counter is left out, so entries carry no id; insertion order is the sequence order.
- The concrete stores `UserPointTable` and `PointHistoryTable` (their timing and the real clock) are not part of this model. Only the behaviour the controller relies on is modelled. The clock is the parameter `now`. The default row's timestamp for an unwritten user uses the same reading as the write.
- Concurrency: the controller takes no lock. Races between concurrent requests for one user are not modelled; requests are served one at a time.
- Spring routing, JSON request bodies, the HTTP response shape and the logger.
- `ApiControllerAdvice` (mapping the two error kinds to 400/409 and anything else to 500, with localized messages): only the two error kinds are kept.
