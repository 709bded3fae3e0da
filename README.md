# Lucky-draw pool: a verified model

This project models the backend of a lucky draw. The draw hands out prize "signs" from a pool of 10,000 pre-generated rows in a `signs` table. Each row has an `id`, a `level`, a `type` (called `kind` here, because `type` is a Dafny keyword), a `reward_code` and an `is_drawn` flag.

The project models:

- **The draw** (`draw.js`). One attempt is a transaction:
  - count the undrawn rows, and stop with OUT_OF_STOCK when there are none;
  - pick `offset = floor(random * n)`;
  - select the `offset`-th undrawn row in ascending id order (`FOR UPDATE`);
  - flip its `is_drawn` under the guard `is_drawn = false`;
  - commit, or roll back on a lost update or on any error.

  `draw()` makes at most two attempts. A second lost update becomes OUT_OF_STOCK.
- **Pool initialisation** (`init-pool.js`):
  - the sign id format `S<level:2>-<index:4>`;
  - the expansion of `POOL_SPEC` into 10,000 rows;
  - the batching into INSERT statements of 500 rows;
  - the keep/refill/fill decision by the current row count.
- **The pool check** (`verify-pool.js`). The pass/fail verdict over the total, distinct-id, undrawn and per-level counts.
- **The reset** (`reset-pool.js`). It sets every row undrawn.
- **The HTTP mapping** (`api/draw-api.js`). It turns the outcome of `draw()` into status 200, 503 or 500 with a JSON body.

## How it is modelled

The table is the class `Table.SignsTable`:

- It holds the rows in an `array<Row>`, kept in strictly increasing id order. This is the order of the primary key the table is clustered on.
- Each query the draw issues is a method: the count, the offset select and the conditional update are loops over the array; the rivals' commits and the rollback are `forall` statements.
- Each method is proved against a function on `rows[..]`.

`Draw.Attempt` and `Draw.PerformDraw` run the transaction against the table. Their postconditions tie the new table and the outcome to the pure functions `Draw.RunAttempt` and `Draw.RunDraw`. `DrawProperties` proves what the source promises about those functions.

What the database and other callers do is an explicit input (`Draw.AttemptEnv`, `Draw.DrawEnv`):

- the value of `Math.random()`;
- the rows other transactions commit between the count and the select;
- whether another transaction commits the selected row between the select and the update;
- the query at which the driver throws, if any;
- a failure to connect.

With no rivals the update guard always succeeds and the select is never empty. `DrawProperties.RivalFreeAttempt` proves this. The lost-update branch and the empty-select branch are reachable only through the rival inputs.

Only a lost update is retried (`draw.js:4`, `draw.js:77-79`). The other endings behave as follows:

- An empty select rolls back and returns OUT_OF_STOCK at once, with no second attempt (`draw.js:45-48`).
- A second lost update gives OUT_OF_STOCK, not a failure (`draw.js:80-82`).
- `beginTransaction` runs outside the `try`, so a failure there is rethrown without a rollback. Nothing has been written at that point, so the table is unchanged either way.

## Model

| member | source | states |
|---|---|---|
| Signs.Undrawn | draw.js:30-33 | the rows the count query sees: none is drawn, and there are no more of them than rows |
| Signs.Drawn | step2-test.js:26-28 | the rows counted as drawn are all drawn, and there are no more of them than rows |
| Signs.Conservation | step2-test.js:21-34 | for every table, the drawn count plus the undrawn count is the row count |
| Signs.NoneUndrawn | draw.js:30-37 | the undrawn count is 0 exactly when every row is drawn |
| Signs.FlipCounts | draw.js:57-60 | flipping one undrawn row lowers the undrawn count by one and raises the drawn count by one |
| Signs.SortedHasDistinctIds | init-pool.js:45 | a table in strictly increasing primary-key order has no repeated id |
| Signs.NthUndrawnIndex | draw.js:41-44 | the `o`-th undrawn row is undrawn, has exactly `o` undrawn rows before it, and is element `o` of the undrawn rows |
| Signs.SelectAt | draw.js:41-48 | the row the offset query returns, if any, is in the table and undrawn |
| Signs.NthUndrawnUnique | draw.js:41-44 | only one undrawn row has exactly `o` undrawn rows before it |
| Signs.SelectAtCharacterized | draw.js:41-48 | the select is empty exactly when at most `offset` rows are undrawn, and returns row `i` exactly when `i` is undrawn with `offset` undrawn rows before it |
| Signs.SelectedIsOffsetInIdOrder | draw.js:41-44 | in id order, the selected row is the undrawn row with exactly `offset` undrawn rows of smaller id, and the rows of smaller id are exactly those before it |
| Signs.MarkIdDrawn | draw.js:57-60 | the conditional UPDATE keeps every sign and never un-draws; rows with another id are unchanged and rows with that id end drawn |
| Signs.MatchCount | draw.js:57-62 | the UPDATE's `affectedRows` never exceeds the undrawn count; `MatchCountAbsent` and `ConditionalUpdateTouchesOneRow` give its value |
| Signs.MatchCountAbsent | draw.js:57-62 | an UPDATE keyed by an id no row has affects zero rows |
| Signs.ConditionalUpdateTouchesOneRow | draw.js:57-62 | with distinct ids, the UPDATE keyed by row `k`'s id affects one row if `k` is undrawn and none otherwise, and changes only `k`'s `is_drawn` |
| Signs.ClaimAll | draw.js:62-65 | commits by other transactions only set `is_drawn` on the claimed rows; they touch nothing else and never un-draw |
| Signs.GroupCountConcat | verify-pool.js:19-21 | the row count of a (level, type) group is additive over concatenated tables |
| Signs.GroupCountUniform | verify-pool.js:19-21 | rows that all share one level and type form one group holding all of them |
| Signs.DistinctIdCount | verify-pool.js:22 | with distinct ids, COUNT(DISTINCT id) equals the row count |
| Table.SignsTable.constructor | init-pool.js:44-50 | a table created from rows in id order holds exactly those rows |
| Table.SignsTable.CountUndrawn | draw.js:30-33 | the count loop returns the undrawn count of the table |
| Table.SignsTable.SelectUndrawnAt | draw.js:41-48 | the scan returns the position `SelectAt` names, or nothing when the offset is past the undrawn rows |
| Table.SignsTable.MarkDrawnWhereUndrawn | draw.js:57-62 | the in-place UPDATE leaves the table equal to `MarkIdDrawn` of the old one, keeps it in id order, and returns the number of rows that matched id and `is_drawn = false` |
| Table.SignsTable.Claim | draw.js:62-65 | rival commits applied in place are `ClaimAll` of the old table |
| Table.SignsTable.Rollback | draw.js:69-72 | ROLLBACK restores the snapshot exactly |
| Draw.Offset | draw.js:39 | `floor(roll * n)` lies in `[0, n)` |
| Draw.RunAttempt | draw.js:27-73 | an attempt, including the rival commits, never changes a sign and never un-draws a row |
| Draw.RunDraw | draw.js:75-83 | `draw()`, with its retry after a lost update, keeps the table's size and signs and never un-draws a row; `PerformDraw`, `DrawClaimsUndrawnRow` and `RivalFreeDrawRollsBack` state the rest |
| Draw.RunDraws | step2-test.js:52-77 | a series of draws gives one outcome per call and keeps the table's signs throughout |
| Draw.SelectAndUpdate | draw.js:41-73 | the same, for the attempt from the select on |
| Draw.UpdateSelected | draw.js:50-72 | the same, for the attempt from the update on |
| Draw.Attempt | draw.js:27-73 | the transaction run in place leaves the table and the outcome that `RunAttempt` gives, and keeps the table in id order |
| Draw.PerformDraw | draw.js:75-83 | `draw()` run in place leaves the table and the outcome that `RunDraw` gives: at most two attempts, and a second `null` becomes OUT_OF_STOCK |
| DrawProperties.AttemptClaimsUndrawnRow | draw.js:50-68 | a sign handed out by an attempt is the pre-update fields of a row undrawn before it and drawn after it |
| DrawProperties.LostUpdateNeedsRival | draw.js:57-65 | zero affected rows can only happen when another transaction committed the selected row first |
| DrawProperties.EmptySelectNeedsRival | draw.js:41-48 | with a non-zero count, an empty select can only happen when rows were claimed between the count and the select |
| DrawProperties.RivalFreeAttempt | draw.js:27-73 | without rivals: never a lost update; OUT_OF_STOCK exactly when the count ran and found 0; finished when nothing throws; a thrown error is the driver's; OK flips exactly the row at the offset; every other outcome leaves the table unchanged |
| DrawProperties.DrawClaimsUndrawnRow | draw.js:75-83 | a sign handed out by `draw()` comes from a row undrawn before the call and drawn after it |
| DrawProperties.SequentialDraw | draw.js:34-68 | a sequential draw gives OUT_OF_STOCK with the table unchanged when nothing is undrawn; otherwise it gives OK with the offset-th undrawn row, that row alone flipped, undrawn count minus one and drawn count plus one |
| DrawProperties.SequentialDrawPicksInIdOrder | draw.js:39-44 | on a table in id order, a sequential draw hands out the undrawn row with exactly `offset` undrawn rows of smaller id |
| DrawProperties.RivalFreeDrawRollsBack | draw.js:69-72 | without rivals: no retry; any outcome other than OK leaves the table as it was; a thrown error is the connection's or the first attempt's driver error |
| DrawProperties.ExhaustedStaysExhausted | draw.js:34-37 | with nothing undrawn the table is untouched and no sign is handed out; without faults the result is OUT_OF_STOCK |
| DrawProperties.TwoLostUpdatesReportOutOfStock | draw.js:75-83 | on any table, a draw whose two attempts both lose their update returns OUT_OF_STOCK, with the table the second attempt left |
| DrawProperties.ContentionReportsOutOfStock | draw.js:75-83 | on the three-row table `Contended` with a rival taking the selected row in both attempts (`Rivalled`), the draw returns OUT_OF_STOCK although one row is still undrawn |
| DrawProperties.LoseSelectedRow | draw.js:39-68 | for any roll: with nothing claimed before the select and the selected row committed by a rival before the update, the attempt loses its update; the table is the old one with that row alone drawn, one undrawn row fewer |
| DrawProperties.RivalCommits | draw.js:27-73 | what the rivals commit during an attempt keeps every sign and never un-draws |
| DrawProperties.AttemptRollsBackUnlessOk | draw.js:27-72 | whatever the rivals and faults, every ending of an attempt other than OK leaves exactly the rivals' commits: the attempt's own write is rolled back |
| DrawProperties.AttemptOkFlipsOneRow | draw.js:57-68 | an OK commits `MarkIdDrawn` of the handed-out id on top of the rivals' commits: exactly one row, undrawn until then, is flipped, and its fields are the sign handed out |
| DrawProperties.DrawsHandOutDistinctIds | step2-test.js:52-77 | over any series of draws, with any rivals and faults, every sign handed out was undrawn at the start and no id is handed out twice |
| DrawProperties.SequentialDepletion | step2-test.js:79-96 | `n` sequential draws on a table with `n` undrawn rows all succeed and leave drawn = total and undrawn = 0 |
| SignIds.Decimal | init-pool.js:18-19 | `String(n)` for `n < 10^21` is at least one digit, all decimal, with no leading zero |
| SignIds.PadStart | init-pool.js:18-19 | `padStart` yields `max(len, width)` characters: fill characters, then the original string |
| SignIds.DecimalRoundTrip | init-pool.js:18-19 | the decimal string reads back as the number |
| SignIds.PaddedReadsBack | init-pool.js:18-19 | a number below `10^w`, padded to `w`, is `w` digits that read back as the number |
| SignIds.SignId | init-pool.js:17-21 | an id is at least eight characters, starts with `S`, and has a `-` right after the padded level digits, followed by at least four more characters; `SignIdLayout` gives the exact layout |
| SignIds.SignIdLayout | init-pool.js:17-21 | for level < 100 and index < 10000 the id is `S`, two level digits, `-` and four index digits, and decodes back to the pair |
| SignIds.SignIdInjective | init-pool.js:17-21 | two (level, index) pairs in range with the same id are the same pair |
| SignIds.SignIdExample | init-pool.js:17-21 | `signId(1, 7)` is `S01-0007` |
| InitPool.LevelRows | init-pool.js:71-79 | one tier yields exactly `count` rows |
| InitPool.Expand | init-pool.js:69-80 | the expansion has as many rows as the tiers' counts add up to |
| InitPool.GenerateRows | init-pool.js:69-80 | the nested push loops build exactly `Expand(spec)` |
| InitPool.LevelRowsIds | init-pool.js:70-78 | a tier's rows have distinct ids, each carrying the tier's level |
| InitPool.ExpandedRows | init-pool.js:69-80 | for tiers with distinct levels in range, the rows have distinct ids; every row is undrawn, its id carries its level, and its level, type and reward code are one tier's |
| InitPool.ExpandedGroupCount | init-pool.js:70-78 | each (level, type) pair occurs exactly as often as the spec asks |
| InitPool.PoolSpecFacts | init-pool.js:10-15 | POOL_SPEC fits the id format, totals 10,000, covers levels 0-3, and asks for 40, 200, 150 and 9,610 signs of its four (level, type) pairs and none of any other |
| InitPool.GeneratedPool | init-pool.js:69-80 | the generated pool is 10,000 undrawn rows with distinct ids |
| InitPool.Batches | init-pool.js:81-83 | the batching loop yields `ceil(len/500)` consecutive slices `rows[500j .. min(500j+500, len)]`, each non-empty and at most 500 rows, all but the last exactly 500, whose concatenation is the row list |
| InitPool.Values | init-pool.js:85 | `batch.flat()` has five values per row |
| InitPool.ValuesOfRow | init-pool.js:85-88 | row `i` supplies values `5i` to `5i+4`, in column order |
| InitPool.Placeholders | init-pool.js:84 | the placeholder string for `k` rows is `k` tuples of 15 characters joined by `, `: `17k - 2` characters, none for no rows |
| InitPool.PlaceholderCounts | init-pool.js:84 | the placeholder string for `k` rows has `k` tuples and `5k` markers |
| InitPool.MarkersMatchValues | init-pool.js:84-88 | each INSERT binds exactly as many values as it has markers |
| InitPool.PlanFor | init-pool.js:58-67 | no insert exactly for a count of 10,000; truncate exactly for a count that is neither 0 nor 10,000; truncate only before an insert |
| InitPool.Initialize | init-pool.js:58-92 | a table of 10,000 rows is kept as it is; any other table ends as exactly the generated pool |
| InitPool.InitializeResult | init-pool.js:58-92 | afterwards the table has 10,000 rows, and running it again changes nothing |
| VerifyPool.CheckPool | verify-pool.js:30-34 | the loop's verdict is pass exactly when total, distinct ids and undrawn are 10,000 and every group's count is the expected one for its level; a group whose level is not a key fails it |
| VerifyPool.GeneratedPoolPasses | verify-pool.js:30-34 | the initialisation's rows pass the check, for any order of the grouping query's result |
| VerifyPool.SkewedPoolPasses | verify-pool.js:30-34 | the check as written passes a grouping that sums to 10,000 with no level-2 sign and 240 level-1 signs |
| VerifyPool.StrictCheckFixesDistribution | init-pool.js:111-115 | with the four-groups condition, passing groups whose counts sum to the total put exactly the expected number of signs at every level |
| VerifyPool.GeneratedPoolPassesStrict | init-pool.js:111-115 | the generated pool has exactly four groups, so it passes the stricter check too |
| ResetPool.ResetAll | reset-pool.js:12 | after the reset the table has the same size and signs, and no row is drawn |
| ResetPool.Reset | reset-pool.js:12 | the in-place UPDATE leaves `ResetAll` of the old table and keeps it in id order |
| ResetPool.ResetCounts | reset-pool.js:12 | after the reset the undrawn count is the row count and the drawn count is 0 |
| ResetPool.ResetForgetsDraws | reset-pool.js:12 | tables differing only in `is_drawn` reset to the same table |
| ResetPool.ResetIdempotent | reset-pool.js:12 | resetting twice equals resetting once |
| ResetPool.ResetUndoesDraw | reset-pool.js:12 | resetting after any draw gives the same table as resetting before it |
| DrawApi.Respond | api/draw-api.js:18-35 | one response per outcome: 200 exactly for a returned value; OUT_OF_STOCK gets body `{status: 'OUT_OF_STOCK'}`; OK gets the result unchanged; an error gets 503 exactly when its code is one of the seven connection codes; an error with no code gets 500 |
| DrawApi.HandleDraw | api/draw-api.js:15-25 | whatever the response, no sign changes and no row is un-drawn; a body carrying a sign hands out the fields of a row undrawn before the request and drawn after it |
| DrawApi.RefusedConnectionIs503 | api/draw-api.js:29-32 | a refused connection is answered 503 `Service Unavailable` with the table unchanged |
| DrawApi.QuietRequestIs200 | api/draw-api.js:17-25 | without faults or rivals the answer is 200, with OUT_OF_STOCK exactly when nothing is undrawn |

## Left out

- MySQL connections, environment-based configuration, `conn.end()` and the `multipleStatements` flag: I/O with a foreign driver. A failed connection is the `connectError` input.
- Row locking and transaction isolation under concurrent callers. The model is sequential. Other transactions appear only as the claims in `AttemptEnv`: the rows committed between the count and the select, and the selected row committed before the update.
- A failing `rollback()` call inside an attempt: a second error thrown by the rollback itself is not modelled. (A `commit()` that throws is modelled, as a fault at `Commit` that is rolled back.)
- Draw.Offset: `Math.random()` is an input `roll` in `[0, 1)`. `floor(roll * n)` is computed on exact reals, so double rounding is not modelled. The uniform distribution is not modelled either.
- Id order is character-by-character code-point order. MySQL collation rules (case or accent folding) are not modelled; they agree with it for the generated ids.
- DDL: `CREATE TABLE`, `CREATE INDEX` and the `ER_DUP_KEYNAME` handling. These are schema I/O. The model's table always exists and has the five columns.
- Where MySQL physically places inserted rows. `InitPool.Initialize` states the rows inserted, in insertion order. A `SignsTable` is built from rows already in id order.
- ResetPool.Reset: the `affectedRows` figure is only logged and is not returned.
- VerifyPool.StrictCheckFixesDistribution: it takes as a hypothesis that the group counts sum to the total row count, which the `GROUP BY` query guarantees. That sum is not derived from a table here.
- Console logging, `LOG_DRAWS`, and `process.exit` in every script.
- `server.js`: Express wiring and CORS.
- `api/api-routes.js` and the unseen `sign-display.js` it uses: not part of this model.
- `step2-test.js` and `step3-test.js`: test drivers. Their checks appear as lemmas (`DrawsHandOutDistinctIds`, `SequentialDepletion`, `Conservation`).

## Findings

| source | as written | input that shows it | evidently intended | confidence | as-written member | corrected member |
|---|---|---|---|---|---|---|
| verify-pool.js:30-34 | each `GROUP BY level, type` group is compared only with the expected count for its own level, so nothing requires every level to be present or counted once | groups (0, Empty, 9610), (3, Special, 150) and six level-1 groups of 40 under six types, with total, distinct ids and undrawn all 10,000: the check passes with no level-2 sign and 240 level-1 signs | the distribution itself is confirmed; the four-groups condition `byLevel.length === 4` in the initialisation's own check (init-pool.js:115) achieves this | medium, not executed | VerifyPool.SkewedPoolPasses | VerifyPool.StrictCheckFixesDistribution |
