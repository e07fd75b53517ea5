# Sparse-key task ordering, modelled in Dafny

The server keeps a drag-and-drop task list in one SQLite table. Every task carries a
numeric `position`, and every query reads the tasks ordered by `(position, id)`. New
tasks go to the tail at the largest position plus 1000. A task dragged to a new rank gets
a value that fits between its new neighbours, so no other row needs to be rewritten.
When a reorder goes through and the ordered snapshot it read before the move has two
neighbouring positions closer than `0.001`, the whole table is respaced to 1000, 2000,
3000, ...

This project models that order-maintenance core of `server.js`:

- the table is a `TaskStore.Store` object: the rows in insertion order plus the next
  `AUTOINCREMENT` id;
- `ORDER BY position, id` is a verified insertion sort, `Tasks.Sort`;
- an `UPDATE ... SET position` is `Tasks.Reposition`;
- `getNextPosition` and `calculateNewPosition` are functions, in `Allocation`;
- `shouldRebalance` and `rebalancePositions` are in `Rebalance`;
- the position logic of `POST /tasks/reorder` is in `Reorder` (the function
  `ReorderResult` and lemmas about it) and in the method `TaskStore.Store.Reorder`,
  which performs the same steps on the store and is proved to match `ReorderResult`;
- the position loop of `POST /seed` and the insert of `POST /tasks` are methods of the
  store.

Positions are exact `real`s. The source's quirks are kept as written:

- `getNextPosition` uses JavaScript truthiness, so a maximum of exactly 0 also gives 1000 (`Allocation.NextPosition`).
- The target rank is clamped against the length of the full snapshot, before the moving
  task is removed.
- `calculateNewPosition` does no clamping of its own.
- The head move never goes below 1. When the current head already sits at 1, the moved
  task ties with it, and the id decides who comes first (`Reorder.MoveLands`).
- The collision check runs on the snapshot read before the move. A collision that the
  move itself creates is therefore only repaired by a later reorder
  (`Reorder.CollisionLeftForLater`).

## Model

| member | source | states |
|---|---|---|
| Tasks.Sort | server.js:278 | the rows as `ORDER BY position, id` reads them: sorted by `(position, id)`, and a permutation of the table (same multiset, same length) |
| Tasks.InsertSorted | server.js:278 | inserting a row in front of the first row it does not sort after keeps a sorted sequence sorted |
| Tasks.SortKeepsIdsUnique | server.js:278 | the ordered view of a table with a primary key still has unique ids |
| Tasks.SortedUnique | server.js:278 | `(position, id)` is a total order on rows with unique ids: two sorted orderings of the same rows are the same sequence |
| Tasks.IndexOfId | server.js:279 | `findIndex`: -1 exactly when no row has the id, otherwise the first index holding it |
| Tasks.Lookup | server.js:310 | `SELECT * ... WHERE id = ?`: none exactly when the id is absent, otherwise a row of the table with that id |
| Tasks.RepositionPermutation | server.js:300-303 | writing positions by id to two orderings of the same rows gives two orderings of the same rows |
| Tasks.RepositionKeepsIds | server.js:300-303 | a position write keeps the length, every row's id, the uniqueness of ids and the set of ids present |
| Tasks.RepositionAppend | server.js:300-303 | a position write to a concatenation is the concatenation of the writes |
| Tasks.AppendFreshId | server.js:153-156 | appending a row whose id is above every existing id keeps ids unique |
| Allocation.MaxPosition | server.js:54 | `MAX(position)`: NULL exactly on an empty table, otherwise a position that some row has and no row exceeds |
| Allocation.NextPosition | server.js:55 | no maximum, or a maximum of exactly 0, gives 1000; any other maximum gives that maximum plus 1000, strictly above it |
| Allocation.TailAllocation | server.js:53-56 | a new task is placed strictly after every existing task: at 1000 in an empty table, otherwise at the highest row's position plus 1000 (the falsy maximum 0 gives the same value); at least 1 when every position is |
| Allocation.AppendGoesLast | server.js:151-156 | a row inserted with a position above all others appears last in the ordered view, after the old view unchanged |
| Allocation.Without | server.js:60 | the filter keeps only rows of the snapshot, none with the moving task's id |
| Allocation.WithoutAt | server.js:60 | with unique ids the filter drops exactly the moving row: `rest` is the snapshot without index i, one row shorter, in the same order |
| Allocation.SortedWithout | server.js:60 | removing one row from a sorted snapshot leaves it sorted |
| Allocation.LoneMove | server.js:62 | a task alone in the snapshot gets position 1000 |
| Allocation.HeadMove | server.js:64-65 | the head value is at least 1, and strictly below the current head exactly when the head is above 1 |
| Allocation.TailMove | server.js:66-67 | in a sorted snapshot the tail value is strictly above every other row |
| Allocation.MiddleMove | server.js:68-71 | between two neighbours with different positions the midpoint lies strictly between them, with exactly `newPosition` rows of `rest` below it |
| Allocation.MoveAboveFloor | server.js:58-73 | when every position is at least 1, no move computes a value below 1 |
| Allocation.Clamp | server.js:288 | for a non-empty snapshot the clamped rank is a valid index; a rank already in range is kept, a rank past the end becomes the last index, a negative rank becomes 0, and an empty snapshot gives 0 |
| Allocation.ClampedTargetInRange | server.js:288 | the clamped rank is at most the length of `rest`, so the middle branch reads neighbours that exist |
| Rebalance.ShouldRebalance | server.js:75-82 | true exactly when some adjacent pair is less than 0.001 apart; false for at most one task |
| Rebalance.NoCollisionStrict | server.js:77 | without a collision every position is strictly above its predecessor |
| Rebalance.NoCollisionIncreasing | server.js:77 | without a collision positions strictly increase along the whole snapshot |
| Rebalance.RebalancedSort | server.js:84-92 | reading the table after a rebalance gives the old ordered view with the k-th row at `1000 * (k + 1)` |
| Rebalance.RebalancedView | server.js:84-92 | after a rebalance the k-th row of the view is the old k-th row with only its position changed, gaps are exactly 1000, and no collision remains |
| Rebalance.RespacedGaps | server.js:89-90 | positions 1000, 2000, 3000, ... are exactly 1000 apart and never collide |
| Rebalance.RebalancedRows | server.js:84-92 | a rebalance keeps every row's id and other fields, leaves ids unique, and puts every position at 1000 or more |
| Rebalance.SpacingStep | server.js:88-91 | one more `UPDATE` of the loop extends the positions written so far by the next row of the view |
| Reorder.ReorderCommits | server.js:278-308 | a request moves the task exactly when the id is known and the clamped rank differs from the current index; the move writes `calculateNewPosition`'s value and rebalances exactly when the pre-move snapshot has a collision |
| Reorder.ReorderNotFound | server.js:279-286 | not found exactly when no row has the id, and then nothing is written |
| Reorder.ReorderUnchanged | server.js:288-296 | unchanged exactly when the clamped rank is the current index; the answer is that row as read and nothing is written; a one-task table never changes |
| Reorder.CommitOnlyMover | server.js:300-303 | without a rebalance only the moving row changes, only in its position, and the answer is that row |
| Reorder.CommitRebalancedRows | server.js:300-310 | with a rebalance only positions change, and the answer is the moving task as re-read |
| Reorder.ReorderWritesOnlyMover | server.js:298-310 | without a collision in the snapshot every other row is untouched and the moving row gets exactly the computed position |
| Reorder.ReorderRebalancesRows | server.js:306-310 | with a collision in the snapshot every row keeps its id and other fields, and the answer is the moving task |
| Reorder.ReorderRebalancesView | server.js:306-308 | with a collision in the snapshot the view afterwards reads 1000, 2000, 3000, ... and has no collision |
| Reorder.MoveView | server.js:298-303 | when the new value places the task at rank k among the others, the view afterwards is the old view with the task taken out and put back at k |
| Reorder.ReorderPlacement | server.js:278-308 | when the value lands at the clamped rank, the view afterwards is the old view with the task moved there, respaced when the snapshot had a collision |
| Reorder.MoveLands | server.js:58-73 | the tail value always lands at its rank; a middle value lands when its neighbours differ; a head value lands exactly when the head is above 1, or at 1 with a larger id |
| Reorder.ReorderExact | server.js:278-308 | without a collision, a move to any rank but the head, or to the head above a head above 1, puts the task exactly at the clamped rank with the others in their old order |
| Reorder.HeadTieLands | server.js:64-65 | a task moved to 1 next to a head already at 1 lands before it when its id is smaller and right after it otherwise |
| Reorder.HeadTieCollides | server.js:64-65 | that move leaves a collision in the view |
| Reorder.CollisionLeftForLater | server.js:298-308 | a head move onto a head at 1, in a collision-free snapshot, writes only position 1 and triggers no rebalance, yet the view afterwards has a collision |
| Reorder.WrittenRows | server.js:300-303 | right after the single-row write the table keeps its ids, still unique and still present, and every position is still at least 1 |
| Reorder.ReorderKeepsInvariant | server.js:278-308 | a reorder keeps the ids of the rows, keeps them unique, and keeps every position at least 1 |
| TaskStore.SeedSpacing | server.js:335-343 | the seeded rows are already in view order, at 1000, 2000, ..., exactly 1000 apart and free of collisions |
| TaskStore.InsertAtTail | server.js:151-156 | a row with the next id and a position above all others keeps the table well formed and goes last in the view |
| TaskStore.RebalanceKeepsWellFormed | server.js:84-92 | a rebalance keeps the table well formed: unique ids below the next id, positions at least 1 |
| TaskStore.ReorderKeepsWellFormed | server.js:278-308 | a reorder keeps the table well formed |
| TaskStore.Store.constructor | server.js:19-28 | the table starts empty with next id 1 |
| TaskStore.Store.UpdatePosition | server.js:89 | `UPDATE tasks SET position = ? WHERE id = ?` changes that row's position and nothing else |
| TaskStore.Store.Create | server.js:140-158 | an empty title is refused with no change; otherwise the task gets the next id and `getNextPosition`'s value, is appended, and shows up last in the view with the old view before it |
| TaskStore.Store.Append | server.js:153-156 | the insert appends the row, advances the id, keeps the table well formed and puts the row last in the view |
| TaskStore.Store.RebalancePositions | server.js:84-92 | the table becomes `Rebalanced` of the old table, still well formed, and its view is the old view respaced |
| TaskStore.Store.WritePositions | server.js:86-91 | the loop writes `1000 * (k + 1)` to the k-th listed id, one `UPDATE` at a time, and nothing else |
| TaskStore.Store.Seed | server.js:335-343 | inserts `count` rows titled `Task i` at `1000 * i`, with consecutive ids, keeping the table well formed |
| TaskStore.Store.Reorder | server.js:278-310 | the store after a reorder request, and its answer, are exactly `ReorderResult` of the old table; the table stays well formed and no id is consumed |

## Left out

- Express routing, HTTP status codes, the JSON response bodies, `app.listen` and the
  SIGINT handler. These are transport. The model's outcomes (`NotFound`, `Unchanged`,
  `Reordered`) stand in for the 404 and 200 answers.
- The SQLite connection, the table and index definitions, and the `promiseQuery` and
  `promiseRun` wrappers. The store is an in-memory sequence of rows.
- Storage errors and the 500 answer. The model has no failing storage.
- `async`/`await` interleavings and concurrent requests. One request runs at a time. In
  particular a rebalance is not atomic in the source, and the model does not explore a
  move interleaved with it.
- IEEE-754 rounding of `REAL` positions. Positions are exact reals, so the model does not
  show bisection running out of precision; it keeps only the `0.001` threshold test.
- `created_at`, `updated_at` and `CURRENT_TIMESTAMP`: clocks are not modelled.
- `Math.random()` in seeding becomes the parameter `coin` of `TaskStore.Store.Seed`.
- TaskStore.Store.Seed: takes the parsed count. `parseInt(req.query.count) || 1000`
  (which turns 0 and NaN into 1000) is request parsing and is not modelled.
- TaskStore.Store.Create: `!title` is modelled as the empty string only. Titles that are
  not strings do not exist in the model.
- TaskStore.Store.Reorder: the 400 answer for a missing `task_id` or `new_position` is
  request validation and is not modelled. `new_position` is an integer, and the loose
  `==` comparison of ids is ordinary equality on integer ids.
- `GET /tasks` with its pagination, `GET /tasks/:id`, `PUT /tasks/:id` with its
  field-update builder, `DELETE /tasks/:id` and `/health`. These are outside the ordering
  core. A delete leaves gaps, which the model's lemmas already allow, since they do not
  assume evenly spaced positions.
