# To-do store and pull reconciler

This project models `database/queries.ts` of a mobile to-do app. It is the app's whole data layer.

- **The record store** is one SQLite table, `testTodos(id, device, title, content)`. Its primary key is `(id, device)`.
- **The queries** are `getAllTodos` and `getMyTodos`, both ordered by id descending, and `checkIfRecordExists`.
- **The writes** are `insertTodo`, `updateTodo` and `deleteTodo`.
- **The pull reconciler** is `pullData` with its helper `deleteOldRecords`. It upserts a batch of rows received from a server, then prunes local rows that the batch no longer lists.

The model is in Dafny and has four modules:

- `TodoTable` (`table.dfy`) holds the table as a `seq<Row>` in storage order. It gives the primary key as the predicate `KeysUnique`. It also gives the meaning of each SQL statement as a function on the sequence: `Where` for a WHERE clause, `SetById` for the UPDATE, `DeleteById` for the DELETE, and an insertion sort for `ORDER BY id DESC`.
- `Reconcile` (`reconcile.dfy`) states what `pullData` does as functions: `Step`, `Upserts`, `StaleIds` and `Pull`. It also proves what the reconciler guarantees: key uniqueness, which keys the upsert adds, exactly which rows the prune removes and spares, and when a batch row arrives verbatim.
- `Store` (`store.dfy`) is the store as a class `TodoStore`. Its field `rows` is the table and `Valid()` is the primary-key invariant. The queries are functions that read `rows`. The writes are methods that change it. `PullData` and `DeleteOldRecords` are the loops of the source, each proved against the `Reconcile` function it implements.
- `OwnerScoped` (`scoped.dfy`) holds the corrected variant, where every write is scoped by `(id, device)`. It also holds concrete counterexamples showing what the code as written does across devices (see "## Findings").

The model follows the code as written, not the intended design:

- `updateTodo` and `deleteTodo` match rows by id alone, on every device.
- The prune reads only the rows of the first batch entry's device.
- The prune keeps the ids of all batch entries, skipped ones included.
- A second identical `pullData` is not always a no-op.

## Model

| member | source | states |
|---|---|---|
| TodoTable.KeysUnique | database/queries.ts:11 | defines the primary key: no two rows share (id, device); `UniqueKeyRow`, `UniqueCons`, `UniqueAppend` and `WhereUnique` state its properties |
| TodoTable.UniqueKeyRow | database/queries.ts:11 | under the primary key, two rows of the table with the same (id, device) are the same row |
| TodoTable.UniqueCons | database/queries.ts:11 | keys are unique in `[x] + s` exactly when they are unique in `s` and x's key is not in `s` |
| TodoTable.UniqueAppend | database/queries.ts:40-46 | appending a row whose key the table lacks keeps the primary key |
| TodoTable.Has | database/queries.ts:126-132 | the lookup on device and id is true exactly when some row carries that device and id |
| TodoTable.Where | database/queries.ts:138-141 | a WHERE clause keeps each row that satisfies it, with its multiplicity, and drops every other row |
| TodoTable.WhereUnique | database/queries.ts:11 | selecting rows from a table with unique keys leaves unique keys |
| TodoTable.SetById | database/queries.ts:54-59 | the UPDATE keeps length and every key; every row with the id, on any device, gets the new title and content; rows with other ids are unchanged |
| TodoTable.SetByIdKeys | database/queries.ts:54-59 | the UPDATE keeps the primary key and keeps exactly the keys the table had |
| TodoTable.SetByIdHit | database/queries.ts:94-100 | after the update, the row with the updated key is exactly the new (id, device, title, content) |
| TodoTable.SetByIdOverwritesAll | database/queries.ts:55 | after the UPDATE, every row with the id, whatever its device, holds the new title and content |
| TodoTable.SetByIdMiss | database/queries.ts:55 | the UPDATE does not touch a row of another id |
| TodoTable.DeleteById | database/queries.ts:62-64 | the DELETE removes every row with the id, on every device, and keeps every other row with its multiplicity; the primary key still holds |
| TodoTable.DeleteIds | database/queries.ts:147-152 | deleting a list of ids one at a time removes exactly the rows whose id is in the list and keeps the primary key |
| TodoTable.DeleteIdsPrefix | database/queries.ts:148-151 | deleting the first k+1 ids is deleting the first k, then the next one |
| TodoTable.OfDevice | database/queries.ts:26-28 | `WHERE device = ?` keeps exactly the rows of that device, with their multiplicity |
| TodoTable.InsertByIdDesc | database/queries.ts:19 | places a row into a sequence ordered by id descending; `InsertByIdDescPerm` and `InsertByIdDescSorted` state what it does |
| TodoTable.SortByIdDesc | database/queries.ts:19 | the `ORDER BY id DESC` of both queries, as an insertion sort; `SortByIdDescCorrect` states that it returns a permutation ordered by id descending |
| TodoTable.InsertByIdDescPerm | database/queries.ts:19 | inserting a row into the ordered result adds exactly that row |
| TodoTable.SortedCons | database/queries.ts:19 | a row whose id bounds every id of a descending sequence may lead it |
| TodoTable.InsertByIdDescSorted | database/queries.ts:19 | inserting into a sequence ordered by id descending keeps it ordered |
| TodoTable.SortByIdDescCorrect | database/queries.ts:19 | `ORDER BY id DESC` returns a permutation of its input, ordered by id descending |
| Reconcile.Admissible | database/queries.ts:86-89 | the truthiness test on an entry: id not 0 and device, title and content non-empty; `UpsertsAllSkipped` states that an entry failing it changes nothing |
| Reconcile.Step | database/queries.ts:86-111 | one pass of the loop: skip, id-wide update when the key exists, or insert; `StepUnique` and `StepKeys` state its contract |
| Reconcile.Upserts | database/queries.ts:83-112 | the whole loop in batch order; `UpsertsUnique`, `UpsertsKeys`, `UpsertsFrame` and `UpsertsLand` state its contract |
| Reconcile.Ids | database/queries.ts:136 | the id of every batch entry, skipped ones included; `PruneSpares` states that any of them protects a row from the prune |
| Reconcile.Pull | database/queries.ts:74-122 | `pullData` on a table, which `TodoStore.PullData` is proved equal to; `PullUnique`, `PruneExact`, `PullFrame`, `PullSurvival`, `PullLands` and `RepeatPullKeepsBatchRows` state its contract |
| Reconcile.StaleIds | database/queries.ts:136-145 | an id is deleted by the prune exactly when some row of the device carries it and no batch entry does |
| Reconcile.StepUnique | database/queries.ts:92-111 | one pass of the loop keeps the primary key: the insert runs only when the key was found absent |
| Reconcile.StepKeys | database/queries.ts:86-111 | one pass keeps every key and adds the entry's key if the entry is admissible; it adds no other key |
| Reconcile.UpsertsUnique | database/queries.ts:83-112 | the whole upsert loop keeps the primary key |
| Reconcile.UpsertsKeys | database/queries.ts:83-112 | after the loop, a key is present exactly when it was present before or an admissible entry carries it |
| Reconcile.UpsertsAllSkipped | database/queries.ts:86-89 | a batch whose every entry has a falsy field inserts and updates nothing |
| Reconcile.UpsertsFrame | database/queries.ts:83-112 | a row of the old table whose id no admissible entry carries is still in the table, verbatim, after the loop |
| Reconcile.PullFrame | database/queries.ts:74-122 | nothing else changes: a row of the old table whose id no admissible entry carries is in the table after `pullData`, verbatim, exactly when the prune does not take its id |
| Reconcile.PullUnique | database/queries.ts:74-122 | `pullData` keeps the primary key |
| Reconcile.PruneExact | database/queries.ts:135-154 | a row survives the prune exactly when its id is a batch id, skipped entries included, or no row of the first entry's device carries its id; so rows of other devices go only when their id is pruned |
| Reconcile.PruneComplete | database/queries.ts:138-145 | after a non-empty batch, no row of the first entry's device has an id outside the batch ids |
| Reconcile.PruneSpares | database/queries.ts:136 | a row whose id is some batch entry's id, skipped or not, is never pruned |
| Reconcile.PullSurvival | database/queries.ts:92-115 | after `pullData`, the (id, device) of every admissible entry is in the table |
| Reconcile.UpsertsLand | database/queries.ts:83-112 | with pairwise distinct batch ids, the loop leaves every admissible entry in the table verbatim |
| Reconcile.PullLands | database/queries.ts:83-115 | with pairwise distinct batch ids, every admissible entry is in the table verbatim after `pullData` |
| Reconcile.RepeatPullKeepsBatchRows | database/queries.ts:83-115 | with pairwise distinct batch ids, the row of each admissible entry's key is that entry after one call and is still that entry after a second identical call |
| Store.TodoStore.Valid | database/queries.ts:11 | the table invariant is the primary key `KeysUnique(rows)`; every method keeps it |
| Store.TodoStore.constructor | database/queries.ts:3-14 | a freshly created table is empty and satisfies the primary key |
| Store.TodoStore.GetAllTodos | database/queries.ts:16-23 | the result is a permutation of all rows, ordered by id descending |
| Store.TodoStore.GetMyTodos | database/queries.ts:25-31 | the result holds exactly the rows of the device, each with its multiplicity, ordered by id descending |
| Store.TodoStore.CheckIfRecordExists | database/queries.ts:126-132 | true exactly when a row with this (id, device) exists |
| Store.TodoStore.InsertTodo | database/queries.ts:33-47 | a taken key is rejected with `ConstraintViolation` and leaves the table unchanged; otherwise the row is appended; the primary key holds after both |
| Store.TodoStore.UpdateTodo | database/queries.ts:49-60 | the table becomes `SetById` of the old table and keeps the primary key |
| Store.TodoStore.DeleteTodo | database/queries.ts:62-64 | the table becomes `DeleteById` of the old table and keeps the primary key |
| Store.TodoStore.DeleteOldRecords | database/queries.ts:135-155 | the loop deletes the stale ids of the first entry's device, computed on the table as it was on entry |
| Store.TodoStore.PullData | database/queries.ts:74-122 | an empty batch returns `NoData` and changes nothing; otherwise the table becomes `Pull` of the old table, the insert never meets the primary-key error, and the result is `Synced` |
| OwnerScoped.SetByKey | database/queries.ts:54-59 | corrected update: only the row whose (id, device) matches gets the new title and content |
| OwnerScoped.DeleteOwnIds | database/queries.ts:147-152 | corrected prune: removes exactly the rows of the given device whose id is listed |
| OwnerScoped.StepScoped | database/queries.ts:86-111 | corrected pass, update by (id, device); `StepScopedOther` and `StepScopedKeys` state its contract |
| OwnerScoped.UpsertsScoped | database/queries.ts:83-112 | corrected loop; `UpsertsScopedOther`, `UpsertsScopedCover`, `UpsertsScopedSettled` and `UpsertsScopedOnCovered` state its contract |
| OwnerScoped.PullScoped | database/queries.ts:74-122 | corrected `pullData`, with the prune scoped to the first entry's device; `PullScopedIsolates`, `PullScopedSettled`, `PullScopedCover` and `PullScopedIdempotent` state its contract |
| OwnerScoped.LastWrite | database/queries.ts:83-112 | the last write to a row keeps the row's key |
| OwnerScoped.StepScopedOther | database/queries.ts:92-111 | one owner-scoped pass neither changes, adds nor removes a row of another device |
| OwnerScoped.UpsertsScopedOther | database/queries.ts:83-112 | the owner-scoped loop neither changes, adds nor removes a row of a device no entry names |
| OwnerScoped.PullScopedIsolates | database/queries.ts:74-122 | owner isolation: under the owner-scoped `pullData`, a row of a device no entry names stays exactly as it was |
| OwnerScoped.StepScopedKeys | database/queries.ts:92-111 | one owner-scoped pass keeps every key and adds an admissible entry's key |
| OwnerScoped.UpsertsScopedCover | database/queries.ts:83-112 | after the owner-scoped loop, every admissible entry's key is present |
| OwnerScoped.UpsertsScopedSettled | database/queries.ts:83-112 | every row the owner-scoped loop leaves holds the last admissible write to its key |
| OwnerScoped.UpsertsScopedOnCovered | database/queries.ts:83-112 | on a table that already holds every admissible key, the owner-scoped loop keeps the rows in place and leaves the last write in each |
| OwnerScoped.WhereAll | database/queries.ts:143-145 | a WHERE clause that every row satisfies selects the whole table |
| OwnerScoped.PullScopedSettled | database/queries.ts:74-122 | after the owner-scoped `pullData`, every row holds its last write, and a row of the first entry's device carries a batch id |
| OwnerScoped.PullScopedCover | database/queries.ts:92-115 | after the owner-scoped `pullData`, every admissible entry's key is present |
| OwnerScoped.PullScopedIdempotent | database/queries.ts:74-122 | a second identical owner-scoped `pullData` leaves the table exactly as the first left it |
| OwnerScoped.PullRewritesOtherDevice | database/queries.ts:55 | counterexample: for any two devices, a batch from the first overwrites the title and content of the second's row with the same id, which the owner-scoped variant keeps |
| OwnerScoped.PullDeletesOtherDevice | database/queries.ts:63 | counterexample: for any two devices, the prune for the first deletes the second's row with a pruned id, which the owner-scoped variant keeps |
| OwnerScoped.SharedIdUpserts | database/queries.ts:83-112 | when both keys exist, a batch of two entries with one id runs two id-wide updates |
| OwnerScoped.SharedIdLastWins | database/queries.ts:83-115 | on such a batch, after `pullData` the first entry's row holds the second entry's title and content, and the first entry itself is gone |
| OwnerScoped.RepeatPullNotIdempotent | database/queries.ts:83-115 | counterexample: two entries that share an id make a second identical `pullData` change the table |

## Left out

- `createTable` (database/queries.ts:3-14) is not modelled: it is a schema bootstrap plus a WAL pragma. Only its primary-key constraint is kept, as the invariant `Valid()`, and the empty table is the constructor.
- The `console.log` and `console.error` calls are left out. They are output only and change no state.
- The `Array.isArray` test at database/queries.ts:75 is left out. A Dafny `seq` is always a sequence, so only the empty-batch case remains.
- The `Promise.all` in `deleteOldRecords` is modelled as a sequential loop. Deletions by id commute, so the final table is the same; the concurrent scheduling of those deletions is not modelled.
- No interleaving of concurrent `pullData` calls or other awaits is modelled. Each call runs to completion before the next.
- The SQLite engine is modelled only by the WHERE-clause semantics of each statement. A `SELECT` without `ORDER BY` returns rows in the sequence's storage order. Type affinity is not modelled.
- Storage failures other than the primary-key rejection are left out: I/O errors, a locked or missing database. Without them, only an insert could reach the `catch` at database/queries.ts:119-121, and the model proves it never does.
- The model is typed where the source is not:
  - ids are unbounded integers and the other three fields are strings;
  - JavaScript's falsy test is modelled as id `0` or an empty string;
  - missing or `null` fields, `NaN`, fractional ids and ids sent as strings (which `includes` would compare strictly) are not modelled.
- `updateTodo` takes an untyped `id`. It is modelled as an `int`; a missing, `null` or non-numeric id is not modelled.
- In `getAllTodos` and `getMyTodos`, the ordering among rows with equal ids is whatever the insertion sort produces. The contracts promise only "permutation, ordered by id descending", like the SQL.
- The screens are not modelled: `app/_layout.tsx`, `app/(home)/Todos.tsx` (with its next-id computation and the network push and pull), `app/(home)/index.tsx` and `components/buttons/CustomButton.tsx`. They are not part of this model.
- The network transport and the device-identity string are left out. The batch and the device string are parameters.

## Findings

| source | as written | input that shows it | evidently intended | confidence | as-written member | corrected member |
|---|---|---|---|---|---|---|
| database/queries.ts:55 | `UPDATE ... WHERE id = ?` rewrites the rows of every device that share the id | any devices `A != B` with `A` non-empty; table `(1,A,a,a), (1,B,b,b)`; `pullData([(1,A,T,C)])` leaves `(1,B,T,C)` | update only the row whose (id, device) matches the entry | high; not executed | OwnerScoped.PullRewritesOtherDevice | OwnerScoped.SetByKey |
| database/queries.ts:63 | the prune deletes by id alone, so it also deletes other devices' rows with a pruned id | any devices `A != B` with `A` non-empty; table `(2,A,a,a), (2,B,b,b)`; `pullData([(1,A,T,C)])` deletes `(2,B,b,b)` | delete only rows of the device being pruned | high; not executed | OwnerScoped.PullDeletesOtherDevice | OwnerScoped.PullScopedIsolates |
| database/queries.ts:83-115 | a second identical `pullData` can change the table | any non-empty devices `A != B`; table `(1,A,x,y)`; batch `[(1,A,T1,C1), (1,B,T2,C2)]` twice: the second call turns `(1,A,T1,C1)` into `(1,A,T2,C2)` | reconciling twice with one batch gives the result of reconciling once | high; not executed | OwnerScoped.RepeatPullNotIdempotent | OwnerScoped.PullScopedIdempotent |

The store class keeps the statements as written, because it models the code that ships. The owner-scoped definitions in `OwnerScoped` are the corrected behaviour, and the idempotence and owner-isolation properties are proved about them.
