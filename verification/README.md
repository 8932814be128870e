# Cache-aside user service, modelled in Dafny

This project models `UserService` of a small NestJS CRUD service for a
`User` resource. The service keeps users in a relational table through a
TypeORM repository. It fronts the "list all users" read with a single cache
key, `'all_users'`:

- `findAll` serves the cached snapshot on a hit. On a miss it reads the
  table, stores the list under the key and returns it.
- `create`, `update` and `remove` write the table and then delete the key.
- `update` and `remove` fail with `NotFound` when the id is missing. They
  fail *before* the key is deleted, so a failed write leaves the cache as
  it was.

The model is a functional state machine:

- `entity.dfy` (module `Entity`) defines the row (`User` = id + `Fields`)
  and the partial request body `Patch`. Every column of a `Patch` is
  explicitly present or absent. `Apply` writes the present columns.
  `UpdateBody` is an `update` body that may also carry an `id`.
- `repository.dfy` (module `Repository`) stands in for the TypeORM
  repository. The table is a `seq<User>` in the order an unfiltered `find()`
  returns it. `FindOneBy`, `UpdateWhere` and `DeleteWhere` (with the
  `affected` count) model the repository calls the service makes.
  `RenameWhere` and `UpdateSettingId` model an `update` whose body also
  writes the id column. `Table`
  is an independent view of the same rows as a map from id to columns.
  The lemmas prove that every row operation is the expected map operation.
- `users_service.dfy` (module `UserService`) holds the state: table,
  id counter and cache key. The key is an `Option<seq<User>>`, and
  `Some([])` counts as a hit, just as the source's truthiness test treats
  an empty array. The four operations and the backend's TTL expiry
  (`Expire`) are pure transitions returning a `Reply` (what the caller gets
  plus the next state). Failures are values: `Err(NotFound(id))`, and
  `Err(DuplicateEntry(id))` for the as-written `update` whose body moves a
  row onto another row's id.
- `service_properties.dfy` (module `ServiceProperties`) relates several
  calls to each other. It covers idempotent reads, expiry, removing twice,
  the map view of each write, and traces of calls. Its main theorem,
  `CacheIsTransparent`, says that for a client making one call at a time,
  the cached service gives exactly the outputs of the same service with no
  cache. It holds from any state where the table keeps its primary key,
  the counter is ahead of every id, and a cached snapshot equals the table.
  The initial state is such a state, and every step of `Exec` preserves it.

Coherence of the cache is proved for one call at a time. Concurrent
requests and other writers to the table are not modelled. Every write that
changes the table deletes the key, and a failing `remove`, or a failing
`update` whose body carries no `id`, changes neither the table nor the
cache (`ExecPreservesInv`, `RunPreservesInv`). An `update` body that
carries a different `id` breaks this. See "## Findings".

`update` raises `NotFound` itself, after re-reading the row
(users.service.ts:50-51). The repository's `update` on a missing id affects
no row and does not fail.

## Model

| member | source | states |
|---|---|---|
| Entity.Apply | src/users/users.service.ts:47-48 | A partial body overwrites exactly the columns it carries; every absent column keeps its previous value |
| Entity.ApplyIdempotent | src/users/users.service.ts:47-48 | Writing the same partial body twice leaves the row as writing it once |
| Entity.ApplyNoChange | src/users/users.service.ts:47-48 | A body with no column present leaves the columns unchanged |
| Repository.FindOneBy | src/users/users.service.ts:50 | `findOneBy({ id })` finds a row exactly when the id is in the table, and the row it returns is in the table and has that id |
| Repository.FindOneByMatchesTable | src/users/users.service.ts:50 | `findOneBy` returns the columns the map view holds for the id, and nothing when the map lacks the id |
| Repository.FindOneByAt | src/users/users.service.ts:50 | Under the primary key, the row at any position is the one `findOneBy` returns for its id |
| Repository.UpdateWhere | src/users/users.service.ts:48 | `update(id, body)` keeps the row count, every row's id and position, and every row with another id; rows with that id get the body's columns |
| Repository.UpdateWhereMatchesTable | src/users/users.service.ts:48 | In the map view, `update(id, body)` overwrites that id's entry with the patched columns if present and otherwise changes nothing |
| Repository.UpdateWhereIds | src/users/users.service.ts:48 | `update(id, body)` neither adds nor drops an id, and changes nothing at all when the id is absent |
| Repository.FindOneByAfterUpdate | src/users/users.service.ts:48-50 | Re-reading an existing id after `update(id, body)` returns that id with the old row's columns and the body's present columns written over them |
| Repository.RenameWhere | src/users/users.service.ts:48 | Writing an id into the id column of the rows that have `from` changes their id and nothing else, and leaves every other row as it was |
| Repository.RenameWhereNoop | src/users/users.service.ts:48 | Writing the same id back, or renaming an id no row has, leaves the table identical |
| Repository.RenameWhereMoves | src/users/users.service.ts:48 | Renaming a present id to a fresh one removes the old id, adds the new one and keeps every other id |
| Repository.RenameWhereUnique | src/users/users.service.ts:48 | Renaming onto an id no row has keeps the primary key |
| Repository.RenameWhereMatchesTable | src/users/users.service.ts:48 | In the map view, renaming a present id to a fresh one moves its entry to the new key and leaves every other entry as it was |
| Repository.UpdateSettingId | src/users/users.service.ts:48 | The write of an `update` body that also sets the id: the primary key refuses it exactly when it would move a present row onto another row's id; otherwise, with the same id it is the plain update, on a missing id it changes nothing, and on a present id that id ends up as the new one carrying the old columns with the body's written over them, every other entry untouched and the primary key kept |
| Repository.DeleteWhere | src/users/users.service.ts:61 | `delete(id)` keeps exactly the rows with another id, reports as affected the number of rows it removed, and changes nothing when it affects none |
| Repository.DeleteWhereIds | src/users/users.service.ts:61-62 | After `delete(id)` the id is gone and all other ids stay; the affected count is zero exactly when the id was absent |
| Repository.DeleteWhereKeepsAll | src/users/users.service.ts:61-62 | Deleting an absent id leaves the table identical |
| Repository.DeleteWhereUnique | src/users/users.service.ts:61 | Deleting rows keeps the primary-key constraint |
| Repository.DeleteWhereMatchesTable | src/users/users.service.ts:61 | In the map view, `delete(id)` removes that key and nothing else |
| Repository.DeleteWhereAt | src/users/users.service.ts:61-62 | Under the primary key, deleting an existing id removes exactly its one row (affected = 1) and keeps the order of the rest |
| Repository.AppendMatchesTable | src/users/users.service.ts:37-38 | Saving a row with a fresh id adds exactly that key to the map view |
| UserService.FindAll | src/users/users.service.ts:18-33 | A hit returns the snapshot and leaves table and cache untouched; a miss returns the whole table and leaves it cached; the key always holds what was returned |
| UserService.Create | src/users/users.service.ts:36-44 | The saved user gets the counter's id and the body's columns over the defaults, is appended without changing existing rows, has an id not in the table, and the key is cleared; the invariant is kept |
| UserService.Update | src/users/users.service.ts:47-57 | The corrected `update`, whose body cannot write the id column (the `update` of every trace below). Succeeds exactly when the id exists; on success returns the row the table now holds for that id, whose columns are the old row's with the body's present columns written over them, and clears the key; on failure returns NotFound(id) and leaves table and cache exactly as they were |
| UserService.UpdateAsWritten | src/users/users.service.ts:47-57 | `update` as written for a body that may carry an `id`: without one, or with the same id, it is `Update`; it succeeds exactly when the row exists and keeps its id; on a missing id it fails with NotFound(id) and changes nothing; a rename onto another row's id fails with DuplicateEntry and changes nothing; a rename onto a fresh id fails with NotFound(id) but moves the row to the new id with the body's columns written over its old ones, leaving every other row as it was; no failure clears the key |
| UserService.Remove | src/users/users.service.ts:60-66 | Succeeds exactly when the id exists; afterwards the id is absent and every other row remains; on success the key is cleared; on failure it returns NotFound(id) and the state is unchanged |
| UserService.Expire | src/users/users.service.ts:29 | TTL expiry empties the key and leaves the table and counter alone |
| ServiceProperties.FindAllIdempotent | src/users/users.service.ts:19-33 | Two `findAll` calls in a row return the same list, and the second is a hit that changes nothing |
| ServiceProperties.EmptySnapshotIsHit | src/users/users.service.ts:19-24 | A cached empty list is returned as a hit without touching the table or the cache |
| ServiceProperties.ExpireThenFindAllRereads | src/users/users.service.ts:26-32 | After expiry, `findAll` reads the table again and caches what it read |
| ServiceProperties.CreateThenFindAll | src/users/users.service.ts:36-44 | After `create`, the next `findAll` is a miss that returns the table, and the list contains the new user with its generated id and the body's columns |
| ServiceProperties.CreateMatchesTable | src/users/users.service.ts:36-44 | In the map view, `create` adds the fresh id with the body's columns and changes no other entry |
| ServiceProperties.UpdateMatchesTable | src/users/users.service.ts:47-56 | For an existing id, `update` succeeds, overwrites only that entry with the patched columns, and returns that id with the patched columns |
| ServiceProperties.UpdateInPlace | src/users/users.service.ts:47-56 | Under the primary key, `update` replaces the target row in place and leaves every other row and the order untouched |
| ServiceProperties.RemoveMatchesTable | src/users/users.service.ts:60-65 | In the map view, `remove` removes the id and changes no other entry, whether it succeeds or fails |
| ServiceProperties.UpdateKeepsCacheCoherent | src/users/users.service.ts:47-57 | The corrected `update` keeps a cached snapshot equal to the table whether it succeeds or fails, so the next `findAll` returns the table as it is now |
| ServiceProperties.RenamingUpdateLeavesStaleCache | src/users/users.service.ts:48-53 | As written, an `update` body renaming an existing row to a fresh id changes the table, fails with NotFound, keeps the key, and the next `findAll` returns the old snapshot instead of the table |
| ServiceProperties.RenamingUpdateTrace | src/users/users.service.ts:18-53 | From the initial state: create, findAll, `update(1, {id: 2})` as written, findAll; the last list is the stale cached one |
| ServiceProperties.RemoveAt | src/users/users.service.ts:60-65 | Under the primary key, removing an existing id drops exactly its row and keeps the order of the rest |
| ServiceProperties.RemoveTwiceFails | src/users/users.service.ts:61-62 | After `remove(id)`, a second `remove(id)` fails with NotFound(id) and changes nothing |
| ServiceProperties.WritesNeverRefresh | src/users/users.service.ts:40-64 | No write ever stores a snapshot under the key: it clears the key, or on failure leaves the whole state as it was |
| ServiceProperties.ExecPreservesInv | src/users/users.service.ts:18-66 | Every call and every expiry keeps the primary key and the counter ahead of the table, and keeps a cached snapshot equal to the table |
| ServiceProperties.ExecMatchesBypass | src/users/users.service.ts:18-66 | From a coherent state, one call gives the same output and the same table and counter as that call made to the service with no cache |
| ServiceProperties.RunPreservesInv | src/users/users.service.ts:18-66 | Any sequence of calls and expiries keeps that invariant |
| ServiceProperties.CacheIsTransparent | src/users/users.service.ts:18-66 | From a coherent state, any sequence of calls and expiries gives the same outputs, and ends with the same table and counter, as the service with no cache |
| ServiceProperties.ReachableFindAllIsFresh | src/users/users.service.ts:19-32 | From the initial state, whatever calls came before, `findAll` returns the table as it is now, never an older snapshot |

## Findings

| source | as written | input that shows it | evidently intended | confidence | as-written member | corrected member |
|---|---|---|---|---|---|---|
| src/users/users.service.ts:48-53 | The body is written at :48 before the row is re-read by its old id at :50; the throw at :51 skips the cache `del` at :53 | `update(1, {id: 2})` after a `findAll` has cached a table holding row 1 and no row 2: row 1 becomes row 2, the call fails with NotFound, the key keeps the old list (`ServiceProperties.RenamingUpdateLeavesStaleCache`, `ServiceProperties.RenamingUpdateTrace`) | A failed `update` leaves table and cache unchanged, and the cache is never stale; proved for the update whose body cannot write the id (`ServiceProperties.UpdateKeepsCacheCoherent`, `ServiceProperties.CacheIsTransparent`) | medium, not executed | UserService.UpdateAsWritten | UserService.Update |

## Left out

- HTTP routing and the controller's `+id` string-to-number conversion (src/users/users.controller.ts): pure delegation. Ids are plain integers here, so a non-numeric id (NaN) is not modelled.
- Application wiring and connection settings (src/app.module.ts): configuration with no logic.
- The validation DTO (src/users/dto/create-user.dto.ts): the controller never applies it, so the service itself checks no email format or length.
- user.entity.ts is not part of this model. Its non-NULL column defaults are the `defaults` parameter of `Create`. A column that has no default and is left out of a create body is rejected by the database, and that rejection is not modelled.
- NULL columns: `Fields` cannot hold NULL, so a NULL column default and a body such as `{name: null}` are not modelled.
- An `id` inside a `create` body: TypeORM's `save` then updates or inserts under that id, and what it returns depends on TypeORM internals. `create` clears the key after `save` whatever it did (users.service.ts:40), so the cache cannot go stale this way. The `Patch` of `create` carries only the four columns.
- UserService.Update: holds only for bodies without `id`; the body that carries one is `UpdateAsWritten` (see "## Findings"). It also treats a body with no column at all as a write that changes nothing and reads the row back, so "succeeds exactly when the id exists" is stated for that body too, whereas TypeORM rejects such a body, and one with a property that is not a column, before any write. It also accepts column values the MySQL column type would reject; see the "Column types" line.
- ServiceProperties.WritesNeverRefresh: holds only for `update` bodies without `id`; `RenamingUpdateLeavesStaleCache` shows a failing `update` with one that changes the table.
- ServiceProperties.ExecPreservesInv: holds only for `update` bodies without `id`; coherence fails for one that renames a row (`RenamingUpdateLeavesStaleCache`).
- ServiceProperties.RunPreservesInv: holds only for `update` bodies without `id`, for the same reason.
- ServiceProperties.CacheIsTransparent: holds only for `update` bodies without `id`; after a renaming `update` the cached service returns the stale list while the service without a cache returns the table.
- ServiceProperties.ReachableFindAllIsFresh: holds only for `update` bodies without `id`; `RenamingUpdateTrace` is a trace in which `findAll` returns an older snapshot.
- UserService.UpdateAsWritten: the auto-increment counter moves past an id written by `update`, as MySQL 8.0 does; older servers leave it behind, and a later insert can then collide. A rename onto another row's id is refused as `DuplicateEntry`; that is the database's error, not one the service raises. For a body without `id` it is `Update`, so it also treats a body with no column at all as a write that changes nothing and reads the row back, whereas TypeORM rejects such a body, and one with a property that is not a column, before any write. It also accepts column values the MySQL column type would reject; see the "Column types" line.
- Column types: ids, the id counter and `age` are unbounded integers and strings have no length limit. A value the MySQL column rejects (an `age` or `id` out of the column's range, a string longer than the column) makes `create` or `update` throw inside the repository call, before the key is deleted, leaving table and cache unchanged; the model instead accepts the value. The counter never runs out.
- Database drivers that do not report `affected` for a delete: the model always has the count.
- UserService.Create: the returned user is modelled as the stored row. A database-side default that TypeORM does not reload into the returned entity is not distinguished. It also accepts column values the MySQL column type would reject; see the "Column types" line.
- TTL timing and units: the `30` at users.service.ts:29 is seconds or milliseconds depending on the cache library version. Expiry is the untimed transition `Expire`.
- Logging (`console.log`): side effects only.
- Concurrency: interleaved async calls, stampedes on a miss, and other writers to the table are not modelled. `CacheIsTransparent` and the coherence invariant apply to one call at a time only.
- Failures of the database or the cache backend, including a failing `del` after a successful write: connection and I/O behaviour of foreign libraries.
- Id generation: the table's auto-increment is modelled as a counter starting at 1 that is never reused. Row order is insertion order.
