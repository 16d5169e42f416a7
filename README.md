# twitch-drop-campaigns: the campaign reconciliation pass

This project models, in Dafny, the part of the twitch-drop-campaigns job
that reconciles fetched drop campaigns with the database. For each campaign
of the fetched list, in order, the job:

1. inserts the campaign's game into `Games` unless a row with that id exists;
2. counts the `Drops` rows with the campaign's id;
3. if there is none, announces the campaign as new; otherwise, for each
   stored row with that id whose status differs from the fetched one, logs
   the status change and updates the `status` column of that row;
4. inserts the campaign's row into `Drops` unless a row with that id exists.

Both tables are keyed by their primary key, so the model holds them as maps:
`Games` as `map<int32, string>` and `Drops` as `map<string, DropRow>`. The two
kinds of log output are abstract events, `New(id)` and
`StatusChanged(id, newStatus)`.

The project has four modules:

- `Schema` (Schema.dfy): the `Game` and `DropCampaign` values, the `Drops`
  row, the events, and the column limits of the schema. Kotlin's `Int` is
  the newtype `int32`.
- `Reconcile` (Reconcile.dfy): the pass as pure functions. `Step` gives the
  tables after one campaign (`StepDrops` for `Drops`) and `StepEvents` its
  event. `Sync` (`SyncGames`, `SyncDrops`) and `SyncEvents` do the same for
  a whole list.
- `Properties` (Properties.dfy): lemmas about `Sync` and `SyncEvents`. They
  cover the schema constraints and foreign key, rows that are never touched,
  status-only mutation, last write wins, first insert wins, exact event
  counts and idempotence.
- `Store` (Store.dfy): the loop as `main()` runs it. `Store` is a class
  whose `games`, `drops` and `log` fields are changed in place. Each database
  statement is one method. `SyncCampaign` is the loop body and `SyncAll` is
  the loop. Each is proved to give exactly the tables and events of the
  pure pass.

Instants (`startAt`, `endAt`) are opaque integers copied into the row.

A second run over the same list reports nothing exactly when every id that
occurs more than once carries one status; in particular, when the fetched ids
are distinct (`Properties.SecondRunQuiet`). An id fetched twice with two
statuses flips its stored status back and forth, so every later run reports
it as changed twice (`Properties.DuplicateIdsReportAgain`).
`src/main/kotlin/Main.kt` has no benefit, prerequisite or box-art handling;
a game row holds only `id` and `name`.

## Model

| member | source | states |
|---|---|---|
| `Schema.RowOf` | src/main/kotlin/Main.kt:88-95 | the row inserted for a campaign; a campaign that fits its columns gives a row that fits the `Drops` columns |
| `Reconcile.InsertIgnore` | src/main/kotlin/Main.kt:68-71 | `insertIgnore` adds the key if absent and never overwrites: keys become old keys plus `k`, every old value is kept, and a new key maps to the given value |
| `Reconcile.SetStatus` | src/main/kotlin/Main.kt:81-83 | the update writes only the `status` column of the row with that id; keys and every other row are unchanged |
| `Reconcile.StepDrops` | src/main/kotlin/Main.kt:73-95 | after one campaign `Drops` holds the old ids plus the campaign's; other rows are unchanged; the campaign's stored status is the fetched status; an existing row changes only in `status`; a new row is built from the campaign |
| `Reconcile.Step` | src/main/kotlin/Main.kt:67-96 | after one campaign its game id and its id are keys, and every stored game keeps its name |
| `Reconcile.StepEvents` | src/main/kotlin/Main.kt:73-84 | at most one event, naming the campaign; `New(id)` iff no row had the id; `StatusChanged(id, status)` iff the stored status differed; no event iff the stored status was equal |
| `Reconcile.SyncGames` | src/main/kotlin/Main.kt:68-71 | no game is deleted: the game ids after the pass are the old ids plus the fetched game ids |
| `Reconcile.SyncDrops` | src/main/kotlin/Main.kt:73-95 | no drop is deleted: the drop ids after the pass are the old ids plus the fetched ids |
| `Reconcile.Sync` | src/main/kotlin/Main.kt:67-96 | both tables after the pass: nothing is deleted from either; each holds its old keys plus the fetched ones (the values are pinned by the `Properties` lemmas) |
| `Reconcile.SyncEvents` | src/main/kotlin/Main.kt:73-84 | a pass reports at most one event per fetched campaign |
| `Properties.StepConsistent` | src/main/kotlin/Main.kt:29-38 | one campaign whose values fit the columns keeps every value within its column and every drop's `game_id` pointing at a stored game |
| `Properties.SyncConsistent` | src/main/kotlin/Main.kt:29-38 | the whole pass keeps the column limits and the `game_id` foreign key |
| `Properties.SyncUntouched` | src/main/kotlin/Main.kt:67-96 | a stored campaign whose id is not fetched keeps its row exactly |
| `Properties.SyncKeepsGame` | src/main/kotlin/Main.kt:68-71 | a stored game's name is never overwritten |
| `Properties.SyncStatusOnly` | src/main/kotlin/Main.kt:81-83 | of a stored campaign, name, game, start and end never change; only status may |
| `Properties.SyncLastStatus` | src/main/kotlin/Main.kt:78-95 | after the pass, a fetched id's stored status is the status of its last occurrence in the list |
| `Properties.SyncFirstRow` | src/main/kotlin/Main.kt:88-95 | a campaign that was not stored gets the name, game, start and end of its first occurrence |
| `Properties.SyncFirstGame` | src/main/kotlin/Main.kt:68-71 | a game that was not stored gets the display name of its first occurrence |
| `Properties.SyncRowStable` | src/main/kotlin/Main.kt:78-95 | a second run over the same list leaves each stored row as the first run left it |
| `Properties.SyncGamesIdempotent` | src/main/kotlin/Main.kt:68-71 | inserting the same games again leaves `Games` identical |
| `Properties.SyncDropsIdempotent` | src/main/kotlin/Main.kt:73-95 | running the pass again over the same list leaves `Drops` identical, even when an id occurs twice |
| `Properties.SyncIdempotent` | src/main/kotlin/Main.kt:67-96 | running the pass again over the same list leaves both tables identical |
| `Properties.SyncQuiet` | src/main/kotlin/Main.kt:73-95 | a pass reports no event exactly when every fetched campaign is already stored with its fetched status, and then it changes no row |
| `Properties.SecondRunQuiet` | src/main/kotlin/Main.kt:73-84 | the second run over the same list reports no event exactly when all occurrences of each id carry one status; with distinct ids it reports none |
| `Properties.DuplicateIdsReportAgain` | src/main/kotlin/Main.kt:78-84 | from any tables, an id fetched twice with two statuses is reported as changed twice on the second run |
| `Properties.NewReportedOnce` | src/main/kotlin/Main.kt:73-75 | `New(id)` occurs exactly once if the id was not stored and is fetched, however often it occurs; otherwise never |
| `Properties.NoEventsForUnfetched` | src/main/kotlin/Main.kt:67-96 | no event names a campaign that is not in the fetched list |
| `Properties.EventsPerCampaign` | src/main/kotlin/Main.kt:73-84 | with distinct ids, the events naming a fetched campaign are exactly its own event against the tables before the pass: one `New`, one `StatusChanged` with the fetched status, or none |
| `Store.Store.InsertIgnoreGame` | src/main/kotlin/Main.kt:68-71 | accepts only a name that fits its column, as the database does; `Games` becomes `InsertIgnore` of the game; `Drops` and the log are unchanged; the schema constraints still hold |
| `Store.Store.CountDrops` | src/main/kotlin/Main.kt:73 | the count is at most one, and zero exactly when no row has the id |
| `Store.Store.SelectStatusDiffers` | src/main/kotlin/Main.kt:78 | at most one row; a row is returned iff the stored row exists with a different status, and it is that stored row |
| `Store.Store.UpdateStatus` | src/main/kotlin/Main.kt:81-83 | accepts only a status that fits its column; `Drops` becomes `SetStatus` of the old table; `Games` and the log are unchanged; the schema constraints still hold |
| `Store.Store.InsertIgnoreDrop` | src/main/kotlin/Main.kt:88-95 | accepts only a campaign whose values fit and whose game is already stored, as the `game_id` foreign key demands; `Drops` becomes `InsertIgnore` of the campaign's row; `Games` and the log are unchanged; the schema constraints still hold |
| `Store.Store.Report` | src/main/kotlin/Main.kt:74-79 | appends one event to the log and changes no table |
| `Store.Store.SyncCampaign` | src/main/kotlin/Main.kt:68-95 | the loop body keeps the schema constraints after every statement (its game is inserted before its drop, which the foreign key requires), yields the tables `Step` gives, appends exactly `StepEvents`, and leaves the campaign and its game stored with its fetched status |
| `Store.Store.SyncAll` | src/main/kotlin/Main.kt:67-96 | the loop keeps the schema constraints, yields the tables `Sync` gives and appends exactly `SyncEvents` |

## Left out

- Fetching the campaign list over HTTP and decoding the JSON
  (src/main/kotlin/Main.kt:53-59, 66): network I/O and foreign libraries.
  The fetched list is an input sequence.
- The database connection and pool (src/main/kotlin/Main.kt:61, 100-107) and
  schema creation (src/main/kotlin/Main.kt:64): I/O and library plumbing.
  A `Store` starts from given tables.
- The transaction, its rollback and its retries (src/main/kotlin/Main.kt:63):
  the pass is one sequential method. A value longer than its column would
  make the database reject the statement and roll back the whole pass.
  Exposed 0.30.1's `transaction` helper (build.gradle.kts:30) re-runs the
  block after an SQL exception, a few times by default, so the `[New]` and
  `[Update]` lines already written would be logged again on each attempt
  before the run fails. The model does not follow that path. The statement
  methods, `SyncCampaign` and `SyncAll` require every value to fit its column
  instead (`Schema.Fits`), and `InsertIgnoreDrop` requires the game to be
  stored.
- Configuration from the environment (src/main/kotlin/Main.kt:43-51): config I/O.
- Conversion of `Date` to a UTC `LocalDateTime` (src/main/kotlin/Main.kt:92-93):
  a `java.time` library call. Instants are opaque integers copied through.
- The text of the log lines (src/main/kotlin/Main.kt:79, 109-113): only the
  event kind, campaign id and new status are kept.
- build.gradle.kts: build configuration, with no logic.
