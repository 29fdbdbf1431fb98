# gomigrate in Dafny

A model of the core of gomigrate, a database migrator for PostgreSQL-style
databases. The model covers two parts.

- **Discovery.** A listing of artifact names, each parsed into (id, direction, name), is turned
  into a registry of migrations keyed by numeric id. Up and down scripts are
  paired under one id, and the whole registry is rejected when any entry is
  incomplete.
- **The engine.** It probes for the log table, reconciles each migration's
  status with the rows of that table, and takes a sorted snapshot of the
  registry. It applies one migration inside one transaction, and runs the
  bulk operations `Migrate`, `RollbackN`, `Rollback` and `RollbackAll`.

The database is abstracted to the set of ids whose rows the log table holds.
Each database or file step can fail. Whether it does is an input: a
`TxOutcome` per transaction (script read, begin, each command, log write,
transaction rollback, commit) and an `Oracle` mapping each id to its outcome.
So every error branch of the engine can be reached and reasoned about. Parsing
an artifact name is an uninterpreted parameter `parse`; a parse error is
`None`.

Files, one module each:

- `base.dfy` (`Base`): `Option`, `Result`, the package's errors and the
  `uint64` id type.
- `ordering.dfy` (`Ordering`): ascending order on ids and the sorted key list.
- `migration.dfy` (`Metadata`): status constants, the migration record,
  `valid()`, and the pairing and validation loop shared by both sources.
- `pairing_properties.dfy` (`PairingProperties`): what discovery promises.
- `engine.dfy` (`Engine`): the engine's state and operations.
- `engine_properties.dfy` (`EngineProperties`): what the bulk operations
  promise, including where `RollbackN` departs from its evident intent.

The Go `map` iteration in `getMigrationStatuses` and in the validation loop
has no defined order. The model's status loop walks ids in ascending order;
where the order could matter (which lookup error is reported), the contract
promises only that the error is the one of *some* failing lookup. The
validation loop is modelled as a check that every entry is valid, which does
not depend on the order at all.

`RollbackN` does not clamp `n`: for `n` above the number of Active
migrations, or below zero, the loop indexes below zero. `Rollback` and
`RollbackAll` only pass an `n` in range. The model follows the code
(`Engine.RollbackN`) and records the difference under Findings.

## Model

| member | source | states |
|---|---|---|
| Ordering.SortedIds | gomigrate.go:132-137 | the id list holds every registered id exactly once, strictly ascending: an id is listed iff it is a key, and the length equals the number of keys |
| Metadata.Pair | migration.go:58-78 | the grouping loop builds a registry in which every key names its own entry, every entry is Inactive, and every entry has at least one half filled (an entry exists only because some artifact filled one of its halves; only an empty listed name can leave it blank) |
| Metadata.Record | migration.go:68-77 | entering one parsed artifact: the first sighting of an id creates an Inactive entry with that id and name; a later sighting keeps the entry and changes only the path of its own direction; "up" fills the up path and any other direction the down path, the other half is unchanged, and no other entry changes |
| Metadata.PairShape | migration.go:58-78 | the paired registry has an entry exactly for the ids some parseable artifact carries, every key equals its entry's id, and every entry is Inactive |
| Metadata.PairPathsListed | migration.go:73-77 | every non-empty path stored in the registry is one of the listed artifacts |
| Metadata.FindMigrations | migration.go:58-94 | the registry is returned whether or not validation passes; the error is present iff some entry fails `valid()`, and it is then `InvalidMigrationPair` |
| Metadata.FindFileMigrations | migration.go:58-94 | the file source parses each match's base name but stores the full match as its path; otherwise it behaves as shared discovery |
| Metadata.FindAssetMigrations | migration.go:108-151 | a failing directory listing is returned with a nil registry; a successful one is paired and validated as shared discovery: an entry exactly for each sighted id, every entry Inactive and stored under its own id, every stored path one of the listed names, and `InvalidMigrationPair` iff some entry is not valid |
| PairingProperties.PairSkipsUnparseable | migration.go:59-64 | pairing a listing gives the same registry as pairing only its parseable artifacts |
| PairingProperties.NothingParseableIsEmpty | migration.go:58-94 | a listing in which nothing parses (the empty listing included) yields an empty registry and no error |
| PairingProperties.PairNameIsFirstSighting | migration.go:68-72 | the name of an entry is the name parsed from the first artifact that carries its id |
| PairingProperties.PairNameFromSomeSighting | migration.go:68-72 | the name of an entry comes from some artifact carrying its id |
| PairingProperties.PairPathIsLastCarrier | migration.go:73-77 | each half holds the path of the last artifact that fills it, so a later artifact with the same id and direction overwrites an earlier one |
| PairingProperties.PairPathEmptyWithoutCarrier | migration.go:73-77 | a half that no artifact fills stays empty |
| PairingProperties.PairPathFromSomeCarrier | migration.go:73-77 | a half that some artifact fills holds the path of one of those artifacts |
| PairingProperties.MissingHalfFailsDiscovery | migration.go:80-89 | an id sighted without one of its halves makes discovery fail with `InvalidMigrationPair` |
| PairingProperties.PairedValidIff | migration.go:25-30 | for an id whose first carrier, last up carrier and last down carrier are given, the paired entry passes `valid()` iff the id is non-zero, the first carrier's parsed name is non-empty, and the up and down carriers' names are non-empty |
| PairingProperties.CompletePairsPassValidation | migration.go:80-94 | with non-empty names, non-zero ids and both halves present for every id, discovery reports no error |
| Engine.MigrationTableExists | gomigrate.go:44-58 | the probe reports the table present iff a row was found, reports an error iff the scan failed with something other than "no rows", and that error is the scan's |
| Engine.LookupLog | gomigrate.go:110-113 | looking up one id's log row fails exactly when the database fails for that id, with that error; otherwise it finds a row iff the id is logged, and reports "no rows" iff it is not |
| Engine.ReconcileStatuses | gomigrate.go:109-125 | the status loop succeeds iff no lookup fails; on failure the error is that of a failing lookup; on success exactly the visited, logged ids become Active and nothing else changes |
| Engine.GetMigrationStatuses | gomigrate.go:108-127 | reconciling the registry succeeds iff no lookup fails; the error is that of some failing lookup; afterwards a migration is Active exactly when it was already, or its id is logged, and no key is added or lost |
| Engine.NewMigrator | gomigrate.go:73-104 | a failing probe or failing discovery is returned as the error; after a clean probe and discovery, construction succeeds iff no status lookup of a discovered id fails, and a failure carries the error of some failing lookup; a missing table starts an empty log; on success the registry is the discovered one (empty for a nil map) with the logged ids marked Active |
| Engine.SelectedIds | gomigrate.go:131-146 | the selected ids are strictly ascending, every one is registered with the requested status, and every registered id with that status is among them |
| Engine.SelectedIdsMembers | gomigrate.go:139-146 | an id is selected iff it is registered with the requested status, and the selection is empty iff no registered migration has that status |
| Engine.Migrations | gomigrate.go:131-148 | the snapshot is strictly ascending by id, each element is the registered migration under its id and has the requested status (any status for -1), and every such migration is in it |
| Engine.FirstFailure | gomigrate.go:189-198 | the command loop succeeds iff every command does; otherwise it reports the error of a failing command all of whose predecessors succeeded |
| Engine.Transaction | gomigrate.go:151-238 | one apply commits iff the direction is up or down and every step is clean; an abort that still reached the database can only be a failed commit after the transaction opened |
| Engine.ApplyMigration | gomigrate.go:151-246 | an invalid direction returns `InvalidMigrationType`; a failed read or begin, a failed command or log write, or a failed commit leaves the status unchanged, and the log too unless the commit reached the database; a failed command or log write reports the rollback error if the rollback fails and the original error otherwise; a failed commit reports the commit's own error, and the log holds the change iff the commit reached the database; success sets the status to Active for up and Inactive for down, and inserts or deletes the log row |
| Engine.ApplyEach | gomigrate.go:250-254 | a walk over ids keeps the registered keys and every key-to-id pairing, and never changes the entry or log row of an id outside the walk |
| Engine.Migrate | gomigrate.go:249-256 | `Migrate` keeps the registered keys and never changes an Active migration |
| Engine.Rollback | gomigrate.go:259-261 | `Rollback` keeps the registered keys and never changes an Inactive migration |
| Engine.RollbackAll | gomigrate.go:282-285 | `RollbackAll` keeps the registered keys and never changes an Inactive migration |
| Engine.Countdown | gomigrate.go:270-276 | the loop counting down from index `i` visits `i - last` entries when it meets `last`, and `i + 1` entries otherwise; the `j`-th visit is entry `i - j` |
| Engine.Visited | gomigrate.go:270-272 | `RollbackN`'s loop visits `n` entries when `0 <= n <= len`, and all of them otherwise, last entry first |
| Engine.RevertCountdown | gomigrate.go:264-279 | the rollback loop over an empty Active list returns nil and changes nothing; it never adds or loses a key |
| Engine.RollbackN | gomigrate.go:264-279 | with no Active migration, `RollbackN` returns nil and changes nothing, for every `n` |
| Engine.Top | gomigrate.go:270-272 | the clamped walk lists `n` entries clamped to `0 ..= len`, last entry first |
| Engine.TopActive | gomigrate.go:265-272 | every id the clamped rollback walks is registered and Active |
| Engine.RollbackNClamped | gomigrate.go:264-279 | the clamped rollback keeps the registered keys and never changes an Inactive migration |
| EngineProperties.ApplyToSpec | gomigrate.go:235-243 | one apply stored back commits iff its transaction does; a commit moves the migration to the target status and the log row along with it; an abort keeps the entry and reports the transaction's error |
| EngineProperties.ApplyEachSpec | gomigrate.go:250-254 | a walk over distinct ids either reached every id in order or stopped at the first failing one: all earlier ids reached, the failing id kept its entry, all later ids untouched |
| EngineProperties.MigrateAppliesAllInactive | gomigrate.go:249-256 | after a successful `Migrate` every migration is Active, and the log holds exactly the old rows plus the formerly Inactive ids |
| EngineProperties.MigrateStopsAtFirstError | gomigrate.go:250-254 | a failing `Migrate` stopped at the first failing Inactive migration in ascending order: lower ones applied, higher ones untouched |
| EngineProperties.MigrateWithNothingPending | gomigrate.go:249-256 | with every migration Active, `Migrate` opens no transaction and changes nothing |
| EngineProperties.MigrateIsIdempotent | gomigrate.go:249-256 | after a successful `Migrate`, a second one applies nothing, whatever the database would do |
| EngineProperties.RevertInRange | gomigrate.go:270-277 | for `0 <= n <= len`, the rollback loop is the walk over the top `n` entries and returns its error |
| EngineProperties.VisitedPastRange | gomigrate.go:270-273 | for `n < 0` or `n > len`, the loop visits the same ids as with `n = len` |
| EngineProperties.RevertOutOfRange | gomigrate.go:270-277 | for `n < 0` or `n > len` with some entry, the loop walks the whole list and then panics, unless a revert fails on the way |
| EngineProperties.RollbackNInRange | gomigrate.go:264-279 | for `0 <= n <=` the number of Active migrations, `RollbackN` returns exactly what the clamped rollback returns and never panics |
| EngineProperties.RollbackNOutOfRange | gomigrate.go:264-279 | for `n` outside that range, with some migration Active, `RollbackN` reverts every Active migration and then panics, unless a revert fails first |
| EngineProperties.RollbackNPanicsPastActive | gomigrate.go:270-273 | with some migration Active, `n < 0` or `n >` their number, and every statement succeeding, `RollbackN` panics |
| EngineProperties.RollbackTwoOfOnePanics | gomigrate.go:264-279 | with migration 1 the only one, Active, and every statement succeeding, `RollbackN(2)` panics |
| EngineProperties.ClampedTwoOfOneSucceeds | gomigrate.go:264-279 | in the same case the clamped rollback reverts migration 1, deletes its log row and returns nil |
| EngineProperties.TopActiveIsDescending | gomigrate.go:265-272 | the rollback walks `n` Active ids clamped to their number, strictly descending and so each once |
| EngineProperties.TopActiveIsTop | gomigrate.go:265-272 | every Active id the rollback leaves out is below every id it walks, and with `n` at least the number of Active migrations it walks all of them |
| EngineProperties.RollbackNClampedSpec | gomigrate.go:264-279 | the clamped rollback reverts the top `n` Active migrations highest first, stops at the first failing one, and leaves every other migration untouched |
| EngineProperties.RollbackAllLeavesNoActive | gomigrate.go:282-285 | a successful `RollbackAll` leaves every migration Inactive and deletes the log row of every formerly Active one |
| EngineProperties.RollbackRevertsHighest | gomigrate.go:259-261 | `Rollback` reverts the highest-id Active migration, if it succeeds, and touches no other |
| EngineProperties.HighestActive | gomigrate.go:259-272 | with some migration Active, the one-step rollback walks exactly the highest Active id |
| EngineProperties.RollbacksAgreeWithAsWritten | gomigrate.go:259-285 | `Rollback` and `RollbackAll` built on the clamped rollback return exactly what the unclamped loop returns for `n = 1` and `n =` the number of Active migrations |
| EngineProperties.ApplyEachKeepsConsistency | gomigrate.go:235-243 | a walk of distinct ids keeps "Active iff logged" unless a commit failed after reaching the database |
| EngineProperties.StoppedKeepsConsistency | gomigrate.go:235-243 | a walk that stopped at a failing migration keeps "Active iff logged" unless that commit reached the database |
| EngineProperties.MigrateKeepsConsistency | gomigrate.go:249-256 | `Migrate` keeps "Active iff logged" unless a commit failed after reaching the database |
| EngineProperties.RollbackNClampedKeepsConsistency | gomigrate.go:264-279 | the clamped rollback, and so `Rollback` and `RollbackAll`, keep "Active iff logged" under the same condition |
| EngineProperties.NewMigratorIsConsistent | gomigrate.go:73-127 | a migrator built from a discovered registry starts with a migration Active exactly when its id is logged |
| EngineProperties.ApplyThenRevert | gomigrate.go:214-243 | a committed up followed by a committed down restores the migration to Inactive and removes its log row |

## Left out

- Real I/O. The database, the script read, `filepath.Glob`, `filepath.Base` and the asset functions are parameters or outcomes. The SQL text and the adapter's command splitting are left out; a command sequence is an opaque list of outcomes, and a `RowsAffected` error counts as a failed command.
- `parseMigrationPath` and the sort helper `uint64slice` are not shown. Parsing is an uninterpreted `parse`, and the sort is the ascending `SortedIds`.
- The runtime type switch on the migration source (gomigrate.go:166-174). A read failure is an outcome; the unsupported-source error is not modelled.
- `CreateMigrationsTable` (gomigrate.go:61-70). It logs with `Fatalf` and then returns nil, so whether it fails depends on the logger ending the process. The model treats table creation as succeeding with an empty log.
- Directory normalisation in the file source (migration.go:44-52). It is glue around the glob; it indexes past the start of an empty `Dir`, and the normalised path is only logged, not used for the glob.
- The glob error path (migration.go:55-57) ends in `Fatalf`, so it is left out with the logger.
- Logger output everywhere, and the path chosen for the "invalid pair" log line.
- The `migrationTableName` constant: it only names the table in SQL. The sentinel errors `InvalidMigrationFile`, `InvalidMigrationsPath` and `NoActiveMigrations` are declared in `Base.Error` to mirror the package's list, but none of the modelled Go code returns them; whatever error `parseMigrationPath` gives is only skipped.
- Concurrency: the source has none, and the model is sequential.
- Engine.ApplyMigration: does not track which script is read. gomigrate picks the up or down path by direction (gomigrate.go:152-156); the model keeps the direction check but the read's result is an outcome, whatever path it names.
- Engine.Rollback: its own contract states only frame facts; that it reverts the highest-id Active migration and nothing else is stated by `RollbackRevertsHighest`, and that it equals `RollbackN(1)` by `RollbacksAgreeWithAsWritten`.
- Engine.RollbackAll: its own contract states only frame facts; that a successful run leaves nothing Active and deletes every formerly Active row is stated by `RollbackAllLeavesNoActive`, and that it equals `RollbackN(len)` by `RollbacksAgreeWithAsWritten`.
- Engine.GetMigrationStatuses: does not say which failing lookup's error is reported, because Go's map iteration order is unspecified.
- Engine.Migrate: its own contract states only frame facts; what it applies is stated by the EngineProperties lemmas about `Migrate`.
- Engine.RollbackN: its own contract states only the no-Active case and frame facts; the rest is stated by `RollbackNInRange` and `RollbackNOutOfRange`.
- Engine.RevertCountdown: its own contract states only the empty-list case and frame facts; the loop's behaviour inside and outside `0 <= n <= len` is stated by `RevertInRange` and `RevertOutOfRange`.
- Engine.RollbackNClamped: its own contract states only frame facts; what it reverts is stated by `RollbackNClampedSpec`.
- Ambiguous commits: when a commit fails, the code cannot know whether the change reached the database. The outcome's `persisted` flag makes that choice, and the log follows it; the in-memory status stays unchanged either way, as in the code.

## Findings

| source | as written | input that shows it | evidently intended | confidence | as-written member | corrected member |
|---|---|---|---|---|---|---|
| gomigrate.go:270-276 | the loop runs `i` down from the last Active index until it equals `len - 1 - n`, with no bound on `n` | one Active migration and `n = 2`: the stop index is -2, so after reverting index 0 the loop reaches `i = -1` and `migrations[-1]` panics; `n = -1` gives stop index 1, above the start, with the same result | revert the top `n` Active migrations, clamped to their number, as `Rollback` and `RollbackAll` do (they only ever pass an `n` in range) | high; not executed | EngineProperties.RollbackNPanicsPastActive | Engine.RollbackNClamped |
