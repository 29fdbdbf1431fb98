/**
 The migration engine: bootstrapping the log table, reconciling statuses with
 the log, the ordered snapshot of the registry, and applying or reverting
 migrations one transaction at a time.

 The database is abstracted to the set of ids whose rows the log table holds.
 Whether each database step succeeds is decided by an outcome supplied as a
 parameter, so every branch of the engine's error handling can be reached.
 */
module Engine {
  import opened Base
  import opened Ordering
  import opened Metadata

  /** The engine's state: the in-memory registry and the persisted log. */
  datatype Migrator = Migrator(migrations: Registry, log: set<MigrationId>)

  // ---------------------------------------------------------------------------
  // Bootstrap
  // ---------------------------------------------------------------------------

  /** What scanning a single-row query yields. */
  datatype RowScan = RowFound | NoRows | ScanFailed(error: Error)

  /** Probing for the log table: a row means present, no rows means absent,
      and any other error is reported together with "absent". */
  function MigrationTableExists(probe: RowScan): (r: (bool, Option<Error>))
    ensures r.0 <==> probe.RowFound?
    ensures r.1.Some? <==> probe.ScanFailed?
    ensures probe.ScanFailed? ==> r.1 == Some(probe.error)
  {
    match probe
    case NoRows => (false, None)
    case ScanFailed(e) => (false, Some(e))
    case RowFound => (true, None)
  }

  /** Looking up the log row of `id`: the database may fail with `fault(id)`;
      otherwise it finds a row exactly when `id` is logged. */
  function LookupLog(log: set<MigrationId>, id: MigrationId, fault: MigrationId -> Option<Error>): (r: RowScan)
    ensures r.ScanFailed? <==> fault(id).Some?
    ensures r.ScanFailed? ==> Some(r.error) == fault(id)
    ensures r.RowFound? <==> fault(id).None? && id in log
  {
    if fault(id).Some? then ScanFailed(fault(id).value)
    else if id in log then RowFound
    else NoRows
  }

  /** The status loop over `ids`: a found row marks the migration Active, no
      rows leaves it alone, and any other error stops the loop. */
  function ReconcileStatuses(ms: Registry, ids: seq<MigrationId>, log: set<MigrationId>,
                             fault: MigrationId -> Option<Error>): (r: Result<Registry>)
    requires forall i | 0 <= i < |ids| :: ids[i] in ms
    ensures r.Success? <==> forall i | 0 <= i < |ids| :: fault(ids[i]).None?
    ensures r.Failure? ==> exists i | 0 <= i < |ids| :: fault(ids[i]) == Some(r.error)
    ensures r.Success? ==> r.value.Keys == ms.Keys
    ensures r.Success? ==> forall id | id in ms ::
              r.value[id] == if id in ids && id in log then ms[id].(status := Active) else ms[id]
    decreases |ids|
  {
    if |ids| == 0 then Success(ms)
    else
      var id := ids[0];
      match LookupLog(log, id, fault)
      case ScanFailed(e) => Failure(e)
      case NoRows => ReconcileStatuses(ms, ids[1..], log, fault)
      case RowFound => ReconcileStatuses(ms[id := ms[id].(status := Active)], ids[1..], log, fault)
  }

  /** Reconciling every registered migration with the log. Go visits the map
      in an unspecified order; this model visits ids in ascending order, and
      on failure promises only that the error is that of some failing
      lookup. */
  function GetMigrationStatuses(ms: Registry, log: set<MigrationId>,
                                fault: MigrationId -> Option<Error>): (r: Result<Registry>)
    ensures r.Success? <==> forall id | id in ms :: fault(id).None?
    ensures r.Failure? ==> exists id | id in ms :: fault(id) == Some(r.error)
    ensures r.Success? ==> r.value.Keys == ms.Keys
    ensures r.Success? ==> forall id | id in ms ::
              r.value[id] == if id in log then ms[id].(status := Active) else ms[id]
  {
    var ids := SortedIds(ms.Keys);
    ReconcileEvery(ms, ids, log, fault);
    ReconcileStatuses(ms, ids, log, fault)
  }

  /** Reconciling a list of ids that holds exactly the registered ones,
      stated per registered id. */
  lemma ReconcileEvery(ms: Registry, ids: seq<MigrationId>, log: set<MigrationId>,
                       fault: MigrationId -> Option<Error>)
    requires forall id :: id in ids <==> id in ms
    ensures forall i | 0 <= i < |ids| :: ids[i] in ms
    ensures var r := ReconcileStatuses(ms, ids, log, fault);
            && (r.Success? <==> forall id | id in ms :: fault(id).None?)
            && (r.Failure? ==> exists id | id in ms :: fault(id) == Some(r.error))
            && (r.Success? ==> r.value.Keys == ms.Keys)
            && (r.Success? ==> forall id | id in ms ::
                  r.value[id] == if id in log then ms[id].(status := Active) else ms[id])
  {
    assert forall i | 0 <= i < |ids| :: ids[i] in ids;
    var r := ReconcileStatuses(ms, ids, log, fault);
    if r.Failure? {
      var i :| 0 <= i < |ids| && fault(ids[i]) == Some(r.error);
      assert ids[i] in ms;
    }
  }

  /** Constructing a migrator: probe for the log table (creating an empty one
      when absent), take the discovered registry, and reconcile it with the
      log. `log` is the content of the table when it already exists. */
  function NewMigrator(probe: RowScan, log: set<MigrationId>, discovered: Discovery,
                       fault: MigrationId -> Option<Error>): (r: Result<Migrator>)
    ensures probe.ScanFailed? ==> r == Failure(probe.error)
    ensures !probe.ScanFailed? && discovered.err.Some? ==> r == Failure(discovered.err.value)
    ensures !probe.ScanFailed? && discovered.err.None? ==>
              (r.Success? <==> forall id | id in Registered(discovered) :: fault(id).None?)
    ensures !probe.ScanFailed? && discovered.err.None? && r.Failure? ==>
              exists id | id in Registered(discovered) :: fault(id) == Some(r.error)
    ensures r.Success? ==> r.value.log == if probe.RowFound? then log else {}
    ensures r.Success? ==> discovered.err.None?
    ensures r.Success? ==>
              && r.value.migrations.Keys == Registered(discovered).Keys
              && forall id | id in r.value.migrations ::
                   r.value.migrations[id]
                   == if id in r.value.log then Registered(discovered)[id].(status := Active)
                      else Registered(discovered)[id]
  {
    var (tableExists, err) := MigrationTableExists(probe);
    if err.Some? then Failure(err.value)
    else
      var rows := if tableExists then log else {};
      if discovered.err.Some? then Failure(discovered.err.value)
      else
        match GetMigrationStatuses(Registered(discovered), rows, fault)
        case Failure(e) => Failure(e)
        case Success(reconciled) => Success(Migrator(reconciled, rows))
  }

  // ---------------------------------------------------------------------------
  // Ordered snapshot
  // ---------------------------------------------------------------------------

  /** The status argument that selects every migration. */
  const AnyStatus: int := -1

  predicate Selected(m: Migration, status: int) {
    status == AnyStatus || StatusCode(m.status) == status
  }

  /** The ids of the snapshot: exactly the registered ids with the given
      status, strictly ascending. Sorting the keys and then filtering them is
      written here as taking the least key first and continuing with the
      rest of the registry. */
  function SelectedIds(ms: Registry, status: int): (ids: seq<MigrationId>)
    requires WellFormed(ms)
    ensures StrictlyAscending(ids)
    ensures forall i | 0 <= i < |ids| :: ids[i] in ms && Selected(ms[ids[i]], status)
    ensures forall id | id in ms && Selected(ms[id], status) :: id in ids
    decreases |ms.Keys|
  {
    if |ms.Keys| == 0 then []
    else
      var least := Least(ms.Keys);
      var others := ms - {least};
      assert others.Keys == ms.Keys - {least};
      var rest := SelectedIds(others, status);
      SelectionStep(ms, status, least, rest);
      if Selected(ms[least], status) then [least] + rest else rest
  }

  /** `ids` lists exactly the ids of `ms` whose migration has the selected
      status, strictly ascending. */
  ghost predicate Selection(ms: Registry, status: int, ids: seq<MigrationId>) {
    && StrictlyAscending(ids)
    && (forall i | 0 <= i < |ids| :: ids[i] in ms && Selected(ms[ids[i]], status))
    && (forall id | id in ms && Selected(ms[id], status) :: id in ids)
  }

  /** Putting the least key in front of the selection from the others gives
      the selection from the whole registry. */
  lemma SelectionStep(ms: Registry, status: int, least: MigrationId, rest: seq<MigrationId>)
    requires WellFormed(ms) && least in ms && forall y | y in ms :: least <= y
    requires Selection(ms - {least}, status, rest)
    ensures Selection(ms, status, if Selected(ms[least], status) then [least] + rest else rest)
  {
    var others := ms - {least};
    assert forall i | 0 <= i < |rest| :: rest[i] in others;
    if Selected(ms[least], status) {
      PrependLeastAscends(least, rest);
      PrependKeepsMembers(least, rest);
    }
    forall id | id in ms && Selected(ms[id], status)
      ensures id in (if Selected(ms[least], status) then [least] + rest else rest)
    {
      if id != least {
        assert id in others && others[id] == ms[id];
      }
    }
  }

  /** An id below every id of an ascending list keeps it ascending when put
      in front. */
  lemma PrependLeastAscends(x: MigrationId, rest: seq<MigrationId>)
    requires StrictlyAscending(rest)
    requires forall i | 0 <= i < |rest| :: x < rest[i]
    ensures StrictlyAscending([x] + rest)
  {
    var r := [x] + rest;
    assert forall i | 1 <= i < |r| :: r[i] == rest[i - 1];
  }

  lemma PrependKeepsMembers(x: MigrationId, rest: seq<MigrationId>)
    ensures forall y | y in rest :: y in [x] + rest
    ensures forall i | 1 <= i < |rest| + 1 :: ([x] + rest)[i] == rest[i - 1]
  {
  }

  /** Membership in the selection, both ways. */
  lemma SelectedIdsMembers(ms: Registry, status: int)
    requires WellFormed(ms)
    ensures forall id :: id in SelectedIds(ms, status) <==> id in ms && Selected(ms[id], status)
    ensures |SelectedIds(ms, status)| > 0 <==> exists id | id in ms :: Selected(ms[id], status)
  {
    var ids := SelectedIds(ms, status);
    if |ids| > 0 {
      assert ids[0] in ms && Selected(ms[ids[0]], status);
    }
  }

  /** Selecting by a status's code selects exactly the registered migrations
      with that status. */
  lemma SelectedByStatus(ms: Registry, s: Status)
    requires WellFormed(ms)
    ensures forall x :: x in SelectedIds(ms, StatusCode(s)) <==> x in ms && ms[x].status == s
  {
    SelectedIdsMembers(ms, StatusCode(s));
  }

  ghost predicate AscendingById(r: seq<Migration>) {
    forall i, j | 0 <= i < j < |r| :: r[i].id < r[j].id
  }

  /** The migrations stored under `ids`, in the order of `ids`. */
  function Lookup(ms: Registry, ids: seq<MigrationId>): (r: seq<Migration>)
    requires forall i | 0 <= i < |ids| :: ids[i] in ms
    ensures |r| == |ids|
    ensures forall i | 0 <= i < |ids| :: r[i] == ms[ids[i]]
  {
    seq(|ids|, i requires 0 <= i < |ids| => ms[ids[i]])
  }

  /** The sorted snapshot: the registered migrations with the given status
      (all of them for `AnyStatus`), strictly ascending by id. */
  function Migrations(ms: Registry, status: int): (r: seq<Migration>)
    requires WellFormed(ms)
    ensures AscendingById(r)
    ensures forall i | 0 <= i < |r| :: r[i].id in ms && ms[r[i].id] == r[i] && Selected(r[i], status)
    ensures forall id | id in ms && Selected(ms[id], status) :: ms[id] in r
  {
    var ids := SelectedIds(ms, status);
    LookupCovers(ms, ids);
    Lookup(ms, ids)
  }

  lemma LookupCovers(ms: Registry, ids: seq<MigrationId>)
    requires forall i | 0 <= i < |ids| :: ids[i] in ms
    ensures forall id | id in ids :: ms[id] in Lookup(ms, ids)
  {
    var r := Lookup(ms, ids);
    forall id | id in ids
      ensures ms[id] in r
    {
      var k :| 0 <= k < |ids| && ids[k] == id;
      assert r[k] == ms[id];
    }
  }

  // ---------------------------------------------------------------------------
  // One transaction
  // ---------------------------------------------------------------------------

  /** Whether the commit took effect. A failed commit leaves the database in
      an unknown state: `persisted` says whether the change reached it anyway. */
  datatype CommitOutcome = CommitSucceeded | CommitFailed(error: Error, persisted: bool)

  /** How each database or source step of one apply goes: reading the script,
      opening the transaction, each split command in order (an execution or
      rows-affected error alike), the log write, a transaction rollback should
      one be needed, and the commit. */
  datatype TxOutcome = TxOutcome(
    read: Option<Error>,
    begin: Option<Error>,
    commands: seq<Option<Error>>,
    logWrite: Option<Error>,
    rollback: Option<Error>,
    commit: CommitOutcome)

  /** Every step of the transaction succeeds. */
  predicate Clean(o: TxOutcome) {
    && o.read.None?
    && o.begin.None?
    && (forall i | 0 <= i < |o.commands| :: o.commands[i].None?)
    && o.logWrite.None?
    && o.commit.CommitSucceeded?
  }

  predicate IsMigrationType(mType: MigrationType) {
    mType == UpMigration || mType == DownMigration
  }

  /** The error of the first failing command, if any. */
  function FirstFailure(outcomes: seq<Option<Error>>): (r: Option<Error>)
    ensures r.None? <==> forall i | 0 <= i < |outcomes| :: outcomes[i].None?
    ensures r.Some? ==> exists i | 0 <= i < |outcomes| ::
              outcomes[i] == r && forall j | 0 <= j < i :: outcomes[j].None?
    decreases |outcomes|
  {
    if |outcomes| == 0 then None
    else if outcomes[0].Some? then outcomes[0]
    else
      var r := FirstFailure(outcomes[1..]);
      assert forall j | 1 <= j < |outcomes| :: outcomes[j] == outcomes[1..][j - 1];
      r
  }

  /** The error reported after an aborted transaction: a failing rollback
      replaces the original cause. */
  function Reported(rollback: Option<Error>, cause: Error): Error {
    if rollback.Some? then rollback.value else cause
  }

  /** The transaction runs to the log write: the direction is valid and the
      read and the opening succeeded. */
  predicate Opened(mType: MigrationType, o: TxOutcome) {
    IsMigrationType(mType) && o.read.None? && o.begin.None?
  }

  datatype Verdict = Committed | Aborted(error: Error, persisted: bool)

  /** How one apply ends, step by step. */
  function Transaction(mType: MigrationType, o: TxOutcome): (v: Verdict)
    ensures v.Committed? <==> IsMigrationType(mType) && Clean(o)
    ensures v.Aborted? && v.persisted ==> Opened(mType, o) && o.commit == CommitFailed(v.error, true)
  {
    if !IsMigrationType(mType) then Aborted(InvalidMigrationType, false)
    else if o.read.Some? then Aborted(o.read.value, false)
    else if o.begin.Some? then Aborted(o.begin.value, false)
    else if FirstFailure(o.commands).Some? then Aborted(Reported(o.rollback, FirstFailure(o.commands).value), false)
    else if o.logWrite.Some? then Aborted(Reported(o.rollback, o.logWrite.value), false)
    else match o.commit
      case CommitSucceeded => Committed
      case CommitFailed(e, persisted) => Aborted(e, persisted)
  }

  /** The status a committed apply in direction `mType` leaves behind. */
  function StatusAfter(mType: MigrationType): Status {
    if mType == UpMigration then Active else Inactive
  }

  /** The log once an apply of `id` in direction `mType` took effect: up
      inserts the row, down deletes it. */
  function Logged(log: set<MigrationId>, id: MigrationId, mType: MigrationType): set<MigrationId> {
    if mType == UpMigration then log + {id} else log - {id}
  }

  datatype Applied = Applied(err: Option<Error>, log: set<MigrationId>, migration: Migration)

  /** Applying one migration in direction `mType` inside one transaction. The
      status changes only after a successful commit; every failure leaves the
      migration as it was, and the log too unless the commit itself failed
      after reaching the database. */
  function ApplyMigration(log: set<MigrationId>, m: Migration, mType: MigrationType, o: TxOutcome): (r: Applied)
    ensures !IsMigrationType(mType) ==> r == Applied(Some(InvalidMigrationType), log, m)
    ensures IsMigrationType(mType) && o.read.Some? ==> r == Applied(o.read, log, m)
    ensures IsMigrationType(mType) && o.read.None? && o.begin.Some? ==> r == Applied(o.begin, log, m)
    ensures Opened(mType, o) && FirstFailure(o.commands).Some? ==>
              r == Applied(Some(Reported(o.rollback, FirstFailure(o.commands).value)), log, m)
    ensures Opened(mType, o) && FirstFailure(o.commands).None? && o.logWrite.Some? ==>
              r == Applied(Some(Reported(o.rollback, o.logWrite.value)), log, m)
    ensures r.err.None? <==> IsMigrationType(mType) && Clean(o)
    ensures r.err.None? ==> r.migration == m.(status := StatusAfter(mType)) && r.log == Logged(log, m.id, mType)
    ensures Opened(mType, o) && FirstFailure(o.commands).None? && o.logWrite.None? && o.commit.CommitFailed? ==>
              r.err == Some(o.commit.error) && r.log == (if o.commit.persisted then Logged(log, m.id, mType) else log)
    ensures r.err.Some? ==> r.migration == m
    ensures r.err.Some? && r.log != log ==>
              Opened(mType, o) && o.commit == CommitFailed(r.err.value, true) && r.log == Logged(log, m.id, mType)
  {
    match Transaction(mType, o)
    case Committed => Applied(None, Logged(log, m.id, mType), m.(status := StatusAfter(mType)))
    case Aborted(e, persisted) =>
      Applied(Some(e), if persisted then Logged(log, m.id, mType) else log, m)
  }

  // ---------------------------------------------------------------------------
  // Bulk operations
  // ---------------------------------------------------------------------------

  /** Per-migration outcomes of the transactions a bulk operation opens. */
  type Oracle = MigrationId -> TxOutcome

  datatype Ran = Ran(err: Option<Error>, after: Migrator)

  /** Apply the registered migration `id` and store its new status back. */
  function ApplyTo(st: Migrator, id: MigrationId, mType: MigrationType, o: TxOutcome): (r: Ran)
    requires WellFormed(st.migrations) && id in st.migrations
    ensures r.after.migrations.Keys == st.migrations.Keys
    ensures WellFormed(r.after.migrations)
    ensures forall k | k in st.migrations && k != id :: r.after.migrations[k] == st.migrations[k]
    ensures forall k | k != id :: k in r.after.log <==> k in st.log
  {
    var a := ApplyMigration(st.log, st.migrations[id], mType, o);
    Ran(a.err, Migrator(st.migrations[id := a.migration], a.log))
  }

  /** Apply `ids` in order, stopping at the first error. */
  function ApplyEach(st: Migrator, ids: seq<MigrationId>, mType: MigrationType, oracle: Oracle): (r: Ran)
    requires WellFormed(st.migrations)
    requires forall i | 0 <= i < |ids| :: ids[i] in st.migrations
    ensures r.after.migrations.Keys == st.migrations.Keys
    ensures WellFormed(r.after.migrations)
    ensures forall k | k in st.migrations && k !in ids :: r.after.migrations[k] == st.migrations[k]
    ensures forall k | k !in ids :: k in r.after.log <==> k in st.log
    decreases |ids|
  {
    if |ids| == 0 then Ran(None, st)
    else
      var step := ApplyTo(st, ids[0], mType, oracle(ids[0]));
      if step.err.Some? then step
      else
        assert forall j | 1 <= j < |ids| :: ids[j] == ids[1..][j - 1];
        ApplyEach(step.after, ids[1..], mType, oracle)
  }

  /** Apply every Inactive migration, ascending by id, stopping at the first
      error. */
  function Migrate(st: Migrator, oracle: Oracle): (r: Ran)
    requires WellFormed(st.migrations)
    ensures r.after.migrations.Keys == st.migrations.Keys
    ensures WellFormed(r.after.migrations)
    ensures forall k | k in st.migrations && st.migrations[k].status == Active ::
              r.after.migrations[k] == st.migrations[k]
  {
    ApplyEach(st, SelectedIds(st.migrations, StatusCode(Inactive)), UpMigration, oracle)
  }

  /** How `RollbackN` ends: by returning, or with an index-out-of-range panic. */
  datatype Halt = Returned(err: Option<Error>) | Panicked

  datatype Rolled = Rolled(halt: Halt, after: Migrator)

  /** The ids gomigrate's rollback loop visits: index `i` first, then one
      lower each turn, until the index equals `last`. An index below zero
      ends the walk too; the loop would panic there. */
  function Countdown(ids: seq<MigrationId>, i: int, last: int): (r: seq<MigrationId>)
    requires -1 <= i < |ids|
    ensures |r| == if Meets(i, last) then i - last else i + 1
    ensures forall j | 0 <= j < |r| :: r[j] == ids[i - j]
    decreases i + 1
  {
    if i == last || i < 0 then [] else [ids[i]] + Countdown(ids, i - 1, last)
  }

  /** Counting down from `i`, the loop meets `last` before the index drops
      below zero. */
  predicate Meets(i: int, last: int) {
    -1 <= last <= i
  }

  /** The ids gomigrate's rollback loop visits over the ascending list
      `active` of Active ids: it starts at the last index and stops when the
      index equals `|active| - 1 - n`, or when it drops below zero. */
  function Visited(active: seq<MigrationId>, n: int): (ids: seq<MigrationId>)
    ensures |ids| == if 0 <= n <= |active| then n else |active|
    ensures forall j | 0 <= j < |ids| :: ids[j] == active[|active| - 1 - j]
  {
    Countdown(active, |active| - 1, |active| - 1 - n)
  }

  /** gomigrate's rollback loop over `active`: revert the visited ids in
      turn, and index below zero (a panic) when a walk that never met its
      stop index has gone through the whole list. `n` is not clamped. */
  function RevertCountdown(st: Migrator, active: seq<MigrationId>, n: int, oracle: Oracle): (r: Rolled)
    requires WellFormed(st.migrations)
    requires forall i | 0 <= i < |active| :: active[i] in st.migrations
    ensures r.after.migrations.Keys == st.migrations.Keys
    ensures WellFormed(r.after.migrations)
    ensures |active| == 0 ==> r == Rolled(Returned(None), st)
  {
    if |active| == 0 then Rolled(Returned(None), st)
    else
      var walk := ApplyEach(st, Visited(active, n), DownMigration, oracle);
      if walk.err.None? && !Meets(|active| - 1, |active| - 1 - n) then Rolled(Panicked, walk.after)
      else Rolled(Returned(walk.err), walk.after)
  }

  /** gomigrate's `RollbackN` as written: walk the Active migrations from the
      highest id down, reverting each, until the index equals
      `len - 1 - n`. For `0 <= n <= len` that reverts the `n` highest; for any
      other `n` the walk runs off the start of the list and ends `Panicked`
      unless a revert fails first. */
  function RollbackN(st: Migrator, n: int, oracle: Oracle): (r: Rolled)
    requires WellFormed(st.migrations)
    ensures r.after.migrations.Keys == st.migrations.Keys
    ensures WellFormed(r.after.migrations)
    ensures (forall k | k in st.migrations :: st.migrations[k].status == Inactive) ==> r == Rolled(Returned(None), st)
  {
    SelectedByStatus(st.migrations, Active);
    RevertCountdown(st, SelectedIds(st.migrations, StatusCode(Active)), n, oracle)
  }

  /** `n` clamped to the range 0 ..= `count`. */
  function Clamp(n: int, count: nat): (k: nat)
    ensures k <= count
    ensures 0 <= n <= count ==> k == n
  {
    if n < 0 then 0 else if n > count then count else n
  }

  /** The ids the rollback loop visits once `n` is clamped to the length of
      `active`: its last `n` entries, last first. */
  function Top(active: seq<MigrationId>, n: int): (ids: seq<MigrationId>)
    ensures |ids| == Clamp(n, |active|)
    ensures forall i | 0 <= i < |ids| :: ids[i] == active[|active| - 1 - i]
  {
    Visited(active, Clamp(n, |active|))
  }

  /** The `n` highest-id Active migrations, highest first. */
  function TopActive(ms: Registry, n: int): (ids: seq<MigrationId>)
    requires WellFormed(ms)
    ensures forall x | x in ids :: x in ms && ms[x].status == Active
  {
    SelectedByStatus(ms, Active);
    Top(SelectedIds(ms, StatusCode(Active)), n)
  }

  /** `RollbackN` with `n` clamped to the number of Active migrations: revert
      the top `n` of the active stack, highest id first, stopping at the first
      error, and never index past it. */
  function RollbackNClamped(st: Migrator, n: int, oracle: Oracle): (r: Ran)
    requires WellFormed(st.migrations)
    ensures r.after.migrations.Keys == st.migrations.Keys
    ensures WellFormed(r.after.migrations)
    ensures forall k | k in st.migrations && st.migrations[k].status == Inactive ::
              r.after.migrations[k] == st.migrations[k]
  {
    ApplyEach(st, TopActive(st.migrations, n), DownMigration, oracle)
  }

  /** Revert the highest-id Active migration. */
  function Rollback(st: Migrator, oracle: Oracle): (r: Ran)
    requires WellFormed(st.migrations)
    ensures r.after.migrations.Keys == st.migrations.Keys
    ensures WellFormed(r.after.migrations)
    ensures forall k | k in st.migrations && st.migrations[k].status == Inactive ::
              r.after.migrations[k] == st.migrations[k]
  {
    RollbackNClamped(st, 1, oracle)
  }

  /** Revert every Active migration, highest id first. */
  function RollbackAll(st: Migrator, oracle: Oracle): (r: Ran)
    requires WellFormed(st.migrations)
    ensures r.after.migrations.Keys == st.migrations.Keys
    ensures WellFormed(r.after.migrations)
    ensures forall k | k in st.migrations && st.migrations[k].status == Inactive ::
              r.after.migrations[k] == st.migrations[k]
  {
    RollbackNClamped(st, |SelectedIds(st.migrations, StatusCode(Active))|, oracle)
  }
}
