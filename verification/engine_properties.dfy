/**
 What the engine's operations promise across calls: the order in which bulk
 operations touch migrations, that they stop at the first error, that status
 and log agree after every operation that did not end in an ambiguous commit,
 idempotence of `Migrate`, and the apply/revert round trip.
 */
module EngineProperties {
  import opened Base
  import opened Ordering
  import opened Metadata
  import opened Engine

  /** `id` went through a committed apply in direction `mType`: its status is
      the one that direction leaves, its log row is present exactly for up,
      and nothing else about it changed. */
  ghost predicate Reached(before: Migrator, after: Migrator, id: MigrationId, mType: MigrationType) {
    && id in before.migrations && id in after.migrations
    && after.migrations[id] == before.migrations[id].(status := StatusAfter(mType))
    && (id in after.log <==> mType == UpMigration)
  }

  /** Neither the registry entry nor the log row of `id` changed. */
  ghost predicate Untouched(before: Migrator, after: Migrator, id: MigrationId) {
    && id in before.migrations && id in after.migrations
    && after.migrations[id] == before.migrations[id]
    && (id in after.log <==> id in before.log)
  }

  /** A bulk operation over `ids` stopped at position `k`: the earlier ids were
      applied, `ids[k]` kept its registry entry (and its log row unless its
      commit failed after reaching the database), the later ids were not
      touched, and the reported error is the one of `ids[k]`'s transaction. */
  ghost predicate StoppedAt(before: Migrator, after: Migrator, ids: seq<MigrationId>, mType: MigrationType,
                            oracle: Oracle, k: int, err: Error) {
    && 0 <= k < |ids|
    && (forall i | 0 <= i < k :: Reached(before, after, ids[i], mType))
    && ids[k] in before.migrations && ids[k] in after.migrations
    && after.migrations[ids[k]] == before.migrations[ids[k]]
    && Transaction(mType, oracle(ids[k])).Aborted?
    && Transaction(mType, oracle(ids[k])).error == err
    && (Transaction(mType, oracle(ids[k])).persisted || (ids[k] in after.log <==> ids[k] in before.log))
    && (forall i | k < i < |ids| :: Untouched(before, after, ids[i]))
  }

  /** What a walk over `ids` promised when it returned `r`: on success every
      id reached the target status, in order; on error the walk stopped at
      the first failing id. */
  ghost predicate Walked(before: Migrator, ids: seq<MigrationId>, mType: MigrationType, oracle: Oracle, r: Ran) {
    && (r.err.None? ==> forall i | 0 <= i < |ids| :: Reached(before, r.after, ids[i], mType))
    && (r.err.Some? ==> exists k :: StoppedAt(before, r.after, ids, mType, oracle, k, r.err.value))
  }

  /** One apply, stored back: it commits exactly when the transaction does,
      a commit moves the migration to the target status, and an abort reports
      the transaction's error and keeps the registry entry (and the log row
      unless the commit reached the database). */
  lemma ApplyToSpec(st: Migrator, id: MigrationId, mType: MigrationType, o: TxOutcome)
    requires WellFormed(st.migrations) && id in st.migrations
    ensures var step := ApplyTo(st, id, mType, o);
            && (step.err.None? <==> Transaction(mType, o).Committed?)
            && (step.err.None? ==> Reached(st, step.after, id, mType))
            && (step.err.Some? ==>
                  && step.err.value == Transaction(mType, o).error
                  && step.after.migrations[id] == st.migrations[id]
                  && (Transaction(mType, o).persisted || (id in step.after.log <==> id in st.log)))
  {
    assert st.migrations[id].id == id;
  }

  /** Applying distinct ids one by one walks them in order and stops at the
      first failing one, leaving every later id untouched. */
  lemma {:induction false} ApplyEachSpec(st: Migrator, ids: seq<MigrationId>, mType: MigrationType, oracle: Oracle)
    requires WellFormed(st.migrations)
    requires forall i | 0 <= i < |ids| :: ids[i] in st.migrations
    requires Distinct(ids)
    ensures Walked(st, ids, mType, oracle, ApplyEach(st, ids, mType, oracle))
    decreases |ids|
  {
    if |ids| > 0 {
      var id := ids[0];
      var rest := ids[1..];
      assert ids == [id] + rest;
      var step := ApplyTo(st, id, mType, oracle(id));
      ApplyToSpec(st, id, mType, oracle(id));
      assert forall i | 0 <= i < |rest| :: rest[i] == ids[i + 1] && rest[i] != id;
      assert forall i | 0 <= i < |rest| :: Untouched(st, step.after, rest[i]);
      if step.err.Some? {
        assert StoppedAt(st, step.after, ids, mType, oracle, 0, step.err.value);
      } else {
        ApplyEachSpec(step.after, rest, mType, oracle);
        var r := ApplyEach(step.after, rest, mType, oracle);
        assert id !in rest;
        assert Untouched(step.after, r.after, id);
        if r.err.None? {
          ReachedLater(st, step.after, r.after, id, rest, mType);
        } else {
          var k :| StoppedAt(step.after, r.after, rest, mType, oracle, k, r.err.value);
          StoppedLater(st, step.after, r.after, id, rest, mType, oracle, k, r.err.value);
        }
      }
    }
  }

  /** A walk that reached `id` first and then all of `rest`, which the first
      step left alone, reached every id of `[id] + rest`. */
  lemma ReachedLater(st: Migrator, mid: Migrator, after: Migrator, id: MigrationId,
                     rest: seq<MigrationId>, mType: MigrationType)
    requires Reached(st, mid, id, mType) && Untouched(mid, after, id)
    requires forall i | 0 <= i < |rest| :: Untouched(st, mid, rest[i])
    requires forall i | 0 <= i < |rest| :: Reached(mid, after, rest[i], mType)
    ensures forall i | 0 <= i < |[id] + rest| :: Reached(st, after, ([id] + rest)[i], mType)
  {
    forall i | 0 <= i < |[id] + rest|
      ensures Reached(st, after, ([id] + rest)[i], mType)
    {
      if i > 0 {
        assert Untouched(st, mid, rest[i - 1]) && Reached(mid, after, rest[i - 1], mType);
      }
    }
  }

  /** A walk that reached `id` first and then stopped at position `k` of
      `rest`, which the first step left alone, stopped at position `k + 1`
      of `[id] + rest`. */
  lemma StoppedLater(st: Migrator, mid: Migrator, after: Migrator, id: MigrationId, rest: seq<MigrationId>,
                     mType: MigrationType, oracle: Oracle, k: int, err: Error)
    requires Reached(st, mid, id, mType) && Untouched(mid, after, id)
    requires forall i | 0 <= i < |rest| :: Untouched(st, mid, rest[i])
    requires StoppedAt(mid, after, rest, mType, oracle, k, err)
    ensures StoppedAt(st, after, [id] + rest, mType, oracle, k + 1, err)
  {
    var ids := [id] + rest;
    forall i | 0 < i < k + 1
      ensures Reached(st, after, ids[i], mType)
    {
      assert Untouched(st, mid, rest[i - 1]) && Reached(mid, after, rest[i - 1], mType);
    }
    forall i | k + 1 < i < |ids|
      ensures Untouched(st, after, ids[i])
    {
      assert Untouched(st, mid, rest[i - 1]) && Untouched(mid, after, rest[i - 1]);
    }
    assert Untouched(st, mid, rest[k]);
  }

  // ---------------------------------------------------------------------------
  // Migrate
  // ---------------------------------------------------------------------------

  /** The ids `Migrate` walks: the Inactive ones, ascending. */
  function Pending(st: Migrator): (ids: seq<MigrationId>)
    requires WellFormed(st.migrations)
    ensures StrictlyAscending(ids)
    ensures forall id :: id in ids <==> id in st.migrations && st.migrations[id].status == Inactive
  {
    SelectedByStatus(st.migrations, Inactive);
    SelectedIds(st.migrations, StatusCode(Inactive))
  }

  /** A successful `Migrate` applied every Inactive migration and no other:
      afterwards every migration is Active and the log holds exactly the old
      rows plus the ids that were Inactive. */
  lemma MigrateAppliesAllInactive(st: Migrator, oracle: Oracle)
    requires WellFormed(st.migrations)
    ensures var r := Migrate(st, oracle);
            r.err.None? ==>
              forall id | id in st.migrations ::
                && r.after.migrations[id] == st.migrations[id].(status := Active)
                && (id in r.after.log <==> id in st.log || st.migrations[id].status == Inactive)
  {
    var todo := Pending(st);
    AscendingIsDistinct(todo);
    ApplyEachSpec(st, todo, UpMigration, oracle);
    var r := Migrate(st, oracle);
    if r.err.None? {
      forall id | id in st.migrations
        ensures r.after.migrations[id] == st.migrations[id].(status := Active)
        ensures id in r.after.log <==> id in st.log || st.migrations[id].status == Inactive
      {
        if id in todo {
          var i :| 0 <= i < |todo| && todo[i] == id;
          assert Reached(st, r.after, todo[i], UpMigration);
        }
      }
    }
  }

  /** A failing `Migrate` stopped at the first failing migration in ascending
      id order: the Inactive migrations below it are now applied, it kept its
      status, and those above it were not touched. */
  lemma MigrateStopsAtFirstError(st: Migrator, oracle: Oracle)
    requires WellFormed(st.migrations)
    ensures var r := Migrate(st, oracle);
            r.err.Some? ==> exists k :: StoppedAt(st, r.after, Pending(st), UpMigration, oracle, k, r.err.value)
  {
    AscendingIsDistinct(Pending(st));
    ApplyEachSpec(st, Pending(st), UpMigration, oracle);
  }

  /** With every migration Active, `Migrate` has nothing to apply: it opens
      no transaction and changes nothing. */
  lemma MigrateWithNothingPending(st: Migrator, oracle: Oracle)
    requires WellFormed(st.migrations)
    requires forall id | id in st.migrations :: st.migrations[id].status == Active
    ensures Pending(st) == []
    ensures Migrate(st, oracle) == Ran(None, st)
  {
    SelectedIdsMembers(st.migrations, StatusCode(Inactive));
  }

  /** Once `Migrate` succeeded, a second call has nothing to apply, whatever
      the database would do, and changes nothing. */
  lemma MigrateIsIdempotent(st: Migrator, first: Oracle, second: Oracle)
    requires WellFormed(st.migrations)
    requires Migrate(st, first).err.None?
    ensures var done := Migrate(st, first).after;
            Pending(done) == [] && Migrate(done, second) == Ran(None, done)
  {
    MigrateAppliesAllInactive(st, first);
    MigrateWithNothingPending(Migrate(st, first).after, second);
  }

  // ---------------------------------------------------------------------------
  // RollbackN as written
  // ---------------------------------------------------------------------------

  function AsReturned(r: Ran): Rolled {
    Rolled(Returned(r.err), r.after)
  }

  /** `RollbackN` runs gomigrate's loop over the Active ids, and the clamped
      version walks the top of the same list. */
  lemma {:induction false} RollbacksOverActive(st: Migrator, n: int, oracle: Oracle)
    requires WellFormed(st.migrations)
    ensures var active := SelectedIds(st.migrations, StatusCode(Active));
            && RollbackN(st, n, oracle) == RevertCountdown(st, active, n, oracle)
            && TopActive(st.migrations, n) == Top(active, n)
            && RollbackNClamped(st, n, oracle) == ApplyEach(st, Top(active, n), DownMigration, oracle)
  {
  }

  /** Within `0 <= n <= |active|` the loop stops at its stop index: it walks
      exactly the top `n` entries. */
  lemma {:induction false} RevertInRange(st: Migrator, active: seq<MigrationId>, n: int, oracle: Oracle)
    requires WellFormed(st.migrations)
    requires forall i | 0 <= i < |active| :: active[i] in st.migrations
    requires 0 <= n <= |active|
    ensures RevertCountdown(st, active, n, oracle) == AsReturned(ApplyEach(st, Top(active, n), DownMigration, oracle))
  {
    assert Top(active, n) == Visited(active, n);
  }

  /** Outside `0 <= n <= |active|` the loop visits every entry, as it does
      with `n = |active|`. */
  lemma {:induction false} VisitedPastRange(active: seq<MigrationId>, n: int)
    requires n < 0 || n > |active|
    ensures Visited(active, n) == Top(active, |active|)
  {
    var a, b := Visited(active, n), Top(active, |active|);
    assert |a| == |b|;
    assert forall j | 0 <= j < |a| :: a[j] == b[j];
  }

  /** Outside `0 <= n <= |active|` the loop never meets its stop index: it
      walks the whole list and then panics, unless a revert fails first. */
  lemma {:induction false} RevertOutOfRange(st: Migrator, active: seq<MigrationId>, n: int, oracle: Oracle)
    requires WellFormed(st.migrations)
    requires forall i | 0 <= i < |active| :: active[i] in st.migrations
    requires |active| > 0
    requires n < 0 || n > |active|
    ensures var all := ApplyEach(st, Top(active, |active|), DownMigration, oracle);
            RevertCountdown(st, active, n, oracle)
            == Rolled(if all.err.Some? then Returned(all.err) else Panicked, all.after)
  {
    VisitedPastRange(active, n);
  }

  /** Within `0 <= n <= |active|`, `RollbackN` reverts the `n` highest-id
      Active migrations, highest first, exactly as the clamped version does;
      in particular it never panics. */
  lemma {:induction false} RollbackNInRange(st: Migrator, n: int, oracle: Oracle)
    requires WellFormed(st.migrations)
    requires 0 <= n <= |SelectedIds(st.migrations, StatusCode(Active))|
    ensures RollbackN(st, n, oracle) == AsReturned(RollbackNClamped(st, n, oracle))
  {
    RollbacksOverActive(st, n, oracle);
    RevertInRange(st, SelectedIds(st.migrations, StatusCode(Active)), n, oracle);
  }

  /** Outside `0 <= n <= |active|` (and with some migration Active), the
      gomigrate's loop never meets its stop index: it reverts every Active
      migration, highest first, and then indexes below zero, unless a revert
      fails on the way. */
  lemma {:induction false} RollbackNOutOfRange(st: Migrator, n: int, oracle: Oracle)
    requires WellFormed(st.migrations)
    requires |SelectedIds(st.migrations, StatusCode(Active))| > 0
    requires n < 0 || n > |SelectedIds(st.migrations, StatusCode(Active))|
    ensures var all := RollbackNClamped(st, |SelectedIds(st.migrations, StatusCode(Active))|, oracle);
            RollbackN(st, n, oracle) == Rolled(if all.err.Some? then Returned(all.err) else Panicked, all.after)
  {
    var active := SelectedIds(st.migrations, StatusCode(Active));
    RollbacksOverActive(st, n, oracle);
    RollbacksOverActive(st, |active|, oracle);
    RevertOutOfRange(st, active, n, oracle);
  }

  /** Every transaction of a bulk operation succeeds. */
  ghost predicate AllClean(oracle: Oracle) {
    forall id :: Clean(oracle(id))
  }

  /** With every statement succeeding, a walk of distinct ids in a valid
      direction reports no error. */
  lemma CleanRunSucceeds(st: Migrator, ids: seq<MigrationId>, mType: MigrationType, oracle: Oracle)
    requires WellFormed(st.migrations)
    requires forall i | 0 <= i < |ids| :: ids[i] in st.migrations
    requires Distinct(ids)
    requires IsMigrationType(mType) && AllClean(oracle)
    ensures ApplyEach(st, ids, mType, oracle).err.None?
  {
    ApplyEachSpec(st, ids, mType, oracle);
  }

  /** The discrepancy: asking for more rollbacks than there are Active
      migrations, or for a negative number, panics with an index out of range
      even when every statement succeeds (one Active migration and `n = 2`
      is the smallest case). */
  lemma {:induction false} RollbackNPanicsPastActive(st: Migrator, n: int, oracle: Oracle)
    requires WellFormed(st.migrations)
    requires |SelectedIds(st.migrations, StatusCode(Active))| > 0
    requires n < 0 || n > |SelectedIds(st.migrations, StatusCode(Active))|
    requires AllClean(oracle)
    ensures RollbackN(st, n, oracle).halt == Panicked
  {
    var active := SelectedIds(st.migrations, StatusCode(Active));
    RollbackNOutOfRange(st, n, oracle);
    TopActiveIsDescending(st.migrations, |active|);
    CleanRunSucceeds(st, TopActive(st.migrations, |active|), DownMigration, oracle);
  }

  /** Migration 1, applied and logged, is the only one registered. */
  function OneApplied(): Migrator {
    Migrator(map[1 := Migration(1, "init", "1_init.up.sql", "1_init.down.sql", Active)], {1})
  }

  /** Every statement of every transaction succeeds. */
  function AlwaysClean(): Oracle {
    id => TxOutcome(None, None, [], None, None, CommitSucceeded)
  }

  lemma {:induction false} OneAppliedHasOneActive()
    ensures SelectedIds(OneApplied().migrations, StatusCode(Active)) == [1]
  {
    var active := SelectedIds(OneApplied().migrations, StatusCode(Active));
    SelectedIdsMembers(OneApplied().migrations, StatusCode(Active));
    assert 1 in active;
  }

  /** The smallest case of the discrepancy: with migration 1 Active and every
      statement succeeding, `RollbackN(2)` panics. */
  lemma {:induction false} RollbackTwoOfOnePanics()
    ensures RollbackN(OneApplied(), 2, AlwaysClean()).halt == Panicked
  {
    OneAppliedHasOneActive();
    assert AllClean(AlwaysClean());
    RollbackNPanicsPastActive(OneApplied(), 2, AlwaysClean());
  }

  /** In the same case the clamped rollback reverts migration 1, deletes its
      log row and succeeds. */
  lemma {:induction false} ClampedTwoOfOneSucceeds()
    ensures RollbackNClamped(OneApplied(), 2, AlwaysClean())
            == Ran(None, Migrator(map[1 := OneApplied().migrations[1].(status := Inactive)], {}))
  {
    var st, oracle := OneApplied(), AlwaysClean();
    OneAppliedHasOneActive();
    assert TopActive(st.migrations, 2) == [1] by {
      assert TopActive(st.migrations, 2) == Top([1], 2);
    }
    var step := ApplyTo(st, 1, DownMigration, oracle(1));
    CleanRevertOfOne();
    assert [1][1..] == [];
    assert ApplyEach(st, [1], DownMigration, oracle) == ApplyEach(step.after, [], DownMigration, oracle);
  }

  lemma CleanRevertOfOne()
    ensures ApplyTo(OneApplied(), 1, DownMigration, AlwaysClean()(1))
            == Ran(None, Migrator(map[1 := OneApplied().migrations[1].(status := Inactive)], {}))
  {
    assert Transaction(DownMigration, AlwaysClean()(1)) == Committed;
  }

  // ---------------------------------------------------------------------------
  // Clamped rollback, Rollback, RollbackAll
  // ---------------------------------------------------------------------------

  /** The top entries of a strictly ascending list, last first, are strictly
      descending and above every entry left out. */
  lemma {:induction false} TopOfAscending(s: seq<MigrationId>, n: int)
    requires StrictlyAscending(s)
    ensures var top := Top(s, n);
            && (forall i, j | 0 <= i < j < |top| :: top[i] > top[j])
            && (forall p, i | 0 <= p < |s| - |top| && 0 <= i < |top| :: s[p] < top[i])
  {
    var top := Top(s, n);
    forall i, j | 0 <= i < j < |top|
      ensures top[i] > top[j]
    {
      assert top[i] == s[|s| - 1 - i] && top[j] == s[|s| - 1 - j];
    }
    forall p, i | 0 <= p < |s| - |top| && 0 <= i < |top|
      ensures s[p] < top[i]
    {
      assert top[i] == s[|s| - 1 - i];
    }
  }

  /** `TopActive(ms, n)` lists `n` Active ids (all of them when fewer are
      Active), each once, in strictly descending order. */
  lemma {:induction false} TopActiveIsDescending(ms: Registry, n: int)
    requires WellFormed(ms)
    ensures var top := TopActive(ms, n);
            && |top| == Clamp(n, |SelectedIds(ms, StatusCode(Active))|)
            && (forall i, j | 0 <= i < j < |top| :: top[i] > top[j])
            && Distinct(top)
  {
    var active := SelectedIds(ms, StatusCode(Active));
    assert TopActive(ms, n) == Top(active, n);
    TopOfAscending(active, n);
  }

  /** `TopActive(ms, n)` lists the `n` highest Active ids: every Active id it
      leaves out is below every id it lists, and with `n` at least the number
      of Active migrations it leaves out none. */
  lemma {:induction false} TopActiveIsTop(ms: Registry, n: int)
    requires WellFormed(ms)
    ensures var top := TopActive(ms, n);
            && (forall id | id in ms && ms[id].status == Active && id !in top ::
                  forall i | 0 <= i < |top| :: id < top[i])
            && (n >= |SelectedIds(ms, StatusCode(Active))| ==>
                  forall id | id in ms && ms[id].status == Active :: id in top)
  {
    var active := SelectedIds(ms, StatusCode(Active));
    var top := TopActive(ms, n);
    assert top == Top(active, n);
    SelectedByStatus(ms, Active);
    TopIsTop(active, n);
    forall id | id in ms && ms[id].status == Active
      ensures id in top || forall i | 0 <= i < |top| :: id < top[i]
      ensures n >= |active| ==> id in top
    {
      var p :| 0 <= p < |active| && active[p] == id;
    }
  }

  /** Every entry of a strictly ascending list is either among its top
      entries or below all of them, and none is left out once `n` reaches
      the length of the list. */
  lemma {:induction false} TopIsTop(s: seq<MigrationId>, n: int)
    requires StrictlyAscending(s)
    ensures forall p | 0 <= p < |s| :: s[p] in Top(s, n) || forall i | 0 <= i < |Top(s, n)| :: s[p] < Top(s, n)[i]
    ensures n >= |s| ==> forall p | 0 <= p < |s| :: s[p] in Top(s, n)
  {
    var top := Top(s, n);
    TopOfAscending(s, n);
    forall p | 0 <= p < |s|
      ensures s[p] in top || forall i | 0 <= i < |top| :: s[p] < top[i]
      ensures n >= |s| ==> s[p] in top
    {
      if p >= |s| - |top| {
        assert top[|s| - 1 - p] == s[p];
      }
    }
  }

  /** The clamped rollback reverts the top `n` Active migrations in
      descending id order: on success each is Inactive with its log row
      gone; on error the walk stopped at the first failing one and left the
      lower ones untouched. Migrations outside the top `n` never change. */
  lemma {:induction false} RollbackNClampedSpec(st: Migrator, n: int, oracle: Oracle)
    requires WellFormed(st.migrations)
    ensures var top := TopActive(st.migrations, n);
            var r := RollbackNClamped(st, n, oracle);
            && Walked(st, top, DownMigration, oracle, r)
            && (forall id | id in st.migrations && id !in top :: Untouched(st, r.after, id))
  {
    var top := TopActive(st.migrations, n);
    TopActiveIsDescending(st.migrations, n);
    ApplyEachSpec(st, top, DownMigration, oracle);
    assert RollbackNClamped(st, n, oracle) == ApplyEach(st, top, DownMigration, oracle);
  }

  /** A successful `RollbackAll` leaves no migration Active and no row in the
      log for any registered id that was Active. */
  lemma {:induction false} RollbackAllLeavesNoActive(st: Migrator, oracle: Oracle)
    requires WellFormed(st.migrations)
    ensures var r := RollbackAll(st, oracle);
            r.err.None? ==>
              forall id | id in st.migrations ::
                && r.after.migrations[id] == st.migrations[id].(status := Inactive)
                && (st.migrations[id].status == Active ==> id !in r.after.log)
  {
    var active := SelectedIds(st.migrations, StatusCode(Active));
    var top := TopActive(st.migrations, |active|);
    RollbackNClampedSpec(st, |active|, oracle);
    TopActiveIsTop(st.migrations, |active|);
    var r := RollbackAll(st, oracle);
    if r.err.None? {
      forall id | id in st.migrations
        ensures r.after.migrations[id] == st.migrations[id].(status := Inactive)
        ensures st.migrations[id].status == Active ==> id !in r.after.log
      {
        if id in top {
          var i :| 0 <= i < |top| && top[i] == id;
          assert Reached(st, r.after, top[i], DownMigration);
        } else {
          assert Untouched(st, r.after, id);
        }
      }
    }
  }

  /** `Rollback` reverts only the highest-id Active migration. */
  lemma {:induction false} RollbackRevertsHighest(st: Migrator, oracle: Oracle)
    requires WellFormed(st.migrations)
    requires exists id | id in st.migrations :: st.migrations[id].status == Active
    ensures exists h | h in st.migrations ::
              && st.migrations[h].status == Active
              && (forall id | id in st.migrations && st.migrations[id].status == Active :: id <= h)
              && (Rollback(st, oracle).err.None? ==> Reached(st, Rollback(st, oracle).after, h, DownMigration))
              && (forall id | id in st.migrations && id != h :: Untouched(st, Rollback(st, oracle).after, id))
  {
    var h := HighestActive(st.migrations);
    RevertsOnlyTop(st, oracle, h);
    assert Rollback(st, oracle) == RollbackNClamped(st, 1, oracle);
  }

  /** A clamped rollback of one whose top Active id is `h` reverts `h` when it
      succeeds and leaves every other migration as it was. */
  lemma {:induction false} RevertsOnlyTop(st: Migrator, oracle: Oracle, h: MigrationId)
    requires WellFormed(st.migrations)
    requires TopActive(st.migrations, 1) == [h]
    ensures var r := RollbackNClamped(st, 1, oracle);
            && (r.err.None? ==> Reached(st, r.after, h, DownMigration))
            && (forall id | id in st.migrations && id != h :: Untouched(st, r.after, id))
  {
    RollbackNClampedSpec(st, 1, oracle);
    assert forall id :: id in [h] <==> id == h;
  }

  /** With some migration Active, the top one of `TopActive(ms, 1)` is the
      highest Active id. */
  lemma {:induction false} HighestActive(ms: Registry) returns (h: MigrationId)
    requires WellFormed(ms)
    requires exists id | id in ms :: ms[id].status == Active
    ensures TopActive(ms, 1) == [h]
    ensures h in ms && ms[h].status == Active
    ensures forall id | id in ms && ms[id].status == Active :: id <= h
  {
    var active := SelectedIds(ms, StatusCode(Active));
    var w :| w in ms && ms[w].status == Active;
    SelectedByStatus(ms, Active);
    assert w in active;
    var top := TopActive(ms, 1);
    assert top == Top(active, 1);
    TopActiveIsTop(ms, 1);
    h := top[0];
    assert top == [h];
    assert h in top;
  }

  /** `Rollback` and `RollbackAll` agree with the unclamped loop: they pass
      an `n` inside the range where gomigrate's loop stops properly. */
  lemma {:induction false} RollbacksAgreeWithAsWritten(st: Migrator, oracle: Oracle)
    requires WellFormed(st.migrations)
    ensures AsReturned(RollbackAll(st, oracle))
            == RollbackN(st, |SelectedIds(st.migrations, StatusCode(Active))|, oracle)
    ensures |SelectedIds(st.migrations, StatusCode(Active))| > 0 ==>
              AsReturned(Rollback(st, oracle)) == RollbackN(st, 1, oracle)
    ensures |SelectedIds(st.migrations, StatusCode(Active))| == 0 ==>
              Rollback(st, oracle) == Ran(None, st) && RollbackN(st, 1, oracle) == Rolled(Returned(None), st)
  {
    var active := SelectedIds(st.migrations, StatusCode(Active));
    RollbackNInRange(st, |active|, oracle);
    if |active| > 0 {
      RollbackNInRange(st, 1, oracle);
    } else {
      RollbacksOverActive(st, 1, oracle);
      assert Top(active, 1) == [];
    }
  }

  // ---------------------------------------------------------------------------
  // Status and log agree
  // ---------------------------------------------------------------------------

  /** The in-memory status of every migration matches the log. */
  ghost predicate Consistent(st: Migrator) {
    && WellFormed(st.migrations)
    && forall id | id in st.migrations :: (st.migrations[id].status == Active <==> id in st.log)
  }

  /** No commit fails after reaching the database. */
  ghost predicate NoAmbiguousCommit(oracle: Oracle) {
    forall id :: !(oracle(id).commit.CommitFailed? && oracle(id).commit.persisted)
  }

  /** A walk of distinct ids keeps status and log in agreement unless a
      commit failed after reaching the database. */
  lemma ApplyEachKeepsConsistency(st: Migrator, ids: seq<MigrationId>, mType: MigrationType, oracle: Oracle)
    requires Consistent(st)
    requires forall i | 0 <= i < |ids| :: ids[i] in st.migrations
    requires Distinct(ids)
    requires NoAmbiguousCommit(oracle)
    ensures Consistent(ApplyEach(st, ids, mType, oracle).after)
  {
    ApplyEachSpec(st, ids, mType, oracle);
    var r := ApplyEach(st, ids, mType, oracle);
    if r.err.None? {
      forall id | id in r.after.migrations
        ensures r.after.migrations[id].status == Active <==> id in r.after.log
      {
        if id in ids {
          var i :| 0 <= i < |ids| && ids[i] == id;
          assert Reached(st, r.after, ids[i], mType);
        }
      }
    } else {
      var k :| StoppedAt(st, r.after, ids, mType, oracle, k, r.err.value);
      StoppedKeepsConsistency(st, r.after, ids, mType, oracle, k, r.err.value);
    }
  }

  /** A walk that stopped at position `k` keeps status and log in agreement
      unless the failing commit reached the database. */
  lemma StoppedKeepsConsistency(st: Migrator, after: Migrator, ids: seq<MigrationId>, mType: MigrationType,
                                oracle: Oracle, k: int, err: Error)
    requires Consistent(st) && NoAmbiguousCommit(oracle)
    requires after.migrations.Keys == st.migrations.Keys && WellFormed(after.migrations)
    requires forall id | id in st.migrations && id !in ids :: after.migrations[id] == st.migrations[id]
    requires forall id | id !in ids :: id in after.log <==> id in st.log
    requires StoppedAt(st, after, ids, mType, oracle, k, err)
    ensures Consistent(after)
  {
    forall id | id in after.migrations
      ensures after.migrations[id].status == Active <==> id in after.log
    {
      if id in ids {
        var i :| 0 <= i < |ids| && ids[i] == id;
        if i < k {
          assert Reached(st, after, ids[i], mType);
        } else if i > k {
          assert Untouched(st, after, ids[i]);
        } else {
          assert !oracle(ids[k]).commit.CommitFailed? || !oracle(ids[k]).commit.persisted;
        }
      }
    }
  }

  /** `Migrate` keeps status and log in agreement unless a commit failed
      after reaching the database. */
  lemma MigrateKeepsConsistency(st: Migrator, oracle: Oracle)
    requires Consistent(st)
    requires NoAmbiguousCommit(oracle)
    ensures Consistent(Migrate(st, oracle).after)
  {
    AscendingIsDistinct(Pending(st));
    ApplyEachKeepsConsistency(st, Pending(st), UpMigration, oracle);
  }

  /** The clamped rollback, and so `Rollback` and `RollbackAll`, keep status
      and log in agreement unless a commit failed after reaching the
      database. */
  lemma RollbackNClampedKeepsConsistency(st: Migrator, n: int, oracle: Oracle)
    requires Consistent(st)
    requires NoAmbiguousCommit(oracle)
    ensures Consistent(RollbackNClamped(st, n, oracle).after)
  {
    TopActiveIsDescending(st.migrations, n);
    ApplyEachKeepsConsistency(st, TopActive(st.migrations, n), DownMigration, oracle);
  }

  /** A migrator constructed from a discovered registry (every entry Inactive,
      each under its own id) starts with status and log in agreement: a
      migration is Active exactly when its id is logged. */
  lemma NewMigratorIsConsistent(probe: RowScan, log: set<MigrationId>, discovered: Discovery,
                                fault: MigrationId -> Option<Error>)
    requires discovered.registry.Some?
    requires WellFormed(discovered.registry.value) && AllInactive(discovered.registry.value)
    ensures NewMigrator(probe, log, discovered, fault).Success? ==>
              Consistent(NewMigrator(probe, log, discovered, fault).value)
  {
  }

  /** Apply then revert, both committed: the migration is Inactive again and
      its log row is gone. */
  lemma ApplyThenRevert(log: set<MigrationId>, m: Migration, up: TxOutcome, down: TxOutcome)
    requires Clean(up) && Clean(down)
    ensures var applied := ApplyMigration(log, m, UpMigration, up);
            var reverted := ApplyMigration(applied.log, applied.migration, DownMigration, down);
            && applied.migration.status == Active && m.id in applied.log
            && reverted == Applied(None, log - {m.id}, m.(status := Inactive))
  {
  }
}
