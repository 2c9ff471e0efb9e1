/** Properties of a whole `diff_from_file` run: what is written on a first
    run, and that a run repeated against its own snapshot writes nothing. */
module RunProperties {
  import opened Wrappers
  import opened Rows
  import opened Diff
  import opened DiffProperties
  import opened Snapshot

  /** A first run (no previous file) never raises, and it writes a snapshot
      and a changeset exactly when some changed row has a truthy key. */
  lemma FirstRunWritesWhenSomeRowIsKeyed(plan: Plan, snapshotRows: seq<Row>, master: MasterData, config: Config)
    requires plan.readPath.None?
    requires DistinctKeys(master.changedRows, config.pk)
    ensures RunDiff(plan, snapshotRows, master, config).Success?
    ensures RunDiff(plan, snapshotRows, master, config).value.Written? <==> KeySet(master.changedRows, config.pk) != {}
  {
    var changed := master.changedRows;
    var pk := config.pk;
    FirstRunAddsEverything(master.primaryKeys, changed, pk);
    var c := GenerateDiff([], master.primaryKeys, changed, pk).value;
    UnseenKeys(map[], changed, pk);
    assert KeySet(c.added, pk) == KeySet(changed, pk);
    if |c.added| > 0 {
      assert PrimaryKey(c.added[0], pk).value in KeySet(c.added, pk);
    }
  }

  /** Running again with the same master data, against the snapshot the run
      reconciled, raises nothing and writes nothing. */
  lemma RerunWritesNothing(plan: Plan, existing: seq<Row>, master: MasterData, config: Config)
    requires plan.readPath.Some?
    requires DistinctKeys(master.changedRows, config.pk)
    requires KeySet(master.changedRows, config.pk) <= master.primaryKeys
    requires GenerateDiff(existing, master.primaryKeys, master.changedRows, config.pk).Success?
    ensures var first := GenerateDiff(existing, master.primaryKeys, master.changedRows, config.pk).value;
            RunDiff(plan, Entries(first.table), master, config) == Success(NoChanges)
  {
    DiffIsIdempotent(existing, master.primaryKeys, master.changedRows, config.pk);
  }
}
