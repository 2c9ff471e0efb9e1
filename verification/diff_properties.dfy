/** Properties of `generate_diff` as a whole: how it classifies rows when the
    changed rows have distinct keys, the disjointness of the three lists,
    idempotence, and the first-run and emptied-table edge cases. */
module DiffProperties {
  import opened Wrappers
  import opened Seqs
  import opened Rows
  import opened Diff

  /** Reference definition of `added` for rows with distinct keys: the rows
      whose truthy key the hash does not know, in order. */
  function Unseen(known: map<Value, Row>, rows: seq<Row>, pk: Column): seq<Row> {
    if |rows| == 0 then []
    else
      var key := PrimaryKey(rows[0], pk);
      (if key.Some? && key.value !in known then [rows[0]] else []) + Unseen(known, rows[1..], pk)
  }

  /** Some keyed row meets a stored row with a different set of columns. */
  ghost predicate Conflict(known: map<Value, Row>, rows: seq<Row>, pk: Column) {
    exists i | 0 <= i < |rows| :: ConflictAt(known, rows[i], pk)
  }

  ghost predicate ConflictAt(known: map<Value, Row>, row: Row, pk: Column) {
    var key := PrimaryKey(row, pk);
    key.Some? && key.value in known && known[key.value].Keys != row.Keys
  }

  /** How `modified` treats the row with key `k`: nothing for a key the hash
      does not know; for a known key, an entry exactly when the rows differ,
      holding the delta of the stored row to the master row. */
  ghost predicate Classified(known: map<Value, Row>, modified: map<Value, Delta>, row: Row, k: Value) {
    && (k !in known ==> k !in modified)
    && (k in known ==>
          && (k in modified <==> known[k] != row)
          && (k in modified ==> RowDelta(known[k], row) == Success(Some(modified[k]))))
  }

  /** Two hashes agree on a set of keys. */
  ghost predicate Agree(a: map<Value, Row>, b: map<Value, Row>, keys: set<Value>) {
    forall k | k in keys :: (k in a <==> k in b) && (k in a ==> a[k] == b[k])
  }

  lemma {:induction false} AgreeingHashes(a: map<Value, Row>, b: map<Value, Row>, rows: seq<Row>, pk: Column)
    requires Agree(a, b, KeySet(rows, pk))
    ensures Unseen(a, rows, pk) == Unseen(b, rows, pk)
    ensures Conflict(a, rows, pk) <==> Conflict(b, rows, pk)
    ensures forall i, m | 0 <= i < |rows| && PrimaryKey(rows[i], pk).Some? ::
              Classified(a, m, rows[i], PrimaryKey(rows[i], pk).value) <==> Classified(b, m, rows[i], PrimaryKey(rows[i], pk).value)
  {
    forall i | 0 <= i < |rows| && PrimaryKey(rows[i], pk).Some?
      ensures PrimaryKey(rows[i], pk).value in KeySet(rows, pk)
    {
    }
    assert forall i | 0 <= i < |rows| :: ConflictAt(a, rows[i], pk) <==> ConflictAt(b, rows[i], pk);
    if |rows| > 0 {
      KeySetCons(rows, pk);
      AgreeingHashes(a, b, rows[1..], pk);
    }
  }

  lemma UnseenCons(known: map<Value, Row>, rows: seq<Row>, pk: Column)
    requires |rows| > 0
    ensures Unseen(known, rows, pk) ==
              (if PrimaryKey(rows[0], pk).Some? && PrimaryKey(rows[0], pk).value !in known then [rows[0]] else [])
              + Unseen(known, rows[1..], pk)
  {
  }

  lemma ConflictCons(known: map<Value, Row>, rows: seq<Row>, pk: Column)
    requires |rows| > 0
    ensures Conflict(known, rows, pk) <==> ConflictAt(known, rows[0], pk) || Conflict(known, rows[1..], pk)
  {
    if Conflict(known, rows[1..], pk) {
      var i :| 0 <= i < |rows[1..]| && ConflictAt(known, rows[1..][i], pk);
      assert ConflictAt(known, rows[i + 1], pk);
    }
    if Conflict(known, rows, pk) && !ConflictAt(known, rows[0], pk) {
      var i :| 0 <= i < |rows| && ConflictAt(known, rows[i], pk);
      assert ConflictAt(known, rows[1..][i - 1], pk);
    }
  }

  lemma DistinctTail(rows: seq<Row>, pk: Column)
    requires |rows| > 0 && DistinctKeys(rows, pk)
    ensures DistinctKeys(rows[1..], pk)
    ensures PrimaryKey(rows[0], pk).Some? ==> PrimaryKey(rows[0], pk).value !in KeySet(rows[1..], pk)
  {
    assert forall i | 0 <= i < |rows[1..]| :: rows[1..][i] == rows[i + 1];
    if PrimaryKey(rows[0], pk).Some? {
      forall i | 0 <= i < |rows[1..]|
        ensures PrimaryKey(rows[1..][i], pk) != PrimaryKey(rows[0], pk)
      {
        assert rows[1..][i] == rows[i + 1];
      }
    }
  }

  /** What the loop at lines 131-149 does over rows with distinct keys,
      starting from `p`. */
  ghost predicate WalkSpec(p: Progress, rows: seq<Row>, pk: Column)
    requires Valid(p.table)
  {
    && (Walk(p, rows, pk).Failure? <==> Conflict(p.table.rows, rows, pk))
    && (Walk(p, rows, pk).Success? ==>
          var q := Walk(p, rows, pk).value;
          && q.added == p.added + Unseen(p.table.rows, rows, pk)
          && (forall k | k !in KeySet(rows, pk) :: k in q.modified <==> k in p.modified)
          && (forall k | k in p.modified :: k in q.modified && q.modified[k] == p.modified[k])
          && (forall i | 0 <= i < |rows| && PrimaryKey(rows[i], pk).Some? ::
                Classified(p.table.rows, q.modified, rows[i], PrimaryKey(rows[i], pk).value)))
  }

  /** The loop at lines 131-149 over rows with distinct keys: it raises
      exactly on a conflict, appends exactly the unseen rows, and classifies
      every known key by comparing the stored row with the master row. */
  lemma {:induction false} WalkDistinct(p: Progress, rows: seq<Row>, pk: Column)
    requires Valid(p.table)
    requires DistinctKeys(rows, pk)
    requires p.modified.Keys !! KeySet(rows, pk)
    ensures Walk(p, rows, pk).Failure? <==> Conflict(p.table.rows, rows, pk)
    ensures Walk(p, rows, pk).Success? ==>
              var q := Walk(p, rows, pk).value;
              && q.added == p.added + Unseen(p.table.rows, rows, pk)
              && (forall k | k !in KeySet(rows, pk) :: k in q.modified <==> k in p.modified)
              && (forall k | k in p.modified :: k in q.modified && q.modified[k] == p.modified[k])
              && (forall i | 0 <= i < |rows| && PrimaryKey(rows[i], pk).Some? ::
                    Classified(p.table.rows, q.modified, rows[i], PrimaryKey(rows[i], pk).value))
    decreases |rows|
  {
    if |rows| > 0 {
      KeySetCons(rows, pk);
      DistinctTail(rows, pk);
      match PrimaryKey(rows[0], pk)
      case None =>
        WalkDistinct(p, rows[1..], pk);
        WalkSkips(p, rows, pk);
      case Some(k) =>
        if Step(p, rows[0], pk).Failure? {
          WalkStops(p, rows, pk, k);
        } else {
          var q0 := Step(p, rows[0], pk).value;
          StepKeepsRestOpen(p, rows, pk, k);
          WalkDistinct(q0, rows[1..], pk);
          WalkAdvances(p, rows, pk, k);
        }
    }
  }

  /** A row without a truthy key leaves the walk over the rest as it was. */
  lemma WalkSkips(p: Progress, rows: seq<Row>, pk: Column)
    requires Valid(p.table) && |rows| > 0 && PrimaryKey(rows[0], pk).None?
    requires WalkSpec(p, rows[1..], pk)
    ensures WalkSpec(p, rows, pk)
  {
    var rest := rows[1..];
    StepSkipsUnkeyedRow(p, rows[0], pk);
    assert Walk(p, rows, pk) == Walk(p, rest, pk);
    KeySetCons(rows, pk);
    assert KeySet(rows, pk) == KeySet(rest, pk);
    ConflictCons(p.table.rows, rows, pk);
    assert !ConflictAt(p.table.rows, rows[0], pk);
    assert Conflict(p.table.rows, rows, pk) <==> Conflict(p.table.rows, rest, pk);
    UnseenCons(p.table.rows, rows, pk);
    assert Unseen(p.table.rows, rows, pk) == Unseen(p.table.rows, rest, pk);
    if Walk(p, rows, pk).Success? {
      var q := Walk(p, rows, pk).value;
      assert q == Walk(p, rest, pk).value;
      assert q.added == p.added + Unseen(p.table.rows, rows, pk);
      assert forall k | k !in KeySet(rows, pk) :: k in q.modified <==> k in p.modified;
      assert forall k | k in p.modified :: k in q.modified && q.modified[k] == p.modified[k];
      forall i | 0 <= i < |rows| && PrimaryKey(rows[i], pk).Some?
        ensures Classified(p.table.rows, q.modified, rows[i], PrimaryKey(rows[i], pk).value)
      {
        assert rows[i] == rest[i - 1];
      }
    }
    assert Walk(p, rows, pk).Failure? <==> Conflict(p.table.rows, rows, pk);
  }

  /** A raise on the first row is a conflict on the first row. */
  lemma WalkStops(p: Progress, rows: seq<Row>, pk: Column, k: Value)
    requires Valid(p.table) && |rows| > 0 && PrimaryKey(rows[0], pk) == Some(k)
    requires Step(p, rows[0], pk).Failure?
    ensures WalkSpec(p, rows, pk)
  {
    if k in p.table.rows {
      StepComparesKnownRow(p, rows[0], pk, k);
    } else {
      StepAddsUnseenRow(p, rows[0], pk, k);
    }
    assert ConflictAt(p.table.rows, rows[0], pk);
    ConflictCons(p.table.rows, rows, pk);
  }

  /** The step on a keyed first row touches only that row's key, which the
      rest of the rows do not carry. */
  lemma StepKeepsRestOpen(p: Progress, rows: seq<Row>, pk: Column, k: Value)
    requires Valid(p.table) && |rows| > 0 && PrimaryKey(rows[0], pk) == Some(k)
    requires DistinctKeys(rows, pk)
    requires p.modified.Keys !! KeySet(rows, pk)
    requires Step(p, rows[0], pk).Success?
    ensures DistinctKeys(rows[1..], pk)
    ensures Step(p, rows[0], pk).value.modified.Keys !! KeySet(rows[1..], pk)
    ensures Agree(p.table.rows, Step(p, rows[0], pk).value.table.rows, KeySet(rows[1..], pk))
  {
    KeySetCons(rows, pk);
    DistinctTail(rows, pk);
    if k in p.table.rows {
      StepComparesKnownRow(p, rows[0], pk, k);
    } else {
      StepAddsUnseenRow(p, rows[0], pk, k);
    }
  }

  /** A successful step on a keyed first row followed by the walk over the
      rest is the walk over all rows. */
  lemma WalkAdvances(p: Progress, rows: seq<Row>, pk: Column, k: Value)
    requires Valid(p.table) && |rows| > 0 && PrimaryKey(rows[0], pk) == Some(k)
    requires DistinctKeys(rows, pk)
    requires p.modified.Keys !! KeySet(rows, pk)
    requires Step(p, rows[0], pk).Success?
    requires Agree(p.table.rows, Step(p, rows[0], pk).value.table.rows, KeySet(rows[1..], pk))
    requires WalkSpec(Step(p, rows[0], pk).value, rows[1..], pk)
    ensures WalkSpec(p, rows, pk)
  {
    var rest := rows[1..];
    var q0 := Step(p, rows[0], pk).value;
    KeySetCons(rows, pk);
    DistinctTail(rows, pk);
    ConflictCons(p.table.rows, rows, pk);
    UnseenCons(p.table.rows, rows, pk);
    AgreeingHashes(p.table.rows, q0.table.rows, rest, pk);
    assert Walk(p, rows, pk) == Walk(q0, rest, pk);
    if k in p.table.rows {
      StepComparesKnownRow(p, rows[0], pk, k);
    } else {
      StepAddsUnseenRow(p, rows[0], pk, k);
    }
    assert Walk(p, rows, pk).Failure? <==> Conflict(p.table.rows, rows, pk);
    if Walk(p, rows, pk).Success? {
      var q := Walk(p, rows, pk).value;
      var head := if k in p.table.rows then [] else [rows[0]];
      assert Unseen(p.table.rows, rows, pk) == head + Unseen(p.table.rows, rest, pk);
      StepAdded(p, rows[0], pk, k);
      assert q.added == q0.added + Unseen(q0.table.rows, rest, pk);
      Regroup(p.added, head, Unseen(p.table.rows, rest, pk), q.added);
      assert forall j | j !in KeySet(rows, pk) :: j in q.modified <==> j in p.modified;
      assert forall j | j in p.modified :: j in q.modified && q.modified[j] == p.modified[j];
      assert Classified(p.table.rows, q.modified, rows[0], k);
      forall i | 0 < i < |rows| && PrimaryKey(rows[i], pk).Some?
        ensures Classified(p.table.rows, q.modified, rows[i], PrimaryKey(rows[i], pk).value)
      {
        assert rows[i] == rest[i - 1];
      }
    }
  }

  /** The step appends the row to `added` exactly when its key is new. */
  lemma StepAdded(p: Progress, row: Row, pk: Column, k: Value)
    requires Valid(p.table) && PrimaryKey(row, pk) == Some(k)
    requires Step(p, row, pk).Success?
    ensures Step(p, row, pk).value.added == p.added + (if k in p.table.rows then [] else [row])
  {
    if k in p.table.rows {
      StepComparesKnownRow(p, row, pk, k);
      assert p.added + [] == p.added;
    } else {
      StepAddsUnseenRow(p, row, pk, k);
    }
  }

  lemma {:induction false} UnseenKeys(known: map<Value, Row>, rows: seq<Row>, pk: Column)
    ensures KeySet(Unseen(known, rows, pk), pk) == KeySet(rows, pk) - known.Keys
    ensures forall i | 0 <= i < |Unseen(known, rows, pk)| :: PrimaryKey(Unseen(known, rows, pk)[i], pk).Some?
  {
    if |rows| > 0 {
      KeySetCons(rows, pk);
      UnseenKeys(known, rows[1..], pk);
      var head := if PrimaryKey(rows[0], pk).Some? && PrimaryKey(rows[0], pk).value !in known then [rows[0]] else [];
      KeySetAppend(head, Unseen(known, rows[1..], pk), pk);
    }
  }

  lemma KeySetAppend(a: seq<Row>, b: seq<Row>, pk: Column)
    ensures KeySet(a + b, pk) == KeySet(a, pk) + KeySet(b, pk)
  {
    var ab := a + b;
    forall k | k in KeySet(b, pk)
      ensures k in KeySet(ab, pk)
    {
      var i :| 0 <= i < |b| && PrimaryKey(b[i], pk) == Some(k);
      assert ab[|a| + i] == b[i];
    }
    forall k | k in KeySet(a, pk)
      ensures k in KeySet(ab, pk)
    {
      var i :| 0 <= i < |a| && PrimaryKey(a[i], pk) == Some(k);
      assert ab[i] == a[i];
    }
    forall k | k in KeySet(ab, pk)
      ensures k in KeySet(a, pk) + KeySet(b, pk)
    {
      var i :| 0 <= i < |ab| && PrimaryKey(ab[i], pk) == Some(k);
      if i < |a| {
        assert ab[i] == a[i];
      } else {
        assert ab[i] == b[i - |a|];
      }
    }
  }

  /** `generate_diff` on changed rows with distinct keys, against the pruned
      previous snapshot: it raises exactly on a conflict; `added` is exactly
      the rows whose key the pruned snapshot lacks; `modified` holds exactly
      the known keys whose row changed, each with its delta. */
  lemma DiffClassification(existing: seq<Row>, masterKeys: set<Value>, changed: seq<Row>, pk: Column)
    requires DistinctKeys(changed, pk)
    ensures GenerateDiff(existing, masterKeys, changed, pk).Failure? <==> Conflict(Survivors(existing, masterKeys, pk), changed, pk)
    ensures GenerateDiff(existing, masterKeys, changed, pk).Success? ==>
              var r := GenerateDiff(existing, masterKeys, changed, pk).value;
              var known := Survivors(existing, masterKeys, pk);
              && r.added == Unseen(known, changed, pk)
              && r.modified.Keys <= KeySet(changed, pk)
              && forall i | 0 <= i < |changed| && PrimaryKey(changed[i], pk).Some? ::
                   Classified(known, r.modified, changed[i], PrimaryKey(changed[i], pk).value)
  {
    var pruned := Prune(Load(existing, pk), masterKeys);
    WalkDistinct(Progress(pruned.table, [], map[]), changed, pk);
  }

  /** With distinct changed keys that the master key set contains, a key is
      listed in at most one of added, modified and deleted. */
  lemma ClassesAreDisjoint(existing: seq<Row>, masterKeys: set<Value>, changed: seq<Row>, pk: Column)
    requires DistinctKeys(changed, pk)
    requires KeySet(changed, pk) <= masterKeys
    requires GenerateDiff(existing, masterKeys, changed, pk).Success?
    ensures var r := GenerateDiff(existing, masterKeys, changed, pk).value;
            && KeySet(r.added, pk) !! r.modified.Keys
            && (forall k | k in r.deleted :: k !in KeySet(r.added, pk) && k !in r.modified)
  {
    var r := GenerateDiff(existing, masterKeys, changed, pk).value;
    var known := Survivors(existing, masterKeys, pk);
    DiffClassification(existing, masterKeys, changed, pk);
    UnseenKeys(known, changed, pk);
    forall k | k in r.modified
      ensures k in known
    {
      var i :| 0 <= i < |changed| && PrimaryKey(changed[i], pk).Some? && PrimaryKey(changed[i], pk).value == k;
      assert Classified(known, r.modified, changed[i], k);
    }
  }

  /** Reading back the snapshot written from a reconciled hash yields the
      same hash. */
  lemma LoadEntries(t: Table, pk: Column)
    requires Valid(t) && KeyedBy(t, pk)
    ensures Load(Entries(t), pk).rows == t.rows
  {
    var l := Load(Entries(t), pk);
    EntriesKeys(t, pk);
    LoadedEntryValues(t, pk, l);
    SameMap(l.rows, t.rows);
  }

  lemma SameMap<K, V>(a: map<K, V>, b: map<K, V>)
    requires a.Keys == b.Keys
    requires forall k | k in a :: k in b && a[k] == b[k]
    ensures a == b
  {
  }

  lemma LoadedEntryValues(t: Table, pk: Column, l: Table)
    requires Valid(t) && KeyedBy(t, pk)
    requires l == Load(Entries(t), pk)
    ensures forall k | k in l.rows :: k in t.rows && l.rows[k] == t.rows[k]
  {
    forall k | k in l.rows
      ensures k in t.rows && l.rows[k] == t.rows[k]
    {
      var i :| LatestFor(Entries(t), pk, i, k) && l.rows[k] == Entries(t)[i];
      EntryOfKey(t, pk, i, k);
    }
  }

  lemma EntriesKeys(t: Table, pk: Column)
    requires Valid(t) && KeyedBy(t, pk)
    ensures KeySet(Entries(t), pk) == t.rows.Keys
  {
    var rows := Entries(t);
    forall k | k in t.rows
      ensures k in KeySet(rows, pk)
    {
      var i :| 0 <= i < |t.order| && t.order[i] == k;
      assert PrimaryKey(rows[i], pk) == Some(k);
    }
    forall k | k in KeySet(rows, pk)
      ensures k in t.rows
    {
      var i :| 0 <= i < |rows| && PrimaryKey(rows[i], pk) == Some(k);
      EntryOfKey(t, pk, i, k);
    }
  }

  lemma EntryOfKey(t: Table, pk: Column, i: int, k: Value)
    requires Valid(t) && KeyedBy(t, pk)
    requires 0 <= i < |Entries(t)| && PrimaryKey(Entries(t)[i], pk) == Some(k)
    ensures k in t.rows && Entries(t)[i] == t.rows[k]
  {
    assert t.order[i] in t.rows;
    assert PrimaryKey(t.rows[t.order[i]], pk) == Some(t.order[i]);
  }

  /** Running the diff again with the same master data, against the snapshot
      the first run reconciled, finds no change. */
  lemma DiffIsIdempotent(existing: seq<Row>, masterKeys: set<Value>, changed: seq<Row>, pk: Column)
    requires DistinctKeys(changed, pk)
    requires KeySet(changed, pk) <= masterKeys
    requires GenerateDiff(existing, masterKeys, changed, pk).Success?
    ensures var first := GenerateDiff(existing, masterKeys, changed, pk).value;
            var again := GenerateDiff(Entries(first.table), masterKeys, changed, pk);
            && again.Success?
            && again.value.added == []
            && again.value.modified == map[]
            && again.value.deleted == []
            && again.value.table.rows == first.table.rows
  {
    var first := GenerateDiff(existing, masterKeys, changed, pk).value;
    var snapshot := Entries(first.table);
    SnapshotSurvives(existing, masterKeys, changed, pk);
    ChangedRowsStored(first.table.rows, changed, pk);
    RerunFindsNothing(snapshot, masterKeys, changed, pk);
    var again := GenerateDiff(snapshot, masterKeys, changed, pk).value;
    RerunKeepsRows(snapshot, masterKeys, changed, pk);
    SameMap(again.table.rows, first.table.rows);
  }

  /** Pruning the reconciled snapshot by the same master keys drops nothing. */
  lemma SnapshotSurvives(existing: seq<Row>, masterKeys: set<Value>, changed: seq<Row>, pk: Column)
    requires KeySet(changed, pk) <= masterKeys
    requires GenerateDiff(existing, masterKeys, changed, pk).Success?
    ensures var t := GenerateDiff(existing, masterKeys, changed, pk).value.table;
            && Survivors(Entries(t), masterKeys, pk) == t.rows
            && KeySet(Entries(t), pk) <= masterKeys
  {
    var t := GenerateDiff(existing, masterKeys, changed, pk).value.table;
    assert t.rows.Keys <= masterKeys;
    TableSurvives(t, masterKeys, pk);
  }

  /** Pruning the rows of a hash by a key set that holds all its keys gives
      back the hash. */
  lemma TableSurvives(t: Table, masterKeys: set<Value>, pk: Column)
    requires Valid(t) && KeyedBy(t, pk) && t.rows.Keys <= masterKeys
    ensures Survivors(Entries(t), masterKeys, pk) == t.rows
    ensures KeySet(Entries(t), pk) <= masterKeys
  {
    var snapshot := Entries(t);
    LoadEntries(t, pk);
    EntriesKeys(t, pk);
    var known := Survivors(snapshot, masterKeys, pk);
    IntersectionWithSuperset(KeySet(snapshot, pk), masterKeys);
    SurvivorsOfLoad(snapshot, masterKeys, pk, t.rows);
    SameMap(known, t.rows);
  }

  lemma IntersectionWithSuperset<T>(a: set<T>, b: set<T>)
    requires a <= b
    ensures a * b == a
  {
  }

  lemma SurvivorsOfLoad(rows: seq<Row>, masterKeys: set<Value>, pk: Column, loaded: map<Value, Row>)
    requires Load(rows, pk).rows == loaded
    ensures forall k | k in Survivors(rows, masterKeys, pk) :: k in loaded && Survivors(rows, masterKeys, pk)[k] == loaded[k]
  {
  }

  /** After the first run every keyed changed row is stored under its key. */
  lemma ChangedRowsStored(known: map<Value, Row>, changed: seq<Row>, pk: Column)
    requires DistinctKeys(changed, pk)
    requires forall k | k in KeySet(changed, pk) :: k in known && exists i :: LatestFor(changed, pk, i, k) && known[k] == changed[i]
    ensures forall i | 0 <= i < |changed| && PrimaryKey(changed[i], pk).Some? ::
              PrimaryKey(changed[i], pk).value in known && known[PrimaryKey(changed[i], pk).value] == changed[i]
  {
    forall i | 0 <= i < |changed| && PrimaryKey(changed[i], pk).Some?
      ensures PrimaryKey(changed[i], pk).value in known && known[PrimaryKey(changed[i], pk).value] == changed[i]
    {
      var k := PrimaryKey(changed[i], pk).value;
      assert k in KeySet(changed, pk);
      var j :| LatestFor(changed, pk, j, k) && known[k] == changed[j];
      assert i == j;
    }
  }

  /** A run whose pruned snapshot already holds every changed row finds
      nothing to add, modify or delete. */
  lemma RerunFindsNothing(snapshot: seq<Row>, masterKeys: set<Value>, changed: seq<Row>, pk: Column)
    requires DistinctKeys(changed, pk)
    requires KeySet(snapshot, pk) <= masterKeys
    requires forall i | 0 <= i < |changed| && PrimaryKey(changed[i], pk).Some? ::
               var k := PrimaryKey(changed[i], pk).value;
               k in Survivors(snapshot, masterKeys, pk) && Survivors(snapshot, masterKeys, pk)[k] == changed[i]
    ensures var again := GenerateDiff(snapshot, masterKeys, changed, pk);
            && again.Success?
            && again.value.added == []
            && again.value.modified == map[]
            && again.value.deleted == []
  {
    var known := Survivors(snapshot, masterKeys, pk);
    NoConflictWhenStored(known, changed, pk);
    DiffClassification(snapshot, masterKeys, changed, pk);
    var again := GenerateDiff(snapshot, masterKeys, changed, pk).value;
    UnseenOfKnown(known, changed, pk);
    NothingModified(known, again.modified, changed, pk);
    NoElementMeansEmpty(again.deleted);
  }

  /** Rows whose keys the hash all knows add nothing. */
  lemma {:induction false} UnseenOfKnown(known: map<Value, Row>, rows: seq<Row>, pk: Column)
    requires forall i | 0 <= i < |rows| && PrimaryKey(rows[i], pk).Some? :: PrimaryKey(rows[i], pk).value in known
    ensures Unseen(known, rows, pk) == []
  {
    if |rows| > 0 {
      assert forall i | 0 <= i < |rows[1..]| :: rows[1..][i] == rows[i + 1];
      UnseenOfKnown(known, rows[1..], pk);
    }
  }

  /** Rows that all equal the stored rows modify nothing. */
  lemma NothingModified(known: map<Value, Row>, modified: map<Value, Delta>, changed: seq<Row>, pk: Column)
    requires modified.Keys <= KeySet(changed, pk)
    requires forall i | 0 <= i < |changed| && PrimaryKey(changed[i], pk).Some? ::
               Classified(known, modified, changed[i], PrimaryKey(changed[i], pk).value)
    requires forall i | 0 <= i < |changed| && PrimaryKey(changed[i], pk).Some? ::
               PrimaryKey(changed[i], pk).value in known && known[PrimaryKey(changed[i], pk).value] == changed[i]
    ensures modified == map[]
  {
    forall k | k in KeySet(changed, pk)
      ensures k !in modified
    {
      var i :| 0 <= i < |changed| && PrimaryKey(changed[i], pk) == Some(k);
      assert Classified(known, modified, changed[i], k);
    }
    assert modified.Keys == {};
  }

  lemma NoConflictWhenStored(known: map<Value, Row>, changed: seq<Row>, pk: Column)
    requires forall i | 0 <= i < |changed| && PrimaryKey(changed[i], pk).Some? ::
               PrimaryKey(changed[i], pk).value in known && known[PrimaryKey(changed[i], pk).value] == changed[i]
    ensures !Conflict(known, changed, pk)
  {
  }

  /** The rerun stores the same row under every key the snapshot holds. */
  lemma RerunKeepsRows(snapshot: seq<Row>, masterKeys: set<Value>, changed: seq<Row>, pk: Column)
    requires KeySet(changed, pk) <= KeySet(snapshot, pk) <= masterKeys
    requires GenerateDiff(snapshot, masterKeys, changed, pk).Success?
    requires forall i | 0 <= i < |changed| && PrimaryKey(changed[i], pk).Some? ::
               var k := PrimaryKey(changed[i], pk).value;
               k in Survivors(snapshot, masterKeys, pk) && Survivors(snapshot, masterKeys, pk)[k] == changed[i]
    ensures var again := GenerateDiff(snapshot, masterKeys, changed, pk).value;
            && again.table.rows.Keys == Survivors(snapshot, masterKeys, pk).Keys
            && forall k | k in again.table.rows :: again.table.rows[k] == Survivors(snapshot, masterKeys, pk)[k]
  {
    var known := Survivors(snapshot, masterKeys, pk);
    var again := GenerateDiff(snapshot, masterKeys, changed, pk).value;
    forall k | k in again.table.rows
      ensures again.table.rows[k] == known[k]
    {
      if k in KeySet(changed, pk) {
        var j :| LatestFor(changed, pk, j, k) && again.table.rows[k] == changed[j];
      }
    }
  }

  /** First run (no previous snapshot): every keyed row with a distinct key
      is added, nothing is modified or deleted. */
  lemma FirstRunAddsEverything(masterKeys: set<Value>, changed: seq<Row>, pk: Column)
    requires DistinctKeys(changed, pk)
    ensures var r := GenerateDiff([], masterKeys, changed, pk);
            && r.Success?
            && r.value.added == Unseen(map[], changed, pk)
            && r.value.modified == map[]
            && r.value.deleted == []
  {
    var known := Survivors([], masterKeys, pk);
    assert known == map[];
    DiffClassification([], masterKeys, changed, pk);
  }

  /** An emptied table: every previous key is deleted and the reconciled hash
      is empty. */
  lemma EmptiedTableDeletesEverything(existing: seq<Row>, pk: Column)
    ensures var r := GenerateDiff(existing, {}, [], pk);
            && r.Success?
            && (forall k :: k in r.value.deleted <==> k in KeySet(existing, pk))
            && r.value.added == []
            && r.value.modified == map[]
            && r.value.table.rows == map[]
  {
  }
}
