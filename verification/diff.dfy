/** The diff and reconcile engine of `generate_diff`: load the previous
    snapshot into a primary-key hash, prune keys the master no longer has,
    then walk the changed master rows, classifying each as added or modified
    and overwriting the hash with the master row. */
module Diff {
  import opened Wrappers
  import opened Seqs
  import opened Rows

  /** The changed columns of a modified row, mapped to their master values. */
  type Delta = map<Column, Value>

  /** One entry of `HashDiff.diff` on flat hashes: "~", "+" or "-". */
  datatype Change =
    | Changed(column: Column, before: Value, after: Value)
    | Added(column: Column, value: Value)
    | Removed(column: Column, value: Value)

  /** `HashDiff.diff(before, after)` on flat hashes: a column in both rows with
      unequal values is a change, a column in one row only is an addition or
      a removal. Values are compared with plain equality. */
  function FlatDiff(before: Row, after: Row): set<Change> {
    (set c | c in before && c in after && before[c] != after[c] :: Changed(c, before[c], after[c]))
    + (set c | c in after && c !in before :: Added(c, after[c]))
    + (set c | c in before && c !in after :: Removed(c, before[c]))
  }

  /** The flat diff is empty exactly when the rows are equal. */
  lemma FlatDiffEmptyIffEqual(before: Row, after: Row)
    ensures FlatDiff(before, after) == {} <==> before == after
  {
    if before != after {
      if c :| c in before && c !in after {
        assert Removed(c, before[c]) in FlatDiff(before, after);
      } else if c :| c in after && c !in before {
        assert Added(c, after[c]) in FlatDiff(before, after);
      } else {
        assert before.Keys == after.Keys;
        var c :| c in before && before[c] != after[c];
        assert Changed(c, before[c], after[c]) in FlatDiff(before, after);
      }
    }
  }

  /** A flat diff holds only changes exactly when both rows have the same
      columns. */
  lemma FlatDiffOnlyChangesIffSameColumns(before: Row, after: Row)
    ensures (forall ch | ch in FlatDiff(before, after) :: ch.Changed?) <==> before.Keys == after.Keys
  {
    if c :| c in before && c !in after {
      assert Removed(c, before[c]) in FlatDiff(before, after);
    } else if c :| c in after && c !in before {
      assert Added(c, after[c]) in FlatDiff(before, after);
    }
  }

  /** Lines 136-143 of `generate_diff` for one existing row and its master
      row: `None` when the diff is empty, the changed columns with their
      master values otherwise, and an error when a column was added or
      removed. */
  function RowDelta(before: Row, after: Row): (r: Result<Option<Delta>>)
    ensures r.Failure? <==> before.Keys != after.Keys
    ensures r == Success(None) <==> before == after
    ensures r.Success? && r.value.Some? ==>
              && |r.value.value| > 0
              && before + r.value.value == after
              && forall c | c in r.value.value :: c in before && before[c] != r.value.value[c]
  {
    var diff := FlatDiff(before, after);
    FlatDiffEmptyIffEqual(before, after);
    FlatDiffOnlyChangesIffSameColumns(before, after);
    if |diff| == 0 then
      Success(None)
    else if exists ch | ch in diff :: !ch.Changed? then
      Failure(RowShapeChanged)
    else
      var delta := map c | c in before && c in after && before[c] != after[c] :: after[c];
      assert forall c | c in before && c in after && before[c] != after[c] :: Changed(c, before[c], after[c]) in diff;
      assert before.Keys == after.Keys;
      assert before + delta == after;
      assert |delta| > 0 by {
        var ch :| ch in diff;
        assert ch.column in delta;
      }
      Success(Some(delta))
  }

  // ------------------------------------------------ previous snapshot

  /** Lines 106-109: the previous snapshot's rows put into a hash by primary
      key, rows without a truthy key skipped, a later row replacing an
      earlier one with the same key. */
  function Load(rows: seq<Row>, pk: Column): (t: Table)
    ensures Valid(t) && KeyedBy(t, pk)
    ensures t.rows.Keys == KeySet(rows, pk)
    ensures forall k | k in t.rows :: exists i :: LatestFor(rows, pk, i, k) && t.rows[k] == rows[i]
    decreases |rows|
  {
    if |rows| == 0 then EmptyTable
    else
      var init := rows[..|rows| - 1];
      var last := rows[|rows| - 1];
      assert rows == init + [last];
      var t := Load(init, pk);
      LoadSnoc(init, last, pk, t);
      Keep(t, last, pk)
  }

  /** `result[pk] = row if pk` */
  function Keep(t: Table, row: Row, pk: Column): Table
    requires Valid(t)
  {
    match PrimaryKey(row, pk)
    case None => t
    case Some(k) => Put(t, k, row)
  }

  lemma LoadSnoc(init: seq<Row>, last: Row, pk: Column, t: Table)
    requires Valid(t) && KeyedBy(t, pk)
    requires t.rows.Keys == KeySet(init, pk)
    requires forall k | k in t.rows :: exists i :: LatestFor(init, pk, i, k) && t.rows[k] == init[i]
    ensures Valid(Keep(t, last, pk)) && KeyedBy(Keep(t, last, pk), pk)
    ensures Keep(t, last, pk).rows.Keys == KeySet(init + [last], pk)
    ensures forall k | k in Keep(t, last, pk).rows ::
              exists i :: LatestFor(init + [last], pk, i, k) && Keep(t, last, pk).rows[k] == (init + [last])[i]
  {
    var rows := init + [last];
    var r := Keep(t, last, pk);
    KeySetSnoc(init, last, pk);
    LatestExtends(init, last, pk);
    forall k | k in r.rows
      ensures exists i :: LatestFor(rows, pk, i, k) && r.rows[k] == rows[i]
    {
      if PrimaryKey(last, pk) == Some(k) {
        assert LatestFor(rows, pk, |rows| - 1, k);
      } else {
        var i :| LatestFor(init, pk, i, k) && t.rows[k] == init[i];
        assert LatestFor(rows, pk, i, k);
        assert rows[i] == init[i];
      }
    }
  }

  lemma KeySetSnoc(init: seq<Row>, last: Row, pk: Column)
    ensures KeySet(init + [last], pk) == KeySet(init, pk) + KeySet([last], pk)
    ensures KeySet([last], pk) == if PrimaryKey(last, pk).Some? then {PrimaryKey(last, pk).value} else {}
  {
    var rows := init + [last];
    assert forall i | 0 <= i < |init| :: rows[i] == init[i];
    assert rows[|init|] == last;
  }

  /** A row stays the latest for its key when a row with another key is appended. */
  lemma LatestExtends(init: seq<Row>, last: Row, pk: Column)
    ensures forall i, k | LatestFor(init, pk, i, k) && PrimaryKey(last, pk) != Some(k) :: LatestFor(init + [last], pk, i, k)
  {
    var rows := init + [last];
    forall i, k | LatestFor(init, pk, i, k) && PrimaryKey(last, pk) != Some(k)
      ensures LatestFor(rows, pk, i, k)
    {
      assert forall j | i < j < |init| :: rows[j] == init[j];
    }
  }

  /** The result of `existing_rows.delete_if` (lines 121-129): the pruned
      hash and the `deleted` list, in the hash's order. */
  datatype Pruned = Pruned(table: Table, deleted: seq<Value>)

  function Prune(t: Table, masterKeys: set<Value>): (r: Pruned)
    requires Valid(t)
    ensures Valid(r.table)
    ensures r.table.rows.Keys == t.rows.Keys * masterKeys
    ensures forall k | k in r.table.rows :: r.table.rows[k] == t.rows[k]
    ensures NoDuplicates(r.deleted)
    ensures forall k :: k in r.deleted <==> k in t.rows && k !in masterKeys
    ensures r.table.order == Filter(t.order, k => k in masterKeys)
    ensures r.deleted == Filter(t.order, k => k !in masterKeys)
  {
    var kept := Filter(t.order, k => k in masterKeys);
    var deleted := Filter(t.order, k => k !in masterKeys);
    var rows := map k | k in t.rows && k in masterKeys :: t.rows[k];
    assert forall k :: k in kept <==> k in rows by {
      forall k
        ensures k in kept <==> k in rows
      {
        if k in rows {
          var i :| 0 <= i < |t.order| && t.order[i] == k;
        }
      }
    }
    assert forall k :: k in deleted <==> k in t.rows && k !in masterKeys by {
      forall k
        ensures k in deleted <==> k in t.rows && k !in masterKeys
      {
        if k in t.rows && k !in masterKeys {
          var i :| 0 <= i < |t.order| && t.order[i] == k;
        }
      }
    }
    Pruned(Table(kept, rows), deleted)
  }

  // ------------------------------------------------ walking changed rows

  /** The state of the loop at lines 131-149. */
  datatype Progress = Progress(table: Table, added: seq<Row>, modified: map<Value, Delta>)

  /** One iteration of the loop at lines 131-149. */
  function Step(p: Progress, row: Row, pk: Column): (r: Result<Progress>)
    requires Valid(p.table)
    ensures r.Success? ==> Valid(r.value.table)
    ensures r.Success? && PrimaryKey(row, pk).None? ==> r.value == p
    ensures r.Success? && PrimaryKey(row, pk).Some? ==> r.value.table.rows == p.table.rows[PrimaryKey(row, pk).value := row]
  {
    match PrimaryKey(row, pk)
    case None => Success(p)
    case Some(k) =>
      if k in p.table.rows then
        match RowDelta(p.table.rows[k], row)
        case Failure(e) => Failure(e)
        case Success(delta) =>
          var modified := if delta.Some? then p.modified[k := delta.value] else p.modified;
          Success(Progress(Put(p.table, k, row), p.added, modified))
      else
        Success(Progress(Put(p.table, k, row), p.added + [row], p.modified))
  }

  /** A changed row without a truthy primary key is skipped: nothing is
      added, modified or overwritten (lines 132-133). */
  lemma StepSkipsUnkeyedRow(p: Progress, row: Row, pk: Column)
    requires Valid(p.table)
    requires PrimaryKey(row, pk).None?
    ensures Step(p, row, pk) == Success(p)
  {
  }

  /** A keyed row whose key is not in the hash is appended to `added` as it
      is and stored under its key (lines 144-148). */
  lemma StepAddsUnseenRow(p: Progress, row: Row, pk: Column, k: Value)
    requires Valid(p.table)
    requires PrimaryKey(row, pk) == Some(k) && k !in p.table.rows
    ensures Step(p, row, pk).Success?
    ensures Step(p, row, pk).value.added == p.added + [row]
    ensures Step(p, row, pk).value.modified == p.modified
    ensures Step(p, row, pk).value.table.rows == p.table.rows[k := row]
  {
  }

  /** A keyed row whose key is in the hash raises when its columns differ,
      records a delta only when some value differs, and always replaces the
      stored row (lines 134-143, 148). */
  lemma StepComparesKnownRow(p: Progress, row: Row, pk: Column, k: Value)
    requires Valid(p.table)
    requires PrimaryKey(row, pk) == Some(k) && k in p.table.rows
    ensures Step(p, row, pk).Failure? <==> p.table.rows[k].Keys != row.Keys
    ensures Step(p, row, pk).Success? ==>
              && Step(p, row, pk).value.added == p.added
              && Step(p, row, pk).value.table.rows == p.table.rows[k := row]
              && (p.table.rows[k] == row ==> Step(p, row, pk).value.modified == p.modified)
              && (p.table.rows[k] != row ==>
                    && k in Step(p, row, pk).value.modified
                    && Step(p, row, pk).value.modified == p.modified[k := Step(p, row, pk).value.modified[k]]
                    && RowDelta(p.table.rows[k], row) == Success(Some(Step(p, row, pk).value.modified[k])))
  {
  }

  /** The whole loop at lines 131-149, stopping at the first raise. */
  function Walk(p: Progress, rows: seq<Row>, pk: Column): (r: Result<Progress>)
    requires Valid(p.table)
    ensures r.Success? ==> Valid(r.value.table)
    ensures r.Success? && KeyedBy(p.table, pk) ==> KeyedBy(r.value.table, pk)
    ensures r.Success? ==> r.value.table.rows.Keys == p.table.rows.Keys + KeySet(rows, pk)
    ensures r.Success? ==> forall k | k in p.table.rows && k !in KeySet(rows, pk) :: r.value.table.rows[k] == p.table.rows[k]
    ensures r.Success? ==> forall k | k in KeySet(rows, pk) :: exists i :: LatestFor(rows, pk, i, k) && r.value.table.rows[k] == rows[i]
    decreases |rows|
  {
    if |rows| == 0 then Success(p)
    else
      match Step(p, rows[0], pk)
      case Failure(e) => Failure(e)
      case Success(q) =>
        var r := Walk(q, rows[1..], pk);
        if r.Success? then
          StoreThenWalk(p.table, q.table, r.value.table, rows, pk);
          r
        else r
  }

  /** The tables before and after one step and after the rest of the walk:
      what the walk promises of the tail, it promises of the whole. */
  lemma StoreThenWalk(p: Table, q: Table, r: Table, rows: seq<Row>, pk: Column)
    requires |rows| > 0
    requires PrimaryKey(rows[0], pk).None? ==> q == p
    requires PrimaryKey(rows[0], pk).Some? ==> q.rows == p.rows[PrimaryKey(rows[0], pk).value := rows[0]]
    requires KeyedBy(q, pk) ==> KeyedBy(r, pk)
    requires r.rows.Keys == q.rows.Keys + KeySet(rows[1..], pk)
    requires forall k | k in q.rows && k !in KeySet(rows[1..], pk) :: r.rows[k] == q.rows[k]
    requires forall k | k in KeySet(rows[1..], pk) :: exists i :: LatestFor(rows[1..], pk, i, k) && r.rows[k] == rows[1..][i]
    ensures KeyedBy(p, pk) ==> KeyedBy(r, pk)
    ensures r.rows.Keys == p.rows.Keys + KeySet(rows, pk)
    ensures forall k | k in p.rows && k !in KeySet(rows, pk) :: r.rows[k] == p.rows[k]
    ensures forall k | k in KeySet(rows, pk) :: exists i :: LatestFor(rows, pk, i, k) && r.rows[k] == rows[i]
  {
    KeySetCons(rows, pk);
    LatestShifts(rows, pk);
    forall k | k in KeySet(rows, pk)
      ensures exists i :: LatestFor(rows, pk, i, k) && r.rows[k] == rows[i]
    {
      if k in KeySet(rows[1..], pk) {
        var i :| LatestFor(rows[1..], pk, i, k) && r.rows[k] == rows[1..][i];
        assert LatestFor(rows, pk, i + 1, k) && r.rows[k] == rows[i + 1];
      } else {
        assert LatestFor(rows, pk, 0, k) && r.rows[k] == rows[0];
      }
    }
  }

  lemma KeySetCons(rows: seq<Row>, pk: Column)
    requires |rows| > 0
    ensures KeySet(rows, pk) == KeySet([rows[0]], pk) + KeySet(rows[1..], pk)
    ensures KeySet([rows[0]], pk) == if PrimaryKey(rows[0], pk).Some? then {PrimaryKey(rows[0], pk).value} else {}
  {
    assert rows == [rows[0]] + rows[1..];
    assert forall i | 1 <= i < |rows| :: rows[i] == rows[1..][i - 1];
    assert forall k | k in KeySet(rows[1..], pk) :: k in KeySet(rows, pk) by {
      forall k | k in KeySet(rows[1..], pk)
        ensures k in KeySet(rows, pk)
      {
        var i :| 0 <= i < |rows[1..]| && PrimaryKey(rows[1..][i], pk) == Some(k);
        assert PrimaryKey(rows[i + 1], pk) == Some(k);
      }
    }
  }

  /** Latest rows of the tail are latest rows of the whole sequence; the
      first row is latest for its key when no later row repeats it. */
  lemma LatestShifts(rows: seq<Row>, pk: Column)
    requires |rows| > 0
    ensures forall i, k | LatestFor(rows[1..], pk, i, k) :: LatestFor(rows, pk, i + 1, k)
    ensures forall k | PrimaryKey(rows[0], pk) == Some(k) && k !in KeySet(rows[1..], pk) :: LatestFor(rows, pk, 0, k)
  {
    forall i, k | LatestFor(rows[1..], pk, i, k)
      ensures LatestFor(rows, pk, i + 1, k)
    {
      assert forall j | i + 1 < j < |rows| :: rows[j] == rows[1..][j - 1];
    }
    forall k | PrimaryKey(rows[0], pk) == Some(k) && k !in KeySet(rows[1..], pk)
      ensures LatestFor(rows, pk, 0, k)
    {
      forall j | 0 < j < |rows|
        ensures PrimaryKey(rows[j], pk) != Some(k)
      {
        assert rows[j] == rows[1..][j - 1];
      }
    }
  }

  // ------------------------------------------------------ generate_diff

  /** What `generate_diff` has computed when it reaches line 156. */
  datatype Changes = Changes(deleted: seq<Value>, added: seq<Row>, modified: map<Value, Delta>, table: Table)

  /** The previous snapshot after pruning, the hash the walk starts from. */
  function Survivors(existing: seq<Row>, masterKeys: set<Value>, pk: Column): (r: map<Value, Row>)
    ensures r.Keys == KeySet(existing, pk) * masterKeys
    ensures forall k | k in r :: exists i :: LatestFor(existing, pk, i, k) && r[k] == existing[i]
  {
    Prune(Load(existing, pk), masterKeys).table.rows
  }

  /** Lines 106-149: the classification and reconciliation, or the raise at
      line 139. */
  function GenerateDiff(existing: seq<Row>, masterKeys: set<Value>, changed: seq<Row>, pk: Column): (r: Result<Changes>)
    ensures r.Success? ==> Valid(r.value.table) && KeyedBy(r.value.table, pk)
    ensures r.Success? ==> NoDuplicates(r.value.deleted)
    ensures r.Success? ==> forall k :: k in r.value.deleted <==> k in KeySet(existing, pk) && k !in masterKeys
    ensures r.Success? ==> r.value.table.rows.Keys == KeySet(existing, pk) * masterKeys + KeySet(changed, pk)
    ensures r.Success? ==> forall k | k in KeySet(changed, pk) :: exists i :: LatestFor(changed, pk, i, k) && r.value.table.rows[k] == changed[i]
    ensures r.Success? ==> forall k | k in r.value.table.rows && k !in KeySet(changed, pk) :: r.value.table.rows[k] == Survivors(existing, masterKeys, pk)[k]
  {
    var loaded := Load(existing, pk);
    var pruned := Prune(loaded, masterKeys);
    assert KeyedBy(pruned.table, pk);
    var p :- Walk(Progress(pruned.table, [], map[]), changed, pk);
    Success(Changes(pruned.deleted, p.added, p.modified, p.table))
  }
}
