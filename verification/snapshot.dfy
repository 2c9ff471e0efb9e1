/** What `generate_diff` writes once the rows are reconciled: the snapshot
    database in batches of 500 rows (`write_compressed_db`), the changeset
    document, the decision to write nothing, and the run that
    `diff_from_file` sets up from the previous snapshot's name. SQL text,
    LZMA bytes and MD5 sums are not modelled; names, bound values and
    placeholder counts are. */
module Snapshot {
  import opened Wrappers
  import opened Strings
  import opened Seqs
  import opened Rows
  import opened Naming
  import opened Diff

  // ------------------------------------------------------------- batches

  /** Rows per INSERT statement (`each_slice(500)`). */
  const BatchSize: nat := 500

  /** `each_slice(n)`: consecutive runs of `n` elements, the last one shorter. */
  function Slices<T>(s: seq<T>, n: nat): (r: seq<seq<T>>)
    requires n > 0
    ensures forall i | 0 <= i < |r| :: 0 < |r[i]| <= n
    ensures forall i | 0 <= i < |r| - 1 :: |r[i]| == n
    ensures |s| == 0 <==> |r| == 0
    decreases |s|
  {
    if |s| == 0 then []
    else if |s| <= n then [s]
    else [s[..n]] + Slices(s[n..], n)
  }

  function Concat<T>(ss: seq<seq<T>>): seq<T> {
    if |ss| == 0 then [] else ss[0] + Concat(ss[1..])
  }

  /** Gluing the slices back together gives the original sequence. */
  lemma {:induction false} SlicesConcat<T>(s: seq<T>, n: nat)
    requires n > 0
    ensures Concat(Slices(s, n)) == s
    decreases |s|
  {
    if |s| > n {
      var r := Slices(s, n);
      assert r[1..] == Slices(s[n..], n);
      SlicesConcat(s[n..], n);
      assert s[..n] + s[n..] == s;
    } else if |s| > 0 {
      assert Concat([s][1..]) == [];
      assert s + [] == s;
    }
  }

  // ------------------------------------------------------------ statements

  /** `r[PRIMARY_KEY]` as a `select` condition. */
  function HasKey(pk: Column): Row -> bool {
    row => PrimaryKey(row, pk).Some?
  }

  /** `map(&:values)` over rows read with the configured column list. */
  function Project(rows: seq<Row>, columns: seq<Column>): (r: seq<seq<Value>>)
    ensures |r| == |rows|
    ensures forall i | 0 <= i < |r| :: r[i] == Values(rows[i], columns)
  {
    seq(|rows|, i requires 0 <= i < |rows| => Values(rows[i], columns))
  }

  lemma ProjectAppend(a: seq<Row>, b: seq<Row>, columns: seq<Column>)
    ensures Project(a + b, columns) == Project(a, columns) + Project(b, columns)
  {
    assert forall i | 0 <= i < |a| :: (a + b)[i] == a[i];
    assert forall i | |a| <= i < |a| + |b| :: (a + b)[i] == b[i - |a|];
  }

  /** `sub_group`: one parenthesised "?" per schema column. */
  function Placeholders(width: nat): string {
    "(" + Join(Repeat("?", width), ",") + ")"
  }

  lemma PlaceholderCount(width: nat)
    ensures Occurrences('?', Placeholders(width)) == width
  {
    var inner := Join(Repeat("?", width), ",");
    assert Occurrences('?', ",") == 0;
    assert Occurrences('?', "?") == 1;
    OccurrencesInRepeatedJoin('?', "?", ",", width);
    OccurrencesAppend('?', "(", inner);
    OccurrencesAppend('?', "(" + inner, ")");
    assert Occurrences('?', ")") == 0 && Occurrences('?', "(") == 0;
  }

  /** One `insert into TABLE (COLUMN_LIST) values <subs>` with its bound rows. */
  datatype Insert = Insert(data: seq<seq<Value>>, subs: string)

  /** The statement for one slice (lines 72-74): the keyed rows' values, and
      one placeholder group per bound row. A slice without a keyed row gives
      a statement with no value groups, which SQLite rejects. */
  function InsertFor(batch: seq<Row>, columns: seq<Column>, pk: Column): (r: Insert)
    ensures |r.data| <= |batch|
    ensures |r.data| == 0 <==> forall i | 0 <= i < |batch| :: PrimaryKey(batch[i], pk).None?
    ensures (forall i | 0 <= i < |batch| :: PrimaryKey(batch[i], pk).Some?) ==> |r.data| == |batch|
    ensures forall i | 0 <= i < |r.data| :: |r.data[i]| == |Distinct(columns)|
    ensures Occurrences('?', r.subs) == |r.data| * |Distinct(columns)|
  {
    var keyed := Filter(batch, HasKey(pk));
    var data := Project(keyed, columns);
    var width := |Distinct(columns)|;
    PlaceholderCount(width);
    assert Occurrences('?', ",") == 0;
    OccurrencesInRepeatedJoin('?', Placeholders(width), ",", |data|);
    FilterKeepsAll(batch, HasKey(pk));
    assert |keyed| > 0 ==> keyed[0] in batch && HasKey(pk)(keyed[0]);
    Insert(data, Join(Repeat(Placeholders(width), |data|), ","))
  }

  function Statements(batches: seq<seq<Row>>, columns: seq<Column>, pk: Column): (r: seq<Insert>)
    ensures |r| == |batches|
    ensures forall i | 0 <= i < |r| :: r[i] == InsertFor(batches[i], columns, pk)
  {
    if |batches| == 0 then [] else [InsertFor(batches[0], columns, pk)] + Statements(batches[1..], columns, pk)
  }

  /** Every row bound by a list of statements, in statement order. */
  function BoundRows(inserts: seq<Insert>): seq<seq<Value>> {
    if |inserts| == 0 then [] else inserts[0].data + BoundRows(inserts[1..])
  }

  /** The statements for a list of slices bind exactly the keyed rows of all
      slices, in order. */
  lemma {:induction false} StatementsBindKeyedRows(batches: seq<seq<Row>>, columns: seq<Column>, pk: Column)
    ensures BoundRows(Statements(batches, columns, pk)) == Project(Filter(Concat(batches), HasKey(pk)), columns)
  {
    if |batches| > 0 {
      var keep := HasKey(pk);
      StatementsBindKeyedRows(batches[1..], columns, pk);
      assert Statements(batches, columns, pk)[1..] == Statements(batches[1..], columns, pk);
      FilterAppend(batches[0], Concat(batches[1..]), keep);
      ProjectAppend(Filter(batches[0], keep), Filter(Concat(batches[1..]), keep), columns);
    }
  }

  // ------------------------------------------------------------- snapshot

  /** `"#{name} #{type}"`; a column that `describe` did not report has a nil
      type, which interpolates as the empty string. */
  function ColumnDefinition(column: Column, types: map<Column, string>): string {
    column + " " + (if column in types then types[column] else "")
  }

  /** The column definitions of the `create table` statement: one per distinct
      configured column, in configured order (line 158 builds a hash, so a
      repeated column is defined once). */
  function ColumnDefinitions(columns: seq<Column>, types: map<Column, string>): (r: seq<string>)
    ensures |r| == |Distinct(columns)|
    ensures forall i | 0 <= i < |r| :: Distinct(columns)[i] + " " <= r[i]
  {
    var cols := Distinct(columns);
    seq(|cols|, i requires 0 <= i < |cols| => ColumnDefinition(cols[i], types))
  }

  /** What `write_compressed_db` produces: the compressed file's name, the
      table definition and the INSERT statements. */
  datatype DbWrite = DbWrite(name: string, schema: seq<string>, inserts: seq<Insert>)

  /** Lines 63-78: the table is created from the schema, the rows are inserted
      in slices of at most 500 with one placeholder per bound value, only
      keyed rows are bound, and the file is then LZMA-compressed. A slice
      without a keyed row yields an INSERT with no value groups; SQLite
      rejects it and the source raises there, which the model reports as an
      empty statement rather than an error. */
  function WriteCompressedDb(path: string, columns: seq<Column>, types: map<Column, string>, rows: seq<Row>, pk: Column): (r: DbWrite)
    ensures LzmaDecompressedName(r.name) == path
    ensures |r.schema| == |Distinct(columns)|
    ensures BoundRows(r.inserts) == Project(Filter(rows, HasKey(pk)), columns)
    ensures |rows| == 0 <==> |r.inserts| == 0
    ensures forall i | 0 <= i < |r.inserts| :: |r.inserts[i].data| <= BatchSize
    ensures forall i | 0 <= i < |r.inserts| ::
              Occurrences('?', r.inserts[i].subs) == |r.inserts[i].data| * |r.schema|
    ensures (forall i | 0 <= i < |rows| :: PrimaryKey(rows[i], pk).Some?) ==>
              forall i | 0 <= i < |r.inserts| :: |r.inserts[i].data| > 0
    ensures |r.inserts| == |Slices(rows, BatchSize)|
    ensures forall i | 0 <= i < |r.inserts| ::
              |r.inserts[i].data| == 0 <==> forall j | 0 <= j < |Slices(rows, BatchSize)[i]| :: PrimaryKey(Slices(rows, BatchSize)[i][j], pk).None?
  {
    var batches := Slices(rows, BatchSize);
    KeyedStatementsAreFull(rows, columns, pk);
    SlicesConcat(rows, BatchSize);
    StatementsBindKeyedRows(batches, columns, pk);
    LzmaNameRoundTrip(path);
    DbWrite(LzmaName(path), ColumnDefinitions(columns, types), Statements(batches, columns, pk))
  }

  /** The reconciled hash is written in full: every stored row is bound once,
      in hash order, and no statement is empty. */
  lemma SnapshotHoldsTable(path: string, columns: seq<Column>, types: map<Column, string>, t: Table, pk: Column)
    requires Valid(t) && KeyedBy(t, pk)
    ensures var w := WriteCompressedDb(path, columns, types, Entries(t), pk);
            && BoundRows(w.inserts) == Project(Entries(t), columns)
            && forall i | 0 <= i < |w.inserts| :: |w.inserts[i].data| > 0
  {
    var rows := Entries(t);
    EntriesAreKeyed(t, pk);
    FilterKeepsAll(rows, HasKey(pk));
  }

  lemma EntriesAreKeyed(t: Table, pk: Column)
    requires Valid(t) && KeyedBy(t, pk)
    ensures forall i | 0 <= i < |Entries(t)| :: PrimaryKey(Entries(t)[i], pk).Some?
  {
    forall i | 0 <= i < |Entries(t)|
      ensures PrimaryKey(Entries(t)[i], pk).Some?
    {
      assert t.order[i] in t.rows;
    }
  }

  /** When every row is keyed, each slice binds all of its rows. */
  lemma KeyedStatementsAreFull(rows: seq<Row>, columns: seq<Column>, pk: Column)
    ensures (forall i | 0 <= i < |rows| :: PrimaryKey(rows[i], pk).Some?) ==>
              var ins := Statements(Slices(rows, BatchSize), columns, pk);
              forall i | 0 <= i < |ins| :: |ins[i].data| > 0
  {
    var batches := Slices(rows, BatchSize);
    if forall i | 0 <= i < |rows| :: PrimaryKey(rows[i], pk).Some? {
      forall i | 0 <= i < |batches|
        ensures |InsertFor(batches[i], columns, pk).data| == |batches[i]|
      {
        SliceElements(rows, BatchSize, i);
        assert forall j | 0 <= j < |batches[i]| :: batches[i][j] in rows;
      }
    }
  }

  /** Every element of a slice is an element of the sliced sequence. */
  lemma {:induction false} SliceElements<T>(s: seq<T>, n: nat, i: int)
    requires n > 0 && 0 <= i < |Slices(s, n)|
    ensures forall x | x in Slices(s, n)[i] :: x in s
    decreases |s|
  {
    if |s| > n && i > 0 {
      assert Slices(s, n)[i] == Slices(s[n..], n)[i - 1];
      SliceElements(s[n..], n, i - 1);
    }
  }

  // ------------------------------------------------------------ changeset

  /** The document `write_compressed_json` serialises (lines 163-168). */
  datatype Changeset = Changeset(columns: seq<Column>, modified: map<Value, Delta>, added: seq<seq<Value>>, deleted: seq<Value>)

  /** Either nothing changed (line 172), or a snapshot and a changeset are
      written (lines 157-170). */
  datatype Outcome =
    | NoChanges
    | Written(db: DbWrite, diff: LzmaJsonFiles, changeset: Changeset)

  /** Lines 152-173 as written: write only when something was modified,
      added or deleted. The changeset goes through `write_compressed_json`
      as written (`Naming.LzmaJsonAsWritten`), so the file on disk carries
      ".lzma" twice and the name reported for it is not that file. */
  function Publish(c: Changes, columns: seq<Column>, types: map<Column, string>, pk: Column, dbPath: string, diffPath: string): (r: Outcome)
    requires Valid(c.table)
    ensures r.NoChanges? <==> |c.modified| == 0 && |c.added| == 0 && |c.deleted| == 0
    ensures r.Written? ==> LzmaDecompressedName(r.db.name) == dbPath
    ensures r.Written? ==> r.diff.reported != r.diff.written
    ensures r.Written? ==> LzmaDecompressedName(r.diff.written) == r.diff.reported == LzmaName(diffPath)
    ensures r.Written? ==> LzmaDecompressedName(r.diff.reported) == diffPath
    ensures r.Written? ==> BoundRows(r.db.inserts) == Project(Filter(Entries(c.table), HasKey(pk)), columns)
    ensures r.Written? ==> r.changeset.columns == columns && r.changeset.added == Project(c.added, columns)
    ensures r.Written? ==> |r.changeset.added| == |c.added| && r.changeset.deleted == c.deleted && r.changeset.modified == c.modified
  {
    if |c.modified| + |c.added| + |c.deleted| > 0 then
      var changeset := Changeset(columns, c.modified, Project(c.added, columns), c.deleted);
      LzmaJsonReportsWrongName(diffPath);
      LzmaNameRoundTrip(diffPath);
      Written(WriteCompressedDb(dbPath, columns, types, Entries(c.table), pk), LzmaJsonAsWritten(diffPath), changeset)
    else
      NoChanges
  }

  /** `Publish` with `write_compressed_json` corrected
      (`Naming.LzmaJsonCorrected`): the changeset is written and reported
      under `diffPath + ".lzma"`; everything else is as in `Publish`. */
  function PublishCorrected(c: Changes, columns: seq<Column>, types: map<Column, string>, pk: Column, dbPath: string, diffPath: string): (r: Outcome)
    requires Valid(c.table)
    ensures r.NoChanges? <==> |c.modified| == 0 && |c.added| == 0 && |c.deleted| == 0
    ensures r.Written? ==> LzmaDecompressedName(r.db.name) == dbPath
    ensures r.Written? ==> r.diff.reported == r.diff.written && LzmaDecompressedName(r.diff.written) == diffPath
    ensures r.Written? ==> BoundRows(r.db.inserts) == Project(Filter(Entries(c.table), HasKey(pk)), columns)
    ensures r.Written? ==> r.changeset.columns == columns && r.changeset.added == Project(c.added, columns)
    ensures r.Written? ==> |r.changeset.added| == |c.added| && r.changeset.deleted == c.deleted && r.changeset.modified == c.modified
  {
    var r := Publish(c, columns, types, pk, dbPath, diffPath);
    if r.Written? then r.(diff := LzmaJsonCorrected(diffPath)) else r
  }

  // ----------------------------------------------------------- whole run

  /** What `get_new_master_data` returns: column types, every primary key
      of the master table, and the rows changed since the previous run. */
  datatype MasterData = MasterData(schema: map<Column, string>, primaryKeys: set<Value>, changedRows: seq<Row>)

  /** `config.yml` and `columns.yml` as far as the diff uses them. */
  datatype Config = Config(columns: seq<Column>, pk: Column, prefix: string)

  /** What `diff_from_file` sets up: the stamp rows must have changed since,
      the file to read the previous snapshot from (none on a first run),
      and the names of the new snapshot and changeset. */
  datatype Plan = Plan(since: Option<string>, readPath: Option<string>, dbPath: string, diffPath: string)

  /** Lines 99-104: a ".lzma" file is read through its decompressed copy. */
  function ReadPath(file: string): (r: string)
    ensures EndsWith(file, LzmaExtension) ==> LzmaName(r) == file
    ensures !EndsWith(file, LzmaExtension) ==> r == file
  {
    if EndsWith(file, LzmaExtension) then
      assert file[..|file| - |LzmaExtension|] + LzmaExtension == file;
      LzmaDecompressedName(file)
    else file
  }

  /** Lines 176-187 and 99-104, with the current UTC stamp `now` as a parameter. */
  function PlanRun(file: Option<string>, now: string, prefix: string): (r: Plan)
    ensures file.None? <==> r.readPath.None?
    ensures file.None? ==> r.since.None?
    ensures file.Some? ==> r.since == TimestampFromFilename(file.value)
    ensures r.readPath.Some? && EndsWith(file.value, LzmaExtension) ==> LzmaName(r.readPath.value) == file.value
    ensures r.readPath.Some? && !EndsWith(file.value, LzmaExtension) ==> r.readPath.value == file.value
  {
    var readPath := match file case None => None case Some(f) => Some(ReadPath(f));
    Plan(PreviousTime(file), readPath, DataName(prefix, now), DiffName(prefix, now))
  }

  /** A run started from the snapshot an earlier run published at stamp `t`
      reads that snapshot's decompressed file and asks for the rows changed
      since `t`; its own artifacts carry the new stamp. */
  lemma NextRunFollowsPrevious(prefix: string, t: string, now: string)
    requires IsStamp(t) && IsStamp(now)
    requires '.' !in prefix && '/' !in prefix
    ensures var p := PlanRun(Some(LzmaName(DataName(prefix, t))), now, prefix);
            && p.since == Some(t)
            && p.readPath == Some(DataName(prefix, t))
            && TimestampFromFilename(p.dbPath) == Some(now)
            && TimestampFromFilename(p.diffPath) == Some(now)
  {
    var published := LzmaName(DataName(prefix, t));
    assert '/' !in LzmaExtension;
    DataNameRoundTrip(prefix, t, LzmaExtension);
    assert EndsWith(published, LzmaExtension);
    LzmaNameRoundTrip(DataName(prefix, t));
    DataNameRoundTrip(prefix, now, "");
    DiffNameRoundTrip(prefix, now, "");
    assert DataName(prefix, now) + "" == DataName(prefix, now);
    assert DiffName(prefix, now) + "" == DiffName(prefix, now);
  }

  /** What a successful run publishes, in terms of the diff alone: nothing
      exactly when the diff found no change; otherwise a snapshot binding
      every keyed row of the reconciled hash, and a changeset holding the
      configured columns, the modified rows, the added rows' values and the
      deleted keys. */
  ghost predicate RunWrites(plan: Plan, snapshotRows: seq<Row>, master: MasterData, config: Config, o: Outcome) {
    var d := GenerateDiff(if plan.readPath.Some? then snapshotRows else [], master.primaryKeys, master.changedRows, config.pk);
    && d.Success?
    && (o.NoChanges? <==> |d.value.modified| == 0 && |d.value.added| == 0 && |d.value.deleted| == 0)
    && (o.Written? ==>
          && BoundRows(o.db.inserts) == Project(Filter(Entries(d.value.table), HasKey(config.pk)), config.columns)
          && o.changeset == Changeset(config.columns, d.value.modified, Project(d.value.added, config.columns), d.value.deleted))
  }

  /** Lines 92-174 once the inputs are read: the snapshot rows (ignored when
      there is no previous file), the master data and the configuration.
      The changeset keeps the double ".lzma" name of `Publish`. */
  function RunDiff(plan: Plan, snapshotRows: seq<Row>, master: MasterData, config: Config): (r: Result<Outcome>)
    ensures r.Failure? <==> GenerateDiff(if plan.readPath.Some? then snapshotRows else [], master.primaryKeys, master.changedRows, config.pk).Failure?
    ensures r.Success? ==> RunWrites(plan, snapshotRows, master, config, r.value)
    ensures r.Success? && r.value.Written? ==>
              && LzmaDecompressedName(r.value.db.name) == plan.dbPath
              && LzmaDecompressedName(r.value.diff.written) == LzmaName(plan.diffPath)
              && LzmaDecompressedName(r.value.diff.reported) == plan.diffPath
  {
    var existing := if plan.readPath.Some? then snapshotRows else [];
    var changes :- GenerateDiff(existing, master.primaryKeys, master.changedRows, config.pk);
    Success(Publish(changes, config.columns, master.schema, config.pk, plan.dbPath, plan.diffPath))
  }

  /** `RunDiff` with `write_compressed_json` corrected: a written changeset
      decompresses to the planned changeset name. */
  function RunDiffCorrected(plan: Plan, snapshotRows: seq<Row>, master: MasterData, config: Config): (r: Result<Outcome>)
    ensures r.Failure? <==> GenerateDiff(if plan.readPath.Some? then snapshotRows else [], master.primaryKeys, master.changedRows, config.pk).Failure?
    ensures r.Success? ==> RunWrites(plan, snapshotRows, master, config, r.value)
    ensures r.Success? && r.value.Written? ==>
              && LzmaDecompressedName(r.value.db.name) == plan.dbPath
              && r.value.diff.reported == r.value.diff.written
              && LzmaDecompressedName(r.value.diff.written) == plan.diffPath
  {
    var existing := if plan.readPath.Some? then snapshotRows else [];
    var changes :- GenerateDiff(existing, master.primaryKeys, master.changedRows, config.pk);
    Success(PublishCorrected(changes, config.columns, master.schema, config.pk, plan.dbPath, plan.diffPath))
  }
}
