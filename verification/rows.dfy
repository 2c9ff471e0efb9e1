/** Rows as `generate_diff` sees them: Ruby hashes from column name to value,
    identified by the configured primary-key column, and the primary-key
    keyed hash (`existing_rows`) that the diff reconciles. */
module Rows {
  import opened Wrappers
  import opened Seqs

  /** The scalar values a database driver hands back; `Nil` is SQL NULL. */
  datatype Value = Nil | Bool(b: bool) | Int(i: int) | Text(s: string)

  type Column = string

  type Row = map<Column, Value>

  /** Ruby truthiness: everything except `nil` and `false`. */
  predicate Truthy(v: Value) {
    !(v.Nil? || v == Bool(false))
  }

  /** `row[PRIMARY_KEY]` used as a condition: a missing column reads as nil,
      and a row whose key is not truthy has no identity. */
  function PrimaryKey(row: Row, pk: Column): Option<Value> {
    if pk in row && Truthy(row[pk]) then Some(row[pk]) else None
  }

  /** The set of truthy primary keys occurring in `rows`. */
  function KeySet(rows: seq<Row>, pk: Column): set<Value> {
    set i | 0 <= i < |rows| && PrimaryKey(rows[i], pk).Some? :: PrimaryKey(rows[i], pk).value
  }

  /** `rows[i]` is the last row carrying key `k`. */
  ghost predicate LatestFor(rows: seq<Row>, pk: Column, i: int, k: Value) {
    && 0 <= i < |rows|
    && PrimaryKey(rows[i], pk) == Some(k)
    && forall j | i < j < |rows| :: PrimaryKey(rows[j], pk) != Some(k)
  }

  /** No two rows share a truthy primary key. */
  ghost predicate DistinctKeys(rows: seq<Row>, pk: Column) {
    forall i, j | 0 <= i < j < |rows| && PrimaryKey(rows[i], pk).Some? :: PrimaryKey(rows[i], pk) != PrimaryKey(rows[j], pk)
  }

  /** The key set of a Ruby hash built from `columns`: repeats collapse onto
      their first occurrence. */
  function Distinct(columns: seq<Column>): (r: seq<Column>)
    ensures NoDuplicates(r)
    ensures forall c :: c in r <==> c in columns
    ensures |r| <= |columns|
  {
    if |columns| == 0 then []
    else
      var init := Distinct(columns[..|columns| - 1]);
      var last := columns[|columns| - 1];
      assert forall c :: c in columns <==> c in columns[..|columns| - 1] || c == last;
      if last in init then init else init + [last]
  }

  lemma {:induction false} DistinctOfDistinct(columns: seq<Column>)
    requires NoDuplicates(columns)
    ensures Distinct(columns) == columns
  {
    if |columns| > 0 {
      var init := columns[..|columns| - 1];
      DistinctOfDistinct(init);
      assert columns[|columns| - 1] !in init;
      assert init + [columns[|columns| - 1]] == columns;
    }
  }

  /** `row.values` for a row read with `select <columns>`: one value per
      distinct column, in column order. */
  function Values(row: Row, columns: seq<Column>): (r: seq<Value>)
    ensures |r| == |Distinct(columns)|
  {
    var cols := Distinct(columns);
    seq(|cols|, i requires 0 <= i < |cols| => if cols[i] in row then row[cols[i]] else Nil)
  }

  /** A Ruby hash keyed by primary key. Ruby hashes remember insertion order:
      assigning to an existing key keeps its position, a new key goes last. */
  datatype Table = Table(order: seq<Value>, rows: map<Value, Row>)

  ghost predicate Valid(t: Table) {
    && NoDuplicates(t.order)
    && forall k :: k in t.order <==> k in t.rows
  }

  /** Every entry is stored under its own row's primary key. */
  ghost predicate KeyedBy(t: Table, pk: Column) {
    forall k | k in t.rows :: PrimaryKey(t.rows[k], pk) == Some(k)
  }

  const EmptyTable: Table := Table([], map[])

  /** `hash[k] = row` */
  function Put(t: Table, k: Value, row: Row): (r: Table)
    requires Valid(t)
    ensures Valid(r)
    ensures r.rows == t.rows[k := row]
    ensures k in t.rows ==> r.order == t.order
    ensures k !in t.rows ==> r.order == t.order + [k]
  {
    if k in t.rows then Table(t.order, t.rows[k := row])
    else Table(t.order + [k], t.rows[k := row])
  }

  /** `hash.values`, in insertion order. */
  function Entries(t: Table): (r: seq<Row>)
    requires Valid(t)
    ensures |r| == |t.rows| == |t.order|
    ensures forall i | 0 <= i < |r| :: r[i] == t.rows[t.order[i]]
    ensures forall k | k in t.rows :: t.rows[k] in r
    ensures forall row | row in r :: exists k | k in t.rows :: t.rows[k] == row
  {
    CardinalityOfOrder(t.order, t.rows.Keys);
    var r := seq(|t.order|, i requires 0 <= i < |t.order| => t.rows[t.order[i]]);
    assert forall k | k in t.rows :: exists i | 0 <= i < |t.order| :: t.order[i] == k && r[i] == t.rows[k];
    r
  }

  lemma {:induction false} CardinalityOfOrder(order: seq<Value>, keys: set<Value>)
    requires NoDuplicates(order)
    requires forall k :: k in order <==> k in keys
    ensures |keys| == |order|
  {
    if |order| > 0 {
      var last := order[|order| - 1];
      var init := order[..|order| - 1];
      assert forall k :: k in init <==> k in keys - {last};
      CardinalityOfOrder(init, keys - {last});
    } else {
      assert keys == {};
    }
  }
}
