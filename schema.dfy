/**
 * The captured schema of one table (`Column`, `Index`, `TableSchema` in
 * src/schema.rs) and the pure and imperative steps `dump_schema` takes to
 * build one from the rows the database's `information_schema` returns.
 * The queries themselves are not modelled: their results are parameters.
 */
module Schema {
  import opened Wrappers
  import opened Order
  import opened SortedSets

  datatype Column = Column(name: string, dataType: string, isNullable: bool, default: Option<string>)

  /** `columns` keeps the index's column order; it is never sorted. */
  datatype Index = Index(name: string, columns: seq<string>, isUnique: bool)

  datatype TableSchema = TableSchema(
    name: string,
    columns: seq<Column>,
    primaryKey: seq<string>,
    indexes: seq<Index>)

  /** A row of the column query: `(column_name, column_type, is_nullable, column_default)`. */
  datatype ColumnRow = ColumnRow(name: string, columnType: string, nullable: string, columnDefault: Option<string>)

  newtype u8 = x: int | 0 <= x < 256

  /** A row of the index query: `(index_name, column_name, non_unique)`. */
  datatype IndexRow = IndexRow(indexName: string, columnName: string, nonUnique: u8)

  /** The column query's mapping closure: only the nullability string is interpreted. */
  function ColumnOf(row: ColumnRow): (c: Column)
    ensures c.isNullable <==> row.nullable == "YES"
    ensures c.name == row.name && c.dataType == row.columnType
    ensures c.default == row.columnDefault
  {
    Column(row.name, row.columnType, row.nullable == "YES", row.columnDefault)
  }

  /**
   * The manifest's `tables` is `StringSet(names)`, the table names collected
   * into a `BTreeSet`: it lists no table twice.
   */
  lemma ManifestDistinct(names: seq<string>)
    ensures forall i, j :: 0 <= i < j < |StringSet(names)| ==> StringSet(names)[i] != StringSet(names)[j]
  {
    StrLessStrictTotal();
    var tables := StringSet(names);
    forall i, j | 0 <= i < j < |tables| ensures tables[i] != tables[j] {
      SortedDistinct(StrLess, tables, i, j);
    }
  }

  // ---------------------------------------------------------------------
  // Grouping index rows into `Index` records
  // ---------------------------------------------------------------------

  function RowNames(rows: seq<IndexRow>): (names: seq<string>)
    ensures |names| == |rows|
  {
    seq(|rows|, i requires 0 <= i < |rows| => rows[i].indexName)
  }

  /** The column names of the rows for index `n`, in the order the rows arrive. */
  function ColumnsOf(rows: seq<IndexRow>, n: string): seq<string>
    decreases |rows|
  {
    if rows == [] then []
    else
      var last := rows[|rows| - 1];
      ColumnsOf(rows[..|rows| - 1], n) + (if last.indexName == n then [last.columnName] else [])
  }

  /** The position of the first row for index `n`. */
  function FirstRow(rows: seq<IndexRow>, n: string): (i: nat)
    requires n in RowNames(rows)
    ensures i < |rows| && rows[i].indexName == n
    ensures forall j :: 0 <= j < i ==> rows[j].indexName != n
    decreases |rows|
  {
    if rows[0].indexName == n then 0
    else
      assert n in RowNames(rows[1..]) by {
        var k :| 0 <= k < |rows| && RowNames(rows)[k] == n;
        assert RowNames(rows[1..])[k - 1] == n;
      }
      1 + FirstRow(rows[1..], n)
  }

  /** Whether index `n` is unique, read off its first row (`non_unique == 0`). */
  function FirstUnique(rows: seq<IndexRow>, n: string): bool
    requires n in RowNames(rows)
  {
    rows[FirstRow(rows, n)].nonUnique == 0
  }

  /**
   * What `dump_schema` produces from the index rows: one `Index` per index
   * name, in ascending name order (the `BTreeMap`'s order), holding its
   * rows' columns in arrival order and the uniqueness of its first row.
   */
  function Grouped(rows: seq<IndexRow>): (indexes: seq<Index>)
  {
    var names := StringSet(RowNames(rows));
    seq(|names|, k requires 0 <= k < |names| =>
      Index(names[k], ColumnsOf(rows, names[k]), FirstUnique(rows, names[k])))
  }

  /**
   * After the rows `rows`: `keys` is the `BTreeMap`'s key order and `idxMap`
   * maps each index name to its columns so far and its uniqueness.
   */
  ghost predicate Grouping(rows: seq<IndexRow>, keys: seq<string>, idxMap: map<string, (seq<string>, bool)>) {
    && Sorted(StrLess, keys)
    && (forall n :: n in keys <==> n in RowNames(rows))
    && (forall n :: n in idxMap <==> n in keys)
    && (forall n :: n in idxMap ==> idxMap[n] == (ColumnsOf(rows, n), FirstUnique(rows, n)))
  }

  /**
   * The index-row loop: `entry(name).or_insert((vec![], non_unique == 0))`
   * then a push of the row's column, followed by the map's conversion into
   * `Vec<Index>`. `idxMap` is the `BTreeMap`; `keys` is the ascending order
   * it iterates its keys in.
   */
  method GroupIndexes(rows: seq<IndexRow>) returns (indexes: seq<Index>)
    ensures indexes == Grouped(rows)
  {
    var keys, idxMap := IndexMap(rows);
    StrLessStrictTotal();
    SortedUnique(StrLess, keys, StringSet(RowNames(rows)));
    indexes := seq(|keys|, k requires 0 <= k < |keys| => Index(keys[k], idxMap[keys[k]].0, idxMap[keys[k]].1));
  }

  /** The loop that fills the `BTreeMap`, one row at a time. */
  method IndexMap(rows: seq<IndexRow>) returns (keys: seq<string>, idxMap: map<string, (seq<string>, bool)>)
    ensures Grouping(rows, keys, idxMap)
  {
    StrLessStrictTotal();
    keys, idxMap := [], map[];
    for i := 0 to |rows|
      invariant Grouping(rows[..i], keys, idxMap)
    {
      var row := rows[i];
      var entry := if row.indexName in idxMap then idxMap[row.indexName] else ([], row.nonUnique == 0);
      var keys' := if row.indexName in idxMap then keys else Insert(StrLess, keys, row.indexName);
      var idxMap' := idxMap[row.indexName := (entry.0 + [row.columnName], entry.1)];
      AbsorbNextRow(rows, i, keys, idxMap, keys', idxMap');
      keys, idxMap := keys', idxMap';
    }
    assert rows[..|rows|] == rows;
  }

  /** Row `i` absorbed into the grouping of the rows before it. */
  lemma {:induction false} AbsorbNextRow(rows: seq<IndexRow>, i: int,
                       keys: seq<string>, idxMap: map<string, (seq<string>, bool)>,
                       keys': seq<string>, idxMap': map<string, (seq<string>, bool)>)
    requires StrictTotal(StrLess) && 0 <= i < |rows|
    requires Grouping(rows[..i], keys, idxMap)
    requires keys' == if rows[i].indexName in idxMap then keys else Insert(StrLess, keys, rows[i].indexName)
    requires idxMap' == idxMap[rows[i].indexName :=
      ((if rows[i].indexName in idxMap then idxMap[rows[i].indexName].0 else []) + [rows[i].columnName],
       if rows[i].indexName in idxMap then idxMap[rows[i].indexName].1 else rows[i].nonUnique == 0)]
    ensures Grouping(rows[..i + 1], keys', idxMap')
  {
    AbsorbRow(rows[..i], rows[i], keys, idxMap, keys', idxMap');
    PrefixSnoc(rows, i);
    GroupingOfEqual(rows[..i] + [rows[i]], rows[..i + 1], keys', idxMap');
  }

  /** Extending a prefix of the rows by the next row. */
  lemma PrefixSnoc(rows: seq<IndexRow>, i: int)
    requires 0 <= i < |rows|
    ensures rows[..i] + [rows[i]] == rows[..i + 1]
  {
  }

  /** `Grouping` depends on the rows only through their value. */
  lemma GroupingOfEqual(rows: seq<IndexRow>, rows': seq<IndexRow>,
                        keys: seq<string>, idxMap: map<string, (seq<string>, bool)>)
    requires rows == rows' && Grouping(rows, keys, idxMap)
    ensures Grouping(rows', keys, idxMap)
  {
  }

  /** One iteration of the index-row loop keeps `Grouping`. */
  lemma AbsorbRow(rows: seq<IndexRow>, row: IndexRow,
                  keys: seq<string>, idxMap: map<string, (seq<string>, bool)>,
                  keys': seq<string>, idxMap': map<string, (seq<string>, bool)>)
    requires StrictTotal(StrLess)
    requires Grouping(rows, keys, idxMap)
    requires keys' == if row.indexName in idxMap then keys else Insert(StrLess, keys, row.indexName)
    requires idxMap' == idxMap[row.indexName :=
      ((if row.indexName in idxMap then idxMap[row.indexName].0 else []) + [row.columnName],
       if row.indexName in idxMap then idxMap[row.indexName].1 else row.nonUnique == 0)]
    ensures Grouping(rows + [row], keys', idxMap')
  {
    var longer := rows + [row];
    assert RowNames(longer) == RowNames(rows) + [row.indexName];
    assert forall n :: n in RowNames(longer) <==> n in RowNames(rows) || n == row.indexName;
    assert forall n :: n in keys' <==> n in keys || n == row.indexName;
    assert forall n :: n in idxMap' <==> n in idxMap || n == row.indexName;
    AbsorbEntries(rows, row, idxMap, idxMap');
  }

  /** The map half of `AbsorbRow`: every entry matches the longer row sequence. */
  lemma AbsorbEntries(rows: seq<IndexRow>, row: IndexRow,
                      idxMap: map<string, (seq<string>, bool)>, idxMap': map<string, (seq<string>, bool)>)
    requires forall n :: n in idxMap <==> n in RowNames(rows)
    requires forall n :: n in idxMap ==> idxMap[n] == (ColumnsOf(rows, n), FirstUnique(rows, n))
    requires idxMap' == idxMap[row.indexName :=
      ((if row.indexName in idxMap then idxMap[row.indexName].0 else []) + [row.columnName],
       if row.indexName in idxMap then idxMap[row.indexName].1 else row.nonUnique == 0)]
    ensures forall n :: n in idxMap' ==>
      n in RowNames(rows + [row]) && idxMap'[n] == (ColumnsOf(rows + [row], n), FirstUnique(rows + [row], n))
  {
    forall n | n in idxMap'
      ensures n in RowNames(rows + [row]) && idxMap'[n] == (ColumnsOf(rows + [row], n), FirstUnique(rows + [row], n))
    {
      var e := if n in idxMap then idxMap[n] else ([], false);
      AbsorbRowEntry(rows, row, n, e, idxMap'[n]);
    }
  }

  /** One more row updates the entry of index `n` as the loop body does. */
  lemma AbsorbRowEntry(rows: seq<IndexRow>, row: IndexRow, n: string, e: (seq<string>, bool), e': (seq<string>, bool))
    requires n in RowNames(rows) || n == row.indexName
    requires n in RowNames(rows) ==> e == (ColumnsOf(rows, n), FirstUnique(rows, n))
    requires e' == if n != row.indexName then e
                   else if n in RowNames(rows) then (e.0 + [row.columnName], e.1)
                   else ([] + [row.columnName], row.nonUnique == 0)
    ensures n in RowNames(rows + [row])
    ensures e' == (ColumnsOf(rows + [row], n), FirstUnique(rows + [row], n))
  {
    AbsorbRowAt(rows, row, n);
    if n != row.indexName {
      assert ColumnsOf(rows, n) + [] == ColumnsOf(rows, n);
    } else if n !in RowNames(rows) {
      ColumnsOfAbsent(rows, n);
    }
  }

  /** What one more row does to the columns and the uniqueness of index `n`. */
  lemma AbsorbRowAt(rows: seq<IndexRow>, row: IndexRow, n: string)
    requires n in RowNames(rows) || n == row.indexName
    ensures n in RowNames(rows + [row])
    ensures ColumnsOf(rows + [row], n) == ColumnsOf(rows, n) + (if row.indexName == n then [row.columnName] else [])
    ensures FirstUnique(rows + [row], n) == if n in RowNames(rows) then FirstUnique(rows, n) else row.nonUnique == 0
  {
    var longer := rows + [row];
    assert longer[..|rows|] == rows;
    assert RowNames(longer) == RowNames(rows) + [row.indexName];
    FirstRowOfPrefix(longer, |rows|, n);
    if n in RowNames(rows) {
      assert longer[FirstRow(rows, n)] == rows[FirstRow(rows, n)];
    } else {
      assert FirstRow(longer, n) == |rows|;
    }
  }

  /** The first row for `n` in a prefix that already has a row for `n` is the first row overall. */
  lemma FirstRowOfPrefix(rows: seq<IndexRow>, k: nat, n: string)
    requires k <= |rows| && n in RowNames(rows)
    ensures FirstRow(rows, n) < k <==> n in RowNames(rows[..k])
    ensures n in RowNames(rows[..k]) ==> FirstRow(rows[..k], n) == FirstRow(rows, n)
  {
    var j := FirstRow(rows, n);
    if j < k {
      assert RowNames(rows[..k])[j] == n;
    }
    if n in RowNames(rows[..k]) {
      var i := FirstRow(rows[..k], n);
      assert rows[..k][i] == rows[i];
      assert j <= i;
      assert rows[..k][j] == rows[j];
    }
  }

  /** An index without rows has no columns. */
  lemma {:induction false} ColumnsOfAbsent(rows: seq<IndexRow>, n: string)
    requires n !in RowNames(rows)
    ensures ColumnsOf(rows, n) == []
    decreases |rows|
  {
    if rows != [] {
      var prefix := rows[..|rows| - 1];
      assert forall i :: 0 <= i < |prefix| ==> RowNames(prefix)[i] == RowNames(rows)[i];
      assert RowNames(rows)[|rows| - 1] == rows[|rows| - 1].indexName;
      ColumnsOfAbsent(prefix, n);
    }
  }

  // ---------------------------------------------------------------------
  // What the grouping promises
  // ---------------------------------------------------------------------

  /** One `Index` per distinct index name, in strictly ascending name order. */
  lemma GroupedOnePerName(rows: seq<IndexRow>)
    ensures forall k, l :: 0 <= k < l < |Grouped(rows)| ==> StrLess(Grouped(rows)[k].name, Grouped(rows)[l].name)
    ensures forall n :: n in RowNames(rows) <==> exists k :: 0 <= k < |Grouped(rows)| && Grouped(rows)[k].name == n
  {
    var names := StringSet(RowNames(rows));
    forall n | n in RowNames(rows)
      ensures exists k :: 0 <= k < |Grouped(rows)| && Grouped(rows)[k].name == n
    {
      var k :| 0 <= k < |names| && names[k] == n;
      assert Grouped(rows)[k].name == n;
    }
  }

  /** An index is unique exactly when its first row says `non_unique == 0`. */
  lemma GroupedUniqueFromFirstRow(rows: seq<IndexRow>, k: nat, i: nat)
    requires k < |Grouped(rows)|
    requires i < |rows| && rows[i].indexName == Grouped(rows)[k].name
    requires forall j :: 0 <= j < i ==> rows[j].indexName != rows[i].indexName
    ensures Grouped(rows)[k].isUnique <==> rows[i].nonUnique == 0
  {
    var n := Grouped(rows)[k].name;
    assert RowNames(rows)[i] == n;
    var f := FirstRow(rows, n);
    assert f <= i;
    assert rows[f].indexName == rows[i].indexName;
  }

  /** `ColumnsOf` over a concatenation of row batches. */
  lemma {:induction false} ColumnsOfAppend(rows: seq<IndexRow>, more: seq<IndexRow>, n: string)
    ensures ColumnsOf(rows + more, n) == ColumnsOf(rows, n) + ColumnsOf(more, n)
    decreases |more|
  {
    if more != [] {
      var all := rows + more;
      assert all[..|all| - 1] == rows + more[..|more| - 1];
      ColumnsOfAppend(rows, more[..|more| - 1], n);
    } else {
      assert rows + more == rows;
    }
  }

  /**
   * Later rows never change an index already seen: its uniqueness stays the
   * first row's, and its columns only grow at the end.
   */
  lemma GroupedStable(rows: seq<IndexRow>, more: seq<IndexRow>, n: string)
    requires n in RowNames(rows)
    ensures n in RowNames(rows + more)
    ensures FirstUnique(rows + more, n) == FirstUnique(rows, n)
    ensures ColumnsOf(rows + more, n) == ColumnsOf(rows, n) + ColumnsOf(more, n)
  {
    var all := rows + more;
    var k :| 0 <= k < |rows| && RowNames(rows)[k] == n;
    assert RowNames(all)[k] == n;
    if more == [] {
      assert all == rows;
    } else {
      assert all[..|rows|] == rows;
      FirstRowOfPrefix(all, |rows|, n);
      assert rows[FirstRow(rows, n)] == all[FirstRow(all, n)];
    }
    ColumnsOfAppend(rows, more, n);
  }

  // ---------------------------------------------------------------------
  // Every row lands in exactly one index
  // ---------------------------------------------------------------------

  function TotalColumns(indexes: seq<Index>): nat
    decreases |indexes|
  {
    if indexes == [] then 0
    else TotalColumns(indexes[..|indexes| - 1]) + |indexes[|indexes| - 1].columns|
  }

  /** How many rows the names in `names` account for. */
  function RowsCovered(rows: seq<IndexRow>, names: seq<string>): nat
    decreases |names|
  {
    if names == [] then 0
    else RowsCovered(rows, names[..|names| - 1]) + |ColumnsOf(rows, names[|names| - 1])|
  }

  function Occurrences(names: seq<string>, x: string): nat
    decreases |names|
  {
    if names == [] then 0
    else Occurrences(names[..|names| - 1], x) + (if names[|names| - 1] == x then 1 else 0)
  }

  lemma {:induction false} OccurrencesOfDistinct(names: seq<string>, x: string)
    requires forall i, j :: 0 <= i < j < |names| ==> names[i] != names[j]
    ensures Occurrences(names, x) == if x in names then 1 else 0
    decreases |names|
  {
    if names != [] {
      var prefix := names[..|names| - 1];
      assert names == prefix + [names[|names| - 1]];
      OccurrencesOfDistinct(prefix, x);
      assert forall i :: 0 <= i < |prefix| ==> prefix[i] == names[i] != names[|names| - 1];
    }
  }

  lemma {:induction false} RowsCoveredStep(rows: seq<IndexRow>, row: IndexRow, names: seq<string>)
    ensures RowsCovered(rows + [row], names) == RowsCovered(rows, names) + Occurrences(names, row.indexName)
    decreases |names|
  {
    if names != [] {
      RowsCoveredStep(rows, row, names[..|names| - 1]);
      assert (rows + [row])[..|rows|] == rows;
    }
  }

  lemma {:induction false} RowsCoveredAll(rows: seq<IndexRow>, names: seq<string>)
    requires forall i, j :: 0 <= i < j < |names| ==> names[i] != names[j]
    requires forall n :: n in RowNames(rows) ==> n in names
    ensures RowsCovered(rows, names) == |rows|
    decreases |rows|
  {
    if rows == [] {
      RowsCoveredEmpty(names);
    } else {
      var prefix := rows[..|rows| - 1];
      var row := rows[|rows| - 1];
      assert rows == prefix + [row];
      forall n | n in RowNames(prefix) ensures n in names {
        var i :| 0 <= i < |prefix| && RowNames(prefix)[i] == n;
        assert RowNames(rows)[i] == n;
      }
      RowsCoveredAll(prefix, names);
      RowsCoveredStep(prefix, row, names);
      assert RowNames(rows)[|rows| - 1] == row.indexName;
      OccurrencesOfDistinct(names, row.indexName);
    }
  }

  lemma {:induction false} RowsCoveredEmpty(names: seq<string>)
    ensures RowsCovered([], names) == 0
    decreases |names|
  {
    if names != [] {
      RowsCoveredEmpty(names[..|names| - 1]);
    }
  }

  lemma {:induction false} TotalColumnsOfGrouping(rows: seq<IndexRow>, indexes: seq<Index>, names: seq<string>)
    requires |indexes| == |names|
    requires forall k :: 0 <= k < |names| ==> indexes[k].columns == ColumnsOf(rows, names[k])
    ensures TotalColumns(indexes) == RowsCovered(rows, names)
    decreases |names|
  {
    if names != [] {
      TotalColumnsOfGrouping(rows, indexes[..|indexes| - 1], names[..|names| - 1]);
    }
  }

  /** The grouped indexes hold exactly as many columns as there were rows. */
  lemma GroupedKeepsEveryRow(rows: seq<IndexRow>)
    ensures TotalColumns(Grouped(rows)) == |rows|
  {
    var names := StringSet(RowNames(rows));
    TotalColumnsOfGrouping(rows, Grouped(rows), names);
    ManifestDistinct(RowNames(rows));
    RowsCoveredAll(rows, names);
  }

  // ---------------------------------------------------------------------
  // One table's schema
  // ---------------------------------------------------------------------

  /** The result rows of the three per-table queries. */
  datatype TableRows = TableRows(columns: seq<ColumnRow>, primaryKey: seq<string>, indexes: seq<IndexRow>)

  /** `ts` is what `dump_schema` builds for table `tbl` from its query rows. */
  predicate DumpedFrom(ts: TableSchema, tbl: string, rows: TableRows) {
    && ts.name == tbl
    && |ts.columns| == |rows.columns|
    && (forall i :: 0 <= i < |rows.columns| ==> ts.columns[i] == ColumnOf(rows.columns[i]))
    && ts.primaryKey == rows.primaryKey
    && ts.indexes == Grouped(rows.indexes)
  }

  /** The loop body of `dump_schema` for one table, before serialisation. */
  method DumpTable(tbl: string, rows: TableRows) returns (ts: TableSchema)
    ensures DumpedFrom(ts, tbl, rows)
  {
    var cols := seq(|rows.columns|, i requires 0 <= i < |rows.columns| => ColumnOf(rows.columns[i]));
    var indexes := GroupIndexes(rows.indexes);
    ts := TableSchema(tbl, cols, rows.primaryKey, indexes);
  }
}
