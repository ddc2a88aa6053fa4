/**
 * The set arithmetic of `compare` (src/compare.rs) for one table present
 * in both environments, as a structured value: which columns and indexes
 * are on one side only, and how shared columns and indexes differ. The
 * report text is rendered from it in module Report.
 */
module Diff {
  import opened Wrappers
  import opened Order
  import opened SortedSets
  import opened Schema

  /** What the source puts in its index sets: `(name, columns, is_unique)`. */
  type IndexKey = (string, seq<string>, bool)

  /** Rust's tuple order: by name, then columns, then uniqueness. */
  predicate KeyLess(a: IndexKey, b: IndexKey) {
    || StrLess(a.0, b.0)
    || (a.0 == b.0 && ListLess(a.1, b.1))
    || (a.0 == b.0 && a.1 == b.1 && BoolLess(a.2, b.2))
  }

  lemma KeyLessStrictTotal()
    ensures StrictTotal(KeyLess)
  {
    StrLessStrictTotal();
    ListLessStrictTotal();
  }

  function KeyOf(ix: Index): IndexKey {
    (ix.name, ix.columns, ix.isUnique)
  }

  datatype FieldDiff =
    | TypeDiff(type1: string, type2: string)
    | NullableDiff(nullable1: bool, nullable2: bool)
    | DefaultDiff(default1: Option<string>, default2: Option<string>)

  datatype ColumnDiff = ColumnDiff(column: string, fields: seq<FieldDiff>)

  datatype IndexFieldDiff =
    | ColumnsDiff(columns1: seq<string>, columns2: seq<string>)
    | UniquenessDiff(unique1: bool, unique2: bool)

  datatype IndexDiff = IndexDiff(index: string, fields: seq<IndexFieldDiff>)

  datatype TableDiff = TableDiff(
    onlyColumns1: seq<string>,
    onlyColumns2: seq<string>,
    columnDiffs: seq<ColumnDiff>,
    onlyIndexes1: seq<IndexKey>,
    onlyIndexes2: seq<IndexKey>,
    indexDiffs: seq<IndexDiff>)

  // ---------------------------------------------------------------------
  // Columns
  // ---------------------------------------------------------------------

  function ColumnNames(cols: seq<Column>): (names: seq<string>)
    ensures |names| == |cols|
  {
    seq(|cols|, i requires 0 <= i < |cols| => cols[i].name)
  }

  /**
   * `columns.iter().map(|c| (c.name.clone(), c)).collect::<BTreeMap<_, _>>()`:
   * a column name maps to the last column of that name.
   */
  function ColumnMap(cols: seq<Column>): (m: map<string, Column>)
    ensures forall n :: n in m <==> n in ColumnNames(cols)
    decreases |cols|
  {
    if cols == [] then map[]
    else
      var prefix := cols[..|cols| - 1];
      var last := cols[|cols| - 1];
      assert cols == prefix + [last];
      assert ColumnNames(cols) == ColumnNames(prefix) + [last.name];
      ColumnMap(prefix)[last.name := last]
  }

  /** A map entry is a column of the table, filed under its own name. */
  lemma {:induction false} ColumnMapEntry(cols: seq<Column>, n: string)
    requires n in ColumnMap(cols)
    ensures ColumnMap(cols)[n].name == n && ColumnMap(cols)[n] in cols
    decreases |cols|
  {
    var prefix, last := cols[..|cols| - 1], cols[|cols| - 1];
    assert cols == prefix + [last];
    if n != last.name {
      ColumnMapEntry(prefix, n);
    }
  }

  /** Among columns sharing a name, the last one collected is the one kept. */
  lemma {:induction false} ColumnMapLastWins(cols: seq<Column>, i: int)
    requires 0 <= i < |cols|
    requires forall j :: i < j < |cols| ==> cols[j].name != cols[i].name
    ensures cols[i].name in ColumnMap(cols) && ColumnMap(cols)[cols[i].name] == cols[i]
    decreases |cols|
  {
    var prefix, last := cols[..|cols| - 1], cols[|cols| - 1];
    assert cols == prefix + [last];
    assert ColumnNames(cols)[i] == cols[i].name;
    if i < |cols| - 1 {
      assert last.name != cols[i].name;
      ColumnMapLastWins(prefix, i);
    }
  }

  /** The column names of a table, as the `BTreeSet` of the map's keys. */
  function NameSet(cols: seq<Column>): seq<string> {
    StringSet(ColumnNames(cols))
  }

  function FieldRank(f: FieldDiff): nat {
    match f
    case TypeDiff(_, _) => 0
    case NullableDiff(_, _) => 1
    case DefaultDiff(_, _) => 2
  }

  /**
   * The fields of two same-named columns that differ, in the order type,
   * nullability, default. Defaults compare as `Option`s: no default and an
   * empty default differ.
   */
  function FieldDiffs(a: Column, b: Column): (r: seq<FieldDiff>)
    ensures TypeDiff(a.dataType, b.dataType) in r <==> a.dataType != b.dataType
    ensures NullableDiff(a.isNullable, b.isNullable) in r <==> a.isNullable != b.isNullable
    ensures DefaultDiff(a.default, b.default) in r <==> a.default != b.default
    ensures forall f :: f in r ==>
              f == TypeDiff(a.dataType, b.dataType) || f == NullableDiff(a.isNullable, b.isNullable)
              || f == DefaultDiff(a.default, b.default)
    ensures forall i, j :: 0 <= i < j < |r| ==> FieldRank(r[i]) < FieldRank(r[j])
    ensures r == [] <==> a.dataType == b.dataType && a.isNullable == b.isNullable && a.default == b.default
  {
    (if a.dataType != b.dataType then [TypeDiff(a.dataType, b.dataType)] else [])
    + (if a.isNullable != b.isNullable then [NullableDiff(a.isNullable, b.isNullable)] else [])
    + (if a.default != b.default then [DefaultDiff(a.default, b.default)] else [])
  }

  /** The entries of the shared-column loop: one per shared column whose fields differ. */
  function SharedColumnDiffs(shared: seq<string>, c1: map<string, Column>, c2: map<string, Column>): seq<ColumnDiff>
    requires forall n :: n in shared ==> n in c1 && n in c2
    decreases |shared|
  {
    if shared == [] then []
    else
      var prefix := shared[..|shared| - 1];
      var n := shared[|shared| - 1];
      assert shared == prefix + [n];
      var rest := SharedColumnDiffs(prefix, c1, c2);
      var fields := FieldDiffs(c1[n], c2[n]);
      if fields != [] then rest + [ColumnDiff(n, fields)] else rest
  }

  /**
   * The shared-column loop yields an entry for a column exactly when its
   * fields differ, and that entry carries the column's field differences.
   */
  lemma {:induction false} SharedColumnDiffsEntries(shared: seq<string>, c1: map<string, Column>, c2: map<string, Column>)
    requires forall n :: n in shared ==> n in c1 && n in c2
    ensures forall d :: d in SharedColumnDiffs(shared, c1, c2) ==>
              d.column in shared && d.fields == FieldDiffs(c1[d.column], c2[d.column]) && d.fields != []
    ensures forall n :: n in shared && FieldDiffs(c1[n], c2[n]) != [] ==>
              exists d :: d in SharedColumnDiffs(shared, c1, c2) && d.column == n
    decreases |shared|
  {
    if shared != [] {
      var prefix, last := shared[..|shared| - 1], shared[|shared| - 1];
      assert shared == prefix + [last];
      SharedColumnDiffsEntries(prefix, c1, c2);
      var rest := SharedColumnDiffs(prefix, c1, c2);
      var fields := FieldDiffs(c1[last], c2[last]);
      var r := SharedColumnDiffs(shared, c1, c2);
      assert r == if fields != [] then rest + [ColumnDiff(last, fields)] else rest;
      forall n | n in shared && FieldDiffs(c1[n], c2[n]) != []
        ensures exists d: ColumnDiff :: d in r && d.column == n
      {
        if n == last {
          assert ColumnDiff(last, fields) in r;
        } else {
          assert n in prefix;
          var d :| d in rest && d.column == n;
          assert d in r;
        }
      }
    }
  }

  /** Column diffs in strictly ascending column order. */
  ghost predicate ColumnsAscending(ds: seq<ColumnDiff>) {
    forall i, j :: 0 <= i < j < |ds| ==> StrLess(ds[i].column, ds[j].column)
  }

  lemma ColumnsAscendingSnoc(ds: seq<ColumnDiff>, d: ColumnDiff)
    requires ColumnsAscending(ds)
    requires forall e :: e in ds ==> StrLess(e.column, d.column)
    ensures ColumnsAscending(ds + [d])
  {
    forall i, j | 0 <= i < j < |ds + [d]| ensures StrLess((ds + [d])[i].column, (ds + [d])[j].column) {
      if j == |ds| {
        assert (ds + [d])[i] == ds[i] && ds[i] in ds;
      }
    }
  }

  /** Shared names walked in ascending order give their entries in ascending order. */
  lemma {:induction false} SharedColumnDiffsAscending(shared: seq<string>, c1: map<string, Column>, c2: map<string, Column>)
    requires forall n :: n in shared ==> n in c1 && n in c2
    requires Sorted(StrLess, shared)
    ensures ColumnsAscending(SharedColumnDiffs(shared, c1, c2))
    decreases |shared|
  {
    if shared != [] {
      var prefix := shared[..|shared| - 1];
      var n := shared[|shared| - 1];
      assert shared == prefix + [n];
      SharedColumnDiffsAscending(prefix, c1, c2);
      var rest := SharedColumnDiffs(prefix, c1, c2);
      var fields := FieldDiffs(c1[n], c2[n]);
      if fields != [] {
        SharedColumnDiffsEntries(prefix, c1, c2);
        forall d | d in rest ensures StrLess(d.column, n) {
          var k :| 0 <= k < |prefix| && prefix[k] == d.column;
          assert shared[k] == d.column;
        }
        ColumnsAscendingSnoc(rest, ColumnDiff(n, fields));
      }
    }
  }

  // ---------------------------------------------------------------------
  // Indexes
  // ---------------------------------------------------------------------

  function KeysOf(ixs: seq<Index>): (keys: seq<IndexKey>)
    ensures |keys| == |ixs|
  {
    seq(|ixs|, i requires 0 <= i < |ixs| => KeyOf(ixs[i]))
  }

  /** The `BTreeSet` of index triples of one table. */
  function KeySet(ixs: seq<Index>): (keys: seq<IndexKey>)
    ensures Sorted(KeyLess, keys)
    ensures forall k :: k in keys <==> k in KeysOf(ixs)
  {
    KeyLessStrictTotal();
    FromSeq(KeyLess, KeysOf(ixs))
  }

  /** How two indexes differ: column sequence (order matters), then uniqueness. */
  function IndexFieldDiffs(a: IndexKey, b: IndexKey): (r: seq<IndexFieldDiff>)
    ensures ColumnsDiff(a.1, b.1) in r <==> a.1 != b.1
    ensures UniquenessDiff(a.2, b.2) in r <==> a.2 != b.2
    ensures r == [] <==> a.1 == b.1 && a.2 == b.2
  {
    (if a.1 != b.1 then [ColumnsDiff(a.1, b.1)] else [])
    + (if a.2 != b.2 then [UniquenessDiff(a.2, b.2)] else [])
  }

  /**
   * The shared-index loop as written: it runs over the triples in BOTH sets
   * and binds both sides of the comparison to the same triple.
   */
  function SharedIndexDiffs(shared: seq<IndexKey>): seq<IndexDiff>
    decreases |shared|
  {
    if shared == [] then []
    else
      var k := shared[|shared| - 1];
      var fields := IndexFieldDiffs(k, k);
      SharedIndexDiffs(shared[..|shared| - 1]) + (if fields != [] then [IndexDiff(k.0, fields)] else [])
  }

  /** The shared-index loop never reports anything. */
  lemma {:induction false} SharedIndexDiffsEmpty(shared: seq<IndexKey>)
    ensures SharedIndexDiffs(shared) == []
    decreases |shared|
  {
    if shared != [] {
      SharedIndexDiffsEmpty(shared[..|shared| - 1]);
    }
  }

  // ---------------------------------------------------------------------
  // One table
  // ---------------------------------------------------------------------

  /** Everything `compare` works out for a table present in both environments. */
  function DiffTable(ts1: TableSchema, ts2: TableSchema): TableDiff {
    var c1, c2 := ColumnMap(ts1.columns), ColumnMap(ts2.columns);
    var n1, n2 := NameSet(ts1.columns), NameSet(ts2.columns);
    var i1, i2 := KeySet(ts1.indexes), KeySet(ts2.indexes);
    TableDiff(
      Difference(StrLess, n1, n2),
      Difference(StrLess, n2, n1),
      SharedColumnDiffs(Intersection(StrLess, n1, n2), c1, c2),
      Difference(KeyLess, i1, i2),
      Difference(KeyLess, i2, i1),
      SharedIndexDiffs(Intersection(KeyLess, i1, i2)))
  }

  /**
   * The column half of a table's diff: the one-sided column names, each
   * list ascending, and a field-difference entry for exactly the shared
   * names (the last column of each name wins) whose fields differ, in
   * ascending name order.
   */
  lemma DiffTableColumns(ts1: TableSchema, ts2: TableSchema)
    ensures var d := DiffTable(ts1, ts2);
      && Sorted(StrLess, d.onlyColumns1) && Sorted(StrLess, d.onlyColumns2)
      && (forall n :: n in d.onlyColumns1 <==> n in ColumnNames(ts1.columns) && n !in ColumnNames(ts2.columns))
      && (forall n :: n in d.onlyColumns2 <==> n in ColumnNames(ts2.columns) && n !in ColumnNames(ts1.columns))
      && (forall i, j :: 0 <= i < j < |d.columnDiffs| ==> StrLess(d.columnDiffs[i].column, d.columnDiffs[j].column))
      && (forall n :: n in ColumnMap(ts1.columns) && n in ColumnMap(ts2.columns) ==>
            ((exists e :: e in d.columnDiffs && e.column == n) <==>
             FieldDiffs(ColumnMap(ts1.columns)[n], ColumnMap(ts2.columns)[n]) != []))
      && (forall e :: e in d.columnDiffs ==>
            e.column in ColumnMap(ts1.columns) && e.column in ColumnMap(ts2.columns)
            && e.fields == FieldDiffs(ColumnMap(ts1.columns)[e.column], ColumnMap(ts2.columns)[e.column]))
  {
    var n1, n2 := NameSet(ts1.columns), NameSet(ts2.columns);
    SharedColumnDiffsEntries(Intersection(StrLess, n1, n2), ColumnMap(ts1.columns), ColumnMap(ts2.columns));
    SharedColumnDiffsAscending(Intersection(StrLess, n1, n2), ColumnMap(ts1.columns), ColumnMap(ts2.columns));
  }

  /**
   * The index half: the one-sided lists are set differences of whole
   * `(name, columns, is_unique)` triples, each ascending, and no per-index
   * entry is ever produced.
   */
  lemma DiffTableIndexes(ts1: TableSchema, ts2: TableSchema)
    ensures var d := DiffTable(ts1, ts2);
      && Sorted(KeyLess, d.onlyIndexes1) && Sorted(KeyLess, d.onlyIndexes2)
      && (forall k :: k in d.onlyIndexes1 <==> k in KeysOf(ts1.indexes) && k !in KeysOf(ts2.indexes))
      && (forall k :: k in d.onlyIndexes2 <==> k in KeysOf(ts2.indexes) && k !in KeysOf(ts1.indexes))
      && d.indexDiffs == []
  {
    KeyLessStrictTotal();
    SharedIndexDiffsEmpty(Intersection(KeyLess, KeySet(ts1.indexes), KeySet(ts2.indexes)));
  }

  /**
   * An index that keeps its name but changes its column order or its
   * uniqueness is not reported as changed: its two triples land on the two
   * one-sided lists.
   */
  lemma ChangedIndexOnBothSides(ts1: TableSchema, ts2: TableSchema, name: string,
                                cols1: seq<string>, unique1: bool, cols2: seq<string>, unique2: bool)
    requires Index(name, cols1, unique1) in ts1.indexes && Index(name, cols2, unique2) in ts2.indexes
    requires cols1 != cols2 || unique1 != unique2
    requires forall ix :: ix in ts1.indexes && ix.name == name ==> ix == Index(name, cols1, unique1)
    requires forall ix :: ix in ts2.indexes && ix.name == name ==> ix == Index(name, cols2, unique2)
    ensures (name, cols1, unique1) in DiffTable(ts1, ts2).onlyIndexes1
    ensures (name, cols2, unique2) in DiffTable(ts1, ts2).onlyIndexes2
  {
    DiffTableIndexes(ts1, ts2);
    var i :| 0 <= i < |ts1.indexes| && ts1.indexes[i] == Index(name, cols1, unique1);
    assert KeysOf(ts1.indexes)[i] == (name, cols1, unique1);
    var j :| 0 <= j < |ts2.indexes| && ts2.indexes[j] == Index(name, cols2, unique2);
    assert KeysOf(ts2.indexes)[j] == (name, cols2, unique2);
    assert (name, cols1, unique1) !in KeysOf(ts2.indexes) by {
      forall m | 0 <= m < |ts2.indexes| ensures KeysOf(ts2.indexes)[m] != (name, cols1, unique1) {
        assert ts2.indexes[m] in ts2.indexes;
      }
    }
    assert (name, cols2, unique2) !in KeysOf(ts1.indexes) by {
      forall m | 0 <= m < |ts1.indexes| ensures KeysOf(ts1.indexes)[m] != (name, cols2, unique2) {
        assert ts1.indexes[m] in ts1.indexes;
      }
    }
  }

  // ---------------------------------------------------------------------
  // A table against itself
  // ---------------------------------------------------------------------

  /** A sequence with no elements is empty. */
  lemma NoElements<T>(s: seq<T>)
    ensures (forall y :: y !in s) ==> s == []
  {
    if s != [] {
      assert s[0] in s;
    }
  }

  lemma {:induction false} SharedColumnDiffsSame(shared: seq<string>, c: map<string, Column>)
    requires forall n :: n in shared ==> n in c
    ensures SharedColumnDiffs(shared, c, c) == []
    decreases |shared|
  {
    if shared != [] {
      SharedColumnDiffsSame(shared[..|shared| - 1], c);
    }
  }

  /** A table compared with itself has no difference of any kind. */
  lemma DiffTableSame(ts: TableSchema)
    ensures DiffTable(ts, ts) == TableDiff([], [], [], [], [], [])
  {
    KeyLessStrictTotal();
    var d := DiffTable(ts, ts);
    NoElements(d.onlyColumns1);
    NoElements(d.onlyColumns2);
    NoElements(d.onlyIndexes1);
    NoElements(d.onlyIndexes2);
    var n := NameSet(ts.columns);
    SharedColumnDiffsSame(Intersection(StrLess, n, n), ColumnMap(ts.columns));
    SharedIndexDiffsEmpty(Intersection(KeyLess, KeySet(ts.indexes), KeySet(ts.indexes)));
  }

  // ---------------------------------------------------------------------
  // The two tables the other way round
  // ---------------------------------------------------------------------

  function FlipField(f: FieldDiff): FieldDiff {
    match f
    case TypeDiff(t1, t2) => TypeDiff(t2, t1)
    case NullableDiff(n1, n2) => NullableDiff(n2, n1)
    case DefaultDiff(d1, d2) => DefaultDiff(d2, d1)
  }

  function FlipFields(fs: seq<FieldDiff>): seq<FieldDiff> {
    seq(|fs|, i requires 0 <= i < |fs| => FlipField(fs[i]))
  }

  function FlipColumnDiffs(ds: seq<ColumnDiff>): seq<ColumnDiff> {
    seq(|ds|, i requires 0 <= i < |ds| => ColumnDiff(ds[i].column, FlipFields(ds[i].fields)))
  }

  function FlipIndexField(f: IndexFieldDiff): IndexFieldDiff {
    match f
    case ColumnsDiff(c1, c2) => ColumnsDiff(c2, c1)
    case UniquenessDiff(u1, u2) => UniquenessDiff(u2, u1)
  }

  function FlipIndexDiffs(ds: seq<IndexDiff>): seq<IndexDiff> {
    seq(|ds|, i requires 0 <= i < |ds| =>
      IndexDiff(ds[i].index, seq(|ds[i].fields|, j requires 0 <= j < |ds[i].fields| => FlipIndexField(ds[i].fields[j]))))
  }

  /** The diff seen from the other side: one-sided lists exchanged, every field pair flipped. */
  function Swapped(d: TableDiff): TableDiff {
    TableDiff(d.onlyColumns2, d.onlyColumns1, FlipColumnDiffs(d.columnDiffs),
              d.onlyIndexes2, d.onlyIndexes1, FlipIndexDiffs(d.indexDiffs))
  }

  lemma SharedColumnDiffsSnoc(shared: seq<string>, n: string, c1: map<string, Column>, c2: map<string, Column>)
    requires forall m :: m in shared + [n] ==> m in c1 && m in c2
    ensures SharedColumnDiffs(shared + [n], c1, c2) == SharedColumnDiffs(shared, c1, c2)
      + (if FieldDiffs(c1[n], c2[n]) != [] then [ColumnDiff(n, FieldDiffs(c1[n], c2[n]))] else [])
  {
    assert (shared + [n])[..|shared|] == shared;
  }

  lemma FieldDiffsSwap(a: Column, b: Column)
    ensures FieldDiffs(b, a) == FlipFields(FieldDiffs(a, b))
  {
  }

  lemma FlipColumnDiffsAppend(xs: seq<ColumnDiff>, ys: seq<ColumnDiff>)
    ensures FlipColumnDiffs(xs + ys) == FlipColumnDiffs(xs) + FlipColumnDiffs(ys)
  {
  }

  lemma {:induction false} SharedColumnDiffsSwap(shared: seq<string>, c1: map<string, Column>, c2: map<string, Column>)
    requires forall n :: n in shared ==> n in c1 && n in c2
    ensures SharedColumnDiffs(shared, c2, c1) == FlipColumnDiffs(SharedColumnDiffs(shared, c1, c2))
    decreases |shared|
  {
    if shared != [] {
      var prefix := shared[..|shared| - 1];
      var n := shared[|shared| - 1];
      assert shared == prefix + [n];
      SharedColumnDiffsSnoc(prefix, n, c1, c2);
      SharedColumnDiffsSnoc(prefix, n, c2, c1);
      SharedColumnDiffsSwap(prefix, c1, c2);
      FieldDiffsSwap(c1[n], c2[n]);
      var fields := FieldDiffs(c1[n], c2[n]);
      var last := if fields != [] then [ColumnDiff(n, fields)] else [];
      FlipColumnDiffsAppend(SharedColumnDiffs(prefix, c1, c2), last);
      assert FlipColumnDiffs(last) == if fields != [] then [ColumnDiff(n, FlipFields(fields))] else [];
    }
  }

  /** Comparing the tables the other way round gives the swapped diff. */
  lemma DiffTableSwap(ts1: TableSchema, ts2: TableSchema)
    ensures DiffTable(ts2, ts1) == Swapped(DiffTable(ts1, ts2))
  {
    StrLessStrictTotal();
    KeyLessStrictTotal();
    var d, e := DiffTable(ts1, ts2), DiffTable(ts2, ts1);
    var n1, n2 := NameSet(ts1.columns), NameSet(ts2.columns);
    IntersectionSwap(StrLess, n1, n2);
    SharedColumnDiffsSwap(Intersection(StrLess, n1, n2), ColumnMap(ts1.columns), ColumnMap(ts2.columns));
    assert e.columnDiffs == FlipColumnDiffs(d.columnDiffs);
    var i1, i2 := KeySet(ts1.indexes), KeySet(ts2.indexes);
    SharedIndexDiffsEmpty(Intersection(KeyLess, i1, i2));
    SharedIndexDiffsEmpty(Intersection(KeyLess, i2, i1));
    assert d.indexDiffs == [] && e.indexDiffs == [];
    assert e.onlyColumns1 == d.onlyColumns2 && e.onlyColumns2 == d.onlyColumns1;
    assert e.onlyIndexes1 == d.onlyIndexes2 && e.onlyIndexes2 == d.onlyIndexes1;
  }
}
