/**
 * A snapshot directory as `dump_schema` (src/schema.rs) writes it and
 * `compare` reads it: the manifest `_index.json` and one `<table>.json`
 * per table, each file either missing, unparseable or holding its JSON
 * value.
 */
module Snapshots {
  import opened Order
  import opened SortedSets
  import opened Schema

  /** What reading one JSON file of a snapshot gives. */
  datatype Load<T> = Missing | Unparseable | Parsed(value: T)

  /**
   * One environment's snapshot: its `_index.json` and its `<table>.json`
   * files, keyed by table name. A table without an entry has no file; an
   * entry `Missing` says the same thing, so that `Load` serves the manifest
   * and the table files alike, and `Compare.LoadTable` reads both as the
   * same I/O error.
   */
  datatype Snapshot = Snapshot(manifest: Load<seq<string>>, tables: map<string, Load<TableSchema>>)

  /** The manifest parses and every table it lists has a file that parses. */
  predicate Complete(s: Snapshot) {
    && s.manifest.Parsed?
    && forall t :: t in s.manifest.value ==> t in s.tables && s.tables[t].Parsed?
  }

  /**
   * `dump_schema` without MySQL: `names` is the result of the table-name
   * query and `rowsOf` the rows of the three per-table queries. The
   * manifest is written first, then one file per table in ascending order.
   */
  method DumpSnapshot(names: seq<string>, rowsOf: string -> TableRows) returns (s: Snapshot)
    ensures s.manifest == Parsed(StringSet(names))
    ensures forall t :: t in s.tables <==> t in names
    ensures forall t :: t in s.tables ==> s.tables[t].Parsed? && DumpedFrom(s.tables[t].value, t, rowsOf(t))
    ensures Complete(s)
  {
    var tables := StringSet(names);
    var files: map<string, Load<TableSchema>> := map[];
    for i := 0 to |tables|
      invariant forall t :: t in files <==> t in tables[..i]
      invariant forall t :: t in files ==> files[t].Parsed? && DumpedFrom(files[t].value, t, rowsOf(t))
    {
      var tbl := tables[i];
      var ts := DumpTable(tbl, rowsOf(tbl));
      assert tables[..i + 1] == tables[..i] + [tbl];
      files := files[tbl := Parsed(ts)];
    }
    assert tables[..|tables|] == tables;
    s := Snapshot(Parsed(tables), files);
  }

  /** Reading a dumped manifest back into a `BTreeSet` changes nothing. */
  lemma ManifestReread(names: seq<string>)
    ensures StringSet(StringSet(names)) == StringSet(names)
  {
    StrLessStrictTotal();
    SortedUnique(StrLess, StringSet(StringSet(names)), StringSet(names));
  }
}
