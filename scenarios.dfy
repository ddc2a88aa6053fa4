/**
 * Worked cases of the comparison: each pins the general contracts to
 * concrete schemas, the way a reader of the report would check them.
 */
module Scenarios {
  import opened Wrappers
  import opened Order
  import opened SortedSets
  import opened Schema
  import opened Text
  import opened Diff
  import opened Report
  import opened Snapshots
  import opened Compare
  import opened CompareFacts

  /** A single field difference is rendered as its own text, with no separator. */
  lemma OneFieldText(f: FieldDiff)
    ensures Join(RenderFields([f]), ", ") == RenderField(f)
  {
    assert RenderFields([f]) == [RenderField(f)];
  }

  /** A column whose width changes from `varchar(10)` to `varchar(20)` is reported with its type difference alone. */
  lemma StatusWidened()
    ensures var a, b := Column("status", "varchar(10)", false, None), Column("status", "varchar(20)", false, None);
      && FieldDiffs(a, b) == [TypeDiff("varchar(10)", "varchar(20)")]
      && Join(RenderFields(FieldDiffs(a, b)), ", ") == "type varchar(10) vs varchar(20)"
  {
    var a, b := Column("status", "varchar(10)", false, None), Column("status", "varchar(20)", false, None);
    assert FieldDiffs(a, b) == [TypeDiff("varchar(10)", "varchar(20)")];
    OneFieldText(TypeDiff("varchar(10)", "varchar(20)"));
    WidenedText();
  }

  /**
   * A table whose only column `status` is widened from `varchar(10)` to
   * `varchar(20)`: nothing is one-sided, and the only entry is `status`
   * with its type difference.
   */
  lemma StatusWidenedTable(indexes: seq<Index>)
    ensures var a, b := Column("status", "varchar(10)", false, None), Column("status", "varchar(20)", false, None);
      DiffTable(TableSchema("orders", [a], [], indexes), TableSchema("orders", [b], [], indexes))
      == TableDiff([], [], [ColumnDiff("status", [TypeDiff("varchar(10)", "varchar(20)")])], [], [], [])
  {
    var a, b := Column("status", "varchar(10)", false, None), Column("status", "varchar(20)", false, None);
    var ts1, ts2 := TableSchema("orders", [a], [], indexes), TableSchema("orders", [b], [], indexes);
    var d := DiffTable(ts1, ts2);
    StatusNames(a, b);
    var c1, c2 := ColumnMap([a]), ColumnMap([b]);
    ColumnMapEntry([a], "status");
    ColumnMapEntry([b], "status");
    StatusWidened();
    assert SharedColumnDiffs(["status"], c1, c2) == [ColumnDiff("status", FieldDiffs(a, b))] by {
      assert ["status"][..0] == [];
    }
    DiffTableIndexes(ts1, ts2);
    NoElements(d.onlyIndexes1);
    NoElements(d.onlyIndexes2);
  }

  /** The name sets of the two one-column tables. */
  lemma StatusNames(a: Column, b: Column)
    requires a.name == "status" && b.name == "status"
    ensures NameSet([a]) == ["status"] && NameSet([b]) == ["status"]
    ensures Difference(StrLess, ["status"], ["status"]) == []
    ensures Intersection(StrLess, ["status"], ["status"]) == ["status"]
  {
    StrLessStrictTotal();
    assert ColumnNames([a]) == ["status"] && ColumnNames([b]) == ["status"];
    SortedUnique(StrLess, NameSet([a]), ["status"]);
    SortedUnique(StrLess, NameSet([b]), ["status"]);
    SortedUnique(StrLess, Intersection(StrLess, ["status"], ["status"]), ["status"]);
    NoElements(Difference(StrLess, ["status"], ["status"]));
  }

  lemma WidenedText()
    ensures RenderField(TypeDiff("varchar(10)", "varchar(20)")) == "type varchar(10) vs varchar(20)"
  {
  }

  /** A default going from `None` to `Some("")` alone is reported as that default difference only. */
  lemma DefaultOnly(a: Column, b: Column)
    requires a.dataType == b.dataType && a.isNullable == b.isNullable
    requires a.default == None && b.default == Some("")
    ensures FieldDiffs(a, b) == [DefaultDiff(None, Some(""))]
    ensures Join(RenderFields(FieldDiffs(a, b)), ", ") == "default None vs Some(\"\")"
  {
    assert FieldDiffs(a, b) == [DefaultDiff(None, Some(""))];
    OneFieldText(DefaultDiff(None, Some("")));
    EmptyDefaultText();
  }

  lemma EmptyDefaultText()
    ensures RenderField(DefaultDiff(None, Some(""))) == "default None vs Some(\"\")"
  {
    assert DebugOption(Some("")) == "Some(\"\")";
  }

  /** An index whose columns go from `[a, b]` to `[b, a]` lands on both one-sided lists and nowhere else. */
  lemma IndexColumnsSwapped(cols: seq<Column>)
    ensures var ts1 := TableSchema("t", cols, [], [Index("ix", ["a", "b"], false)]);
      var ts2 := TableSchema("t", cols, [], [Index("ix", ["b", "a"], false)]);
      var d := DiffTable(ts1, ts2);
      && d.onlyIndexes1 == [("ix", ["a", "b"], false)]
      && d.onlyIndexes2 == [("ix", ["b", "a"], false)]
      && d.indexDiffs == []
  {
    var ts1 := TableSchema("t", cols, [], [Index("ix", ["a", "b"], false)]);
    var ts2 := TableSchema("t", cols, [], [Index("ix", ["b", "a"], false)]);
    ChangedIndexOnBothSides(ts1, ts2, "ix", ["a", "b"], false, ["b", "a"], false);
    DiffTableIndexes(ts1, ts2);
    var d := DiffTable(ts1, ts2);
    assert KeysOf(ts1.indexes) == [("ix", ["a", "b"], false)];
    assert KeysOf(ts2.indexes) == [("ix", ["b", "a"], false)];
    KeyLessStrictTotal();
    SortedUnique(KeyLess, d.onlyIndexes1, [("ix", ["a", "b"], false)]);
    SortedUnique(KeyLess, d.onlyIndexes2, [("ix", ["b", "a"], false)]);
  }

  /** The `qa` snapshot: tables `users` and `orders`. */
  function Qa(users: TableSchema, orders: TableSchema): Snapshot {
    Snapshot(Parsed(["users", "orders"]), map["users" := Parsed(users), "orders" := Parsed(orders)])
  }

  /** The `prod` snapshot: tables `users` and `invoices`. */
  function Prod(users: TableSchema, invoices: TableSchema): Snapshot {
    Snapshot(Parsed(["users", "invoices"]), map["users" := Parsed(users), "invoices" := Parsed(invoices)])
  }

  /**
   * `qa` has `users` and `orders`, `prod` has `users` and `invoices`, and
   * `users` is the same on both: the comparison succeeds with two sections;
   * the Summary lists `orders` for `qa` and `invoices` for `prod`, and
   * `users` still gets a section, whose body is one empty line.
   */
  lemma QaAgainstProd(users: TableSchema, orders: TableSchema, invoices: TableSchema)
    ensures ReportSections("qa", "prod", Qa(users, orders), Prod(users, invoices)).Ok?
    ensures var out := ReportSections("qa", "prod", Qa(users, orders), Prod(users, invoices)).value;
      && |out| == 2
      && out[0] == HtmlSection(SummaryTitle, SummaryBody("qa", "prod", ["orders"], ["invoices"]))
      && out[1] == HtmlSection("users", "\n")
  {
    QaProdLoads(users, orders, invoices);
    QaProdSummarySection(users, orders, invoices);
    QaProdUsersSection(users, orders, invoices);
  }

  lemma QaProdLoads(users: TableSchema, orders: TableSchema, invoices: TableSchema)
    ensures ReportSections("qa", "prod", Qa(users, orders), Prod(users, invoices)).Ok?
    ensures |ReportSections("qa", "prod", Qa(users, orders), Prod(users, invoices)).value| == 2
  {
    var qa, prod := Qa(users, orders), Prod(users, invoices);
    forall t | t in qa.manifest.value && t in prod.manifest.value ensures Loads(qa, prod, t) {
      assert t == "users";
    }
    CompareOk("qa", "prod", qa, prod);
    QaProdCount(users, orders, invoices);
  }

  lemma QaProdCount(users: TableSchema, orders: TableSchema, invoices: TableSchema)
    requires ReportSections("qa", "prod", Qa(users, orders), Prod(users, invoices)).Ok?
    ensures |ReportSections("qa", "prod", Qa(users, orders), Prod(users, invoices)).value| == 2
  {
    QaProdSets();
    SectionCount("qa", "prod", Qa(users, orders), Prod(users, invoices));
  }

  lemma QaProdSummarySection(users: TableSchema, orders: TableSchema, invoices: TableSchema)
    requires ReportSections("qa", "prod", Qa(users, orders), Prod(users, invoices)).Ok?
    ensures ReportSections("qa", "prod", Qa(users, orders), Prod(users, invoices)).value[0]
            == HtmlSection(SummaryTitle, SummaryBody("qa", "prod", ["orders"], ["invoices"]))
  {
    QaProdSets();
    SummaryOfCompare("qa", "prod", Qa(users, orders), Prod(users, invoices));
  }

  lemma QaProdUsersSection(users: TableSchema, orders: TableSchema, invoices: TableSchema)
    requires ReportSections("qa", "prod", Qa(users, orders), Prod(users, invoices)).Ok?
    requires |ReportSections("qa", "prod", Qa(users, orders), Prod(users, invoices)).value| == 2
    ensures ReportSections("qa", "prod", Qa(users, orders), Prod(users, invoices)).value[1] == HtmlSection("users", "\n")
  {
    QaProdSets();
    SectionAt("qa", "prod", Qa(users, orders), Prod(users, invoices), 1);
    DiffTableSame(users);
    EmptyDiffBody("qa", "prod");
  }

  /** The table sets of the two manifests, their differences and their intersection. */
  lemma QaProdSets()
    ensures StringSet(["users", "orders"]) == ["orders", "users"]
    ensures StringSet(["users", "invoices"]) == ["invoices", "users"]
    ensures Difference(StrLess, ["orders", "users"], ["invoices", "users"]) == ["orders"]
    ensures Difference(StrLess, ["invoices", "users"], ["orders", "users"]) == ["invoices"]
    ensures Common(["orders", "users"], ["invoices", "users"]) == ["users"]
  {
    StrLessStrictTotal();
    assert StrLess("orders", "users");
    assert StrLess("invoices", "users");
    SortedUnique(StrLess, StringSet(["users", "orders"]), ["orders", "users"]);
    SortedUnique(StrLess, StringSet(["users", "invoices"]), ["invoices", "users"]);
    SortedUnique(StrLess, Common(["orders", "users"], ["invoices", "users"]), ["users"]);
    SortedUnique(StrLess, Difference(StrLess, ["orders", "users"], ["invoices", "users"]), ["orders"]);
    SortedUnique(StrLess, Difference(StrLess, ["invoices", "users"], ["orders", "users"]), ["invoices"]);
  }
}
