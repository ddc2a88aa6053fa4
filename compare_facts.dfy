/**
 * What `compare` (src/compare.rs) promises about its report, proved of
 * the value it computes: which sections appear and in what order, what
 * the Summary says, when the comparison fails and with which error, what
 * changes when the two environments change places, and what a snapshot
 * compared with itself gives.
 */
module CompareFacts {
  import opened Wrappers
  import opened Order
  import opened SortedSets
  import opened Schema
  import opened Diff
  import opened Report
  import opened Snapshots
  import opened Compare

  /** The tables listed in manifest `m1` and not in `m2`, ascending, each once. */
  function OnlyIn(m1: seq<string>, m2: seq<string>): (r: seq<string>)
    ensures Sorted(StrLess, r)
    ensures forall t :: t in r <==> t in m1 && t !in m2
  {
    Difference(StrLess, StringSet(m1), StringSet(m2))
  }

  /** Both files of `t` load. */
  predicate Loads(s1: Snapshot, s2: Snapshot, t: string) {
    LoadTable(s1, t).Ok? && LoadTable(s2, t).Ok?
  }

  /** The error of the first of `t`'s two files that does not load: `env1`'s side is opened first. */
  function LoadFailure(s1: Snapshot, s2: Snapshot, t: string): CompareError
    requires !Loads(s1, s2, t)
  {
    if LoadTable(s1, t).Err? then LoadTable(s1, t).error else LoadTable(s2, t).error
  }

  // ---------------------------------------------------------------------
  // The table sections
  // ---------------------------------------------------------------------

  /** The loads succeed exactly when every listed table loads on both sides, one pair per table, in order. */
  lemma {:induction false} LoadPairsOk(s1: Snapshot, s2: Snapshot, tables: seq<string>)
    ensures LoadPairs(s1, s2, tables).Ok? <==> forall t :: t in tables ==> Loads(s1, s2, t)
    ensures LoadPairs(s1, s2, tables).Ok? ==>
      forall k :: 0 <= k < |tables| && Loads(s1, s2, tables[k]) ==>
        LoadPairs(s1, s2, tables).value[k] == Pair(tables[k], LoadTable(s1, tables[k]).value, LoadTable(s2, tables[k]).value)
    decreases |tables|
  {
    if tables != [] {
      var prefix := tables[..|tables| - 1];
      var t := tables[|tables| - 1];
      assert tables == prefix + [t];
      LoadPairsOk(s1, s2, prefix);
      LoadPairsSnoc(s1, s2, prefix, t);
      assert forall x :: x in tables <==> x in prefix || x == t;
      var r := LoadPairs(s1, s2, tables);
      assert r.Ok? <==> LoadPairs(s1, s2, prefix).Ok? && Loads(s1, s2, t);
    }
  }

  /**
   * A failure is the failure of the first table, in list order, that does
   * not load: the error is that table's kind of failure (the error itself
   * does not name the table).
   */
  lemma {:induction false} LoadPairsErr(s1: Snapshot, s2: Snapshot, tables: seq<string>)
    requires LoadPairs(s1, s2, tables).Err?
    ensures exists k ::
              && 0 <= k < |tables| && (forall j :: 0 <= j < k ==> Loads(s1, s2, tables[j]))
              && !Loads(s1, s2, tables[k]) && LoadPairs(s1, s2, tables).error == LoadFailure(s1, s2, tables[k])
    decreases |tables|
  {
    var prefix := tables[..|tables| - 1];
    var t := tables[|tables| - 1];
    assert tables == prefix + [t];
    LoadPairsSnoc(s1, s2, prefix, t);
    var err := LoadPairs(s1, s2, tables).error;
    if LoadPairs(s1, s2, prefix).Err? {
      LoadPairsErr(s1, s2, prefix);
      var k :|
        && 0 <= k < |prefix| && (forall j :: 0 <= j < k ==> Loads(s1, s2, prefix[j]))
        && !Loads(s1, s2, prefix[k]) && LoadPairs(s1, s2, prefix).error == LoadFailure(s1, s2, prefix[k]);
      assert err == LoadPairs(s1, s2, prefix).error;
      assert forall j :: 0 <= j <= k ==> tables[j] == prefix[j];
      FirstFailureAt(s1, s2, tables, k);
    } else {
      LoadPairsOk(s1, s2, prefix);
      var k := |tables| - 1;
      assert forall j :: 0 <= j < k ==> tables[j] in prefix;
      assert !Loads(s1, s2, tables[k]) && err == LoadFailure(s1, s2, tables[k]);
      FirstFailureAt(s1, s2, tables, k);
    }
  }

  /** Packs a witness of `LoadPairsErr`'s conclusion. */
  lemma FirstFailureAt(s1: Snapshot, s2: Snapshot, tables: seq<string>, k: int)
    requires LoadPairs(s1, s2, tables).Err?
    requires 0 <= k < |tables| && (forall j :: 0 <= j < k ==> Loads(s1, s2, tables[j]))
    requires !Loads(s1, s2, tables[k]) && LoadPairs(s1, s2, tables).error == LoadFailure(s1, s2, tables[k])
    ensures exists k ::
              && 0 <= k < |tables| && (forall j :: 0 <= j < k ==> Loads(s1, s2, tables[j]))
              && !Loads(s1, s2, tables[k]) && LoadPairs(s1, s2, tables).error == LoadFailure(s1, s2, tables[k])
  {
  }

  // ---------------------------------------------------------------------
  // The report
  // ---------------------------------------------------------------------

  /**
   * The comparison succeeds exactly when both manifests parse and every
   * table listed in both loads on both sides; tables listed on one side
   * only are never opened.
   */
  lemma CompareOk(env1: string, env2: string, s1: Snapshot, s2: Snapshot)
    ensures ReportSections(env1, env2, s1, s2).Ok? <==>
      && s1.manifest.Parsed? && s2.manifest.Parsed?
      && forall t :: t in s1.manifest.value && t in s2.manifest.value ==> Loads(s1, s2, t)
  {
    if s1.manifest.Parsed? && s2.manifest.Parsed? {
      var t1, t2 := StringSet(s1.manifest.value), StringSet(s2.manifest.value);
      LoadPairsOk(s1, s2, Common(t1, t2));
    }
  }

  /**
   * With both manifests parsed, a failing comparison stops at the first
   * table, in ascending name order among those listed in both, that does
   * not load, and returns that table's kind of failure.
   */
  lemma CompareFailsAtFirstTable(env1: string, env2: string, s1: Snapshot, s2: Snapshot)
    requires s1.manifest.Parsed? && s2.manifest.Parsed?
    requires ReportSections(env1, env2, s1, s2).Err?
    ensures var common := Common(StringSet(s1.manifest.value), StringSet(s2.manifest.value));
      exists k ::
        && 0 <= k < |common| && (forall j :: 0 <= j < k ==> Loads(s1, s2, common[j]))
        && !Loads(s1, s2, common[k]) && ReportSections(env1, env2, s1, s2).error == LoadFailure(s1, s2, common[k])
  {
    var common := Common(StringSet(s1.manifest.value), StringSet(s2.manifest.value));
    LoadPairsErr(s1, s2, common);
  }

  /**
   * The Summary section comes first. Its body lists the tables of each
   * side the other lacks, and it is empty exactly when both manifests
   * list the same tables.
   */
  lemma SummaryOfCompare(env1: string, env2: string, s1: Snapshot, s2: Snapshot)
    requires ReportSections(env1, env2, s1, s2).Ok?
    ensures var out, m1, m2 := ReportSections(env1, env2, s1, s2).value, s1.manifest.value, s2.manifest.value;
      && out[0] == HtmlSection(SummaryTitle, SummaryBody(env1, env2, OnlyIn(m1, m2), OnlyIn(m2, m1)))
      && (out[0].body == "" <==> forall t :: t in m1 <==> t in m2)
  {
    var m1, m2 := s1.manifest.value, s2.manifest.value;
    NoElements(OnlyIn(m1, m2));
    NoElements(OnlyIn(m2, m1));
    if OnlyIn(m1, m2) != [] {
      assert OnlyIn(m1, m2)[0] in OnlyIn(m1, m2);
    }
    if OnlyIn(m2, m1) != [] {
      assert OnlyIn(m2, m1)[0] in OnlyIn(m2, m1);
    }
  }

  /** A successful comparison has one section after the Summary per table listed in both manifests. */
  lemma SectionCount(env1: string, env2: string, s1: Snapshot, s2: Snapshot)
    requires ReportSections(env1, env2, s1, s2).Ok?
    ensures s1.manifest.Parsed? && s2.manifest.Parsed?
    ensures |ReportSections(env1, env2, s1, s2).value|
            == 1 + |Common(StringSet(s1.manifest.value), StringSet(s2.manifest.value))|
  {
    CompareSections(env1, env2, s1, s2);
  }

  /** Section `k` of a successful comparison is the diff of the `k`-th common table, whose files both parsed. */
  lemma SectionAt(env1: string, env2: string, s1: Snapshot, s2: Snapshot, k: int)
    requires ReportSections(env1, env2, s1, s2).Ok?
    requires 1 <= k < |ReportSections(env1, env2, s1, s2).value|
    ensures s1.manifest.Parsed? && s2.manifest.Parsed?
    ensures var common := Common(StringSet(s1.manifest.value), StringSet(s2.manifest.value));
      var out, t := ReportSections(env1, env2, s1, s2).value, common[k - 1];
      && t in s1.tables && s1.tables[t].Parsed? && t in s2.tables && s2.tables[t].Parsed?
      && out[k] == HtmlSection(t, TableBody(env1, env2, DiffTable(s1.tables[t].value, s2.tables[t].value)))
  {
    var t1, t2 := StringSet(s1.manifest.value), StringSet(s2.manifest.value);
    var common := Common(t1, t2);
    CompareSections(env1, env2, s1, s2);
    LoadPairsOk(s1, s2, common);
    var pairs := LoadPairs(s1, s2, common).value;
    var t := common[k - 1];
    assert t in common;
    assert pairs[k - 1] == Pair(t, LoadTable(s1, t).value, LoadTable(s2, t).value);
    AfterFirst(SummarySection(env1, env2, t1, t2), Render(env1, env2, pairs), k);
  }

  /** Section `k` of a successful comparison is titled with the `k`-th common table. */
  lemma TitleAt(env1: string, env2: string, s1: Snapshot, s2: Snapshot, k: int)
    requires ReportSections(env1, env2, s1, s2).Ok?
    requires 1 <= k < |ReportSections(env1, env2, s1, s2).value|
    ensures s1.manifest.Parsed? && s2.manifest.Parsed?
    ensures ReportSections(env1, env2, s1, s2).value[k].title
            == Common(StringSet(s1.manifest.value), StringSet(s2.manifest.value))[k - 1]
  {
    var t1, t2 := StringSet(s1.manifest.value), StringSet(s2.manifest.value);
    CompareSections(env1, env2, s1, s2);
    var rendered := Render(env1, env2, LoadPairs(s1, s2, Common(t1, t2)).value);
    AfterFirst(SummarySection(env1, env2, t1, t2), rendered, k);
  }

  lemma AfterFirst<T>(x: T, s: seq<T>, k: int)
    requires 1 <= k <= |s|
    ensures ([x] + s)[k] == s[k - 1]
  {
  }

  /**
   * After the Summary, one section per table listed in both manifests,
   * in ascending name order, each titled with the table's name.
   */
  lemma TableTitlesOfCompare(env1: string, env2: string, s1: Snapshot, s2: Snapshot)
    requires ReportSections(env1, env2, s1, s2).Ok?
    ensures var out, m1, m2 := ReportSections(env1, env2, s1, s2).value, s1.manifest.value, s2.manifest.value;
      && (forall k :: 1 <= k < |out| ==> out[k].title in m1 && out[k].title in m2)
      && (forall t :: t in m1 && t in m2 ==> exists k :: 1 <= k < |out| && out[k].title == t)
      && (forall k, l :: 1 <= k < l < |out| ==> StrLess(out[k].title, out[l].title))
  {
    var m1, m2 := s1.manifest.value, s2.manifest.value;
    var common := Common(StringSet(m1), StringSet(m2));
    var out := ReportSections(env1, env2, s1, s2).value;
    TitlesAre(env1, env2, s1, s2);
    forall k, l | 1 <= k < l < |out| ensures StrLess(out[k].title, out[l].title) {
      assert out[k].title == common[k - 1] && out[l].title == common[l - 1];
    }
    forall k | 1 <= k < |out| ensures out[k].title in m1 && out[k].title in m2 {
      assert out[k].title == common[k - 1] && common[k - 1] in common;
    }
    forall t | t in m1 && t in m2
      ensures exists k :: 1 <= k < |out| && out[k].title == t
    {
      var j :| 0 <= j < |common| && common[j] == t;
      assert out[j + 1].title == t;
    }
  }

  /** The titles after the Summary are the common tables, one for one. */
  lemma TitlesAre(env1: string, env2: string, s1: Snapshot, s2: Snapshot)
    requires ReportSections(env1, env2, s1, s2).Ok?
    ensures s1.manifest.Parsed? && s2.manifest.Parsed?
    ensures var out, common := ReportSections(env1, env2, s1, s2).value,
                               Common(StringSet(s1.manifest.value), StringSet(s2.manifest.value));
      && |out| == 1 + |common|
      && forall k :: 1 <= k < |out| ==> out[k].title == common[k - 1]
  {
    SectionCount(env1, env2, s1, s2);
    var out := ReportSections(env1, env2, s1, s2).value;
    forall k | 1 <= k < |out|
      ensures out[k].title == Common(StringSet(s1.manifest.value), StringSet(s2.manifest.value))[k - 1]
    {
      TitleAt(env1, env2, s1, s2, k);
    }
  }

  /**
   * Each table section holds the diff of the table's two files; a table
   * without any difference still has its section.
   */
  lemma TableBodiesOfCompare(env1: string, env2: string, s1: Snapshot, s2: Snapshot)
    requires ReportSections(env1, env2, s1, s2).Ok?
    ensures var out := ReportSections(env1, env2, s1, s2).value;
      forall k :: 1 <= k < |out| ==>
        var t := out[k].title;
        && t in s1.tables && s1.tables[t].Parsed? && t in s2.tables && s2.tables[t].Parsed?
        && out[k].body == TableBody(env1, env2, DiffTable(s1.tables[t].value, s2.tables[t].value))
  {
    var out := ReportSections(env1, env2, s1, s2).value;
    forall k | 1 <= k < |out|
      ensures var t := out[k].title;
        && t in s1.tables && s1.tables[t].Parsed? && t in s2.tables && s2.tables[t].Parsed?
        && out[k].body == TableBody(env1, env2, DiffTable(s1.tables[t].value, s2.tables[t].value))
    {
      SectionAt(env1, env2, s1, s2, k);
    }
  }

  /** The sections of a successful comparison: the Summary, then the rendered pairs of the common tables. */
  lemma CompareSections(env1: string, env2: string, s1: Snapshot, s2: Snapshot)
    requires ReportSections(env1, env2, s1, s2).Ok?
    ensures s1.manifest.Parsed? && s2.manifest.Parsed?
    ensures var t1, t2 := StringSet(s1.manifest.value), StringSet(s2.manifest.value);
      && LoadPairs(s1, s2, Common(t1, t2)).Ok?
      && ReportSections(env1, env2, s1, s2).value
         == [SummarySection(env1, env2, t1, t2)] + Render(env1, env2, LoadPairs(s1, s2, Common(t1, t2)).value)
  {
  }

  /**
   * Exchanging the two environments: the comparison succeeds just as
   * often, the Summary lists the same one-sided tables the other way
   * round, and every table section has the same title and the swapped diff.
   */
  lemma CompareSwap(env1: string, env2: string, s1: Snapshot, s2: Snapshot)
    requires ReportSections(env1, env2, s1, s2).Ok?
    ensures ReportSections(env2, env1, s2, s1).Ok?
    ensures var out, tuo := ReportSections(env1, env2, s1, s2).value, ReportSections(env2, env1, s2, s1).value;
      var m1, m2 := s1.manifest.value, s2.manifest.value;
      && |tuo| == |out|
      && tuo[0].body == SummaryBody(env2, env1, OnlyIn(m2, m1), OnlyIn(m1, m2))
      && forall k :: 1 <= k < |out| ==>
           var t := out[k].title;
           && t in s1.tables && s1.tables[t].Parsed? && t in s2.tables && s2.tables[t].Parsed?
           && tuo[k].title == t
           && tuo[k].body == TableBody(env2, env1, Swapped(DiffTable(s1.tables[t].value, s2.tables[t].value)))
  {
    CompareOk(env1, env2, s1, s2);
    CompareOk(env2, env1, s2, s1);
    var m1, m2 := s1.manifest.value, s2.manifest.value;
    var t1, t2 := StringSet(m1), StringSet(m2);
    StrLessStrictTotal();
    IntersectionSwap(StrLess, t1, t2);
    SectionCount(env1, env2, s1, s2);
    SectionCount(env2, env1, s2, s1);
    SummaryOfCompare(env2, env1, s2, s1);
    var out, tuo := ReportSections(env1, env2, s1, s2).value, ReportSections(env2, env1, s2, s1).value;
    forall k | 1 <= k < |out|
      ensures var t := out[k].title;
        && t in s1.tables && s1.tables[t].Parsed? && t in s2.tables && s2.tables[t].Parsed?
        && tuo[k].title == t
        && tuo[k].body == TableBody(env2, env1, Swapped(DiffTable(s1.tables[t].value, s2.tables[t].value)))
    {
      SectionAt(env1, env2, s1, s2, k);
      SectionAt(env2, env1, s2, s1, k);
      var t := Common(t1, t2)[k - 1];
      DiffTableSwap(s1.tables[t].value, s2.tables[t].value);
    }
  }

  /**
   * A complete snapshot compared with itself, under any two environment
   * names: nothing in the Summary, a section for every table, and every
   * section body is a lone newline.
   */
  lemma CompareSelf(env1: string, env2: string, s: Snapshot)
    requires Complete(s)
    ensures ReportSections(env1, env2, s, s).Ok?
    ensures var out := ReportSections(env1, env2, s, s).value;
      && |out| == 1 + |StringSet(s.manifest.value)|
      && out[0] == HtmlSection(SummaryTitle, "")
      && forall k :: 1 <= k < |out| ==> out[k].body == "\n"
  {
    CompareOk(env1, env2, s, s);
    SummaryOfCompare(env1, env2, s, s);
    var t := StringSet(s.manifest.value);
    StrLessStrictTotal();
    SortedUnique(StrLess, Common(t, t), t);
    SectionCount(env1, env2, s, s);
    var out := ReportSections(env1, env2, s, s).value;
    forall k | 1 <= k < |out| ensures out[k].body == "\n" {
      SectionAt(env1, env2, s, s, k);
      DiffTableSame(s.tables[t[k - 1]].value);
      EmptyDiffBody(env1, env2);
    }
  }
}
