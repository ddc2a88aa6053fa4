/**
 * `compare` (src/compare.rs): loads two snapshots, builds the Summary
 * section and one section per table listed in both manifests, and renders
 * the HTML report. A snapshot directory is an in-memory value; opening a
 * file that is not there and parsing a file that does not hold the
 * expected JSON are the two ways a load fails.
 */
module Compare {
  import opened Wrappers
  import opened Order
  import opened SortedSets
  import opened Schema
  import opened Text
  import opened Diff
  import opened Report
  import opened Snapshots

  /**
   * Why `compare` stops. A file that is not there gives the I/O error of
   * `File::open`, which names no file, table or environment; a manifest that
   * does not parse gives "No dump for env"; a table file that does not
   * parse gives serde's message with a line and a column, but no file or
   * table name. So a missing manifest and a missing table file fail alike,
   * and two malformed table files cannot be told apart by file.
   */
  datatype CompareError = NotFound | NoDump(env: string) | Malformed

  /** What `compare` produces: the sections in push order and the document written to disk. */
  datatype Outcome = Outcome(sections: seq<HtmlSection>, html: string)

  /** Reading `_index.json`: the `?` on `File::open` comes before the `map_err`. */
  function LoadManifest(env: string, s: Snapshot): (r: Result<seq<string>, CompareError>)
    ensures r == Err(NotFound) <==> s.manifest.Missing?
    ensures r == Err(NoDump(env)) <==> s.manifest.Unparseable?
    ensures r.Ok? <==> s.manifest.Parsed?
    ensures r.Ok? ==> r.value == s.manifest.value
  {
    match s.manifest
    case Missing => Err(NotFound)
    case Unparseable => Err(NoDump(env))
    case Parsed(tables) => Ok(tables)
  }

  /** Reading `<tbl>.json`; the error does not say which table failed. */
  function LoadTable(s: Snapshot, tbl: string): (r: Result<TableSchema, CompareError>)
    ensures r == Err(NotFound) <==> tbl !in s.tables || s.tables[tbl].Missing?
    ensures r == Err(Malformed) <==> tbl in s.tables && s.tables[tbl].Unparseable?
    ensures r.Ok? <==> tbl in s.tables && s.tables[tbl].Parsed?
    ensures r.Ok? ==> r.value == s.tables[tbl].value
  {
    if tbl !in s.tables then Err(NotFound)
    else match s.tables[tbl]
      case Missing => Err(NotFound)
      case Unparseable => Err(Malformed)
      case Parsed(ts) => Ok(ts)
  }

  // ---------------------------------------------------------------------
  // Specification
  // ---------------------------------------------------------------------

  function SummarySection(env1: string, env2: string, t1: seq<string>, t2: seq<string>): HtmlSection
    requires Sorted(StrLess, t1) && Sorted(StrLess, t2)
  {
    HtmlSection(SummaryTitle, SummaryBody(env1, env2, Difference(StrLess, t1, t2), Difference(StrLess, t2, t1)))
  }

  /** A table listed in both manifests, with its two parsed files. */
  datatype Pair = Pair(table: string, ts1: TableSchema, ts2: TableSchema)

  /**
   * Loading the files of `tables`, in order, `env1`'s side of each table
   * first; the first failing load ends everything.
   */
  function LoadPairs(s1: Snapshot, s2: Snapshot, tables: seq<string>): (r: Result<seq<Pair>, CompareError>)
    ensures r.Ok? ==> |r.value| == |tables| && forall k :: 0 <= k < |tables| ==> r.value[k].table == tables[k]
    decreases |tables|
  {
    if tables == [] then Ok([])
    else
      var tbl := tables[|tables| - 1];
      var before := LoadPairs(s1, s2, tables[..|tables| - 1]);
      var load1, load2 := LoadTable(s1, tbl), LoadTable(s2, tbl);
      if before.Err? then before
      else if load1.Err? then Err(load1.error)
      else if load2.Err? then Err(load2.error)
      else
        var r := before.value + [Pair(tbl, load1.value, load2.value)];
        assert forall k :: 0 <= k < |tables| - 1 ==> r[k] == before.value[k];
        Ok(r)
  }

  /** The section of one table present in both environments. */
  function TableSection(env1: string, env2: string, p: Pair): (s: HtmlSection)
    ensures s.title == p.table
  {
    HtmlSection(p.table, TableBody(env1, env2, DiffTable(p.ts1, p.ts2)))
  }

  function Render(env1: string, env2: string, pairs: seq<Pair>): (sections: seq<HtmlSection>)
    ensures |sections| == |pairs|
    ensures forall k {:trigger sections[k]} :: 0 <= k < |pairs| ==> sections[k] == TableSection(env1, env2, pairs[k])
    decreases |pairs|
  {
    if pairs == [] then []
    else
      var before := Render(env1, env2, pairs[..|pairs| - 1]);
      var r := before + [TableSection(env1, env2, pairs[|pairs| - 1])];
      assert forall k :: 0 <= k < |pairs| - 1 ==> r[k] == before[k];
      r
  }

  /** The table sections of a comparison, or the first load error. */
  function TableSections(env1: string, env2: string, s1: Snapshot, s2: Snapshot, tables: seq<string>)
    : (r: Result<seq<HtmlSection>, CompareError>)
  {
    match LoadPairs(s1, s2, tables)
    case Err(e) => Err(e)
    case Ok(pairs) => Ok(Render(env1, env2, pairs))
  }

  /** The tables listed in both manifests, ascending. */
  function Common(t1: seq<string>, t2: seq<string>): (c: seq<string>)
    requires Sorted(StrLess, t1) && Sorted(StrLess, t2)
    ensures Sorted(StrLess, c)
    ensures forall n :: n in c <==> n in t1 && n in t2
  {
    Intersection(StrLess, t1, t2)
  }

  /**
   * The sections `compare` pushes, as a value: the manifest of `env1` is
   * read before that of `env2`; then come the Summary section and, in
   * ascending name order, one section per table listed in both manifests.
   */
  function ReportSections(env1: string, env2: string, s1: Snapshot, s2: Snapshot): (r: Result<seq<HtmlSection>, CompareError>)
    ensures s1.manifest.Missing? ==> r == Err(NotFound)
    ensures s1.manifest.Unparseable? ==> r == Err(NoDump(env1))
    ensures s1.manifest.Parsed? && s2.manifest.Missing? ==> r == Err(NotFound)
    ensures s1.manifest.Parsed? && s2.manifest.Unparseable? ==> r == Err(NoDump(env2))
    ensures r.Ok? ==> s1.manifest.Parsed? && s2.manifest.Parsed?
    ensures r.Ok? ==> |r.value| >= 1 && r.value[0].title == SummaryTitle
  {
    match LoadManifest(env1, s1)
    case Err(e) => Err(e)
    case Ok(m1) =>
      match LoadManifest(env2, s2)
      case Err(e) => Err(e)
      case Ok(m2) =>
        var t1, t2 := StringSet(m1), StringSet(m2);
        match TableSections(env1, env2, s1, s2, Common(t1, t2))
        case Err(e) => Err(e)
        case Ok(tableSections) => Ok([SummarySection(env1, env2, t1, t2)] + tableSections)
  }

  // ---------------------------------------------------------------------
  // The source's loops
  // ---------------------------------------------------------------------

  /** The entries of `xs` listed in both `t1` and `t2`: what the skip in the table loop lets through. */
  function InBoth(xs: seq<string>, t1: seq<string>, t2: seq<string>): (r: seq<string>)
    ensures forall n :: n in r <==> n in xs && n in t1 && n in t2
    ensures Sorted(StrLess, xs) ==> Sorted(StrLess, r)
    decreases |xs|
  {
    if xs == [] then []
    else
      var prefix := xs[..|xs| - 1];
      var n := xs[|xs| - 1];
      assert xs == prefix + [n];
      var rest := InBoth(prefix, t1, t2);
      assert Sorted(StrLess, xs) ==> forall y :: y in rest ==> StrLess(y, n) by {
        if Sorted(StrLess, xs) {
          forall y | y in rest ensures StrLess(y, n) {
            BelowLast(xs, y);
          }
        }
      }
      if n in t1 && n in t2 then rest + [n] else rest
  }

  /** In a sorted list every entry before the last is below the last. */
  lemma BelowLast(xs: seq<string>, y: string)
    requires Sorted(StrLess, xs) && |xs| > 0 && y in xs[..|xs| - 1]
    ensures StrLess(y, xs[|xs| - 1])
  {
    var k :| 0 <= k < |xs| - 1 && xs[k] == y;
  }

  lemma {:induction false} InBothAppend(xs: seq<string>, ys: seq<string>, t1: seq<string>, t2: seq<string>)
    ensures InBoth(xs + ys, t1, t2) == InBoth(xs, t1, t2) + InBoth(ys, t1, t2)
    decreases |ys|
  {
    if ys == [] {
      assert xs + ys == xs;
    } else {
      var ys' := ys[..|ys| - 1];
      assert (xs + ys)[..|xs + ys| - 1] == xs + ys';
      InBothAppend(xs, ys', t1, t2);
    }
  }

  /** Skipping the one-sided tables of the union leaves exactly the common tables. */
  lemma UnionInBoth(t1: seq<string>, t2: seq<string>)
    requires Sorted(StrLess, t1) && Sorted(StrLess, t2)
    ensures InBoth(StringUnion(t1, t2), t1, t2) == Common(t1, t2)
  {
    StrLessStrictTotal();
    SortedUnique(StrLess, InBoth(StringUnion(t1, t2), t1, t2), Common(t1, t2));
  }

  /** Once a load has failed, the tables after it change nothing. */
  lemma {:induction false} LoadPairsErrSticky(s1: Snapshot, s2: Snapshot, xs: seq<string>, ys: seq<string>)
    requires LoadPairs(s1, s2, xs).Err?
    ensures LoadPairs(s1, s2, xs + ys) == LoadPairs(s1, s2, xs)
    decreases |ys|
  {
    if ys == [] {
      assert xs + ys == xs;
    } else {
      var ys' := ys[..|ys| - 1];
      assert (xs + ys)[..|xs + ys| - 1] == xs + ys';
      LoadPairsErrSticky(s1, s2, xs, ys');
    }
  }

  /** The Summary body, built with `+=` as the source does. */
  method SummaryText(env1: string, env2: string, only1: seq<string>, only2: seq<string>) returns (summary: string)
    ensures summary == SummaryBody(env1, env2, only1, only2)
  {
    summary := if only1 != [] then OnlyLine(env1, only1) else "";
    if only2 != [] {
      summary := summary + OnlyLine(env2, only2);
    }
  }

  /** The texts the source pushes onto `diffs` for one shared column. */
  method ColumnFieldTexts(a: Column, b: Column) returns (diffs: seq<string>)
    ensures diffs == RenderFields(FieldDiffs(a, b))
  {
    diffs := [];
    if a.dataType != b.dataType {
      diffs := diffs + [RenderField(TypeDiff(a.dataType, b.dataType))];
    }
    if a.isNullable != b.isNullable {
      diffs := diffs + [RenderField(NullableDiff(a.isNullable, b.isNullable))];
    }
    if a.default != b.default {
      diffs := diffs + [RenderField(DefaultDiff(a.default, b.default))];
    }
  }

  /** The texts the source pushes onto `diffs` for one shared index triple. */
  method IndexFieldTexts(idx: IndexKey) returns (name1: string, diffs: seq<string>)
    ensures name1 == idx.0
    ensures diffs == RenderIndexFields(IndexFieldDiffs(idx, idx))
  {
    var (n1, cols1, uniq1) := idx;
    var (_, cols2, uniq2) := idx;
    name1 := n1;
    diffs := [];
    if cols1 != cols2 {
      diffs := diffs + [RenderIndexField(ColumnsDiff(cols1, cols2))];
    }
    if uniq1 != uniq2 {
      diffs := diffs + [RenderIndexField(UniquenessDiff(uniq1, uniq2))];
    }
  }

  lemma ColumnLinesSnoc(ds: seq<ColumnDiff>, d: ColumnDiff)
    ensures ColumnLines(ds + [d]) == ColumnLines(ds) + ColumnLine(d)
  {
    assert (ds + [d])[..|ds|] == ds;
  }

  /** One more shared column adds its line exactly when its fields differ. */
  lemma SharedColumnStep(shared: seq<string>, k: int, c1: map<string, Column>, c2: map<string, Column>)
    requires forall n :: n in shared ==> n in c1 && n in c2
    requires 0 <= k < |shared|
    ensures var fields := FieldDiffs(c1[shared[k]], c2[shared[k]]);
      ColumnLines(SharedColumnDiffs(shared[..k + 1], c1, c2))
      == ColumnLines(SharedColumnDiffs(shared[..k], c1, c2))
         + (if fields != [] then ColumnLineText(shared[k], Join(RenderFields(fields), ", ")) else "")
  {
    var col := shared[k];
    assert shared[..k + 1] == shared[..k] + [col];
    SharedColumnDiffsSnoc(shared[..k], col, c1, c2);
    if FieldDiffs(c1[col], c2[col]) != [] {
      ColumnLinesSnoc(SharedColumnDiffs(shared[..k], c1, c2), ColumnDiff(col, FieldDiffs(c1[col], c2[col])));
    }
  }

  /** The shared-column loop: a line for each shared column whose fields differ. */
  method SharedColumnText(shared: seq<string>, c1: map<string, Column>, c2: map<string, Column>) returns (text: string)
    requires forall n :: n in shared ==> n in c1 && n in c2
    ensures text == ColumnLines(SharedColumnDiffs(shared, c1, c2))
  {
    text := "";
    for k := 0 to |shared|
      invariant text == ColumnLines(SharedColumnDiffs(shared[..k], c1, c2))
    {
      var col := shared[k];
      var diffs := ColumnFieldTexts(c1[col], c2[col]);
      SharedColumnStep(shared, k, c1, c2);
      if diffs != [] {
        text := text + ColumnLineText(col, Join(diffs, ", "));
      }
    }
    assert shared[..|shared|] == shared;
  }

  /** The column part of a table's section: header, one-sided lines, then the shared-column loop. */
  method ColumnText(env1: string, env2: string, ts1: TableSchema, ts2: TableSchema) returns (text: string)
    ensures text == ColumnPart(env1, env2, DiffTable(ts1, ts2))
  {
    var c1, c2 := ColumnMap(ts1.columns), ColumnMap(ts2.columns);
    var n1, n2 := NameSet(ts1.columns), NameSet(ts2.columns);
    var onlyc1 := Difference(StrLess, n1, n2);
    var onlyc2 := Difference(StrLess, n2, n1);
    // the header, then each side's "Only in" line, as the source's `if`s append them
    var header := if onlyc1 != [] || onlyc2 != [] then ColumnHeader else "";
    var line1 := if onlyc1 != [] then NestedOnlyLine(env1, DebugStrings(onlyc1)) else "";
    var line2 := if onlyc2 != [] then NestedOnlyLine(env2, DebugStrings(onlyc2)) else "";
    var lines := SharedColumnText(Intersection(StrLess, n1, n2), c1, c2);
    text := header + line1 + line2 + lines;
  }

  /**
   * The shared-index loop as written: both destructurings bind the same
   * triple, so the comparison finds nothing and the line is never added.
   */
  method SharedIndexText(shared: seq<IndexKey>) returns (text: string)
    ensures text == IndexLines(SharedIndexDiffs(shared))
  {
    text := "";
    for k := 0 to |shared|
      invariant text == IndexLines(SharedIndexDiffs(shared[..k]))
    {
      var name1, diffs := IndexFieldTexts(shared[k]);
      SharedIndexDiffsEmpty(shared[..k]);
      SharedIndexDiffsEmpty(shared[..k + 1]);
      assert IndexFieldDiffs(shared[k], shared[k]) == [];
      var line := if diffs != [] then IndexLineText(name1, Join(diffs, ", ")) else "";
      assert text == "" && line == "";
      text := text + line;
    }
    assert shared[..|shared|] == shared;
  }

  /** The index part of a table's section: header, one-sided lines, then the shared-index loop. */
  method IndexText(env1: string, env2: string, ts1: TableSchema, ts2: TableSchema) returns (text: string)
    ensures text == IndexPart(env1, env2, DiffTable(ts1, ts2))
  {
    var idx1, idx2 := KeySet(ts1.indexes), KeySet(ts2.indexes);
    var onlyidx1 := Difference(KeyLess, idx1, idx2);
    var onlyidx2 := Difference(KeyLess, idx2, idx1);
    var header := if onlyidx1 != [] || onlyidx2 != [] then IndexHeader else "";
    var line1 := if onlyidx1 != [] then NestedOnlyLine(env1, DebugKeys(onlyidx1)) else "";
    var line2 := if onlyidx2 != [] then NestedOnlyLine(env2, DebugKeys(onlyidx2)) else "";
    var lines := SharedIndexText(Intersection(KeyLess, idx1, idx2));
    text := header + line1 + line2 + lines;
  }

  /** The section body of a table present in both environments. */
  method TableText(env1: string, env2: string, ts1: TableSchema, ts2: TableSchema) returns (section: string)
    ensures section == TableBody(env1, env2, DiffTable(ts1, ts2))
  {
    var columns := ColumnText(env1, env2, ts1, ts2);
    var indexes := IndexText(env1, env2, ts1, ts2);
    section := "\n";
    section := section + columns;
    section := section + indexes;
  }

  /** One more section: its `to_html` is appended to the HTML of the ones before. */
  lemma SectionsHtmlSnoc(sections: seq<HtmlSection>, i: int)
    requires 0 <= i < |sections|
    ensures SectionsHtml(sections[..i + 1]) == SectionsHtml(sections[..i]) + ToHtml(sections[i])
  {
    assert sections[..i + 1][..i] == sections[..i];
  }

  /** The HTML document: the fixed head, `to_html` of every section in push order, the fixed tail. */
  method RenderHtml(sections: seq<HtmlSection>) returns (html: string)
    ensures html == Document(sections)
  {
    html := DocumentHead;
    for i := 0 to |sections|
      invariant html == DocumentHead + SectionsHtml(sections[..i])
    {
      SectionsHtmlSnoc(sections, i);
      AppendAssoc(DocumentHead, SectionsHtml(sections[..i]), ToHtml(sections[i]));
      html := html + ToHtml(sections[i]);
    }
    assert sections[..|sections|] == sections;
    html := html + DocumentTail;
  }

  lemma InBothSnoc(xs: seq<string>, tbl: string, t1: seq<string>, t2: seq<string>)
    ensures InBoth(xs + [tbl], t1, t2) == InBoth(xs, t1, t2) + (if tbl in t1 && tbl in t2 then [tbl] else [])
  {
    assert (xs + [tbl])[..|xs|] == xs;
  }

  /** One more table in the list: its two loads, then its pair. */
  lemma LoadPairsSnoc(s1: Snapshot, s2: Snapshot, tables: seq<string>, tbl: string)
    ensures var r, before := LoadPairs(s1, s2, tables + [tbl]), LoadPairs(s1, s2, tables);
      var load1, load2 := LoadTable(s1, tbl), LoadTable(s2, tbl);
      && (before.Err? ==> r == before)
      && (before.Ok? && load1.Err? ==> r == Err(load1.error))
      && (before.Ok? && load1.Ok? && load2.Err? ==> r == Err(load2.error))
      && (before.Ok? && load1.Ok? && load2.Ok? ==> r == Ok(before.value + [Pair(tbl, load1.value, load2.value)]))
  {
    assert (tables + [tbl])[..|tables|] == tables;
  }

  lemma RenderSnoc(env1: string, env2: string, pairs: seq<Pair>, p: Pair)
    ensures Render(env1, env2, pairs + [p]) == Render(env1, env2, pairs) + [TableSection(env1, env2, p)]
  {
    assert (pairs + [p])[..|pairs|] == pairs;
  }

  /**
   * The body of the table loop for a table listed in both manifests: open
   * `env1`'s file, then `env2`'s, each failure returning at once, then diff
   * the two.
   */
  method TableStep(env1: string, env2: string, s1: Snapshot, s2: Snapshot, tbl: string)
    returns (r: Result<HtmlSection, CompareError>)
    ensures LoadTable(s1, tbl).Err? ==> r == Err(LoadTable(s1, tbl).error)
    ensures LoadTable(s1, tbl).Ok? && LoadTable(s2, tbl).Err? ==> r == Err(LoadTable(s2, tbl).error)
    ensures LoadTable(s1, tbl).Ok? && LoadTable(s2, tbl).Ok? ==>
      r == Ok(TableSection(env1, env2, Pair(tbl, LoadTable(s1, tbl).value, LoadTable(s2, tbl).value)))
  {
    var ts1 := LoadTable(s1, tbl);
    if ts1.Err? {
      return Err(ts1.error);
    }
    var ts2 := LoadTable(s2, tbl);
    if ts2.Err? {
      return Err(ts2.error);
    }
    var section := TableText(env1, env2, ts1.value, ts2.value);
    return Ok(HtmlSection(tbl, section));
  }

  /**
   * The table loop: the union of both manifests' tables in ascending
   * order, the one-sided ones skipped, the others loaded and diffed; the
   * first failing load is returned at once.
   */
  method TableLoop(env1: string, env2: string, s1: Snapshot, s2: Snapshot, t1: seq<string>, t2: seq<string>)
    returns (r: Result<seq<HtmlSection>, CompareError>)
    requires Sorted(StrLess, t1) && Sorted(StrLess, t2)
    ensures r == TableSections(env1, env2, s1, s2, Common(t1, t2))
  {
    var all := StringUnion(t1, t2);
    var sections: seq<HtmlSection> := [];
    ghost var pairs: seq<Pair> := [];
    assert all[..0] == [];
    for i := 0 to |all|
      invariant LoadPairs(s1, s2, InBoth(all[..i], t1, t2)) == Ok(pairs)
      invariant sections == Render(env1, env2, pairs)
    {
      var tbl := all[i];
      if !(tbl in t1) || !(tbl in t2) {
        SkipTable(all, i, t1, t2);
        continue;
      }
      var step := TableStep(env1, env2, s1, s2, tbl);
      if step.Err? {
        FailTable(s1, s2, all, i, t1, t2);
        LeaveEarly(s1, s2, t1, t2, all, i + 1);
        return Err(step.error);
      }
      ghost var p := Pair(tbl, LoadTable(s1, tbl).value, LoadTable(s2, tbl).value);
      KeepTable(s1, s2, all, i, t1, t2);
      RenderSnoc(env1, env2, pairs, p);
      sections := sections + [step.value];
      pairs := pairs + [p];
    }
    UnionInBoth(t1, t2);
    assert all[..|all|] == all;
    return Ok(sections);
  }

  /** A table listed on one side only adds nothing to the tables compared. */
  lemma SkipTable(all: seq<string>, i: int, t1: seq<string>, t2: seq<string>)
    requires 0 <= i < |all| && (all[i] !in t1 || all[i] !in t2)
    ensures InBoth(all[..i + 1], t1, t2) == InBoth(all[..i], t1, t2)
  {
    assert all[..i + 1] == all[..i] + [all[i]];
    InBothSnoc(all[..i], all[i], t1, t2);
  }

  /** A table listed on both sides whose files fail to load makes the loads fail. */
  lemma FailTable(s1: Snapshot, s2: Snapshot, all: seq<string>, i: int, t1: seq<string>, t2: seq<string>)
    requires 0 <= i < |all| && all[i] in t1 && all[i] in t2
    requires LoadPairs(s1, s2, InBoth(all[..i], t1, t2)).Ok?
    requires LoadTable(s1, all[i]).Err? || LoadTable(s2, all[i]).Err?
    ensures LoadPairs(s1, s2, InBoth(all[..i + 1], t1, t2)).Err?
    ensures LoadPairs(s1, s2, InBoth(all[..i + 1], t1, t2)).error
            == if LoadTable(s1, all[i]).Err? then LoadTable(s1, all[i]).error else LoadTable(s2, all[i]).error
  {
    assert all[..i + 1] == all[..i] + [all[i]];
    InBothSnoc(all[..i], all[i], t1, t2);
    LoadPairsSnoc(s1, s2, InBoth(all[..i], t1, t2), all[i]);
  }

  /** A table listed on both sides whose files load adds its pair. */
  lemma KeepTable(s1: Snapshot, s2: Snapshot, all: seq<string>, i: int, t1: seq<string>, t2: seq<string>)
    requires 0 <= i < |all| && all[i] in t1 && all[i] in t2
    requires LoadPairs(s1, s2, InBoth(all[..i], t1, t2)).Ok?
    requires LoadTable(s1, all[i]).Ok? && LoadTable(s2, all[i]).Ok?
    ensures LoadPairs(s1, s2, InBoth(all[..i + 1], t1, t2))
            == Ok(LoadPairs(s1, s2, InBoth(all[..i], t1, t2)).value
                  + [Pair(all[i], LoadTable(s1, all[i]).value, LoadTable(s2, all[i]).value)])
  {
    assert all[..i + 1] == all[..i] + [all[i]];
    InBothSnoc(all[..i], all[i], t1, t2);
    LoadPairsSnoc(s1, s2, InBoth(all[..i], t1, t2), all[i]);
  }

  /** A load that fails on one of the first `i` tables of the union is the outcome of the whole loop. */
  lemma LeaveEarly(s1: Snapshot, s2: Snapshot, t1: seq<string>, t2: seq<string>, all: seq<string>, i: nat)
    requires Sorted(StrLess, t1) && Sorted(StrLess, t2)
    requires all == StringUnion(t1, t2)
    requires i <= |all|
    requires LoadPairs(s1, s2, InBoth(all[..i], t1, t2)).Err?
    ensures LoadPairs(s1, s2, Common(t1, t2)) == LoadPairs(s1, s2, InBoth(all[..i], t1, t2))
  {
    assert all == all[..i] + all[i..];
    InBothAppend(all[..i], all[i..], t1, t2);
    LoadPairsErrSticky(s1, s2, InBoth(all[..i], t1, t2), InBoth(all[i..], t1, t2));
    UnionInBoth(t1, t2);
  }

  /**
   * `compare` without its file system: both manifests are read, the
   * Summary section is pushed, then the table loop's sections, and the
   * document is rendered from them.
   */
  method Compare(env1: string, env2: string, s1: Snapshot, s2: Snapshot) returns (r: Result<Outcome, CompareError>)
    ensures r.Ok? <==> ReportSections(env1, env2, s1, s2).Ok?
    ensures r.Err? ==> r.error == ReportSections(env1, env2, s1, s2).error
    ensures r.Ok? ==> r.value.sections == ReportSections(env1, env2, s1, s2).value
    ensures r.Ok? ==> r.value.html == Document(r.value.sections)
  {
    var m1 := LoadManifest(env1, s1);
    if m1.Err? {
      return Err(m1.error);
    }
    var m2 := LoadManifest(env2, s2);
    if m2.Err? {
      return Err(m2.error);
    }
    var t1, t2 := StringSet(m1.value), StringSet(m2.value);
    var only1 := Difference(StrLess, t1, t2);
    var only2 := Difference(StrLess, t2, t1);
    var summary := SummaryText(env1, env2, only1, only2);
    var sections := [HtmlSection(SummaryTitle, summary)];
    var tableSections := TableLoop(env1, env2, s1, s2, t1, t2);
    if tableSections.Err? {
      return Err(tableSections.error);
    }
    sections := sections + tableSections.value;
    var html := RenderHtml(sections);
    return Ok(Outcome(sections, html));
  }
}
