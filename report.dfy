/**
 * The text `compare` (src/compare.rs) builds from its diff: the Summary
 * body, one body per shared table, each section's `<details>` element and
 * the whole HTML document. Titles and bodies go into the HTML as they are:
 * nothing is escaped.
 */
module Report {
  import opened Wrappers
  import opened Text
  import opened Diff

  const SummaryTitle := "Summary"
  const ColumnHeader := "Column differences:\n"
  const IndexHeader := "Index differences:\n"

  /** The Summary line for tables found in one environment only. */
  function OnlyLine(env: string, tables: seq<string>): string {
    "Only in " + env + ": " + DebugStrings(tables) + "\n"
  }

  /**
   * The Summary body: an "Only in" line for each environment that has
   * tables of its own, `env1`'s first.
   */
  function SummaryBody(env1: string, env2: string, only1: seq<string>, only2: seq<string>): (body: string)
    ensures body == "" <==> only1 == [] && only2 == []
    ensures only1 != [] && only2 != [] ==> body == OnlyLine(env1, only1) + OnlyLine(env2, only2)
    ensures only1 == [] && only2 != [] ==> body == OnlyLine(env2, only2)
    ensures only1 != [] && only2 == [] ==> body == OnlyLine(env1, only1)
  {
    (if only1 != [] then OnlyLine(env1, only1) else "")
    + (if only2 != [] then OnlyLine(env2, only2) else "")
  }

  /** A nested "Only in" line under a table's column or index header. */
  function NestedOnlyLine(env: string, listing: string): string {
    "  Only in " + env + ": " + listing + "\n"
  }

  function RenderField(f: FieldDiff): string {
    match f
    case TypeDiff(t1, t2) => "type " + t1 + " vs " + t2
    case NullableDiff(n1, n2) => "nullable " + Bool(n1) + " vs " + Bool(n2)
    case DefaultDiff(d1, d2) => "default " + DebugOption(d1) + " vs " + DebugOption(d2)
  }

  function RenderFields(fields: seq<FieldDiff>): seq<string> {
    seq(|fields|, i requires 0 <= i < |fields| => RenderField(fields[i]))
  }

  /** `format!("  Column '{}': {}\n", col, diffs.join(", "))`. */
  function ColumnLineText(column: string, joined: string): string {
    "  Column '" + column + "': " + joined + "\n"
  }

  function ColumnLine(d: ColumnDiff): string {
    ColumnLineText(d.column, Join(RenderFields(d.fields), ", "))
  }

  function ColumnLines(ds: seq<ColumnDiff>): string
    decreases |ds|
  {
    if ds == [] then "" else ColumnLines(ds[..|ds| - 1]) + ColumnLine(ds[|ds| - 1])
  }

  /** `{:?}` of an index triple: `("name", ["a", "b"], true)`. */
  function DebugKey(k: IndexKey): string {
    "(" + Quoted(k.0) + ", " + DebugStrings(k.1) + ", " + Bool(k.2) + ")"
  }

  /** `{:?}` of a `Vec` of index triples. */
  function DebugKeys(ks: seq<IndexKey>): string {
    "[" + Join(seq(|ks|, i requires 0 <= i < |ks| => DebugKey(ks[i])), ", ") + "]"
  }

  function RenderIndexField(f: IndexFieldDiff): string {
    match f
    case ColumnsDiff(c1, c2) => "columns " + DebugStrings(c1) + " vs " + DebugStrings(c2)
    case UniquenessDiff(u1, u2) => "uniqueness " + Bool(u1) + " vs " + Bool(u2)
  }

  /** `format!("  Index '{}': {}\n", name1, diffs.join(", "))`. */
  function IndexLineText(index: string, joined: string): string {
    "  Index '" + index + "': " + joined + "\n"
  }

  function RenderIndexFields(fields: seq<IndexFieldDiff>): seq<string> {
    seq(|fields|, i requires 0 <= i < |fields| => RenderIndexField(fields[i]))
  }

  function IndexLine(d: IndexDiff): string {
    IndexLineText(d.index, Join(RenderIndexFields(d.fields), ", "))
  }

  function IndexLines(ds: seq<IndexDiff>): string
    decreases |ds|
  {
    if ds == [] then "" else IndexLines(ds[..|ds| - 1]) + IndexLine(ds[|ds| - 1])
  }

  /** The header and one-sided lines of the column part of a table body. */
  function ColumnOnlyPart(env1: string, env2: string, d: TableDiff): string {
    (if d.onlyColumns1 != [] || d.onlyColumns2 != [] then ColumnHeader else "")
    + (if d.onlyColumns1 != [] then NestedOnlyLine(env1, DebugStrings(d.onlyColumns1)) else "")
    + (if d.onlyColumns2 != [] then NestedOnlyLine(env2, DebugStrings(d.onlyColumns2)) else "")
  }

  /** The header and one-sided lines of the index part of a table body. */
  function IndexOnlyPart(env1: string, env2: string, d: TableDiff): string {
    (if d.onlyIndexes1 != [] || d.onlyIndexes2 != [] then IndexHeader else "")
    + (if d.onlyIndexes1 != [] then NestedOnlyLine(env1, DebugKeys(d.onlyIndexes1)) else "")
    + (if d.onlyIndexes2 != [] then NestedOnlyLine(env2, DebugKeys(d.onlyIndexes2)) else "")
  }

  /** The index part of a table body. */
  function IndexPart(env1: string, env2: string, d: TableDiff): string {
    IndexOnlyPart(env1, env2, d) + IndexLines(d.indexDiffs)
  }

  /** The column part of a table body. */
  function ColumnPart(env1: string, env2: string, d: TableDiff): string {
    ColumnOnlyPart(env1, env2, d) + ColumnLines(d.columnDiffs)
  }

  /** The body of a table's section: a newline, then the column part, then the index part. */
  function TableBody(env1: string, env2: string, d: TableDiff): string {
    "\n" + ColumnPart(env1, env2, d) + IndexPart(env1, env2, d)
  }

  /** What follows the column header and its "Only in" lines. */
  function AfterColumnOnly(env1: string, env2: string, d: TableDiff): string {
    ColumnLines(d.columnDiffs) + IndexPart(env1, env2, d)
  }

  lemma Regroup(a: string, b: string, c: string, e: string)
    ensures a + (b + c) + e == a + b + (c + e)
  {
  }

  lemma TableBodyRegrouped(env1: string, env2: string, d: TableDiff)
    ensures TableBody(env1, env2, d) == "\n" + ColumnOnlyPart(env1, env2, d) + AfterColumnOnly(env1, env2, d)
  {
    Regroup("\n", ColumnOnlyPart(env1, env2, d), ColumnLines(d.columnDiffs), IndexPart(env1, env2, d));
  }

  // ---------------------------------------------------------------------
  // HTML
  // ---------------------------------------------------------------------

  datatype HtmlSection = HtmlSection(title: string, body: string)

  const DetailsOpen := "<details open><summary><strong>"
  const DetailsMiddle := "</strong></summary><pre>"
  const DetailsClose := "</pre></details>"
  const DocumentHead := "<!DOCTYPE html><html><head><meta charset=\"utf-8\"><title>Schema Diff Report</title></head><body>"
  const DocumentTail := "</body></html>"

  /** `HtmlSection::to_html`. */
  function ToHtml(s: HtmlSection): string {
    DetailsOpen + s.title + DetailsMiddle + s.body + DetailsClose
  }

  function SectionsHtml(sections: seq<HtmlSection>): string
    decreases |sections|
  {
    if sections == [] then ""
    else SectionsHtml(sections[..|sections| - 1]) + ToHtml(sections[|sections| - 1])
  }

  /** The report document: the fixed head, every section in order, the fixed tail. */
  function Document(sections: seq<HtmlSection>): string {
    DocumentHead + SectionsHtml(sections) + DocumentTail
  }

  /** The sections' HTML is the concatenation of each section's, in push order. */
  lemma {:induction false} SectionsHtmlAppend(a: seq<HtmlSection>, b: seq<HtmlSection>)
    ensures SectionsHtml(a + b) == SectionsHtml(a) + SectionsHtml(b)
    decreases |b|
  {
    if b == [] {
      assert a + b == a;
    } else {
      var init, last := b[..|b| - 1], b[|b| - 1];
      assert (a + b)[..|a + b| - 1] == a + init;
      assert (a + b)[|a + b| - 1] == last;
      SectionsHtmlAppend(a, init);
      AppendAssoc(SectionsHtml(a), SectionsHtml(init), ToHtml(last));
    }
  }

  /** `to_html` inserts the title and the body verbatim, between fixed markup. */
  lemma ToHtmlVerbatim(s: HtmlSection)
    ensures var html, t, b := ToHtml(s), |DetailsOpen|, |DetailsOpen| + |s.title| + |DetailsMiddle|;
      && |html| == b + |s.body| + |DetailsClose|
      && html[..t] == DetailsOpen
      && html[t..t + |s.title|] == s.title
      && html[t + |s.title|..b] == DetailsMiddle
      && html[b..b + |s.body|] == s.body
      && html[b + |s.body|..] == DetailsClose
  {
  }

  /** The document opens with the fixed head, closes with the fixed tail, and holds one element per section. */
  lemma DocumentShape(sections: seq<HtmlSection>, s: HtmlSection)
    ensures StartsWith(Document(sections), DocumentHead)
    ensures Document(sections)[|Document(sections)| - |DocumentTail|..] == DocumentTail
    ensures Document(sections + [s])
            == DocumentHead + SectionsHtml(sections) + ToHtml(s) + DocumentTail
  {
    var body := SectionsHtml(sections);
    AppendAssoc(DocumentHead, body, DocumentTail);
    StartsWithConcat(DocumentHead, body + DocumentTail);
    EndsWithConcat(DocumentHead + body, DocumentTail);
    assert (sections + [s])[..|sections|] == sections;
    AppendAssoc(DocumentHead, body, ToHtml(s));
  }

  // ---------------------------------------------------------------------
  // What the text promises
  // ---------------------------------------------------------------------

  /** A table without any difference has the body "\n". */
  lemma EmptyDiffBody(env1: string, env2: string)
    ensures TableBody(env1, env2, TableDiff([], [], [], [], [], [])) == "\n"
  {
  }

  /**
   * A column or index listing is empty or starts with a space, the first
   * character of its lines' two-space indent.
   */
  lemma {:induction false} ColumnLinesIndented(ds: seq<ColumnDiff>)
    ensures ColumnLines(ds) == "" || ColumnLines(ds)[0] == ' '
    decreases |ds|
  {
    if ds != [] {
      ColumnLinesIndented(ds[..|ds| - 1]);
    }
  }

  lemma {:induction false} IndexLinesIndented(ds: seq<IndexDiff>)
    ensures IndexLines(ds) == "" || IndexLines(ds)[0] == ' '
    decreases |ds|
  {
    if ds != [] {
      IndexLinesIndented(ds[..|ds| - 1]);
    }
  }

  /** `s` is empty or begins with one of `cs`. */
  predicate LeadsWith(s: string, cs: set<char>) {
    s == "" || s[0] in cs
  }

  lemma ConcatLeadsWith(a: string, b: string, cs: set<char>)
    requires LeadsWith(a, cs) && LeadsWith(b, cs)
    ensures LeadsWith(a + b, cs)
  {
    if a != "" {
      assert (a + b)[0] == a[0];
    } else {
      assert a + b == b;
    }
  }

  lemma IndexOnlyPartLeads(env1: string, env2: string, d: TableDiff)
    ensures LeadsWith(IndexOnlyPart(env1, env2, d), {' ', 'I'})
  {
    if d.onlyIndexes1 != [] || d.onlyIndexes2 != [] {
      assert IndexOnlyPart(env1, env2, d)[0] == IndexHeader[0];
    }
  }

  lemma StartsWithConcat(p: string, x: string)
    ensures StartsWith(p + x, p)
  {
    assert (p + x)[..|p|] == p;
  }

  lemma NoColumnHeaderAt(rest: string)
    requires LeadsWith(rest, {' ', 'I'})
    ensures !StartsWith("\n" + rest, "\n" + ColumnHeader)
  {
    var p := "\n" + ColumnHeader;
    if |"\n" + rest| >= |p| {
      assert ("\n" + rest)[..|p|][1] == rest[0];
      assert p[1] == 'C';
    }
  }

  lemma AfterColumnOnlyLeads(env1: string, env2: string, d: TableDiff)
    ensures LeadsWith(AfterColumnOnly(env1, env2, d), {' ', 'I'})
  {
    ColumnLinesIndented(d.columnDiffs);
    IndexLinesIndented(d.indexDiffs);
    IndexOnlyPartLeads(env1, env2, d);
    ConcatLeadsWith(IndexOnlyPart(env1, env2, d), IndexLines(d.indexDiffs), {' ', 'I'});
    ConcatLeadsWith(ColumnLines(d.columnDiffs), IndexPart(env1, env2, d), {' ', 'I'});
  }

  /** On plain strings: a column part that is empty or starts with the header, then the rest. */
  lemma HeaderShape(only: string, after: string)
    requires only == "" || StartsWith(only, ColumnHeader)
    requires LeadsWith(after, {' ', 'I'})
    ensures StartsWith("\n" + only + after, "\n" + ColumnHeader) <==> only != ""
  {
    if only == "" {
      assert "\n" + only + after == "\n" + after;
      NoColumnHeaderAt(after);
    } else {
      var tail := only[|ColumnHeader|..];
      assert only == ColumnHeader + tail;
      assert "\n" + only + after == ("\n" + ColumnHeader) + (tail + after);
      StartsWithConcat("\n" + ColumnHeader, tail + after);
    }
  }

  lemma ColumnOnlyPartShape(env1: string, env2: string, d: TableDiff)
    ensures ColumnOnlyPart(env1, env2, d) == "" <==> d.onlyColumns1 == [] && d.onlyColumns2 == []
    ensures ColumnOnlyPart(env1, env2, d) == "" || StartsWith(ColumnOnlyPart(env1, env2, d), ColumnHeader)
  {
    var only := ColumnOnlyPart(env1, env2, d);
    if d.onlyColumns1 != [] || d.onlyColumns2 != [] {
      var tail := (if d.onlyColumns1 != [] then NestedOnlyLine(env1, DebugStrings(d.onlyColumns1)) else "")
        + (if d.onlyColumns2 != [] then NestedOnlyLine(env2, DebugStrings(d.onlyColumns2)) else "");
      assert only == ColumnHeader + tail;
      StartsWithConcat(ColumnHeader, tail);
    }
  }

  /**
   * "Column differences:" heads a table body exactly when some column is on
   * one side only; differing fields of shared columns never bring it in.
   */
  lemma ColumnHeaderExactlyForOneSidedColumns(env1: string, env2: string, d: TableDiff)
    ensures StartsWith(TableBody(env1, env2, d), "\n" + ColumnHeader)
            <==> d.onlyColumns1 != [] || d.onlyColumns2 != []
  {
    TableBodyRegrouped(env1, env2, d);
    ColumnOnlyPartShape(env1, env2, d);
    AfterColumnOnlyLeads(env1, env2, d);
    HeaderShape(ColumnOnlyPart(env1, env2, d), AfterColumnOnly(env1, env2, d));
  }
}
