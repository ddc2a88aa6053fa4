/**
 * String building blocks of the report: concatenation facts, `join`, and
 * the parts of Rust's `{}` and `{:?}` formatting the report uses. `{:?}` on
 * a `String` puts it in double quotes; no escaping of its characters is
 * modelled.
 */
module Text {
  import opened Wrappers

  lemma AppendAssoc(a: string, b: string, c: string)
    ensures (a + b) + c == a + (b + c)
  {
  }

  lemma EndsWithConcat(x: string, t: string)
    ensures (x + t)[|x + t| - |t|..] == t
  {
    assert (x + t)[|x|..] == t;
  }

  /** `parts.join(sep)`. */
  function Join(parts: seq<string>, sep: string): string
    decreases |parts|
  {
    if parts == [] then ""
    else if |parts| == 1 then parts[0]
    else Join(parts[..|parts| - 1], sep) + sep + parts[|parts| - 1]
  }

  /** `{:?}` of a `String`, escapes left out. */
  function Quoted(s: string): string {
    "\"" + s + "\""
  }

  /** `{:?}` of a `Vec<String>`: `["a", "b"]`. */
  function DebugStrings(xs: seq<string>): string {
    "[" + Join(seq(|xs|, i requires 0 <= i < |xs| => Quoted(xs[i])), ", ") + "]"
  }

  /** `{}` and `{:?}` of a `bool`. */
  function Bool(b: bool): string {
    if b then "true" else "false"
  }

  /** `{:?}` of an `Option<String>`: `None` or `Some("x")`. */
  function DebugOption(o: Option<string>): string {
    match o
    case None => "None"
    case Some(s) => "Some(" + Quoted(s) + ")"
  }

  predicate StartsWith(s: string, prefix: string) {
    |prefix| <= |s| && s[..|prefix|] == prefix
  }
}
