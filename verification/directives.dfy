/** The closed catalog of CSP 1.0 directives and the bare keywords each accepts. */
module Directives {

  const ReportUri: string := "report-uri"
  const Sandbox: string := "sandbox"

  /** Directive name to the keywords it accepts unquoted; `report-uri` accepts none. */
  const Catalog: map<string, seq<string>> := map[
    "report-uri" := [],
    "sandbox" := ["allow-forms", "allow-same-origin", "allow-scripts", "allow-top-navigation"],
    "connect-src" := ["none", "self"],
    "default-src" := ["none", "self"],
    "font-src" := ["none", "self"],
    "frame-src" := ["none", "self"],
    "img-src" := ["none", "self"],
    "media-src" := ["none", "self"],
    "object-src" := ["none", "self"],
    "script-src" := ["none", "self", "unsafe-eval", "unsafe-inline"],
    "style-src" := ["none", "self", "unsafe-inline"]
  ]

  predicate IsDirective(d: string) {
    d in Catalog
  }

  /** The directives whose values are source expressions. */
  predicate IsSourceDirective(d: string) {
    d in Catalog && d != ReportUri && d != Sandbox
  }

  /** `v` is a keyword of directive `d` (compared as written, before quoting). */
  predicate IsKeyword(d: string, v: string) {
    d in Catalog && v in Catalog[d]
  }

  predicate IsSandboxKeyword(v: string) {
    v in Catalog[Sandbox]
  }

  /** A keyword as it appears in a header: between single quotes. */
  function Quote(v: string): (q: string)
    ensures |q| == |v| + 2 && q[0] == '\'' && q[|q| - 1] == '\''
    ensures q[1..|q| - 1] == v
  {
    "'" + v + "'"
  }

  /** Exactly nine directives take source lists, and every one of them accepts
      `none` and `self`; `report-uri` and `sandbox` are the other two names. */
  lemma SourceDirectives(d: string)
    ensures IsSourceDirective(d) <==> d in {"connect-src", "default-src", "font-src", "frame-src",
                                            "img-src", "media-src", "object-src", "script-src", "style-src"}
    ensures IsSourceDirective(d) ==> IsKeyword(d, "none") && IsKeyword(d, "self")
    ensures IsDirective(d) <==> IsSourceDirective(d) || d == ReportUri || d == Sandbox
  {
  }

  /** No keyword starts with a quote, so a quoted keyword is never a keyword. */
  lemma QuotedIsNotKeyword(d: string, v: string)
    ensures !IsKeyword(d, Quote(v))
  {
    if d in Catalog {
      assert forall k | k in Catalog[d] :: |k| > 0 && k[0] != '\'';
    }
  }
}
