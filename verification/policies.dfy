/** One CSP policy (enforce or report-only): its rules, their validation, and
    the header value they serialize to. */
module Policies {
  import opened Wrappers
  import opened Text
  import opened Errors
  import opened Directives
  import opened RuleMaps
  import SG = SourceGrammar
  import RU = ReportUriGrammar

  /** `parse` has run on the current rules; any mutation undoes it. */
  datatype State = Unvalidated | Validated

  datatype PolicyState = PolicyState(rules: Rules, state: State)

  /** A policy marked validated really holds validated rules. */
  type Policy = p: PolicyState | p.state == Validated ==> Valid(p.rules)
    witness PolicyState([], Unvalidated)

  // ---------------------------------------------------------------- mutation

  /** `new Policy($rules)`: the rules as given, not yet validated. */
  function FromRules(r: Rules): (p: Policy)
    ensures p.rules == r && p.state == Unvalidated
  {
    PolicyState(r, Unvalidated)
  }

  /** `clear()` */
  function Clear(p: Policy): (p': Policy)
    ensures Keys(p'.rules) == [] && Serialize(p'.rules) == ""
    ensures p'.state == Unvalidated
  {
    PolicyState([], Unvalidated)
  }

  /** `replaceRules($d, $vs)`: only `d` changes, keeping its position if present. */
  function Replace(p: Policy, d: string, vs: seq<string>): (p': Policy)
    ensures Lookup(p'.rules, d) == Some(vs)
    ensures forall d' | d' != d :: Lookup(p'.rules, d') == Lookup(p.rules, d')
    ensures Keys(p'.rules) == Keys(p.rules) + (if d in Keys(p.rules) then [] else [d])
    ensures p'.state == Unvalidated
  {
    PolicyState(Put(p.rules, d, vs), Unvalidated)
  }

  /** The per-directive `add...` helpers: one more value at the end of `d`'s list. */
  function AppendValue(p: Policy, d: string, v: string): (p': Policy)
    ensures Lookup(p'.rules, d) == Some(Lookup(p.rules, d).GetOr([]) + [v])
    ensures forall d' | d' != d :: Lookup(p'.rules, d') == Lookup(p.rules, d')
    ensures Keys(p'.rules) == Keys(p.rules) + (if d in Keys(p.rules) then [] else [d])
    ensures p'.state == Unvalidated
  {
    PolicyState(Append(p.rules, d, [v]), Unvalidated)
  }

  // -------------------------------------------------------------- validation

  /** Keywords of a source directive are written between single quotes. */
  function QuoteKeywords(d: string, u: seq<string>): (q: seq<string>)
    ensures |q| == |u|
    ensures forall i | 0 <= i < |u| && IsKeyword(d, u[i]) ::
      IsQuotedKeyword(d, q[i]) && q[i][1..|q[i]| - 1] == u[i]
    ensures forall i | 0 <= i < |u| && !IsKeyword(d, u[i]) :: q[i] == u[i]
    ensures forall v | v in q :: !IsKeyword(d, v)
  {
    seq(|u|, i requires 0 <= i < |u| => if IsKeyword(d, u[i]) then Quote(u[i]) else u[i])
  }

  /** Quoting keeps a list duplicate-free as long as no other value already
      starts with a quote. */
  lemma QuoteKeywordsNoDup(d: string, u: seq<string>)
    requires NoDup(u)
    requires forall v | v in u && !IsKeyword(d, v) :: |v| == 0 || v[0] != '\''
    ensures NoDup(QuoteKeywords(d, u))
  {
    var q := QuoteKeywords(d, u);
    forall i, j | 0 <= i < j < |u|
      ensures q[i] != q[j]
    {
      assert u[i] in u && u[j] in u;
      if IsKeyword(d, u[i]) && IsKeyword(d, u[j]) {
        assert q[i][1..|q[i]| - 1] == u[i];
      }
    }
  }

  predicate IsSourceValue(d: string, v: string) {
    IsKeyword(d, v) || SG.IsSourceExpression(v)
  }

  /** `validate($values, $d)`: deduplicate, then run the checks of the directive's
      kind in the source's order, failing on the first violation. */
  function ValidateDirective(d: string, values: seq<string>): (r: Result<seq<string>, Error>)
    ensures r.Success? ==> |r.value| == |Dedup(values)|
    ensures r.Success? ==> forall i | 0 <= i < |r.value| ::
      r.value[i] == Dedup(values)[i] || IsQuotedKeyword(d, r.value[i])
    ensures r.Failure? ==> Concerns(r.error, d, values)
  {
    var u := Dedup(values);
    if d == ReportUri then
      var i := FirstFailure(u, RU.IsIntendedReportUri);
      if i < |u| then Failure(InvalidReportUri(u[i])) else Success(u)
    else if d == Sandbox then
      var i := FirstFailure(u, IsSandboxKeyword);
      if i < |u| then Failure(InvalidSandboxKeyword(u[i])) else Success(u)
    else if !IsDirective(d) then Failure(InvalidDirectiveName(d))
    else if 1 < |u| && "none" in u && IsKeyword(d, "none") then Failure(NoneWithExceptions(d))
    else if 1 < |u| && "*" in u then Failure(WildcardWithExceptions(d))
    else
      var i := FirstFailure(u, v => IsSourceValue(d, v));
      if i < |u| then Failure(InvalidSourceValue(d, u[i])) else Success(QuoteKeywords(d, u))
  }

  /** An error of `validate($values, $d)` names `d` or one of its values, and is
      never one of the config's errors. */
  predicate Concerns(e: Error, d: string, values: seq<string>) {
    match e
    case InvalidDirectiveName(x) => x == d
    case NoneWithExceptions(x) => x == d
    case WildcardWithExceptions(x) => x == d
    case InvalidSourceValue(x, v) => x == d && v in values
    case InvalidReportUri(v) => d == ReportUri && v in values
    case InvalidSandboxKeyword(v) => d == Sandbox && v in values
    case _ => false
  }

  /** Which value lists a directive accepts, stated without the order of checks. */
  predicate DirectiveAccepts(d: string, values: seq<string>) {
    if d == ReportUri then forall v | v in values :: RU.IsIntendedReportUri(v)
    else if d == Sandbox then forall v | v in values :: IsSandboxKeyword(v)
    else
      IsDirective(d)
      && (|Dedup(values)| <= 1 || ("none" !in values && "*" !in values))
      && forall v | v in values :: IsSourceValue(d, v)
  }

  /** A directive validates exactly when it is acceptable. */
  lemma ValidateAccepts(d: string, values: seq<string>)
    ensures ValidateDirective(d, values).Success? <==> DirectiveAccepts(d, values)
  {
    var u := Dedup(values);
    if d != ReportUri && d != Sandbox && IsDirective(d) {
      SourceDirectives(d);
    }
    if d == ReportUri {
      FirstFailureMeans(u, RU.IsIntendedReportUri);
    } else if d == Sandbox {
      FirstFailureMeans(u, IsSandboxKeyword);
    } else {
      FirstFailureMeans(u, v => IsSourceValue(d, v));
    }
  }

  lemma FirstFailureMeans(u: seq<string>, ok: string -> bool)
    ensures FirstFailure(u, ok) == |u| <==> forall v | v in u :: ok(v)
  {
  }

  /** On success the list is the deduplicated input in first-occurrence order,
      with exactly the keywords of a source directive quoted. */
  lemma ValidateResult(d: string, values: seq<string>)
    requires ValidateDirective(d, values).Success?
    ensures var out := ValidateDirective(d, values).value;
      var u := Dedup(values);
      |out| == |u|
      && forall i | 0 <= i < |u| ::
           out[i] == (if IsSourceDirective(d) && IsKeyword(d, u[i]) then Quote(u[i]) else u[i])
  {
  }

  /** `v` is the first value of `u` that `ok` rejects. */
  predicate FirstRejected(u: seq<string>, v: string, ok: string -> bool) {
    exists k | 0 <= k < |u| :: u[k] == v && !ok(v) && forall j | 0 <= j < k :: ok(u[j])
  }

  /** Which error each kind of violation produces; a rejected value is the first
      one, in first-occurrence order, that its check rejects. */
  lemma ValidateErrors(d: string, values: seq<string>)
    ensures ValidateDirective(d, values) == Failure(InvalidDirectiveName(d)) <==> !IsDirective(d)
    ensures ValidateDirective(d, values) == Failure(NoneWithExceptions(d))
        <==> IsSourceDirective(d) && 1 < |Dedup(values)| && "none" in values
    ensures ValidateDirective(d, values) == Failure(WildcardWithExceptions(d))
        <==> IsSourceDirective(d) && 1 < |Dedup(values)| && "none" !in values && "*" in values
    ensures var r := ValidateDirective(d, values);
      r.Failure? && r.error.InvalidSourceValue? ==>
        IsSourceDirective(d) && r.error.directive == d && r.error.value in values
        && FirstRejected(Dedup(values), r.error.value, v => IsSourceValue(d, v))
    ensures var r := ValidateDirective(d, values);
      r.Failure? && r.error.InvalidReportUri? ==>
        d == ReportUri && r.error.value in values
        && FirstRejected(Dedup(values), r.error.value, RU.IsIntendedReportUri)
    ensures var r := ValidateDirective(d, values);
      r.Failure? && r.error.InvalidSandboxKeyword? ==>
        d == Sandbox && r.error.value in values
        && FirstRejected(Dedup(values), r.error.value, IsSandboxKeyword)
  {
    SourceDirectives(d);
    var r := ValidateDirective(d, values);
    var u := Dedup(values);
    if r.Failure? && r.error.InvalidSourceValue? {
      var ok := v => IsSourceValue(d, v);
      var k := FirstFailure(u, ok);
      assert u[k] == r.error.value;
    } else if r.Failure? && r.error.InvalidReportUri? {
      var k := FirstFailure(u, RU.IsIntendedReportUri);
      assert u[k] == r.error.value;
    } else if r.Failure? && r.error.InvalidSandboxKeyword? {
      var k := FirstFailure(u, IsSandboxKeyword);
      assert u[k] == r.error.value;
    }
  }

  /** `parse()`: every directive is validated in map order; the first failure
      aborts, otherwise each list is replaced by its validated form. */
  function ParseRules(r: Rules): (res: Result<Rules, Error>)
    ensures res.Success? ==> Keys(res.value) == Keys(r)
  {
    Walk(r, ValidateDirective)
  }

  /** `parse()` succeeds exactly when every directive is acceptable. */
  lemma ParseRulesAccepts(r: Rules)
    ensures ParseRules(r).Success? <==> forall i | 0 <= i < |r| :: DirectiveAccepts(r[i].directive, r[i].values)
  {
    WalkSucceeds(r, ValidateDirective);
    forall i | 0 <= i < |r|
      ensures ValidateDirective(r[i].directive, r[i].values).Success? <==> DirectiveAccepts(r[i].directive, r[i].values)
    {
      ValidateAccepts(r[i].directive, r[i].values);
    }
  }

  /** After a successful `parse()` every directive holds its validated list. */
  lemma ParseRulesValues(r: Rules)
    requires ParseRules(r).Success?
    ensures forall i | 0 <= i < |r| ::
      ValidateDirective(r[i].directive, r[i].values).Success? &&
      ParseRules(r).value[i] == Entry(r[i].directive, ValidateDirective(r[i].directive, r[i].values).value)
  {
    WalkValues(r, ValidateDirective);
  }

  /** A failed `parse()` reports the error of the first directive that fails. */
  lemma ParseRulesFirstError(r: Rules)
    requires ParseRules(r).Failure?
    ensures var i := FirstFailure(r, Passes(ValidateDirective));
      i < |r| && ValidateDirective(r[i].directive, r[i].values) == Failure(ParseRules(r).error)
      && forall j | 0 <= j < i :: ValidateDirective(r[j].directive, r[j].values).Success?
  {
    WalkFirstError(r, ValidateDirective);
  }

  // --------------------------------------------------------- validated state

  /** `'k'` for a keyword `k` of `d`. */
  predicate IsQuotedKeyword(d: string, v: string) {
    |v| >= 2 && v[0] == '\'' && v[|v| - 1] == '\'' && IsKeyword(d, v[1..|v| - 1])
  }

  /** What a validated list of directive `d` looks like. */
  predicate ValuesValid(d: string, vs: seq<string>) {
    if d == ReportUri then forall v | v in vs :: RU.IsIntendedReportUri(v)
    else if d == Sandbox then forall v | v in vs :: IsSandboxKeyword(v)
    else
      IsDirective(d)
      && (|vs| <= 1 || (Quote("none") !in vs && "*" !in vs))
      && forall v | v in vs :: IsQuotedKeyword(d, v) || SG.IsSourceExpression(v)
  }

  /** The invariant of validated rules: known directives, no repeated value,
      keywords quoted, every other value well-formed. */
  predicate Valid(r: Rules) {
    forall i | 0 <= i < |r| :: NoDup(r[i].values) && ValuesValid(r[i].directive, r[i].values)
  }

  /** A successfully validated list satisfies the invariant. */
  lemma ValidateEstablishes(d: string, values: seq<string>)
    requires ValidateDirective(d, values).Success?
    ensures NoDup(ValidateDirective(d, values).value)
    ensures ValuesValid(d, ValidateDirective(d, values).value)
  {
    if d != ReportUri && d != Sandbox {
      var u := Dedup(values);
      ValidateAccepts(d, values);
      assert ValidateDirective(d, values).value == QuoteKeywords(d, u);
      QuotedSourceValid(d, u);
    }
  }

  /** Quoting an acceptable duplicate-free list of a source directive yields a
      valid one. */
  lemma QuotedSourceValid(d: string, u: seq<string>)
    requires d != ReportUri && d != Sandbox && IsDirective(d)
    requires NoDup(u)
    requires |u| <= 1 || ("none" !in u && "*" !in u)
    requires forall v | v in u :: IsSourceValue(d, v)
    ensures NoDup(QuoteKeywords(d, u))
    ensures ValuesValid(d, QuoteKeywords(d, u))
  {
    SourceValuesUnquoted(d, u);
    QuoteKeywordsNoDup(d, u);
    QuotedShape(d, u);
    if 1 < |u| {
      QuotedNoExceptions(d, u);
    }
  }

  lemma QuotedShape(d: string, u: seq<string>)
    requires forall v | v in u :: IsSourceValue(d, v)
    ensures forall v | v in QuoteKeywords(d, u) :: IsQuotedKeyword(d, v) || SG.IsSourceExpression(v)
  {
    var out := QuoteKeywords(d, u);
    forall i | 0 <= i < |u|
      ensures IsQuotedKeyword(d, out[i]) || SG.IsSourceExpression(out[i])
    {
      assert u[i] in u;
    }
  }

  lemma QuotedNoExceptions(d: string, u: seq<string>)
    requires "none" !in u && "*" !in u
    requires forall v | v in u && !IsKeyword(d, v) :: |v| == 0 || v[0] != '\''
    ensures Quote("none") !in QuoteKeywords(d, u) && "*" !in QuoteKeywords(d, u)
  {
    var out := QuoteKeywords(d, u);
    forall i | 0 <= i < |u|
      ensures out[i] != Quote("none") && out[i] != "*"
    {
      assert u[i] in u;
      if IsKeyword(d, u[i]) {
        assert out[i][1..|out[i]| - 1] == u[i];
      }
    }
  }

  /** A source expression never starts with a quote. */
  lemma SourceValuesUnquoted(d: string, u: seq<string>)
    requires forall v | v in u :: IsSourceValue(d, v)
    ensures forall v | v in u && !IsKeyword(d, v) :: |v| == 0 || v[0] != '\''
  {
    forall v | v in u && !IsKeyword(d, v)
      ensures |v| == 0 || v[0] != '\''
    {
      QuotedNotSource(v);
    }
  }

  lemma QuotedNotSource(v: string)
    requires SG.IsSourceExpression(v)
    ensures |v| == 0 || v[0] != '\''
  {
    if |v| > 0 && v[0] == '\'' {
      SG.QuoteStartRejected(v);
    }
  }

  lemma ParseRulesValid(r: Rules)
    requires ParseRules(r).Success?
    ensures Valid(ParseRules(r).value)
  {
    ParseRulesValues(r);
    ParseRulesAccepts(r);
    var out := ParseRules(r).value;
    forall i | 0 <= i < |out|
      ensures NoDup(out[i].values) && ValuesValid(out[i].directive, out[i].values)
    {
      ValidateAccepts(r[i].directive, r[i].values);
      ValidateEstablishes(r[i].directive, r[i].values);
    }
  }

  /** `parse()` with the validated flag: rules already validated are left alone. */
  function Parse(p: Policy): (res: Result<Policy, Error>)
    ensures res.Success? ==> res.value.state == Validated && Valid(res.value.rules)
    ensures res.Success? ==> Keys(res.value.rules) == Keys(p.rules)
    ensures p.state == Validated ==> res == Success(p)
    ensures p.state == Unvalidated ==>
      (res.Success? <==> forall i | 0 <= i < |p.rules| :: DirectiveAccepts(p.rules[i].directive, p.rules[i].values))
    ensures p.state == Unvalidated && res.Success? ==>
      ParseRules(p.rules).Success? && res.value.rules == ParseRules(p.rules).value
    ensures p.state == Unvalidated && res.Failure? ==>
      ParseRules(p.rules).Failure? && res.error == ParseRules(p.rules).error
  {
    if p.state == Validated then Success(p)
    else
      ParseRulesAccepts(p.rules);
      match ParseRules(p.rules)
      case Failure(e) => Failure(e)
      case Success(r) =>
        ParseRulesValid(p.rules);
        Success(PolicyState(r, Validated))
  }

  /** Parsing is idempotent: a validated policy parses to itself. */
  lemma ParseIdempotent(p: Policy)
    requires Parse(p).Success?
    ensures Parse(Parse(p).value) == Parse(p)
  {
  }

  // ----------------------------------------------------------- serialization

  /** `"<directive> <values joined by a space>;"`, or nothing for an empty list. */
  function EntryText(e: Entry): (t: string)
    ensures e.values == [] <==> t == ""
    ensures t != "" ==> t[|t| - 1] == ';'
    ensures t != "" ==> |e.directive| + 1 < |t| && t[..|e.directive| + 1] == e.directive + " "
  {
    if e.values == [] then "" else e.directive + " " + Join(e.values, " ") + ";"
  }

  /** One more value adds a space and the value before the `;`. */
  lemma EntryTextSnoc(d: string, vs: seq<string>, v: string)
    requires vs != []
    ensures EntryText(Entry(d, vs + [v])) == d + " " + Join(vs, " ") + " " + v + ";"
  {
    var j := Join(vs, " ");
    JoinSnoc(vs, v, " ");
    assert EntryText(Entry(d, vs + [v])) == (d + " ") + ((j + " ") + v) + ";";
    ConcatAssoc(d + " ", j + " ", v);
    ConcatAssoc(d + " ", j, " ");
  }

  /** `getRawHeaderValue()`: the entries' texts in map order, with no separator.
      It is empty exactly when no directive has a value, and otherwise ends with
      the `;` of the last directive that has one. */
  function Serialize(r: seq<Entry>): (s: string)
    ensures s == "" <==> forall i | 0 <= i < |r| :: r[i].values == []
    ensures s != "" ==> s[|s| - 1] == ';'
    decreases |r|
  {
    if r == [] then ""
    else
      assert forall i | 1 <= i < |r| :: r[i] == r[1..][i - 1];
      EntryText(r[0]) + Serialize(r[1..])
  }

  /** Serializing a concatenation concatenates the serializations. */
  lemma {:induction false} SerializeConcat(a: seq<Entry>, b: seq<Entry>)
    ensures Serialize(a + b) == Serialize(a) + Serialize(b)
    decreases |a|
  {
    if a == [] {
      assert a + b == b;
    } else {
      SerializeCons(a, b);
      SerializeUnfold(a);
      SerializeConcat(a[1..], b);
      ConcatAssoc(EntryText(a[0]), Serialize(a[1..]), Serialize(b));
    }
  }

  lemma SerializeCons(a: seq<Entry>, b: seq<Entry>)
    requires a != []
    ensures Serialize(a + b) == EntryText(a[0]) + Serialize(a[1..] + b)
  {
    var ab := a + b;
    assert ab[0] == a[0] && ab[1..] == a[1..] + b;
    SerializeUnfold(ab);
  }

  lemma SerializeUnfold(r: seq<Entry>)
    requires r != []
    ensures Serialize(r) == EntryText(r[0]) + Serialize(r[1..])
  {
  }

  /** A directive whose one value is a keyword parses to that keyword in quotes. */
  lemma KeywordParses(d: string, k: string)
    requires IsSourceDirective(d) && IsKeyword(d, k)
    ensures ParseRules([Entry(d, [k])]) == Success([Entry(d, [Quote(k)])])
    ensures Serialize([Entry(d, [Quote(k)])]) == d + " " + Quote(k) + ";"
  {
    var r: Rules := [Entry(d, [k])];
    assert Dedup([k]) == [k] by { assert [k][..0] == []; }
    assert IsSourceValue(d, k);
    assert FirstFailure([k], v => IsSourceValue(d, v)) == 1;
    assert QuoteKeywords(d, [k]) == [Quote(k)];
    assert ValidateDirective(d, [k]) == Success([Quote(k)]);
    WalkSingle(d, [k], ValidateDirective);
    assert Join([Quote(k)], " ") == Quote(k);
  }

  /** Validating validated rules again fails: the quoted keyword is neither a
      keyword nor a source expression. This is what `parse()` does when it runs a
      second time over the same policy. */
  lemma ReparseFails(d: string, k: string)
    requires IsSourceDirective(d) && IsKeyword(d, k)
    ensures ParseRules([Entry(d, [k])]) == Success([Entry(d, [Quote(k)])])
    ensures ParseRules([Entry(d, [Quote(k)])]) == Failure(InvalidSourceValue(d, Quote(k)))
  {
    KeywordParses(d, k);
    var q := Quote(k);
    var r: Rules := [Entry(d, [q])];
    assert Dedup([q]) == [q] by { assert [q][..0] == []; }
    QuotedIsNotKeyword(d, k);
    SG.QuoteStartRejected(q);
    assert !IsSourceValue(d, q);
    assert FirstFailure([q], v => IsSourceValue(d, v)) == 0;
    assert ValidateDirective(d, [q]) == Failure(InvalidSourceValue(d, q));
    WalkUnfold(r, ValidateDirective);
  }

  /** `default-src self` validates and serializes to `default-src 'self';`; a
      second validation of the result fails on `'self'`. */
  lemma DefaultSelfExample(d: string, k: string)
    requires d == "default-src" && k == "self"
    ensures ParseRules([Entry(d, [k])]) == Success([Entry(d, [Quote(k)])])
    ensures Serialize([Entry(d, [Quote(k)])]) == "default-src 'self';"
    ensures ParseRules([Entry(d, [Quote(k)])]) == Failure(InvalidSourceValue(d, Quote(k)))
  {
    assert IsSourceDirective(d) && IsKeyword(d, k);
    ReparseFails(d, k);
    DefaultSelfText(d, k);
  }

  lemma DefaultSelfText(d: string, k: string)
    requires d == "default-src" && k == "self"
    ensures d + " " + Quote(k) + ";" == "default-src 'self';"
  {
    assert Quote(k) == "'self'";
  }

  /** Several values are written space-separated after the directive name, in
      their order. */
  lemma MultiValueText(d: string, a: string, b: string)
    ensures EntryText(Entry(d, [a, b])) == d + " " + a + " " + b + ";"
  {
    assert [a] + [b] == [a, b];
    EntryTextSnoc(d, [a], b);
  }

  lemma FooBarBazText(d: string, a: string, b: string)
    requires d == "foo" && a == "bar" && b == "baz"
    ensures EntryText(Entry(d, [a, b])) == "foo bar baz;"
  {
    MultiValueText(d, a, b);
  }

  lemma SandboxText(d: string, a: string, b: string)
    requires d == "sandbox" && a == "allow-forms" && b == "allow-same-origin"
    ensures EntryText(Entry(d, [a, b])) == "sandbox allow-forms allow-same-origin;"
  {
    MultiValueText(d, a, b);
  }
}
