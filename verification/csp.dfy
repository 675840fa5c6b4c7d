/** The request pipeline around the policies: route overrides are applied to the
    config (reset, then removals, then additions), both policies are validated,
    and a header is emitted for each policy that serializes to something. */
module Csp {
  import opened Wrappers
  import opened Text
  import opened Errors
  import opened RuleMaps
  import opened Policies
  import opened Configs
  import HN = HeaderNames

  /** The route attributes `cspReset`, `cspRemove` and `cspAdd`. An attribute that
      is absent, or not an array where one is expected, is `None`; the arrays map
      a role name to rules. */
  datatype Overrides = Overrides(
    reset: Option<string>,
    remove: Option<seq<(string, Rules)>>,
    add: Option<seq<(string, Rules)>>)

  /** PHP truthiness of a string: everything but `""` and `"0"`. */
  predicate Truthy(s: string) {
    s != "" && s != "0"
  }

  /** Whether an override entry is keyed by one of the two role names. */
  predicate NamesRole(e: (string, Rules)) {
    RoleOf(e.0).Some?
  }

  /** `array_walk($remove, [$config, 'removeFromPolicy'])`: in order, aborting on
      the first bad role name. */
  function RemoveAll(c: Config, entries: seq<(string, Rules)>): (r: Result<Config, Error>)
    ensures r.Failure? <==> exists i | 0 <= i < |entries| :: RoleOf(entries[i].0).None?
    decreases |entries|
  {
    if entries == [] then Success(c)
    else
      var c1 :- RemoveFromPolicy(c, entries[0].1, entries[0].0);
      RemoveAll(c1, entries[1..])
  }

  /** `array_walk($add, [$config, 'addToPolicy'])`: in order, aborting on the first
      bad role name. */
  function AddAll(c: Config, entries: seq<(string, Rules)>): (r: Result<Config, Error>)
    ensures r.Failure? <==> exists i | 0 <= i < |entries| :: RoleOf(entries[i].0).None?
    decreases |entries|
  {
    if entries == [] then Success(c)
    else
      var c1 :- AddToPolicy(c, entries[0].1, entries[0].0);
      AddAll(c1, entries[1..])
  }

  /** `processRoutePolicies`: reset (only for a truthy value), then removals, then
      additions. */
  function ProcessRoutePolicies(c: Config, o: Overrides): (r: Result<Config, Error>)
    ensures r.Success? <==> OverridesValid(o)
  {
    var c1 :- if o.reset.Some? && Truthy(o.reset.value) then ClearPolicy(c, o.reset.value) else Success(c);
    var c2 :- if o.remove.Some? then RemoveAll(c1, o.remove.value) else Success(c1);
    if o.add.Some? then AddAll(c2, o.add.value) else Success(c2)
  }

  /** The overrides can be applied: a truthy reset names a role or `all`, and
      every removal and addition entry names a role. */
  predicate OverridesValid(o: Overrides) {
    (o.reset.None? || !Truthy(o.reset.value) || RoleOf(o.reset.value).Some? || o.reset.value == "all")
    && (o.remove.None? || forall i | 0 <= i < |o.remove.value| :: NamesRole(o.remove.value[i]))
    && (o.add.None? || forall i | 0 <= i < |o.add.value| :: NamesRole(o.add.value[i]))
  }

  /** A policy `parse()` accepts: an already validated one, or one whose every
      directive validates. */
  predicate Acceptable(p: Policy) {
    p.state == Validated || forall i | 0 <= i < |p.rules| :: DirectiveAccepts(p.rules[i].directive, p.rules[i].values)
  }

  /** `compilePolicy`: the overrides, then `parse()` on the enforce policy and then
      on the report policy; any failure aborts the whole compilation. */
  function CompilePolicy(c: Config, o: Overrides): (r: Result<Config, Error>)
    ensures r.Success? ==> r.value.enforce.state == Validated && Valid(r.value.enforce.rules)
    ensures r.Success? ==> r.value.report.state == Validated && Valid(r.value.report.rules)
    ensures r.Success? <==>
      (OverridesValid(o)
       && Acceptable(ProcessRoutePolicies(c, o).value.enforce) && Acceptable(ProcessRoutePolicies(c, o).value.report))
    ensures r.Success? ==>
      r.value.enforce == Parse(ProcessRoutePolicies(c, o).value.enforce).value
      && r.value.report == Parse(ProcessRoutePolicies(c, o).value.report).value
  {
    var c1 :- ProcessRoutePolicies(c, o);
    var e :- Parse(c1.enforce);
    var p :- Parse(c1.report);
    Success(Config(e, p))
  }

  datatype Header = Header(name: string, value: string)

  /** One header for a truthy value, none otherwise. */
  function EmitIf(name: string, value: string): (hs: seq<Header>)
    ensures |hs| <= 1
    ensures Header(name, value) in hs <==> Truthy(value)
    ensures forall h | h in hs :: h.value == value
  {
    if Truthy(value) then [Header(name, value)] else []
  }

  /** `setCspHeaders`: a header per policy whose value is truthy, enforce first. */
  function SetCspHeaders(c: Config, names: HN.HeaderNames): (hs: seq<Header>)
    ensures var ve, vr := Serialize(c.enforce.rules), Serialize(c.report.rules);
      |hs| == (if Truthy(ve) then 1 else 0) + (if Truthy(vr) then 1 else 0)
      && (forall h | h in hs :: h == Header(names.enforce, ve) || h == Header(names.report, vr))
      && (Truthy(ve) ==> hs[0] == Header(names.enforce, ve))
      && (Truthy(vr) ==> hs[|hs| - 1] == Header(names.report, vr))
  {
    EmitPair(names.enforce, Serialize(c.enforce.rules), names.report, Serialize(c.report.rules));
    EmitIf(names.enforce, Serialize(c.enforce.rules)) + EmitIf(names.report, Serialize(c.report.rules))
  }

  /** Of two candidate headers, each is sent exactly when its value is truthy,
      whatever the names are. */
  lemma EmitPair(n1: string, v1: string, n2: string, v2: string)
    ensures Header(n1, v1) in EmitIf(n1, v1) + EmitIf(n2, v2) <==> Truthy(v1)
    ensures Header(n2, v2) in EmitIf(n1, v1) + EmitIf(n2, v2) <==> Truthy(v2)
    ensures forall h | h in EmitIf(n1, v1) + EmitIf(n2, v2) :: h.value == v1 || h.value == v2
    ensures var hs := EmitIf(n1, v1) + EmitIf(n2, v2);
      |hs| == (if Truthy(v1) then 1 else 0) + (if Truthy(v2) then 1 else 0)
      && (forall h | h in hs :: h == Header(n1, v1) || h == Header(n2, v2))
      && (Truthy(v1) ==> hs[0] == Header(n1, v1))
      && (Truthy(v2) ==> hs[|hs| - 1] == Header(n2, v2))
  {
  }

  /** A policy's header is sent exactly when some directive of it has a value. */
  lemma HeadersSent(c: Config, names: HN.HeaderNames)
    ensures Header(names.enforce, Serialize(c.enforce.rules)) in SetCspHeaders(c, names)
        <==> exists i | 0 <= i < |c.enforce.rules| :: c.enforce.rules[i].values != []
    ensures Header(names.report, Serialize(c.report.rules)) in SetCspHeaders(c, names)
        <==> exists i | 0 <= i < |c.report.rules| :: c.report.rules[i].values != []
  {
    EmitPair(names.enforce, Serialize(c.enforce.rules), names.report, Serialize(c.report.rules));
    TruthySerialized(c.enforce.rules);
    TruthySerialized(c.report.rules);
  }

  /** Every header sent carries a policy's value, which ends in `;`. */
  lemma HeaderValuesTerminated(c: Config, names: HN.HeaderNames)
    ensures forall h | h in SetCspHeaders(c, names) :: h.value != "" && h.value[|h.value| - 1] == ';'
  {
    EmitPair(names.enforce, Serialize(c.enforce.rules), names.report, Serialize(c.report.rules));
    TruthySerialized(c.enforce.rules);
    TruthySerialized(c.report.rules);
  }

  /** A serialized policy is truthy exactly when it is non-empty, which is when
      some directive has a value: it can never be `"0"`. */
  lemma TruthySerialized(r: seq<Entry>)
    ensures Truthy(Serialize(r)) <==> exists i | 0 <= i < |r| :: r[i].values != []
    ensures Serialize(r) != "" ==> Serialize(r)[|Serialize(r)| - 1] == ';'
  {
  }

  /** Without overrides the config is only validated; a falsy reset is ignored. */
  lemma NoOverridesOnlyParse(c: Config, reset: Option<string>)
    requires reset.None? || !Truthy(reset.value)
    ensures ProcessRoutePolicies(c, Overrides(reset, None, None)) == Success(c)
  {
  }

  /** A truthy reset that names no role and is not `all` aborts compilation. */
  lemma BadResetFails(c: Config, o: Overrides)
    requires o.reset.Some? && Truthy(o.reset.value)
    requires RoleOf(o.reset.value).None? && o.reset.value != "all"
    ensures CompilePolicy(c, o) == Failure(InvalidClearOption(o.reset.value))
  {
  }

  /** Resetting `all` with nothing added leaves two empty validated policies,
      and no header is sent. */
  lemma ResetAllEmpties(c: Config, names: HN.HeaderNames)
    ensures var r := CompilePolicy(c, Overrides(Some("all"), None, None));
      r.Success? && r.value.enforce.rules == [] && r.value.report.rules == []
      && SetCspHeaders(r.value, names) == []
  {
    var c1 := ProcessRoutePolicies(c, Overrides(Some("all"), None, None));
    assert c1.Success? && c1.value.enforce.rules == [] && c1.value.report.rules == [];
    assert ParseRules([]) == Success([]);
  }

  /** A role's rules after a sequence of additions: every entry naming the role
      is merged in, in order. */
  function RulesAfterAdds(r: Rules, role: Role, entries: seq<(string, Rules)>): Rules
    decreases |entries|
  {
    if entries == [] then r
    else
      var r1 := if RoleOf(entries[0].0) == Some(role) then Merge(r, entries[0].1) else r;
      RulesAfterAdds(r1, role, entries[1..])
  }

  /** Walking the additions gives each role the fold of the entries naming it. */
  lemma {:induction false} AddAllRules(c: Config, entries: seq<(string, Rules)>, role: Role)
    requires AddAll(c, entries).Success?
    ensures Get(AddAll(c, entries).value, role).rules == RulesAfterAdds(Get(c, role).rules, role, entries)
    decreases |entries|
  {
    if entries != [] {
      AddAllStep(c, entries);
      var c1 := AddToPolicy(c, entries[0].1, entries[0].0).value;
      AddAllRules(c1, entries[1..], role);
    }
  }

  /** A successful walk of the additions is the first addition, then the rest. */
  lemma AddAllStep(c: Config, entries: seq<(string, Rules)>)
    requires entries != [] && AddAll(c, entries).Success?
    ensures AddToPolicy(c, entries[0].1, entries[0].0).Success?
    ensures AddAll(c, entries) == AddAll(AddToPolicy(c, entries[0].1, entries[0].0).value, entries[1..])
  {
  }

  /** Merging only adds: a value a directive already holds survives the additions. */
  lemma {:induction false} AddsKeep(r: Rules, role: Role, entries: seq<(string, Rules)>, d: string, v: string)
    requires Lookup(r, d).Some? && v in Lookup(r, d).value
    ensures Lookup(RulesAfterAdds(r, role, entries), d).Some?
    ensures v in Lookup(RulesAfterAdds(r, role, entries), d).value
    decreases |entries|
  {
    if entries != [] {
      MergeLookup(r, entries[0].1, d);
      var r1 := if RoleOf(entries[0].0) == Some(role) then Merge(r, entries[0].1) else r;
      AddsKeep(r1, role, entries[1..], d, v);
    }
  }

  /** Every value an addition entry lists for a role ends up in that role's rules. */
  lemma {:induction false} AddsContain(r: Rules, role: Role, entries: seq<(string, Rules)>, k: nat, d: string, v: string)
    requires k < |entries| && RoleOf(entries[k].0) == Some(role)
    requires Lookup(entries[k].1, d).Some? && v in Lookup(entries[k].1, d).value
    ensures Lookup(RulesAfterAdds(r, role, entries), d).Some?
    ensures v in Lookup(RulesAfterAdds(r, role, entries), d).value
    decreases |entries|
  {
    var r1 := if RoleOf(entries[0].0) == Some(role) then Merge(r, entries[0].1) else r;
    if k == 0 {
      MergeLookup(r, entries[0].1, d);
      AddsKeep(r1, role, entries[1..], d, v);
    } else {
      var rest := entries[1..];
      assert rest[k - 1] == entries[k];
      AddsContain(r1, role, rest, k - 1, d, v);
    }
  }

  /** The pipeline's additions survive into the processed config: additions
      come after the reset and the removals and nothing undoes them. */
  lemma AdditionsSurvive(c: Config, o: Overrides, k: nat, d: string, v: string)
    requires ProcessRoutePolicies(c, o).Success?
    requires o.add.Some? && k < |o.add.value| && RoleOf(o.add.value[k].0).Some?
    requires Lookup(o.add.value[k].1, d).Some? && v in Lookup(o.add.value[k].1, d).value
    ensures var role := RoleOf(o.add.value[k].0).value;
      Lookup(Get(ProcessRoutePolicies(c, o).value, role).rules, d).Some?
      && v in Lookup(Get(ProcessRoutePolicies(c, o).value, role).rules, d).value
  {
    var role := RoleOf(o.add.value[k].0).value;
    var c1 := if o.reset.Some? && Truthy(o.reset.value) then ClearPolicy(c, o.reset.value) else Success(c);
    var c2 := if o.remove.Some? then RemoveAll(c1.value, o.remove.value) else Success(c1.value);
    assert ProcessRoutePolicies(c, o) == AddAll(c2.value, o.add.value);
    AddAllRules(c2.value, o.add.value, role);
    AddsContain(Get(c2.value, role).rules, role, o.add.value, k, d, v);
  }

  /** The two headers of a resolved table never share a name: the report-only
      name is the enforce name with a suffix. */
  lemma ResolvedHeadersDistinct(c: Config, browser: string, version: int)
    ensures var hs := SetCspHeaders(c, HN.GetCspHeaders(browser, version));
      forall i, j | 0 <= i < j < |hs| :: hs[i].name != hs[j].name
  {
    var names := HN.GetCspHeaders(browser, version);
    HN.ReportIsEnforceSuffixed(browser, version);
    assert |names.report| > |names.enforce|;
  }

  /** A role's rules after a sequence of removals: every entry's rules are
      diffed out, whichever role it names. */
  function RulesAfterRemoves(r: Rules, entries: seq<(string, Rules)>): Rules
    decreases |entries|
  {
    if entries == [] then r else RulesAfterRemoves(Diff(r, entries[0].1), entries[1..])
  }

  /** Walking the removals gives both roles the fold of every entry. */
  lemma {:induction false} RemoveAllRules(c: Config, entries: seq<(string, Rules)>, role: Role)
    requires RemoveAll(c, entries).Success?
    ensures Get(RemoveAll(c, entries).value, role).rules == RulesAfterRemoves(Get(c, role).rules, entries)
    decreases |entries|
  {
    if entries != [] {
      RemoveAllStep(c, entries);
      var c1 := RemoveFromPolicy(c, entries[0].1, entries[0].0).value;
      RemoveAllRules(c1, entries[1..], role);
    }
  }

  /** A successful walk of the removals is the first removal, then the rest. */
  lemma RemoveAllStep(c: Config, entries: seq<(string, Rules)>)
    requires entries != [] && RemoveAll(c, entries).Success?
    ensures RemoveFromPolicy(c, entries[0].1, entries[0].0).Success?
    ensures RemoveAll(c, entries) == RemoveAll(RemoveFromPolicy(c, entries[0].1, entries[0].0).value, entries[1..])
  {
  }

  /** Removals never add or drop a directive, nor reorder them. */
  lemma {:induction false} RemovesKeepKeys(r: Rules, entries: seq<(string, Rules)>)
    ensures Keys(RulesAfterRemoves(r, entries)) == Keys(r)
    decreases |entries|
  {
    if entries != [] {
      DiffKeys(r, entries[0].1);
      RemovesKeepKeys(Diff(r, entries[0].1), entries[1..]);
    }
  }

  /** A failed walk of the removals reports the first entry naming no role. */
  lemma {:induction false} RemoveAllError(c: Config, entries: seq<(string, Rules)>)
    requires RemoveAll(c, entries).Failure?
    ensures var i := FirstFailure(entries, NamesRole);
      i < |entries| && RemoveAll(c, entries).error == InvalidRemoveKind(entries[i].0)
    decreases |entries|
  {
    if NamesRole(entries[0]) {
      var c1 := RemoveFromPolicy(c, entries[0].1, entries[0].0).value;
      assert RemoveAll(c, entries) == RemoveAll(c1, entries[1..]);
      RemoveAllError(c1, entries[1..]);
    }
  }

  /** A failed walk of the additions reports the first entry naming no role. */
  lemma {:induction false} AddAllError(c: Config, entries: seq<(string, Rules)>)
    requires AddAll(c, entries).Failure?
    ensures var i := FirstFailure(entries, NamesRole);
      i < |entries| && AddAll(c, entries).error == InvalidAddKind(entries[i].0)
    decreases |entries|
  {
    if NamesRole(entries[0]) {
      var c1 := AddToPolicy(c, entries[0].1, entries[0].0).value;
      assert AddAll(c, entries) == AddAll(c1, entries[1..]);
      AddAllError(c1, entries[1..]);
    }
  }

  /** A role's rules after the reset step: emptied by a truthy reset naming it
      or `all`. */
  function ResetRules(c: Config, reset: Option<string>, role: Role): Rules {
    if reset.Some? && Truthy(reset.value) && (reset.value == "all" || RoleOf(reset.value) == Some(role)) then []
    else Get(c, role).rules
  }

  function EntriesOf(o: Option<seq<(string, Rules)>>): seq<(string, Rules)> {
    if o.Some? then o.value else []
  }

  /** The processed rules of a role are the reset, then every removal, then the
      additions naming the role, in that order. */
  lemma ProcessOrder(c: Config, o: Overrides, role: Role)
    requires ProcessRoutePolicies(c, o).Success?
    ensures Get(ProcessRoutePolicies(c, o).value, role).rules
      == RulesAfterAdds(RulesAfterRemoves(ResetRules(c, o.reset, role), EntriesOf(o.remove)), role, EntriesOf(o.add))
  {
    var c1 := if o.reset.Some? && Truthy(o.reset.value) then ClearPolicy(c, o.reset.value).value else c;
    assert Get(c1, role).rules == ResetRules(c, o.reset, role);
    var c2 := if o.remove.Some? then RemoveAll(c1, o.remove.value).value else c1;
    if o.remove.Some? {
      RemoveAllRules(c1, o.remove.value, role);
    }
    assert Get(c2, role).rules == RulesAfterRemoves(Get(c1, role).rules, EntriesOf(o.remove));
    if o.add.Some? {
      assert ProcessRoutePolicies(c, o) == AddAll(c2, o.add.value);
      AddAllRules(c2, o.add.value, role);
    } else {
      assert ProcessRoutePolicies(c, o) == Success(c2);
    }
  }

  /** A failed compilation reports the first failing step: the reset, then the
      first removal naming no role, then the first addition naming no role, then
      the first directive of the enforce policy that does not validate, then the
      report policy's. */
  lemma CompileError(c: Config, o: Overrides)
    requires CompilePolicy(c, o).Failure?
    ensures var e := CompilePolicy(c, o).error;
      var pr := ProcessRoutePolicies(c, o);
      if pr.Failure? then OverridesError(o, e)
      else if !Acceptable(pr.value.enforce) then FirstDirectiveError(pr.value.enforce.rules, e)
      else FirstDirectiveError(pr.value.report.rules, e)
  {
    var pr := ProcessRoutePolicies(c, o);
    if pr.Failure? {
      ProcessError(c, o);
    } else if !Acceptable(pr.value.enforce) {
      ParseRulesFirstError(pr.value.enforce.rules);
    } else {
      ParseRulesFirstError(pr.value.report.rules);
    }
  }

  /** `e` is the error of the first override step that cannot be applied. */
  predicate OverridesError(o: Overrides, e: Error) {
    if o.reset.Some? && Truthy(o.reset.value) && RoleOf(o.reset.value).None? && o.reset.value != "all" then
      e == InvalidClearOption(o.reset.value)
    else if o.remove.Some? && FirstFailure(o.remove.value, NamesRole) < |o.remove.value| then
      e == InvalidRemoveKind(o.remove.value[FirstFailure(o.remove.value, NamesRole)].0)
    else
      o.add.Some? && FirstFailure(o.add.value, NamesRole) < |o.add.value|
      && e == InvalidAddKind(o.add.value[FirstFailure(o.add.value, NamesRole)].0)
  }

  /** `e` is the error `validate` gives the first directive of `r` it rejects. */
  predicate FirstDirectiveError(r: Rules, e: Error) {
    var i := FirstFailure(r, Passes(ValidateDirective));
    i < |r| && ValidateDirective(r[i].directive, r[i].values) == Failure(e)
  }

  /** A failed processing reports the first override step that fails. */
  lemma ProcessError(c: Config, o: Overrides)
    requires ProcessRoutePolicies(c, o).Failure?
    ensures OverridesError(o, ProcessRoutePolicies(c, o).error)
  {
    if o.reset.Some? && Truthy(o.reset.value) && RoleOf(o.reset.value).None? && o.reset.value != "all" {
    } else {
      var c1 := if o.reset.Some? && Truthy(o.reset.value) then ClearPolicy(c, o.reset.value).value else c;
      if o.remove.Some? && RemoveAll(c1, o.remove.value).Failure? {
        RemoveAllError(c1, o.remove.value);
      } else {
        var c2 := if o.remove.Some? then RemoveAll(c1, o.remove.value).value else c1;
        if o.remove.Some? {
          FirstFailureAll(o.remove.value);
        }
        assert ProcessRoutePolicies(c, o) == AddAll(c2, o.add.value);
        AddAllError(c2, o.add.value);
      }
    }
  }

  /** When every entry names a role there is no first failure. */
  lemma FirstFailureAll(entries: seq<(string, Rules)>)
    requires forall i | 0 <= i < |entries| :: NamesRole(entries[i])
    ensures FirstFailure(entries, NamesRole) == |entries|
  {
  }

  // ------------------------------------------------- unvalidated policies

  /** Removals never mark a policy validated. */
  lemma {:induction false} RemoveAllUnvalidated(c: Config, entries: seq<(string, Rules)>, role: Role)
    requires RemoveAll(c, entries).Success? && Get(c, role).state == Unvalidated
    ensures Get(RemoveAll(c, entries).value, role).state == Unvalidated
    decreases |entries|
  {
    if entries != [] {
      var c1 := RemoveFromPolicy(c, entries[0].1, entries[0].0).value;
      RemoveAllUnvalidated(c1, entries[1..], role);
    }
  }

  /** Additions never mark a policy validated. */
  lemma {:induction false} AddAllUnvalidated(c: Config, entries: seq<(string, Rules)>, role: Role)
    requires AddAll(c, entries).Success? && Get(c, role).state == Unvalidated
    ensures Get(AddAll(c, entries).value, role).state == Unvalidated
    decreases |entries|
  {
    if entries != [] {
      var c1 := AddToPolicy(c, entries[0].1, entries[0].0).value;
      assert Get(c1, role).state == Unvalidated;
      AddAllUnvalidated(c1, entries[1..], role);
    }
  }

  /** Processing the overrides leaves an unvalidated policy unvalidated. */
  lemma ProcessUnvalidated(c: Config, o: Overrides, role: Role)
    requires ProcessRoutePolicies(c, o).Success? && Get(c, role).state == Unvalidated
    ensures Get(ProcessRoutePolicies(c, o).value, role).state == Unvalidated
  {
    var c1 := if o.reset.Some? && Truthy(o.reset.value) then ClearPolicy(c, o.reset.value).value else c;
    assert Get(c1, role).state == Unvalidated;
    var c2 := if o.remove.Some? then RemoveAll(c1, o.remove.value).value else c1;
    if o.remove.Some? {
      RemoveAllUnvalidated(c1, o.remove.value, role);
    }
    if o.add.Some? {
      assert ProcessRoutePolicies(c, o) == AddAll(c2, o.add.value);
      AddAllUnvalidated(c2, o.add.value, role);
    }
  }

  /** With both policies unvalidated, as a fresh config has them, compilation
      succeeds exactly when the overrides are valid and every directive of
      both processed policies validates. */
  lemma CompileUnvalidated(c: Config, o: Overrides)
    requires c.enforce.state == Unvalidated && c.report.state == Unvalidated
    ensures CompilePolicy(c, o).Success? <==>
      (OverridesValid(o)
       && (forall i | 0 <= i < |ProcessRoutePolicies(c, o).value.enforce.rules| ::
             DirectiveAccepts(ProcessRoutePolicies(c, o).value.enforce.rules[i].directive,
                              ProcessRoutePolicies(c, o).value.enforce.rules[i].values))
       && (forall i | 0 <= i < |ProcessRoutePolicies(c, o).value.report.rules| ::
             DirectiveAccepts(ProcessRoutePolicies(c, o).value.report.rules[i].directive,
                              ProcessRoutePolicies(c, o).value.report.rules[i].values)))
  {
    if OverridesValid(o) {
      ProcessUnvalidated(c, o, Enforce);
      ProcessUnvalidated(c, o, Report);
    }
  }
}
