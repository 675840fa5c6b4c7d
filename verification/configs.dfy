/** The pair of policies a site carries, one enforced and one report-only, and
    the per-role operations the request overrides use. */
module Configs {
  import opened Wrappers
  import opened Errors
  import opened RuleMaps
  import opened Policies

  datatype Role = Enforce | Report

  datatype Config = Config(enforce: Policy, report: Policy)

  /** The two role names a caller may use; anything else is no role. */
  function RoleOf(kind: string): (r: Option<Role>)
    ensures r == Some(Enforce) <==> kind == "enforce"
    ensures r == Some(Report) <==> kind == "report"
    ensures r.None? <==> kind != "enforce" && kind != "report"
  {
    if kind == "enforce" then Some(Enforce)
    else if kind == "report" then Some(Report)
    else None
  }

  /** `getPolicy($role)` */
  function Get(c: Config, role: Role): (p: Policy)
    ensures role == Enforce ==> p == c.enforce
    ensures role == Report ==> p == c.report
  {
    match role
    case Enforce => c.enforce
    case Report => c.report
  }

  /** The config with the policy of `role` replaced and the other one kept. */
  function With(c: Config, role: Role, p: Policy): (c': Config)
    ensures Get(c', role) == p
    ensures forall other | other != role :: Get(c', other) == Get(c, other)
  {
    match role
    case Enforce => c.(enforce := p)
    case Report => c.(report := p)
  }

  /** `new Config($policies)`: the `enforce` and `report` entries, each an empty
      policy when missing; no validation happens here. */
  function FromMap(policies: map<string, Rules>): (c: Config)
    ensures c.enforce == FromRules(if "enforce" in policies then policies["enforce"] else [])
    ensures c.report == FromRules(if "report" in policies then policies["report"] else [])
    ensures forall role :: Get(c, role).state == Unvalidated
  {
    Config(
      FromRules(if "enforce" in policies then policies["enforce"] else []),
      FromRules(if "report" in policies then policies["report"] else []))
  }

  /** `clearPolicy($kind)`: one role, or both for `all`. */
  function ClearPolicy(c: Config, kind: string): (r: Result<Config, Error>)
    ensures r.Failure? <==> RoleOf(kind).None? && kind != "all"
    ensures r.Failure? ==> r.error == InvalidClearOption(kind)
    ensures r.Success? ==> forall role ::
      Get(r.value, role) == (if kind == "all" || RoleOf(kind) == Some(role) then Clear(Get(c, role)) else Get(c, role))
  {
    if kind == "all" then Success(Config(Clear(c.enforce), Clear(c.report)))
    else match RoleOf(kind)
      case Some(role) => Success(With(c, role, Clear(Get(c, role))))
      case None => Failure(InvalidClearOption(kind))
  }

  /** `addToPolicy($rules, $kind)`: the rules are merged into the role's policy
      (`array_merge_recursive` on the rules). */
  function AddToPolicy(c: Config, add: Rules, kind: string): (r: Result<Config, Error>)
    ensures r.Failure? <==> RoleOf(kind).None?
    ensures r.Failure? ==> r.error == InvalidAddKind(kind)
    ensures r.Success? ==> forall role ::
      Get(r.value, role).rules == (if RoleOf(kind) == Some(role) then Merge(Get(c, role).rules, add) else Get(c, role).rules)
    ensures r.Success? ==> Get(r.value, RoleOf(kind).value).state == Unvalidated
    ensures r.Success? ==> forall role | RoleOf(kind) != Some(role) :: Get(r.value, role) == Get(c, role)
  {
    match RoleOf(kind)
    case None => Failure(InvalidAddKind(kind))
    case Some(role) => Success(With(c, role, PolicyState(Merge(Get(c, role).rules, add), Unvalidated)))
  }

  /** `applyPolicyDiff`: the policy is rewritten only when a listed directive is
      present in it. */
  function ApplyPolicyDiff(p: Policy, removal: Rules): (p': Policy)
    ensures p'.rules == Diff(p.rules, removal)
    ensures (exists d | d in Keys(removal) :: d in Keys(p.rules)) ==> p'.state == Unvalidated
    ensures p.state == Unvalidated ==> p'.state == Unvalidated
  {
    if exists d | d in Keys(removal) :: d in Keys(p.rules) then PolicyState(Diff(p.rules, removal), Unvalidated)
    else
      DiffUntouched(p.rules, removal);
      p
  }

  /** A removal that names none of the present directives changes nothing. */
  lemma {:induction false} DiffUntouched(r: Rules, removal: Rules)
    requires forall d | d in Keys(removal) :: d !in Keys(r)
    ensures Diff(r, removal) == r
    decreases |removal|
  {
    if removal != [] {
      assert removal[0].directive in Keys(removal);
      assert Lookup(r, removal[0].directive) == None;
      DiffUntouched(r, Tail(removal));
    }
  }

  /** `removeFromPolicy($rules, $kind)`: the kind is checked, but the diff is
      applied to both policies whatever role it names. */
  function RemoveFromPolicy(c: Config, removal: Rules, kind: string): (r: Result<Config, Error>)
    ensures r.Failure? <==> RoleOf(kind).None?
    ensures r.Failure? ==> r.error == InvalidRemoveKind(kind)
    ensures r.Success? ==> forall role :: Get(r.value, role).rules == Diff(Get(c, role).rules, removal)
    ensures r.Success? ==> forall role | Get(c, role).state == Unvalidated :: Get(r.value, role).state == Unvalidated
  {
    if RoleOf(kind).None? then Failure(InvalidRemoveKind(kind))
    else Success(Config(ApplyPolicyDiff(c.enforce, removal), ApplyPolicyDiff(c.report, removal)))
  }

  /** Removal keeps every policy's directive names and their order. */
  lemma RemoveKeepsKeys(c: Config, removal: Rules, kind: string)
    requires RemoveFromPolicy(c, removal, kind).Success?
    ensures forall role :: Keys(Get(RemoveFromPolicy(c, removal, kind).value, role).rules) == Keys(Get(c, role).rules)
  {
    DiffKeys(c.enforce.rules, removal);
    DiffKeys(c.report.rules, removal);
  }

  // ------------------------------------------------- addToPolicy as written

  /** A role's slot as `addToPolicy` leaves it: `array_merge_recursive` is
      handed the role's Policy object rather than an array, which is not an
      array argument, so the property is set to NULL (PHP 8 raises a TypeError
      instead). `isset` is false for a NULL property. */
  datatype Slot = Held(policy: Policy) | Null

  datatype RawConfig = RawConfig(enforce: Slot, report: Slot)

  function RawGet(c: RawConfig, role: Role): Slot {
    match role
    case Enforce => c.enforce
    case Report => c.report
  }

  /** A config whose two roles hold their policies. */
  function Raw(c: Config): (rc: RawConfig)
    ensures forall role :: RawGet(rc, role) == Held(Get(c, role))
  {
    RawConfig(Held(c.enforce), Held(c.report))
  }

  /** `addToPolicy($rules, $kind)` as written: a kind naming no role, or a role
      whose slot is already NULL, fails `isset`; otherwise the merge leaves the
      role without a policy and the other role untouched. */
  function AddToPolicyAsWritten(c: RawConfig, add: Rules, kind: string): (r: Result<RawConfig, Error>)
    ensures r.Failure? <==> RoleOf(kind).None? || RawGet(c, RoleOf(kind).value).Null?
    ensures r.Failure? ==> r.error == InvalidAddKind(kind)
    ensures r.Success? ==> forall role ::
      RawGet(r.value, role) == (if RoleOf(kind) == Some(role) then Null else RawGet(c, role))
  {
    match RoleOf(kind)
    case None => Failure(InvalidAddKind(kind))
    case Some(role) =>
      if RawGet(c, role).Null? then Failure(InvalidAddKind(kind))
      else if role == Enforce then Success(c.(enforce := Null))
      else Success(c.(report := Null))
  }

  /** `getPolicy(...)->parse()` on both roles succeeds: calling `parse()` on a
      NULL slot is a fatal error that `compilePolicy` does not catch. */
  predicate ParsesAsWritten(c: RawConfig) {
    c.enforce.Held? && c.report.Held?
    && Parse(c.enforce.policy).Success? && Parse(c.report.policy).Success?
  }

  /** Any valid addition breaks compilation as written, whatever the rules add,
      while the intended merge succeeds and keeps a policy in the role. */
  lemma AddBreaksCompile(c: Config, add: Rules, kind: string)
    requires RoleOf(kind).Some?
    ensures AddToPolicyAsWritten(Raw(c), add, kind).Success?
    ensures !ParsesAsWritten(AddToPolicyAsWritten(Raw(c), add, kind).value)
    ensures AddToPolicy(c, add, kind).Success?
    ensures Get(AddToPolicy(c, add, kind).value, RoleOf(kind).value).rules
      == Merge(Get(c, RoleOf(kind).value).rules, add)
  {
    var role := RoleOf(kind).value;
    assert RawGet(AddToPolicyAsWritten(Raw(c), add, kind).value, role).Null?;
  }

  /** The smallest case: adding nothing to an empty enforce policy, which
      compiles before the call, no longer compiles after it. */
  lemma EmptyAddBreaksCompile()
    ensures ParsesAsWritten(Raw(FromMap(map[])))
    ensures AddToPolicyAsWritten(Raw(FromMap(map[])), [], "enforce").Success?
    ensures !ParsesAsWritten(AddToPolicyAsWritten(Raw(FromMap(map[])), [], "enforce").value)
  {
    var c := FromMap(map[]);
    assert c.enforce.rules == [] && c.report.rules == [];
    assert ParseRules([]) == Success([]);
    AddBreaksCompile(c, [], "enforce");
  }
}
