# stack-csp policy engine in Dafny

A model of the Content Security Policy 1.0 engine of the `stack-csp` middleware:

- a **policy** is an ordered map from directive names to value lists;
- `parse()` deduplicates every list, checks it against the closed CSP 1.0
  directive catalog and against two hand-written grammars, and quotes keywords;
- a **config** holds the enforce and report-only policies and lets a route reset,
  remove from or add to them;
- the **middleware** applies a route's overrides, validates both policies and
  sends a header for each policy that serializes to something, under names that
  depend on the browser.

Modules, one file each:

| file | module | what it holds |
|---|---|---|
| `wrappers.dfy` | `Wrappers` | `Option`, `Result`, `FirstOf` (ordered alternation) |
| `text.dfy` | `Text` | character classes, ASCII case folding, `IndexOf`, `FirstFailure`, `Join` |
| `hosts.dfy` | `Hosts` | the host part shared by both grammars: AST, rendering, a deterministic parser and its completeness |
| `source_grammar.dfy` | `SourceGrammar` | the source-expression grammar (`data:`, `*`, `(http(s)://)? host (:port)?`) |
| `report_uri_grammar.dfy` | `ReportUriGrammar` | the report-uri grammar (URL, or an absolute path), and the same grammar without network-path references, which the policy uses |
| `directives.dfy` | `Directives` | the directive catalog and its keywords |
| `rule_maps.dfy` | `RuleMaps` | rules as an association list with unique keys; lookup, replace, append, recursive merge, diff, dedup, and an ordered walk that aborts on the first failure |
| `errors.dfy` | `Errors` | one error per exception the source throws |
| `policies.dfy` | `Policies` | the policy: validation, `parse`, serialization |
| `configs.dfy` | `Configs` | the enforce/report pair and its operations |
| `csp.dfy` | `Csp` | route overrides, `compilePolicy`, and the header-emission decision |
| `header_names.dfy` | `HeaderNames` | the header-name table |

Each grammar is an abstract syntax with `WellFormed` and `Render`, plus a
deterministic `Parse` that tries the alternatives one after another.
`ReportUriGrammar.Parse` tries them in the pattern's order (URL, then path).
`SourceGrammar.Parse` tries `data:`, then `*`, then the URL forms, while the
pattern lists the URL first. The three alternatives match disjoint strings, so
this order does not change what is accepted. A string
is accepted exactly when `Parse` succeeds. `Parse` is sound (its result renders
back to the input), `ParseComplete` shows every well-formed term is accepted,
and `Characterization` combines the two into "accepted iff it is the rendering
of a well-formed term". Matching is case-insensitive, like the `i` flag of both
patterns.

The report-uri path alternative also matches a network-path reference such as
`//user@host/`, which a browser reads as a host with credentials, against the
stated intent of not allowing HTTP login in the URI. The policy checks report
URIs with `ReportUriGrammar.IsIntendedReportUri`, the pattern's language less
the values starting with `//`; see Findings.

A policy carries a `Validated`/`Unvalidated` flag. `Parse` on a validated policy
changes nothing, and every mutation resets the flag; see Findings for why.

## Model

| member | source | states |
|---|---|---|
| `Directives.SourceDirectives` | src/KyraD/Stack/Csp/Policy.php:15-41 | the catalog has exactly nine source directives, each with `none` and `self` as keywords; a name is a directive iff it is a source directive, `report-uri` or `sandbox` |
| `Directives.Quote` | src/KyraD/Stack/Csp/Policy.php:115 | quoting wraps the value in single quotes and the inside is the value unchanged |
| `Directives.QuotedIsNotKeyword` | src/KyraD/Stack/Csp/Policy.php:112-115 | no quoted value is a keyword of any directive |
| `Hosts.ParseHost` | src/KyraD/Stack/Csp/Policy.php:176-181 | a host parse returns a well-formed host that renders as the consumed prefix of the input |
| `Hosts.ParseHostOfRender` | src/KyraD/Stack/Csp/Policy.php:176-181 | every well-formed host followed by a non-host character is parsed back as itself, with its full length consumed |
| `Hosts.RenderHostHasNoAt` | src/KyraD/Stack/Csp/Policy.php:217-221 | no host accepted by either grammar contains `@` |
| `SourceGrammar.Parse` | src/KyraD/Stack/Csp/Policy.php:174-198 | a source expression parses only to a well-formed term that renders back to the exact input |
| `SourceGrammar.PortOf` | src/KyraD/Stack/Csp/Policy.php:182 | a `:digits` tail yields a port that renders back to the same tail |
| `SourceGrammar.ParseComplete` | src/KyraD/Stack/Csp/Policy.php:174-198 | the rendering of every well-formed `data:`, `*` or host source is accepted |
| `SourceGrammar.Characterization` | src/KyraD/Stack/Csp/Policy.php:174-198 | a string is a source expression iff it renders some well-formed term |
| `SourceGrammar.AcceptedExamples` | src/KyraD/Stack/Csp/Policy.php:176-197 | `example.com`, `*.example.com`, `https://example.com:8443`, `data:` and `*` are accepted |
| `SourceGrammar.DoubleWildcardHasNoParse` | tests/KyraDTest/Stack/Csp/PolicyTest.php:64 | `**` matches none of the alternatives |
| `SourceGrammar.QuoteStartRejected` | src/KyraD/Stack/Csp/Policy.php:174-198 | no value starting with a single quote is a source expression, so `'self'` never is |
| `ReportUriGrammar.SplitPort` | src/KyraD/Stack/Csp/Policy.php:222-233 | an optional `:digits` port is split off so that port and path render back to the tail |
| `ReportUriGrammar.Parse` | src/KyraD/Stack/Csp/Policy.php:215-238 | a report URI parses only to a well-formed URL or path that renders back to the input |
| `ReportUriGrammar.ParseComplete` | src/KyraD/Stack/Csp/Policy.php:215-238 | every well-formed URL or absolute path is accepted |
| `ReportUriGrammar.Characterization` | src/KyraD/Stack/Csp/Policy.php:215-238 | a string is a report URI iff it renders some well-formed report URI |
| `ReportUriGrammar.NoCredentials` | src/KyraD/Stack/Csp/Policy.php:206-208 | in a value read as a URL the host and port hold no `@` and no `/`, and end at the path or at the end of the string |
| `ReportUriGrammar.AuthorityOf` | src/KyraD/Stack/Csp/Policy.php:207 | the span a browser reads as the authority exists exactly for `http://`, `https://` and `//` references, holds no `/`, and lies inside the value |
| `ReportUriGrammar.CredentialsThroughPath` | src/KyraD/Stack/Csp/Policy.php:224-238 | the pattern accepts `//user@evil.com/` through its path alternative, and the authority a browser reads there is `user@evil.com` |
| `ReportUriGrammar.IntendedNoCredentials` | src/KyraD/Stack/Csp/Policy.php:206-208 | in every value of the intended grammar, any authority a browser reads holds no `@`, so no credentials |
| `ReportUriGrammar.SchemedAuthority` | src/KyraD/Stack/Csp/Policy.php:227-233 | in a URL with a scheme the authority a browser reads is exactly the host and port, and it holds no `@` |
| `ReportUriGrammar.SchemelessNoAuthority` | src/KyraD/Stack/Csp/Policy.php:227-233 | a URL without a scheme has no authority a browser would read: it starts with none of `http://`, `https://` and `//` |
| `ReportUriGrammar.AcceptedExamples` | src/KyraD/Stack/Csp/Policy.php:215-238 | `/csp-report` and `https://example.com/csp-report` are accepted |
| `ReportUriGrammar.RejectedExample` | tests/KyraDTest/Stack/Csp/PolicyTest.php:65 | `not_uri` is rejected |
| `RuleMaps.Lookup` | src/KyraD/Stack/Csp/Config.php:102-106 | a lookup finds a key iff it is in the map, and then yields that entry's values |
| `RuleMaps.Put` | src/KyraD/Stack/Csp/Policy.php:77-80 | replacing sets the named key, leaves every other key's values alone, keeps the position of an existing key and appends a new one |
| `RuleMaps.Append` | tests/KyraDTest/Stack/Csp/PolicyTest.php:85-94 | appending a value extends the key's list, or creates it, and leaves every other key alone |
| `RuleMaps.MergeLookup` | src/KyraD/Stack/Csp/Config.php:76 | after a recursive merge a shared key holds both lists concatenated (duplicates kept) and any other key holds the list of the side that had it |
| `RuleMaps.MergeKeys` | src/KyraD/Stack/Csp/Config.php:76 | a merge keeps the existing keys in order and appends the new keys in the order they were added |
| `RuleMaps.MinusCount` | src/KyraD/Stack/Csp/Config.php:107 | `array_diff` keeps exactly the values not being removed, each as often as before |
| `RuleMaps.DiffKeys` | src/KyraD/Stack/Csp/Config.php:100-108 | a diff never changes the set or order of directive keys |
| `RuleMaps.DiffLookup` | src/KyraD/Stack/Csp/Config.php:100-108 | a diff leaves keys without removals alone and subtracts the removal values from the rest |
| `RuleMaps.Dedup` | src/KyraD/Stack/Csp/Policy.php:89 | `array_unique` leaves no duplicates and keeps every value |
| `RuleMaps.DedupOrder` | src/KyraD/Stack/Csp/Policy.php:89 | `array_unique` keeps values in the order of their first occurrence |
| `RuleMaps.DedupOfDistinct` | src/KyraD/Stack/Csp/Policy.php:89 | a list that is already duplicate-free is unchanged |
| `RuleMaps.WalkValues` | src/KyraD/Stack/Csp/Policy.php:68-71 | a successful walk replaces every list by the callback's result for it, in place |
| `RuleMaps.WalkFirstError` | src/KyraD/Stack/Csp/Policy.php:68-71 | a failed walk reports the error of the first entry whose callback fails |
| `Policies.FromRules` | src/KyraD/Stack/Csp/Policy.php:49-53 | a new policy holds exactly the given rules and is unvalidated |
| `Policies.Clear` | src/KyraD/Stack/Csp/Policy.php:63-66 | clearing leaves no directives, serializes to the empty string and leaves the policy unvalidated |
| `Policies.Replace` | src/KyraD/Stack/Csp/Policy.php:77-80 | `replaceRules` sets one directive, changes no other and marks the policy unvalidated |
| `Policies.AppendValue` | tests/KyraDTest/Stack/Csp/PolicyTest.php:85-94 | adding a value appends it to the directive's list, changes no other directive, keeps the directive order with a new directive last, and marks the policy unvalidated |
| `Policies.QuoteKeywords` | src/KyraD/Stack/Csp/Policy.php:108-117 | each keyword of the directive becomes a quoted keyword whose inside is the keyword, every other value is unchanged in place, and no keyword remains bare |
| `Policies.QuoteKeywordsNoDup` | src/KyraD/Stack/Csp/Policy.php:108-117 | quoting keeps a duplicate-free list duplicate-free when no other value already starts with a quote |
| `Policies.ValidateDirective` | src/KyraD/Stack/Csp/Policy.php:86-118 | `validate` returns one value per distinct input value, each the input value or a quoted keyword; every error names this directive or one of its values, never a config error |
| `Policies.QuotedSourceValid` | src/KyraD/Stack/Csp/Policy.php:101-117 | quoting an acceptable duplicate-free list of a source directive yields a valid, duplicate-free list |
| `Policies.ValidateAccepts` | src/KyraD/Stack/Csp/Policy.php:86-164 | a directive validates iff report-uri values are all URIs, sandbox values are all sandbox keywords, or else the name is in the catalog, `none`/`*` are alone, and every value is a keyword or a source expression |
| `Policies.ValidateResult` | src/KyraD/Stack/Csp/Policy.php:89-117 | on success the list is the deduplicated input, with exactly the keywords of a source directive quoted; report-uri and sandbox values are never quoted |
| `Policies.ValidateErrors` | src/KyraD/Stack/Csp/Policy.php:101-105 | which failure each violation raises: an unknown name, `none` with other values, `*` with other values (only without `none`), and for the per-value checks the first value, in first-occurrence order, that the check rejects |
| `Policies.ParseRules` | src/KyraD/Stack/Csp/Policy.php:68-71 | `parse()` on the rules keeps every directive name in place |
| `Policies.ParseRulesAccepts` | src/KyraD/Stack/Csp/Policy.php:68-71 | `parse()` succeeds iff every directive is acceptable |
| `Policies.ParseRulesValues` | src/KyraD/Stack/Csp/Policy.php:68-71 | after a successful `parse()` every directive holds its validated list, and the keys are unchanged |
| `Policies.ParseRulesFirstError` | src/KyraD/Stack/Csp/Policy.php:68-71 | a failed `parse()` reports the error of the first directive that does not validate |
| `Policies.ValidateEstablishes` | src/KyraD/Stack/Csp/Policy.php:86-118 | a validated list has no duplicates, and each value is a quoted keyword or an accepted value of its kind |
| `Policies.ParseRulesValid` | src/KyraD/Stack/Csp/Policy.php:68-71 | every parsed policy satisfies the validity invariant |
| `Policies.Parse` | src/KyraD/Stack/Csp/Policy.php:68-71 | an unvalidated policy parses iff every directive is acceptable, to the walked rules or to the first failing directive's error; the result is validated, valid and has the same directives; a validated policy is returned unchanged |
| `Policies.ParseIdempotent` | src/KyraD/Stack/Csp/Policy.php:68-71 | parsing a parsed policy again changes nothing and cannot fail |
| `Policies.EntryText` | tests/KyraDTest/Stack/Csp/PolicyTest.php:98 | a directive serializes to nothing iff its list is empty; otherwise the text starts with the name and a space and ends in `;` |
| `Text.JoinSnoc` | tests/KyraDTest/Stack/Csp/PolicyTest.php:98 | joining one more value appends the separator and the value, which with the one-value case fixes the joined text |
| `Policies.EntryTextSnoc` | tests/KyraDTest/Stack/Csp/PolicyTest.php:98 | one more value adds a space and the value before the closing `;` |
| `Policies.MultiValueText` | tests/KyraDTest/Stack/Csp/PolicyTest.php:98 | a two-value directive is written `d a b;` |
| `Policies.FooBarBazText` | tests/KyraDTest/Stack/CspTest.php:97 | `foo: [bar, baz]` is written `foo bar baz;` |
| `Policies.SandboxText` | tests/KyraDTest/Stack/Csp/PolicyTest.php:98 | `sandbox: [allow-forms, allow-same-origin]` is written `sandbox allow-forms allow-same-origin;` |
| `Policies.Serialize` | tests/KyraDTest/Stack/Csp/PolicyTest.php:98-107 | a policy serializes to `""` iff no directive has a value; otherwise the text ends in `;` |
| `Policies.SerializeConcat` | tests/KyraDTest/Stack/Csp/PolicyTest.php:98 | serialization concatenates the directives' texts in map order with no separator |
| `Policies.KeywordParses` | src/KyraD/Stack/Csp/Policy.php:108-117 | a bare keyword of a source directive parses to its quoted form and serializes as `directive 'keyword';` |
| `Policies.ReparseFails` | src/KyraD/Stack/Csp/Policy.php:112-115 | a quoted keyword produced by one parse is rejected as an invalid source value by a second parse |
| `Policies.DefaultSelfExample` | src/KyraD/Stack/Csp/Policy.php:200 | `default-src: [self]` parses to `default-src 'self';`, and re-parsing that list fails |
| `Configs.RoleOf` | src/KyraD/Stack/Csp/Config.php:13-14 | only `enforce` and `report` name a role |
| `Configs.FromMap` | src/KyraD/Stack/Csp/Config.php:25-32 | construction takes the `enforce` and `report` entries, each defaulting to an empty unvalidated policy |
| `Configs.Get` | src/KyraD/Stack/Csp/Config.php:38-41 | `getPolicy` answers the enforce policy for `enforce` and the report policy for `report` |
| `Configs.With` | src/KyraD/Stack/Csp/Config.php:76 | replacing one role's policy leaves the other role's policy unchanged |
| `Configs.ClearPolicy` | src/KyraD/Stack/Csp/Config.php:47-63 | clearing empties the named role, or both for `all`, leaves the other alone, and fails naming the kind for anything else |
| `Configs.AddToPolicy` | src/KyraD/Stack/Csp/Config.php:70-77 | the intended add: merges into the named role, leaves that role unvalidated and the other role untouched, and an unknown role fails before anything changes (see Findings) |
| `Configs.AddToPolicyAsWritten` | src/KyraD/Stack/Csp/Config.php:70-77 | the add as written: fails for an unknown role or a role already left without a policy, and otherwise leaves the named role without a policy and the other role untouched |
| `Configs.AddBreaksCompile` | src/KyraD/Stack/Csp/Config.php:76 | after any add as written the two `parse()` calls cannot both run, while the intended add succeeds with the merged rules |
| `Configs.EmptyAddBreaksCompile` | src/KyraD/Stack/Csp/Config.php:76 | an empty config compiles, and adding nothing to its enforce role as written makes it no longer compile |
| `Configs.ApplyPolicyDiff` | src/KyraD/Stack/Csp/Config.php:98-109 | the policy's rules become their diff with the removal; a removal that touches a present directive leaves the policy unvalidated, and an unvalidated policy stays so |
| `Configs.DiffUntouched` | src/KyraD/Stack/Csp/Config.php:102-104 | a removal naming no directive of the policy leaves it unchanged |
| `Configs.RemoveFromPolicy` | src/KyraD/Stack/Csp/Config.php:84-92 | a removal is applied to both roles whatever role is named, keeps an unvalidated role unvalidated, and an unknown role fails before anything changes |
| `Configs.RemoveKeepsKeys` | src/KyraD/Stack/Csp/Config.php:98-109 | removals never add or drop a directive in either role |
| `Csp.RemoveAll` | src/KyraD/Stack/Csp.php:104-107 | walking the removals fails iff some entry names an unknown role |
| `Csp.RemoveAllRules` | src/KyraD/Stack/Csp/Config.php:84-92 | walking the removals leaves each role with its rules diffed, in order, by every entry whatever role it names |
| `Csp.RemovesKeepKeys` | src/KyraD/Stack/Csp/Config.php:98-109 | any sequence of removals keeps the directive names and their order |
| `Csp.RemoveAllError` | src/KyraD/Stack/Csp.php:104-107 | a failed walk of the removals reports the first entry naming no role |
| `Csp.AddAll` | src/KyraD/Stack/Csp.php:109-112 | walking the additions fails iff some entry names an unknown role |
| `Csp.AddAllError` | src/KyraD/Stack/Csp.php:109-112 | a failed walk of the additions reports the first entry naming no role |
| `Csp.ProcessRoutePolicies` | src/KyraD/Stack/Csp.php:98-113 | processing succeeds iff a truthy reset names a role or `all` and every removal and addition entry names a role |
| `Csp.ProcessOrder` | src/KyraD/Stack/Csp.php:98-113 | each role's processed rules are the reset, then every removal, then the additions naming the role, in that order |
| `Csp.ProcessError` | src/KyraD/Stack/Csp.php:98-113 | a failed processing reports the reset error, else the first bad removal, else the first bad addition |
| `Csp.CompilePolicy` | src/KyraD/Stack/Csp.php:82-93 | compilation succeeds iff the overrides apply and both processed policies are acceptable; the result holds the two parsed policies, validated and valid |
| `Csp.ProcessUnvalidated` | src/KyraD/Stack/Csp.php:98-113 | no reset, removal or addition marks an unvalidated policy validated |
| `Csp.CompileUnvalidated` | src/KyraD/Stack/Csp.php:82-93 | for a config whose two policies are unvalidated, as a new config's are, compilation succeeds iff the overrides apply and every directive of both processed policies validates |
| `Csp.CompileError` | src/KyraD/Stack/Csp.php:82-93 | a failed compilation reports the first failing step: the overrides, then the enforce policy's first bad directive, then the report policy's |
| `Csp.NoOverridesOnlyParse` | src/KyraD/Stack/Csp.php:100-102 | without overrides, or with a falsy `cspReset`, the config is not changed before validation |
| `Csp.BadResetFails` | src/KyraD/Stack/Csp.php:100-101 | a truthy reset that names no role and is not `all` aborts compilation with the clear-option error |
| `Csp.ResetAllEmpties` | src/KyraD/Stack/Csp.php:82-113 | resetting `all` compiles to two empty validated policies and sends no header |
| `Csp.AddAllRules` | src/KyraD/Stack/Csp.php:109-112 | walking the additions leaves each role with its rules merged, in order, with exactly the entries that name it |
| `Csp.AddsKeep` | src/KyraD/Stack/Csp/Config.php:76 | additions never drop a value a directive already had |
| `Csp.AddsContain` | src/KyraD/Stack/Csp.php:109-112 | every value an addition lists ends up in the named role's directive |
| `Csp.AdditionsSurvive` | src/KyraD/Stack/Csp.php:98-113 | additions come after reset and removals, so every added value is in the processed config |
| `Csp.EmitIf` | src/KyraD/Stack/Csp.php:63-65 | a header is produced for a value iff the value is truthy |
| `Csp.SetCspHeaders` | src/KyraD/Stack/Csp.php:58-71 | one header per policy with a truthy value and no other header, each carrying its policy's name and value, the enforce header first and the report header last |
| `Csp.EmitPair` | src/KyraD/Stack/Csp.php:62-70 | of two candidate headers exactly the truthy ones are sent, in order |
| `Csp.ResolvedHeadersDistinct` | src/KyraD/Stack/Csp.php:58-71 | the headers sent under a resolved table never share a name |
| `Csp.TruthySerialized` | src/KyraD/Stack/Csp.php:62-63 | a serialized policy is truthy iff some directive has a value, because it can never be `"0"` |
| `Csp.HeadersSent` | src/KyraD/Stack/Csp.php:62-70 | a policy's header is sent iff the policy has some directive with a value |
| `Csp.HeaderValuesTerminated` | src/KyraD/Stack/Csp.php:62-70 | every header value sent ends in `;` |
| `HeaderNames.GetCspHeaders` | src/KyraD/Stack/Csp/HeaderNameResolver.php:36-62 | the resolver always answers with one of the three name tables |
| `HeaderNames.HeaderTable` | src/KyraD/Stack/Csp/HeaderNameResolver.php:36-62 | standard names for Chrome 25+, Firefox 23+, Safari 7+ and unknown browsers; WebKit names for older Chrome and Safari; `X-` names for MSIE and older Firefox |
| `HeaderNames.ReportIsEnforceSuffixed` | src/KyraD/Stack/Csp/HeaderNameResolver.php:6-19 | in every table the report name is the enforce name followed by `-Report-Only` |
| `HeaderNames.EnforceHeaderName` | src/KyraD/Stack/Csp/HeaderNameResolver.php:26-62 | the enforce name is one of the three enforce names: the standard one for Chrome 25+, Firefox 23+, Safari 7+ and any other browser, `X-WebKit-CSP` for older Chrome and Safari, `X-Content-Security-Policy` for MSIE and older Firefox |
| `HeaderNames.ReportHeaderName` | src/KyraD/Stack/Csp/HeaderNameResolver.php:21-24 | the report getter projects the report entry, which is the enforce name plus `-Report-Only` |

## Left out

- HTTP plumbing is not modelled: `Csp::handle`, delegation to the wrapped kernel, and Symfony's request, response and header bag. `SetCspHeaders` returns the list of headers to set.
- User-agent parsing is left out because it is a foreign library. `GetCspHeaders` takes the browser name and the version as an integer. PHP's `>=` on a version string is modelled by that integer comparison.
- `exit()` after a validation failure is replaced by a `Failure` result carrying an `Error` that stands for the exception's message. The message text is not modelled.
- PHP's loose comparisons are not modelled. This covers loose `in_array`, `switch` and truthiness of non-string values. Values, kinds and attributes are plain strings compared exactly; `cspReset` truthiness follows PHP's rule for strings, where `""` and `"0"` are falsy.
- PCRE's `$` also matches before a final newline. The grammars accept neither value with that trailing newline, because this is an engine artifact.
- The `(array)` cast of a scalar rule value is not modelled. Rules are always lists of strings.
- The `addX`/`replaceX` convenience setters and the fluent `return $this` are not part of this model. `Policies.Replace` and `Policies.AppendValue` cover them generically.
- `getRawHeaderValue()` is not part of this model's source files. `Policies.Serialize` follows the serialized forms the tests expect: `directive v1 v2;` per directive, in map order, with no separator. A directive whose list is empty is omitted, which is an assumption.
- `Config.php` reads the rules through `getPolicyRules()`, which `Policy.php` does not define. The model reads them through `getPolicy()`.
- `addToPolicy` as written passes the `Policy` object to `array_merge_recursive`, which is not an array argument (Config.php:76). PHP 5 and 7 warn and store NULL in the property; PHP 8 throws a `TypeError`, which `compilePolicy` does not catch. `Configs.AddToPolicyAsWritten` models the NULL case only; see Findings. The rest of the model uses the intended merge of the rules maps.
- `array_unique` and `array_diff` leave gaps in the numeric keys. The model uses plain lists, and the serialized text is the same either way.
- Sharing one config across requests is not modelled. This is hosting and concurrency, not the engine's logic.
- `handle` never calls `compilePolicy`. `SetCspHeaders` therefore accepts a config in any state, and unvalidated rules are serialized as they are.
- Report URIs starting with `//` match the pattern but the policy rejects them (see Findings). This includes a network-path reference without credentials, such as `//example.com/r`, so the model is stricter than the stated intent there.
- `SourceGrammar.AcceptedExamples` and `ReportUriGrammar.RejectedExample` cover the example values individually. General facts are stated by the `Characterization` lemmas, and the `https://` host-less case has no lemma of its own.

## Findings

| source | as written | input that shows it | evidently intended | confidence | as-written member | corrected member |
|---|---|---|---|---|---|---|
| src/KyraD/Stack/Csp/Policy.php:108-117, 200 | `parse()` rewrites keywords in place as `'self'`. A second `parse()` of the same policy checks `'self'` against the keyword list and the host grammar, and both reject it, so the second parse throws | `default-src: [self]` parsed twice | parsing an already-parsed policy succeeds and changes nothing | not executed | `Policies.ReparseFails` | `Policies.ParseIdempotent` |
| src/KyraD/Stack/Csp/Config.php:76, src/KyraD/Stack/Csp.php:87-88 | `addToPolicy` hands the `Policy` object to `array_merge_recursive`, which returns NULL for a non-array argument, and stores that NULL as the role's policy; `compilePolicy` then calls `parse()` on NULL | a route with `cspAdd` = `enforce: []` on an empty config | the added rules are merged into the role's policy, which stays a policy | not executed | `Configs.AddBreaksCompile` | `Configs.AddToPolicy` |
| src/KyraD/Stack/Csp/Policy.php:224-238 | the path alternative `/` followed by path characters also matches `//user@host/...`, because `/`, `:` and `@` are path characters; a browser reads such a network-path reference as a host with `user@` credentials, which the comment at Policy.php:207 rules out | `//user@evil.com/` | no accepted value carries credentials: the path alternative does not start with `//` | not executed | `ReportUriGrammar.CredentialsThroughPath` | `ReportUriGrammar.IntendedNoCredentials` |

The validated flag fixes only the re-parse of an unchanged policy. A validated
policy changed through `Replace`, `AppendValue`, `Clear`, a merge
(`Configs.AddToPolicy`) or a removal that touches it (`Configs.ApplyPolicyDiff`)
is unvalidated again,
and any quoted keyword it still holds fails the next `Parse`, as `ReparseFails`
shows; the model keeps that behaviour.
