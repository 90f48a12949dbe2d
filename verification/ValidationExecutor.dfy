/** `StrictnessPolicy`: how validation errors are answered. */
module Strictness {

  datatype Severity = ERROR | WARN | INFO
  datatype Diagnostic = Diagnostic(severity: Severity, code: string, message: string, path: string)
  datatype Mode = FailOnError | DropInvalid | WarnOnly
  datatype Verdict = Verdict(diagnostics: seq<Diagnostic>, shouldFail: bool, dropInvalid: bool)

  predicate HasErrors(diagnostics: seq<Diagnostic>) { exists d :: d in diagnostics && d.severity == ERROR }

  function Downgraded(d: Diagnostic): Diagnostic { if d.severity == ERROR then d.(severity := WARN) else d }

  function DowngradedAll(diagnostics: seq<Diagnostic>): seq<Diagnostic> {
    seq(|diagnostics|, i requires 0 <= i < |diagnostics| => Downgraded(diagnostics[i]))
  }

  method DowngradeErrors(diagnostics: seq<Diagnostic>) returns (updated: seq<Diagnostic>)
    ensures updated == DowngradedAll(diagnostics) && !HasErrors(updated)
  {
    updated := [];
    for k := 0 to |diagnostics|
      invariant updated == DowngradedAll(diagnostics[..k]) && !HasErrors(updated)
    {
      if diagnostics[k].severity == ERROR {
        updated := updated + [diagnostics[k].(severity := WARN)];
      } else {
        updated := updated + [diagnostics[k]];
      }
    }
    assert diagnostics[..|diagnostics|] == diagnostics;
  }

  function Apply(mode: Mode, diagnostics: seq<Diagnostic>): Verdict {
    match mode
    case FailOnError => Verdict(diagnostics, HasErrors(diagnostics), false)
    case DropInvalid => Verdict(diagnostics, false, HasErrors(diagnostics))
    case WarnOnly => Verdict(DowngradedAll(diagnostics), false, false)
  }

  /** `StrictnessPolicy.apply`: a verdict never both fails and drops, it fails or
      drops only over an error, and the diagnostics change only for warn_only. */
  method ApplyPolicy(mode: Mode, diagnostics: seq<Diagnostic>) returns (verdict: Verdict)
    ensures verdict == Apply(mode, diagnostics)
    ensures |verdict.diagnostics| == |diagnostics| && !(verdict.shouldFail && verdict.dropInvalid)
    ensures HasErrors(verdict.diagnostics) <==> verdict.shouldFail || verdict.dropInvalid
    ensures verdict.diagnostics != diagnostics ==> mode == WarnOnly && HasErrors(diagnostics)
  {
    match mode {
      case FailOnError => verdict := Verdict(diagnostics, HasErrors(diagnostics), false);
      case DropInvalid => verdict := Verdict(diagnostics, false, HasErrors(diagnostics));
      case WarnOnly =>
        var updated := DowngradeErrors(diagnostics);
        verdict := Verdict(updated, false, false);
    }
  }
}

/** `ValidationExecutor.run_one` */
module ValidationExecutor {
  import opened Options
  import opened Values
  import opened Permutations
  import opened StableSort
  import opened Lexicographic
  import opened ValidationCompiler
  import opened Strictness

  datatype Level = FAIL | WARNING | DROP
  datatype Decision = Pass | Warn | Drop | Fail

  datatype Item = Item(
    code: string, message: string, path: string, ruleId: Option<string>, moduleId: string,
    severity: Level, severityHint: Option<string>)

  datatype Result = Result(items: seq<Item>, decision: Decision, isValid: bool)

  // ---------------------------------------------------------------------
  // One rule
  // ---------------------------------------------------------------------

  function NormalizeSeverity(host: Host, hint: Option<string>): Level {
    if hint.None? then FAIL
    else
      var text := host.upper(host.strip(hint.value));
      if text == "WARN" then WARNING else if text == "DROP" then DROP else FAIL
  }

  function DefaultPath(rule: RulePlan): string {
    if rule.field.None? then "$" else "fields." + rule.field.value
  }

  /** Python's `or` on optional texts: None and "" both give way. */
  function OrElse(a: Option<string>, b: string): string { if a.Some? && a.value != "" then a.value else b }

  function RuntimeItem(rule: RulePlan, code: string, message: string): Item {
    Item(code, message, DefaultPath(rule), rule.ruleId, rule.moduleId, FAIL, rule.severityHint)
  }

  /** The value a module is given: the field's, or the whole record. */
  function RuleValue(rule: RulePlan, record: Record): Value {
    if rule.field.None? then Obj(record)
    else if rule.field.value in record then record[rule.field.value] else Missing
  }

  /** The item one rule contributes, None when it passes. */
  function RunRule(host: Host, catalog: map<string, ModuleSpec>, record: Record, profile: string, rule: RulePlan)
    : Option<Item>
  {
    if rule.moduleId !in catalog then
      Some(RuntimeItem(rule, "EXEC_VALIDATION_MODULE_NOT_FOUND",
                       "Validation module '" + rule.moduleId + "' was not found in catalog."))
    else match catalog[rule.moduleId].call(RuleValue(rule, record), rule.config, record, profile)
      case ModuleRaises =>
        Some(RuntimeItem(rule, "EXEC_VALIDATION_MODULE_FAILED",
                         "Validation module '" + rule.moduleId + "' failed during execution."))
      case Attributes(attrs) =>
        var ok := Get(attrs, "ok");
        if !ok.Bool? then
          Some(RuntimeItem(rule, "EXEC_VALIDATION_BAD_RESULT",
                           "Validation module '" + rule.moduleId + "' returned invalid result shape."))
        else if ok.b then None
        else
          Some(Item(OrElse(rule.onFailCode, OrElse(TextOf(Get(attrs, "code")), "VALIDATION_FAILED")),
                    OrElse(rule.onFailMessage, OrElse(TextOf(Get(attrs, "message")),
                      OrElse(TextOf(Get(attrs, "details")), "Validation failed: " + rule.moduleId))),
                    OrElse(TextOf(Get(attrs, "path")), DefaultPath(rule)),
                    rule.ruleId, rule.moduleId, NormalizeSeverity(host, rule.severityHint), rule.severityHint))
  }

  function Running(host: Host, catalog: map<string, ModuleSpec>, record: Record, profile: string)
    : RulePlan -> Option<Item>
  {
    (rule: RulePlan) => RunRule(host, catalog, record, profile, rule)
  }

  // ---------------------------------------------------------------------
  // Decisions
  // ---------------------------------------------------------------------

  function SortKey(item: Item): seq<string> {
    [item.moduleId, if item.ruleId.Some? then item.ruleId.value else "", item.path, item.code, item.message]
  }

  predicate ItemLe(a: Item, b: Item) { TupleLe(SortKey(a), SortKey(b)) }

  predicate HasLevel(items: seq<Item>, level: Level) { exists item :: item in items && item.severity == level }

  function DecisionWithoutPolicies(items: seq<Item>): Decision {
    if HasLevel(items, FAIL) then Fail
    else if HasLevel(items, DROP) then Drop
    else if HasLevel(items, WARNING) then Warn
    else Pass
  }

  function DecisionFromStrictness(verdict: Verdict, items: seq<Item>): Decision {
    if verdict.shouldFail then Fail
    else if verdict.dropInvalid || HasLevel(items, DROP) then Drop
    else if HasLevel(items, WARNING) then Warn
    else Pass
  }

  function ToDiagnostic(item: Item): Diagnostic {
    Diagnostic(if item.severity == WARNING then Strictness.WARN else ERROR, item.code, item.message, item.path)
  }

  function FromDiagnostic(d: Diagnostic, dropInvalid: bool): Level {
    if d.severity == Strictness.WARN then WARNING else if dropInvalid then DROP else FAIL
  }

  function ToDiagnostics(items: seq<Item>): seq<Diagnostic> {
    seq(|items|, i requires 0 <= i < |items| => ToDiagnostic(items[i]))
  }

  const MISMATCH: Item := Item(
    "EXEC_STRICTNESS_RESULT_LENGTH_MISMATCH", "Strictness diagnostics length mismatch, policy result ignored.",
    "$", None, "strictness", FAIL, None)

  /** A policy is any way of answering diagnostics; None runs without policies. */
  type Policy = Option<seq<Diagnostic> -> Verdict>

  function Effective(items: seq<Item>, verdict: Verdict): seq<Item>
    requires |verdict.diagnostics| == |items|
  {
    seq(|items|, i requires 0 <= i < |items| =>
      items[i].(severity := FromDiagnostic(verdict.diagnostics[i], verdict.dropInvalid)))
  }

  /** The end of run_one, from the sorted items on. */
  function Decide(items: seq<Item>, policy: Policy): Result {
    if items == [] then Result([], Pass, true)
    else if policy.None? then
      Result(items, DecisionWithoutPolicies(items), DecisionWithoutPolicies(items) != Fail)
    else
      var verdict := policy.value(ToDiagnostics(items));
      if |verdict.diagnostics| != |items| then
        Result(items + [MISMATCH], DecisionWithoutPolicies(items + [MISMATCH]),
               DecisionWithoutPolicies(items + [MISMATCH]) != Fail)
      else
        var effective := Effective(items, verdict);
        var decision := DecisionFromStrictness(verdict, effective);
        Result(effective, decision, decision != Fail)
  }

  function Validate(host: Host, catalog: map<string, ModuleSpec>, policy: Policy, plan: seq<RulePlan>,
                    record: Record, profile: string): Result {
    Decide(Sort(ItemLe, Compact(Running(host, catalog, record, profile), plan)), policy)
  }

  method RunOne(host: Host, catalog: map<string, ModuleSpec>, policy: Policy, plan: seq<RulePlan>,
                record: Record, profile: string) returns (r: Result)
    ensures r == Validate(host, catalog, policy, plan, record, profile)
  {
    var raw: seq<Item> := [];
    for n := 0 to |plan|
      invariant raw == Compact(Running(host, catalog, record, profile), plan[..n])
    {
      assert plan[..n + 1][..n] == plan[..n];
      var item := RunRule(host, catalog, record, profile, plan[n]);
      assert raw + [] == raw;
      if item.Some? {
        raw := raw + [item.value];
      }
    }
    assert plan[..|plan|] == plan;
    r := Decide(Sort(ItemLe, raw), policy);
  }

  /** What the module of the rule answers: a rule on a field is given the value of
      that field, MISSING where the record has none, and any other rule is given
      the record. */
  ghost function Answer(catalog: map<string, ModuleSpec>, record: Record, profile: string, rule: RulePlan): RawResult
    requires rule.moduleId in catalog
  {
    var given := match rule.field
      case None => Obj(record)
      case Some(field) => if field in record then record[field] else Missing;
    catalog[rule.moduleId].call(given, rule.config, record, profile)
  }

  /** The module of the rule is there, returns normally and answers ok. */
  ghost predicate Passes(catalog: map<string, ModuleSpec>, record: Record, profile: string, rule: RulePlan) {
    rule.moduleId in catalog
    && var raw := Answer(catalog, record, profile, rule);
       raw.Attributes? && "ok" in raw.attrs && raw.attrs["ok"] == Bool(true)
  }

  lemma RulePassesIff(host: Host, catalog: map<string, ModuleSpec>, record: Record, profile: string, rule: RulePlan)
    ensures RunRule(host, catalog, record, profile, rule).None? <==> Passes(catalog, record, profile, rule)
  {
  }

  /** The first of the candidates that is a non-empty text. */
  ghost predicate IsFirstText(text: string, candidates: seq<Option<string>>) {
    exists n :: 0 <= n < |candidates| && candidates[n] == Some(text) && text != ""
      && forall m :: 0 <= m < n ==> candidates[m] == None || candidates[m] == Some("")
  }

  ghost function TextAt(attrs: map<string, Value>, key: string): Option<string> {
    if key in attrs && attrs[key].Str? then Some(attrs[key].s) else None
  }

  /** The path a rule reports when its module names none. */
  ghost function PlaceOf(rule: RulePlan): string {
    match rule.field case None => "$" case Some(field) => "fields." + field
  }

  /** The item names its rule, and is a plain failure at the place of the rule. */
  ghost predicate IsFailureOf(item: Item, rule: RulePlan, code: string, complaint: string) {
    item == Item(code, "Validation module '" + rule.moduleId + complaint, PlaceOf(rule), rule.ruleId, rule.moduleId,
                 FAIL, rule.severityHint)
  }

  ghost function HintedLevel(host: Host, rule: RulePlan): Level {
    match rule.severityHint
    case None => FAIL
    case Some(hint) =>
      var token := host.upper(host.strip(hint));
      if token == "DROP" then DROP else if token == "WARN" then WARNING else FAIL
  }

  /** The item of a rule whose module says no: code, message and path are the
      rule's own, or else the module's, or else a default. */
  ghost predicate IsRefusalOf(host: Host, item: Item, rule: RulePlan, attrs: map<string, Value>) {
    && item.ruleId == rule.ruleId && item.moduleId == rule.moduleId && item.severityHint == rule.severityHint
    && item.severity == HintedLevel(host, rule)
    && IsFirstText(item.code, [rule.onFailCode, TextAt(attrs, "code"), Some("VALIDATION_FAILED")])
    && IsFirstText(item.message, [rule.onFailMessage, TextAt(attrs, "message"), TextAt(attrs, "details"),
                                  Some("Validation failed: " + rule.moduleId)])
    && IsFirstText(item.path, [TextAt(attrs, "path"), Some(PlaceOf(rule))])
  }

  /** What a rule that does not pass reports. */
  ghost predicate IsReportOf(host: Host, catalog: map<string, ModuleSpec>, record: Record, profile: string,
                             rule: RulePlan, item: Item)
  {
    if rule.moduleId !in catalog then
      IsFailureOf(item, rule, "EXEC_VALIDATION_MODULE_NOT_FOUND", "' was not found in catalog.")
    else match Answer(catalog, record, profile, rule)
      case ModuleRaises => IsFailureOf(item, rule, "EXEC_VALIDATION_MODULE_FAILED", "' failed during execution.")
      case Attributes(attrs) =>
        if "ok" in attrs && attrs["ok"].Bool? then IsRefusalOf(host, item, rule, attrs)
        else IsFailureOf(item, rule, "EXEC_VALIDATION_BAD_RESULT", "' returned invalid result shape.")
  }

  lemma OrElseIsFirstText(a: Option<string>, b: string, rest: seq<Option<string>>)
    requires IsFirstText(b, rest)
    ensures IsFirstText(OrElse(a, b), [a] + rest)
  {
    var all := [a] + rest;
    if a.Some? && a.value != "" {
      assert all[0] == Some(a.value);
    } else {
      var n :| 0 <= n < |rest| && rest[n] == Some(b)
        && forall m :: 0 <= m < n ==> rest[m] == None || rest[m] == Some("");
      assert all[n + 1] == Some(b);
      forall m | 0 <= m < n + 1 ensures all[m] == None || all[m] == Some("") {
        if m > 0 { assert all[m] == rest[m - 1]; }
      }
    }
  }

  /** So the item of a rule says where its code, message, path and severity come
      from; and there is none exactly when the rule passes (`RulePassesIff`). */
  lemma RuleReports(host: Host, catalog: map<string, ModuleSpec>, record: Record, profile: string, rule: RulePlan)
    requires RunRule(host, catalog, record, profile, rule).Some?
    ensures IsReportOf(host, catalog, record, profile, rule, RunRule(host, catalog, record, profile, rule).value)
  {
    hide OrElse, IsFirstText;
    if rule.moduleId in catalog && Answer(catalog, record, profile, rule).Attributes? {
      var attrs := Answer(catalog, record, profile, rule).attrs;
      FirstTexts(rule, attrs);
      assert forall key :: TextAt(attrs, key) == TextOf(Get(attrs, key));
    }
  }

  lemma FirstTexts(rule: RulePlan, attrs: map<string, Value>)
    ensures IsFirstText(OrElse(rule.onFailCode, OrElse(TextAt(attrs, "code"), "VALIDATION_FAILED")),
                        [rule.onFailCode, TextAt(attrs, "code"), Some("VALIDATION_FAILED")])
    ensures IsFirstText(
      OrElse(rule.onFailMessage, OrElse(TextAt(attrs, "message"),
        OrElse(TextAt(attrs, "details"), "Validation failed: " + rule.moduleId))),
      [rule.onFailMessage, TextAt(attrs, "message"), TextAt(attrs, "details"),
       Some("Validation failed: " + rule.moduleId)])
    ensures IsFirstText(OrElse(TextAt(attrs, "path"), PlaceOf(rule)), [TextAt(attrs, "path"), Some(PlaceOf(rule))])
  {
    var code, text, details, path :=
      TextAt(attrs, "code"), TextAt(attrs, "message"), TextAt(attrs, "details"), TextAt(attrs, "path");
    var otherwise := "Validation failed: " + rule.moduleId;
    OneText("VALIDATION_FAILED");
    OneText(otherwise);
    OneText(PlaceOf(rule));
    OrElseIsFirstText(code, "VALIDATION_FAILED", [Some("VALIDATION_FAILED")]);
    OrElseIsFirstText(rule.onFailCode, OrElse(code, "VALIDATION_FAILED"), [code] + [Some("VALIDATION_FAILED")]);
    assert [rule.onFailCode] + ([code] + [Some("VALIDATION_FAILED")])
      == [rule.onFailCode, code, Some("VALIDATION_FAILED")];
    OrElseIsFirstText(details, otherwise, [Some(otherwise)]);
    OrElseIsFirstText(text, OrElse(details, otherwise), [details] + [Some(otherwise)]);
    OrElseIsFirstText(rule.onFailMessage, OrElse(text, OrElse(details, otherwise)),
                      [text] + ([details] + [Some(otherwise)]));
    assert [rule.onFailMessage] + ([text] + ([details] + [Some(otherwise)]))
      == [rule.onFailMessage, text, details, Some(otherwise)];
    OrElseIsFirstText(path, PlaceOf(rule), [Some(PlaceOf(rule))]);
    assert [path] + [Some(PlaceOf(rule))] == [path, Some(PlaceOf(rule))];
  }

  lemma OneText(text: string)
    requires text != ""
    ensures IsFirstText(text, [Some(text)])
  {
    assert [Some(text)][0] == Some(text);
  }

  lemma {:induction false} NoItemsIff(host: Host, catalog: map<string, ModuleSpec>, record: Record, profile: string,
                                      plan: seq<RulePlan>)
    ensures Compact(Running(host, catalog, record, profile), plan) == []
      <==> forall i :: 0 <= i < |plan| ==> Passes(catalog, record, profile, plan[i])
  {
    hide RunRule, Passes;
    if plan != [] {
      NoItemsIff(host, catalog, record, profile, plan[..|plan| - 1]);
      RulePassesIff(host, catalog, record, profile, plan[|plan| - 1]);
    }
  }

  /** A record passes exactly when every rule does, with or without strictness. */
  lemma PassIffAllRulesPass(host: Host, catalog: map<string, ModuleSpec>, policy: Policy, plan: seq<RulePlan>,
                            record: Record, profile: string)
    requires policy.None? || exists mode :: policy == WithMode(mode)
    ensures Validate(host, catalog, policy, plan, record, profile).decision == Pass
      <==> forall i :: 0 <= i < |plan| ==> Passes(catalog, record, profile, plan[i])
  {
    var items := Compact(Running(host, catalog, record, profile), plan);
    NoItemsIff(host, catalog, record, profile, plan);
    SortIsPermutation(ItemLe, items);
    OnlyNoItemsPass(Sort(ItemLe, items), policy);
  }

  lemma OnlyNoItemsPass(items: seq<Item>, policy: Policy)
    requires policy.None? || exists mode :: policy == WithMode(mode)
    ensures Decide(items, policy).decision == Pass <==> items == []
  {
    if items != [] {
      if policy.Some? {
        var mode :| policy == WithMode(mode);
        ModeDecides(items, mode);
      } else {
        assert items[0] in items;
        assert HasLevel(items, items[0].severity);
      }
    }
  }

  // ---------------------------------------------------------------------
  // Strictness coherence
  // ---------------------------------------------------------------------

  function WithMode(mode: Mode): Policy { Some((ds: seq<Diagnostic>) => Apply(mode, ds)) }

  /** `effective` is `items` with severities rewritten, and nothing else. */
  ghost predicate SameButSeverity(items: seq<Item>, effective: seq<Item>) {
    && |effective| == |items|
    && forall i :: 0 <= i < |items| ==> effective[i] == items[i].(severity := effective[i].severity)
  }

  /** Under every strictness mode the items keep their number, order and content
      but for severity, no mismatch item appears, and the decision is the one the
      effective items alone would give. */
  lemma StrictnessIsCoherent(items: seq<Item>, mode: Mode)
    ensures var r := Decide(items, WithMode(mode));
      && SameButSeverity(items, r.items)
      && r.decision == DecisionWithoutPolicies(r.items)
      && r.isValid == (r.decision != Fail)
  {
  }

  predicate HasRealError(items: seq<Item>) { exists i :: 0 <= i < |items| && items[i].severity != WARNING }

  function Answered(mode: Mode, level: Level): Level {
    if level == WARNING then WARNING
    else match mode case FailOnError => FAIL case DropInvalid => DROP case WarnOnly => WARNING
  }

  /** Which severities a mode leaves: warnings stay, and every other item becomes
      a failure, a drop or a warning, depending on the mode alone. */
  lemma LevelsOfEffective(items: seq<Item>, mode: Mode)
    ensures HasErrors(ToDiagnostics(items)) <==> HasRealError(items)
    ensures var verdict := Apply(mode, ToDiagnostics(items));
      && |verdict.diagnostics| == |items|
      && forall i :: 0 <= i < |items| ==> Effective(items, verdict)[i].severity == Answered(mode, items[i].severity)
  {
    var ds := ToDiagnostics(items);
    if HasErrors(ds) {
      var d :| d in ds && d.severity == ERROR;
      var i :| 0 <= i < |ds| && ds[i] == d;
      assert items[i].severity != WARNING;
    }
    if HasRealError(items) {
      var i :| 0 <= i < |items| && items[i].severity != WARNING;
      assert ds[i] in ds && ds[i].severity == ERROR;
    }
  }

  /** b may follow a in a result: by module, rule, path, code and message. */
  ghost predicate MayFollow(a: Item, b: Item) {
    TupleLe([a.moduleId, if a.ruleId == None then "" else a.ruleId.value, a.path, a.code, a.message],
            [b.moduleId, if b.ruleId == None then "" else b.ruleId.value, b.path, b.code, b.message])
  }

  /** The items of a record, whatever its rules and the strictness: those of the
      rules that do not pass, in order, each with the severity that the mode leaves
      it; and the decision is the gravest of these severities. */
  ghost predicate IsResult(items: seq<Item>, policy: Policy, r: Result) {
    && SameButSeverity(items, r.items)
    && (forall i, j :: 0 <= i < j < |items| ==> MayFollow(items[i], items[j]))
    && (policy.None? ==> r.items == items)
    && (forall mode :: policy == WithMode(mode) ==>
          forall i :: 0 <= i < |items| ==> r.items[i].severity == Answered(mode, items[i].severity))
    && r.decision == Gravest(r.items) && r.isValid == (r.decision != Fail)
  }

  ghost function Gravest(items: seq<Item>): Decision {
    if exists i :: 0 <= i < |items| && items[i].severity == FAIL then Fail
    else if exists i :: 0 <= i < |items| && items[i].severity == DROP then Drop
    else if items != [] then Warn
    else Pass
  }

  lemma GravestDecides(items: seq<Item>)
    ensures DecisionWithoutPolicies(items) == Gravest(items)
  {
    assert forall level :: HasLevel(items, level) <==> exists i :: 0 <= i < |items| && items[i].severity == level;
    if items != [] && items[0].severity == WARNING { assert HasLevel(items, WARNING); }
  }

  lemma ResultOfItems(items: seq<Item>, policy: Policy)
    requires policy.None? || exists mode :: policy == WithMode(mode)
    requires forall i, j :: 0 <= i < j < |items| ==> MayFollow(items[i], items[j])
    ensures IsResult(items, policy, Decide(items, policy))
  {
    var r := Decide(items, policy);
    GravestDecides(r.items);
    if policy.Some? {
      forall mode | policy == WithMode(mode)
        ensures SameButSeverity(items, r.items) && r.decision == DecisionWithoutPolicies(r.items)
        ensures forall i :: 0 <= i < |items| ==> r.items[i].severity == Answered(mode, items[i].severity)
      {
        StrictnessIsCoherent(items, mode);
        LevelsOfEffective(items, mode);
      }
    }
  }

  lemma ValidateReports(host: Host, catalog: map<string, ModuleSpec>, policy: Policy, plan: seq<RulePlan>,
                        record: Record, profile: string) returns (items: seq<Item>)
    requires policy.None? || exists mode :: policy == WithMode(mode)
    ensures multiset(items) == multiset(Compact(Running(host, catalog, record, profile), plan))
    ensures IsResult(items, policy, Validate(host, catalog, policy, plan, record, profile))
  {
    var raw := Compact(Running(host, catalog, record, profile), plan);
    items := Sort(ItemLe, raw);
    TupleLeIsTotalOrder();
    assert TotalPreorder(ItemLe);
    SortIsPermutation(ItemLe, raw);
    SortIsSorted(ItemLe, raw);
    forall i, j | 0 <= i < j < |items| ensures MayFollow(items[i], items[j]) {
      assert ItemLe(items[i], items[j]);
    }
    ResultOfItems(items, policy);
  }

  /** What a policy is asked: one diagnostic per item, a warning for a warning and
      an error for the rest. */
  ghost predicate AsksAbout(given: seq<Diagnostic>, items: seq<Item>) {
    && |given| == |items|
    && forall i :: 0 <= i < |items| ==>
         && given[i].code == items[i].code && given[i].message == items[i].message && given[i].path == items[i].path
         && given[i].severity == if items[i].severity == WARNING then Strictness.WARN else ERROR
  }

  ghost predicate SomeAt(items: seq<Item>, level: Level) {
    exists i :: 0 <= i < |items| && items[i].severity == level
  }

  /** Any policy at all: one that answers with another number of diagnostics is not
      heeded, one more item reports it, and the record fails; otherwise each item
      takes the severity of its answer, and the record fails or drops when the
      policy says so. */
  lemma ForeignPolicyDecides(items: seq<Item>, answer: seq<Diagnostic> -> Verdict, given: seq<Diagnostic>)
    requires items != [] && AsksAbout(given, items)
    ensures var r, verdict := Decide(items, Some(answer)), answer(given);
      if |verdict.diagnostics| != |items| then
        && |r.items| == |items| + 1 && r.items[..|items|] == items
        && r.items[|items|].code == "EXEC_STRICTNESS_RESULT_LENGTH_MISMATCH" && r.items[|items|].severity == FAIL
        && r.decision == Fail && !r.isValid
      else
        && SameButSeverity(items, r.items)
        && (forall i :: 0 <= i < |items| ==>
              r.items[i].severity == if verdict.diagnostics[i].severity == Strictness.WARN then WARNING
                                     else if verdict.dropInvalid then DROP else FAIL)
        && (r.isValid <==> !verdict.shouldFail) && (r.decision == Fail <==> verdict.shouldFail)
        && (r.decision == Drop <==> !verdict.shouldFail && (verdict.dropInvalid || SomeAt(r.items, DROP)))
        && (r.decision == Warn <==>
              !verdict.shouldFail && !verdict.dropInvalid && !SomeAt(r.items, DROP) && SomeAt(r.items, WARNING))
  {
    assert given == ToDiagnostics(items);
    var r, all := Decide(items, Some(answer)), items + [MISMATCH];
    assert all[|items|] in all;
    assert forall level :: HasLevel(r.items, level) <==> SomeAt(r.items, level);
  }

  function Rank(d: Decision): nat { match d case Pass => 0 case Warn => 1 case Drop => 2 case Fail => 3 }

  /** A stricter mode never decides more leniently, on any items. */
  lemma ModesAreOrdered(items: seq<Item>)
    ensures Rank(Decide(items, WithMode(WarnOnly)).decision)
      <= Rank(Decide(items, WithMode(DropInvalid)).decision)
      <= Rank(Decide(items, WithMode(FailOnError)).decision)
    ensures forall mode :: Decide(items, WithMode(mode)).decision == Pass <==> items == []
  {
    if items != [] {
      forall mode
        ensures Decide(items, WithMode(mode)).decision ==
          match mode
          case WarnOnly => Warn
          case DropInvalid => if HasRealError(items) then Drop else Warn
          case FailOnError => if HasRealError(items) then Fail else Warn
      {
        ModeDecides(items, mode);
      }
    }
  }

  lemma ModeDecides(items: seq<Item>, mode: Mode)
    requires items != []
    ensures Decide(items, WithMode(mode)).decision ==
      match mode
      case WarnOnly => Warn
      case DropInvalid => if HasRealError(items) then Drop else Warn
      case FailOnError => if HasRealError(items) then Fail else Warn
  {
    LevelsOfEffective(items, mode);
    var effective := Effective(items, Apply(mode, ToDiagnostics(items)));
    assert effective[0] in effective;
    forall item | item in effective && item.severity != WARNING ensures HasRealError(items) && mode != WarnOnly {
      var i :| 0 <= i < |effective| && effective[i] == item;
      assert items[i].severity != WARNING;
    }
  }

  /** The decision, unlike the item order, never depends on the rule order, with
      or without ids, under any strictness mode or none. */
  lemma DecisionIgnoresRuleOrder(host: Host, catalog: map<string, ModuleSpec>, policy: Policy,
                                 plan: seq<RulePlan>, other: seq<RulePlan>, record: Record, profile: string)
    requires multiset(plan) == multiset(other)
    requires policy.None? || exists mode :: policy == WithMode(mode)
    ensures Validate(host, catalog, policy, plan, record, profile).decision
      == Validate(host, catalog, policy, other, record, profile).decision
  {
    var run := Running(host, catalog, record, profile);
    var a, b := Sort(ItemLe, Compact(run, plan)), Sort(ItemLe, Compact(run, other));
    CompactPermuted(run, plan, other);
    SortIsPermutation(ItemLe, Compact(run, plan));
    SortIsPermutation(ItemLe, Compact(run, other));
    SameMembers(a, b);
    SameMembers(b, a);
    DecisionOfSameLevels(a, b, policy);
  }

  lemma DecisionOfSameLevels(a: seq<Item>, b: seq<Item>, policy: Policy)
    requires policy.None? || exists mode :: policy == WithMode(mode)
    requires forall level :: HasLevel(a, level) <==> HasLevel(b, level)
    requires (a == [] <==> b == []) && (HasRealError(a) <==> HasRealError(b))
    ensures Decide(a, policy).decision == Decide(b, policy).decision
  {
    if policy.Some? && a != [] {
      var mode :| policy == WithMode(mode);
      ModeDecides(a, mode);
      ModeDecides(b, mode);
    }
  }

  lemma SameMembers(a: seq<Item>, b: seq<Item>)
    requires multiset(a) == multiset(b)
    ensures forall level :: HasLevel(a, level) ==> HasLevel(b, level)
    ensures HasRealError(a) ==> HasRealError(b)
    ensures a != [] ==> b != []
  {
    assert a != [] ==> a[0] in multiset(b);
    forall level | HasLevel(a, level) ensures HasLevel(b, level) {
      var item :| item in a && item.severity == level;
      assert item in multiset(b);
    }
    if HasRealError(a) {
      var i :| 0 <= i < |a| && a[i].severity != WARNING;
      assert a[i] in multiset(b);
      var j :| 0 <= j < |b| && b[j] == a[i];
    }
  }
}
