/** `ordered_rules` and `compile_validation`: the rule list becomes a rule plan. */
module ValidationCompiler {
  import opened Options
  import opened Values
  import opened MappingPlan
  import opened Permutations
  import opened StableSort
  import opened Lexicographic

  type Record = map<string, Value>

  /** A module call raises, or returns something with named attributes. */
  datatype RawResult = ModuleRaises | Attributes(attrs: map<string, Value>)

  datatype ModuleSpec = ModuleSpec(
    valueType: string,
    call: (Value, map<string, Value>, Record, string) -> RawResult)

  datatype RulePlan = RulePlan(
    moduleId: string, ruleId: Option<string>, field: Option<string>, config: map<string, Value>,
    onFailCode: Option<string>, onFailMessage: Option<string>, severityHint: Option<string>,
    expectedType: Option<TypeId>)

  /** What the rules are compiled against. */
  datatype Env = Env(
    host: Host, catalog: map<string, ModuleSpec>, allowlist: set<string>,
    knownFields: set<string>, finalTypes: map<string, Option<TypeId>>)

  function Get(m: map<string, Value>, key: string): Value { if key in m then m[key] else Null }

  function TextOf(v: Value): Option<string> { if v.Str? then Some(v.s) else None }

  function FieldsOf(v: Value): map<string, Value> { if v.Obj? then v.fields else map[] }

  // ---------------------------------------------------------------------
  // Rule order
  // ---------------------------------------------------------------------

  /** The sort key without its last component, the original index. */
  function RuleKey(rule: Value): seq<string> {
    if !rule.Obj? then ["2", "", ""]
    else
      var id, m := Get(rule.fields, "id"), Get(rule.fields, "module_id");
      var field := Get(FieldsOf(Get(rule.fields, "applies_to")), "field");
      if id.Str? && id.s != "" then ["0", id.s, ""]
      else ["1", if m.Str? then m.s else "", if field.Str? then field.s else ""]
  }

  datatype Indexed = Indexed(index: nat, rule: Value)

  predicate IndexedLe(a: Indexed, b: Indexed) {
    if RuleKey(a.rule) == RuleKey(b.rule) then a.index <= b.index
    else TupleLe(RuleKey(a.rule), RuleKey(b.rule))
  }

  function WithIndex(rules: seq<Value>): seq<Indexed> {
    seq(|rules|, i requires 0 <= i < |rules| => Indexed(i, rules[i]))
  }

  function Ordered(rules: seq<Value>): seq<Indexed> { Sort(IndexedLe, WithIndex(rules)) }

  method OrderedRules(rules: seq<Value>) returns (ordered: seq<Indexed>)
    ensures ordered == Ordered(rules)
  {
    var items: seq<Indexed> := [];
    for index := 0 to |rules|
      invariant items == WithIndex(rules[..index])
    {
      items := items + [Indexed(index, rules[index])];
    }
    assert rules[..|rules|] == rules;
    ordered := Sort(IndexedLe, items);
  }

  function RulesOf(items: seq<Indexed>): seq<Value> {
    seq(|items|, i requires 0 <= i < |items| => items[i].rule)
  }

  lemma IndexedLeIsTotal()
    ensures TotalPreorder(IndexedLe)
  {
    TupleLeIsTotalOrder();
    forall a, b, c | IndexedLe(a, b) && IndexedLe(b, c) ensures IndexedLe(a, c) {
      assert TupleLe(RuleKey(a.rule), RuleKey(b.rule)) || RuleKey(a.rule) == RuleKey(b.rule);
      assert TupleLe(RuleKey(b.rule), RuleKey(c.rule)) || RuleKey(b.rule) == RuleKey(c.rule);
    }
  }

  predicate RuleLe(a: Value, b: Value) { TupleLe(RuleKey(a), RuleKey(b)) }

  lemma MultisetOfRules(items: seq<Indexed>, others: seq<Indexed>)
    requires multiset(items) == multiset(others)
    ensures multiset(RulesOf(items)) == multiset(RulesOf(others))
  {
    var ruleOf := (item: Indexed) => Some(item.rule);
    CompactTotal(ruleOf, items);
    CompactTotal(ruleOf, others);
    assert RulesOf(items) == Compact(ruleOf, items) && RulesOf(others) == Compact(ruleOf, others);
    CompactPermuted(ruleOf, items, others);
  }

  /** The ordered rules are the rules, sorted by key. */
  lemma OrderedIsSortedPermutation(rules: seq<Value>)
    ensures multiset(RulesOf(Ordered(rules))) == multiset(rules)
    ensures SortedBy(RuleLe, RulesOf(Ordered(rules)))
  {
    var items := WithIndex(rules);
    IndexedLeIsTotal();
    TupleLeIsTotalOrder();
    SortIsPermutation(IndexedLe, items);
    SortIsSorted(IndexedLe, items);
    MultisetOfRules(Ordered(rules), items);
    assert RulesOf(items) == rules;
  }

  /** The id a rule is ordered by: a non-empty text. */
  ghost predicate IsId(rule: Value, id: string) {
    rule.Obj? && "id" in rule.fields && rule.fields["id"] == Str(id) && id != ""
  }

  ghost predicate HasId(rule: Value) { exists id :: IsId(rule, id) }

  /** The module, or the field, of a rule without id; none counts as "". */
  ghost function ModuleText(rule: Value): string {
    if rule.Obj? && "module_id" in rule.fields && rule.fields["module_id"].Str? then rule.fields["module_id"].s else ""
  }

  ghost function FieldText(rule: Value): string {
    if rule.Obj? && exists f :: Says(rule.fields, "applies_to", "field", Str(f)) then
      rule.fields["applies_to"].fields["field"].s
    else ""
  }

  /** Rule a may stand before rule b: rules with an id come first, by id; then the
      other objects, by module and field; and what is no object last. */
  ghost predicate MayPrecede(a: Value, b: Value) {
    if !a.Obj? then !b.Obj?
    else if !HasId(a) then
      !HasId(b) && (b.Obj? ==>
        if ModuleText(a) == ModuleText(b) then StrLe(FieldText(a), FieldText(b))
        else StrLe(ModuleText(a), ModuleText(b)))
    else forall x, y :: IsId(a, x) && IsId(b, y) ==> StrLe(x, y)
  }

  lemma TripleLe(a: seq<string>, b: seq<string>)
    requires |a| == 3 && |b| == 3
    ensures TupleLe(a, b) <==>
      if a[0] != b[0] then StrLe(a[0], b[0]) else if a[1] != b[1] then StrLe(a[1], b[1]) else StrLe(a[2], b[2])
  {
    StrLeIsTotalOrder();
    assert a[1..][0] == a[1] && b[1..][0] == b[1] && a[1..][1..] == [a[2]] && b[1..][1..] == [b[2]];
    assert StrLe(a[2], a[2]) && [a[2]][1..] == [] && [b[2]][1..] == [];
    assert Lex(StrLe, [a[2]], [b[2]]) <==> StrLe(a[2], b[2]);
    assert Lex(StrLe, a[1..], b[1..]) <==> if a[1] != b[1] then StrLe(a[1], b[1]) else StrLe(a[2], b[2]);
  }

  lemma KeyOfRule(rule: Value)
    ensures !rule.Obj? ==> RuleKey(rule) == ["2", "", ""]
    ensures rule.Obj? && !HasId(rule) ==> RuleKey(rule) == ["1", ModuleText(rule), FieldText(rule)]
    ensures forall id :: IsId(rule, id) ==> RuleKey(rule) == ["0", id, ""]
  {
    if rule.Obj? && Get(rule.fields, "id").Str? && Get(rule.fields, "id").s != "" {
      assert IsId(rule, Get(rule.fields, "id").s);
    }
    if rule.Obj? && Get(FieldsOf(Get(rule.fields, "applies_to")), "field").Str? {
      assert Says(rule.fields, "applies_to", "field", rule.fields["applies_to"].fields["field"]);
    }
  }

  lemma DigitsInOrder()
    ensures StrLe("0", "1") && StrLe("0", "2") && StrLe("1", "2")
    ensures !StrLe("1", "0") && !StrLe("2", "0") && !StrLe("2", "1")
  {
  }

  lemma KeysInOrder(a: Value, b: Value)
    requires TupleLe(RuleKey(a), RuleKey(b))
    ensures MayPrecede(a, b)
  {
    KeyOfRule(a);
    KeyOfRule(b);
    DigitsInOrder();
    TripleLe(RuleKey(a), RuleKey(b));
    StrLeIsTotalOrder();
    forall x, y | IsId(a, x) && IsId(b, y) ensures StrLe(x, y) {
      assert RuleKey(a)[1] == x && RuleKey(b)[1] == y;
    }
  }

  /** The order of the rules, and that rules with the same key keep theirs. */
  lemma RulesAreOrdered(rules: seq<Value>, i: nat, j: nat)
    requires i < j < |Ordered(rules)|
    ensures var a, b := Ordered(rules)[i], Ordered(rules)[j];
      && a.index < |rules| && a.rule == rules[a.index]
      && MayPrecede(a.rule, b.rule) && (MayPrecede(b.rule, a.rule) ==> a.index <= b.index)
  {
    var items, ordered := WithIndex(rules), Ordered(rules);
    IndexedLeIsTotal();
    TupleLeIsTotalOrder();
    SortIsSorted(IndexedLe, items);
    SortIsPermutation(IndexedLe, items);
    assert ordered[i] in multiset(items);
    var k :| 0 <= k < |items| && items[k] == ordered[i];
    assert IndexedLe(ordered[i], ordered[j]);
    KeysInOrder(ordered[i].rule, ordered[j].rule);
    if MayPrecede(ordered[j].rule, ordered[i].rule) {
      SameKey(ordered[i].rule, ordered[j].rule);
    }
  }

  lemma SameKey(a: Value, b: Value)
    requires MayPrecede(a, b) && MayPrecede(b, a)
    ensures RuleKey(a) == RuleKey(b)
  {
    KeyOfRule(a);
    KeyOfRule(b);
    StrLeIsTotalOrder();
    if HasId(a) && HasId(b) {
      var x :| IsId(a, x);
      var y :| IsId(b, y);
      assert StrLe(x, y) && StrLe(y, x);
    }
  }

  /** Every rule has a non-empty string id, and no two rules share one. */
  ghost predicate DistinctIds(rules: seq<Value>) {
    && (forall i :: 0 <= i < |rules| ==>
          rules[i].Obj? && Get(rules[i].fields, "id").Str? && Get(rules[i].fields, "id").s != "")
    && (forall i, j :: 0 <= i < j < |rules| ==> Get(rules[i].fields, "id") != Get(rules[j].fields, "id"))
  }

  /** With distinct ids the rule order does not depend on the document order. */
  lemma RuleOrderIsCanonical(rules: seq<Value>, others: seq<Value>)
    requires DistinctIds(rules) && multiset(rules) == multiset(others)
    ensures RulesOf(Ordered(rules)) == RulesOf(Ordered(others))
  {
    OrderedIsSortedPermutation(rules);
    OrderedIsSortedPermutation(others);
    TupleLeIsTotalOrder();
    var a := RulesOf(Ordered(rules));
    forall x, y | x in a && y in a && RuleLe(x, y) && RuleLe(y, x) ensures x == y {
      assert x in multiset(rules) && y in multiset(rules);
      var i :| 0 <= i < |rules| && rules[i] == x;
      var j :| 0 <= j < |rules| && rules[j] == y;
      assert RuleKey(x) == RuleKey(y);
      assert RuleKey(x)[1] == Get(x.fields, "id").s && RuleKey(y)[1] == Get(y.fields, "id").s;
    }
    SortedPermutationsAgree(RuleLe, a, RulesOf(Ordered(others)));
  }

  // ---------------------------------------------------------------------
  // Rule compilation
  // ---------------------------------------------------------------------

  /** `link_validation_module`: the expected type, or the diagnostic code. */
  datatype Link = Linked(expected: Option<TypeId>) | Unlinked(code: string)

  function LinkModule(env: Env, moduleId: string): Link {
    if moduleId !in env.allowlist then Unlinked("SCHEMA_LINK_MODULE_NOT_ALLOWED")
    else if moduleId !in env.catalog then Unlinked("SCHEMA_LINK_MODULE_NOT_FOUND")
    else
      var raw := env.catalog[moduleId].valueType;
      if ToPlanTypeId(raw).None? && raw != "any" then Unlinked("SCHEMA_TYPE_INVALID_TYPE_ID")
      else Linked(ToPlanTypeId(raw))
  }

  /** `check_validation_field_semantics` */
  function FieldDiags(env: Env, field: Option<string>, expected: Option<TypeId>, path: string): seq<Diag> {
    if field.None? then []
    else
      (if field.value in env.knownFields then [] else [Diag("COMPILER_FIELD_UNDEFINED", path + ".applies_to.field")])
      + (if field.value in env.finalTypes && expected.Some?
            && env.finalTypes[field.value].Some? && env.finalTypes[field.value] != expected
         then [Diag("SCHEMA_TYPE_VALIDATION_MISMATCH", path + ".module_id")] else [])
  }

  function RulePath(index: nat): string { "validation.rules[" + Decimal10(index) + "]" }

  function CompileRule(env: Env, item: Indexed): (Option<RulePlan>, seq<Diag>) {
    var path := RulePath(item.index);
    if !item.rule.Obj? then (None, [Diag("COMPILER_VALIDATION_INVALID", path)])
    else
      var rule := item.rule.fields;
      var moduleId := Get(rule, "module_id");
      if !moduleId.Str? || moduleId.s == "" then (None, [Diag("SCHEMA_LINK_MODULE_INVALID", path + ".module_id")])
      else match LinkModule(env, moduleId.s)
        case Unlinked(code) => (None, [Diag(code, path + ".module_id")])
        case Linked(expected) =>
          var field := TextOf(Get(FieldsOf(Get(rule, "applies_to")), "field"));
          var config := if "config" in rule then rule["config"] else Obj(map[]);
          var onFail := FieldsOf(Get(rule, "on_fail"));
          (Some(RulePlan(moduleId.s, TextOf(Get(rule, "id")), field, FieldsOf(config),
                         TextOf(Get(onFail, "code")), TextOf(Get(onFail, "message")),
                         TextOf(Get(onFail, "severity_hint")), expected)),
           FieldDiags(env, field, expected, path)
           + (if config.Obj? then [] else [Diag("COMPILER_VALIDATION_INVALID", path + ".config")]))
  }

  /** A compiled rule carries what its blocks say, whatever diagnostics it has: each
      text as it stands where it is one, and the config where it is an object. */
  lemma PlanFollowsRule(env: Env, item: Indexed)
    requires CompileRule(env, item).0.Some?
    ensures item.rule.Obj?
    ensures var plan, rule := CompileRule(env, item).0.value, item.rule.fields;
      && "module_id" in rule && rule["module_id"] == Str(plan.moduleId)
      && plan.moduleId in env.allowlist && plan.moduleId in env.catalog
      && plan.expectedType == ToPlanTypeId(env.catalog[plan.moduleId].valueType)
      && (forall id :: plan.ruleId == Some(id) <==> "id" in rule && rule["id"] == Str(id))
      && (forall f :: plan.field == Some(f) <==> Says(rule, "applies_to", "field", Str(f)))
      && (forall t :: plan.onFailCode == Some(t) <==> Says(rule, "on_fail", "code", Str(t)))
      && (forall t :: plan.onFailMessage == Some(t) <==> Says(rule, "on_fail", "message", Str(t)))
      && (forall t :: plan.severityHint == Some(t) <==> Says(rule, "on_fail", "severity_hint", Str(t)))
      && Obj(plan.config) == (if "config" in rule && rule["config"].Obj? then rule["config"] else Obj(map[]))
  {
  }

  /** The module of the rule: a non-empty text. */
  ghost predicate NamesModule(rule: Value, id: string) {
    rule.Obj? && "module_id" in rule.fields && rule.fields["module_id"] == Str(id) && id != ""
  }

  ghost predicate NamesLinked(env: Env, rule: Value, id: string) {
    && NamesModule(rule, id) && id in env.allowlist && id in env.catalog
    && (env.catalog[id].valueType == "any" || ToPlanTypeId(env.catalog[id].valueType).Some?)
  }

  /** Why a rule has a diagnostic of this code at this place below its path. */
  ghost predicate Complains(env: Env, rule: Value, code: string, at: string) {
    || (code == "COMPILER_VALIDATION_INVALID" && at == "" && !rule.Obj?)
    || (code == "SCHEMA_LINK_MODULE_INVALID" && at == ".module_id"
        && rule.Obj? && forall id :: !NamesModule(rule, id))
    || (code == "SCHEMA_LINK_MODULE_NOT_ALLOWED" && at == ".module_id"
        && exists id :: NamesModule(rule, id) && id !in env.allowlist)
    || (code == "SCHEMA_LINK_MODULE_NOT_FOUND" && at == ".module_id"
        && exists id :: NamesModule(rule, id) && id in env.allowlist && id !in env.catalog)
    || (code == "SCHEMA_TYPE_INVALID_TYPE_ID" && at == ".module_id"
        && exists id :: NamesModule(rule, id) && id in env.allowlist && id in env.catalog
             && !NamesLinked(env, rule, id))
    || (code == "COMPILER_FIELD_UNDEFINED" && at == ".applies_to.field"
        && (exists id :: NamesLinked(env, rule, id))
        && exists f :: Says(rule.fields, "applies_to", "field", Str(f)) && f !in env.knownFields)
    || (code == "SCHEMA_TYPE_VALIDATION_MISMATCH" && at == ".module_id"
        && exists id, f :: NamesLinked(env, rule, id) && Says(rule.fields, "applies_to", "field", Str(f))
             && !FieldFits(env, f, ToPlanTypeId(env.catalog[id].valueType)))
    || (code == "COMPILER_VALIDATION_INVALID" && at == ".config"
        && (exists id :: NamesLinked(env, rule, id)) && "config" in rule.fields && !rule.fields["config"].Obj?)
  }

  /** The diagnostics of a rule that does not link ... */
  lemma UnlinkedComplains(env: Env, item: Indexed, code: string, at: string)
    requires forall id :: !NamesLinked(env, item.rule, id)
    ensures Diag(code, RulePath(item.index) + at) in CompileRule(env, item).1 <==> Complains(env, item.rule, code, at)
  {
    PathsDiffer(RulePath(item.index), at);
    if item.rule.Obj? {
      var id := Get(item.rule.fields, "module_id");
      if id.Str? && id.s != "" {
        assert forall x :: NamesModule(item.rule, x) <==> x == id.s;
        assert NamesModule(item.rule, id.s) && !NamesLinked(env, item.rule, id.s);
      }
    }
  }

  /** ... and of one that does. */
  lemma LinkedComplains(env: Env, item: Indexed, id: string, code: string, at: string)
    requires NamesLinked(env, item.rule, id)
    ensures Diag(code, RulePath(item.index) + at) in CompileRule(env, item).1 <==> Complains(env, item.rule, code, at)
  {
    hide CompileRule, FieldDiags, FieldFits;
    var rule := item.rule.fields;
    LinkedDiags(env, item, id);
    SuffixIsUnique(RulePath(item.index), at, ".config");
    assert forall x :: NamesModule(item.rule, x) <==> x == id;
    var field := TextOf(Get(FieldsOf(Get(rule, "applies_to")), "field"));
    assert forall f :: Says(rule, "applies_to", "field", Str(f)) <==> field == Some(f);
    FieldComplains(env, field, ToPlanTypeId(env.catalog[id].valueType), RulePath(item.index), code, at);
  }

  lemma FieldComplains(env: Env, field: Option<string>, expected: Option<TypeId>, path: string, code: string,
                       at: string)
    ensures Diag(code, path + at) in FieldDiags(env, field, expected, path) <==>
      field.Some?
      && (|| (code == "COMPILER_FIELD_UNDEFINED" && at == ".applies_to.field" && field.value !in env.knownFields)
          || (code == "SCHEMA_TYPE_VALIDATION_MISMATCH" && at == ".module_id"
              && !FieldFits(env, field.value, expected)))
  {
    SuffixIsUnique(path, at, ".applies_to.field");
    SuffixIsUnique(path, at, ".module_id");
  }

  lemma LinkedDiags(env: Env, item: Indexed, id: string)
    requires NamesLinked(env, item.rule, id)
    ensures var rule, path := item.rule.fields, RulePath(item.index);
      CompileRule(env, item).1
        == FieldDiags(env, TextOf(Get(FieldsOf(Get(rule, "applies_to")), "field")),
                      ToPlanTypeId(env.catalog[id].valueType), path)
           + if "config" in rule && !rule["config"].Obj?
             then [Diag("COMPILER_VALIDATION_INVALID", path + ".config")] else []
  {
  }

  /** The diagnostics of a rule are exactly the ones it has given cause for. */
  lemma RuleComplains(env: Env, item: Indexed, code: string, at: string)
    ensures Diag(code, "validation.rules[" + Decimal10(item.index) + "]" + at) in CompileRule(env, item).1
      <==> Complains(env, item.rule, code, at)
  {
    hide Complains, CompileRule;
    if exists id :: NamesLinked(env, item.rule, id) {
      var id :| NamesLinked(env, item.rule, id);
      LinkedComplains(env, item, id, code, at);
    } else {
      UnlinkedComplains(env, item, code, at);
    }
  }

  function CompileRules(env: Env, items: seq<Indexed>): (seq<RulePlan>, seq<Diag>) {
    if items == [] then ([], [])
    else
      var (plans, diags) := CompileRules(env, items[..|items| - 1]);
      var (plan, more) := CompileRule(env, items[|items| - 1]);
      (plans + (if plan.Some? then [plan.value] else []), diags + more)
  }

  // ---------------------------------------------------------------------
  // Fields a profile requires
  // ---------------------------------------------------------------------

  const CANONICAL_PROFILES: set<string> := {"catalog_snapshot", "catalog_delta", "inventory_price_delta"}

  /** The strings a config value iterates over: a list's, or a dict's keys. */
  function TextsIn(v: Value): set<string> {
    match v
    case List(items) => set i | 0 <= i < |items| && items[i].Str? :: items[i].s
    case Obj(fields) => fields.Keys
    case _ => {}
  }

  /** The non-blank texts, normalized. */
  function Normalized(host: Host, texts: set<string>): set<string> {
    set text | text in texts && host.strip(text) != "" :: host.lower(host.strip(text))
  }

  /** The profiles a rule of `required_if_profile` is about: those it lists, or
      the one it names, or all of them. */
  function ProfilesOf(host: Host, config: map<string, Value>): set<string> {
    var listed := Normalized(host, TextsIn(Get(config, "artifact_profiles")));
    var single := Get(config, "artifact_profile");
    var named := if single.Str? then Normalized(host, {single.s}) else {};
    if listed != {} then listed else if named != {} then named else CANONICAL_PROFILES
  }

  predicate Requires(host: Host, plan: RulePlan, field: string, profile: string) {
    plan.moduleId == "required_if_profile" && plan.field == Some(field) && profile in ProfilesOf(host, plan.config)
  }

  /** The config lists this text among its profiles: as an item, or as a key. */
  ghost predicate ListsProfile(config: map<string, Value>, text: string) {
    "artifact_profiles" in config
    && (var listed := config["artifact_profiles"];
        (listed.List? && Str(text) in listed.items) || (listed.Obj? && text in listed.fields))
  }

  /** p is the text without surrounding blanks and in lower case, and not empty. */
  ghost predicate IsProfileOf(host: Host, text: string, p: string) {
    host.strip(text) != "" && p == host.lower(host.strip(text))
  }

  /** A rule of `required_if_profile` is about the profiles it lists; where it lists
      none but blanks, about the one it names; and about the three canonical ones
      where that is blank too. */
  lemma RequiresIff(host: Host, plan: RulePlan, field: string, profile: string)
    ensures var config := plan.config;
      Requires(host, plan, field, profile) <==>
        (&& plan.moduleId == "required_if_profile" && plan.field == Some(field)
         && if exists t, p :: ListsProfile(config, t) && IsProfileOf(host, t, p)
            then exists t :: ListsProfile(config, t) && IsProfileOf(host, t, profile)
            else if "artifact_profile" in config && config["artifact_profile"].Str?
                    && host.strip(config["artifact_profile"].s) != ""
            then IsProfileOf(host, config["artifact_profile"].s, profile)
            else profile in {"catalog_snapshot", "catalog_delta", "inventory_price_delta"})
  {
    var config := plan.config;
    var listed := Normalized(host, TextsIn(Get(config, "artifact_profiles")));
    forall t ensures t in TextsIn(Get(config, "artifact_profiles")) <==> ListsProfile(config, t) {
      if ListsProfile(config, t) && config["artifact_profiles"].List? {
        var i :| 0 <= i < |config["artifact_profiles"].items| && config["artifact_profiles"].items[i] == Str(t);
      }
    }
    forall p ensures p in listed <==> exists t :: ListsProfile(config, t) && IsProfileOf(host, t, p) {
      if p in listed {
        var t :| t in TextsIn(Get(config, "artifact_profiles")) && IsProfileOf(host, t, p);
        assert ListsProfile(config, t);
      }
    }
    if listed != {} {
      var p :| p in listed;
    } else {
      assert forall t, p :: ListsProfile(config, t) && IsProfileOf(host, t, p) ==> p in listed;
      NamedProfile(host, Get(config, "artifact_profile"));
    }
  }

  lemma NamedProfile(host: Host, single: Value)
    ensures single.Str? ==>
      Normalized(host, {single.s}) == if host.strip(single.s) != "" then {host.lower(host.strip(single.s))} else {}
  {
  }

  /** Per field and profile, the path of the rule that requires it. */
  type Required = map<string, map<string, string>>

  /** `update_required_by_profile_sources` */
  function AddRequired(host: Host, table: Required, plan: RulePlan, path: string): Required {
    if plan.field.None? || plan.moduleId != "required_if_profile" then table
    else
      var sources := if plan.field.value in table then table[plan.field.value] else map[];
      table[plan.field.value := sources + map p | p in ProfilesOf(host, plan.config) :: path + ".module_id"]
  }

  function RequiredBy(env: Env, items: seq<Indexed>): Required {
    if items == [] then map[]
    else
      var before, last := RequiredBy(env, items[..|items| - 1]), items[|items| - 1];
      match CompileRule(env, last).0
      case None => before
      case Some(plan) => AddRequired(env.host, before, plan, RulePath(last.index))
  }

  predicate Listed(table: Required, field: string, profile: string) { field in table && profile in table[field] }

  lemma AddRequiredIff(host: Host, table: Required, plan: RulePlan, path: string, field: string, profile: string)
    ensures Listed(AddRequired(host, table, plan, path), field, profile)
      <==> Listed(table, field, profile) || Requires(host, plan, field, profile)
  {
  }

  ghost predicate SomeRequires(host: Host, plans: seq<RulePlan>, field: string, profile: string) {
    exists plan :: plan in plans && Requires(host, plan, field, profile)
  }

  /** A field is required for a profile exactly when some compiled rule says so. */
  lemma {:induction false} RequiredIff(env: Env, items: seq<Indexed>, field: string, profile: string)
    ensures Listed(RequiredBy(env, items), field, profile)
      <==> SomeRequires(env.host, CompileRules(env, items).0, field, profile)
  {
    if items != [] {
      var init, last := items[..|items| - 1], items[|items| - 1];
      var before := CompileRules(env, init).0;
      RequiredIff(env, init, field, profile);
      match CompileRule(env, last).0 {
        case None => assert before + [] == before;
        case Some(plan) =>
          AddRequiredIff(env.host, RequiredBy(env, init), plan, RulePath(last.index), field, profile);
          assert CompileRules(env, items).0 == before + [plan];
      }
    }
  }

  /** The n-th rule compiles to one that requires the field, and no later one does. */
  ghost predicate RequiresLast(env: Env, items: seq<Indexed>, field: string, profile: string, n: nat) {
    && n < |items| && RuleRequires(env, items[n], field, profile)
    && forall m :: n < m < |items| ==> !RuleRequires(env, items[m], field, profile)
  }

  ghost predicate RuleRequires(env: Env, item: Indexed, field: string, profile: string) {
    CompileRule(env, item).0.Some? && Requires(env.host, CompileRule(env, item).0.value, field, profile)
  }

  /** One more rule takes over the listing if it requires the field, and leaves it
      otherwise. */
  lemma ListingFollowsLast(env: Env, items: seq<Indexed>, field: string, profile: string)
    requires items != [] && Listed(RequiredBy(env, items), field, profile)
    ensures var last, before := items[|items| - 1], RequiredBy(env, items[..|items| - 1]);
      if RuleRequires(env, last, field, profile) then
        RequiredBy(env, items)[field][profile] == RulePath(last.index) + ".module_id"
      else
        Listed(before, field, profile) && RequiredBy(env, items)[field][profile] == before[field][profile]
  {
    hide CompileRule, ProfilesOf;
  }

  /** What is listed with the field and profile is the place of the last rule that
      requires it. */
  lemma {:induction false} RequiredNamesLast(env: Env, items: seq<Indexed>, field: string, profile: string)
    returns (n: nat)
    requires Listed(RequiredBy(env, items), field, profile)
    ensures RequiresLast(env, items, field, profile, n)
    ensures RequiredBy(env, items)[field][profile]
      == "validation.rules[" + Decimal10(items[n].index) + "].module_id"
  {
    hide RuleRequires;
    var init, last := items[..|items| - 1], items[|items| - 1];
    ListingFollowsLast(env, items, field, profile);
    if RuleRequires(env, last, field, profile) {
      n := |items| - 1;
      assert RulePath(last.index) + ".module_id" == "validation.rules[" + Decimal10(last.index) + "].module_id";
    } else {
      n := RequiredNamesLast(env, init, field, profile);
      assert forall m :: n < m < |init| ==> items[m] == init[m];
    }
  }

  /** `section` is the validation section of the schema. */
  function Compile(env: Env, section: Value): (seq<RulePlan>, seq<Diag>) {
    if !section.Obj? then ([], [Diag("COMPILER_VALIDATION_INVALID", "validation")])
    else
      var rules := if "rules" in section.fields then section.fields["rules"] else List([]);
      if !rules.List? then ([], [Diag("COMPILER_VALIDATION_INVALID", "validation.rules")])
      else CompileRules(env, Ordered(rules.items))
  }

  /** The rules of the section, as far as it has any. */
  function RuleItems(section: Value): seq<Value> {
    if section.Obj? && "rules" in section.fields && section.fields["rules"].List?
    then section.fields["rules"].items else []
  }

  method CompileValidation(env: Env, section: Value)
    returns (plans: seq<RulePlan>, required: Required, diags: seq<Diag>)
    ensures (plans, diags) == Compile(env, section)
    ensures required == RequiredBy(env, Ordered(RuleItems(section)))
    ensures !section.Obj? ==>
      plans == [] && required == map[] && diags == [Diag("COMPILER_VALIDATION_INVALID", "validation")]
    ensures section.Obj? && "rules" !in section.fields ==> plans == [] && required == map[] && diags == []
    ensures section.Obj? && "rules" in section.fields && !section.fields["rules"].List? ==>
      plans == [] && required == map[] && diags == [Diag("COMPILER_VALIDATION_INVALID", "validation.rules")]
    ensures section.Obj? && "rules" in section.fields && section.fields["rules"].List? ==>
      var ordered := Ordered(section.fields["rules"].items);
      (plans, diags) == CompileRules(env, ordered) && required == RequiredBy(env, ordered)
  {
    assert Ordered([]) == [];
    if !section.Obj? {
      return [], map[], [Diag("COMPILER_VALIDATION_INVALID", "validation")];
    }
    var rules := if "rules" in section.fields then section.fields["rules"] else List([]);
    if !rules.List? {
      return [], map[], [Diag("COMPILER_VALIDATION_INVALID", "validation.rules")];
    }
    var ordered := OrderedRules(rules.items);
    plans, required, diags := CompileAll(env, ordered);
  }

  lemma OneMoreRule(env: Env, items: seq<Indexed>, n: nat)
    requires n < |items|
    ensures var (plans, diags) := CompileRules(env, items[..n]);
      var (plan, more) := CompileRule(env, items[n]);
      && CompileRules(env, items[..n + 1]).1 == diags + more
      && CompileRules(env, items[..n + 1]).0 == (if plan.Some? then plans + [plan.value] else plans)
      && RequiredBy(env, items[..n + 1])
        == (if plan.Some? then AddRequired(env.host, RequiredBy(env, items[..n]), plan.value, RulePath(items[n].index))
            else RequiredBy(env, items[..n]))
  {
    assert items[..n + 1][..n] == items[..n];
  }

  method CompileAll(env: Env, ordered: seq<Indexed>)
    returns (plans: seq<RulePlan>, required: Required, diags: seq<Diag>)
    ensures (plans, diags) == CompileRules(env, ordered)
    ensures required == RequiredBy(env, ordered)
  {
    plans, required, diags := [], map[], [];
    for n := 0 to |ordered|
      invariant CompileRules(env, ordered[..n]) == (plans, diags)
      invariant RequiredBy(env, ordered[..n]) == required
    {
      OneMoreRule(env, ordered, n);
      var (plan, more) := CompileRule(env, ordered[n]);
      if plan.Some? {
        plans := plans + [plan.value];
        required := AddRequired(env.host, required, plan.value, RulePath(ordered[n].index));
      }
      diags := diags + more;
    }
    assert ordered[..|ordered|] == ordered;
  }

  /** A validation section with these rules. */
  function Rules(rules: seq<Value>): Value { Obj(map["rules" := List(rules)]) }

  /** The plan of one rule, which does not depend on where the rule stands. */
  function PlanOf(env: Env): Value -> Option<RulePlan> {
    (rule: Value) => CompileRule(env, Indexed(0, rule)).0
  }

  lemma {:induction false} PlansAreCompact(env: Env, items: seq<Indexed>)
    ensures CompileRules(env, items).0 == Compact(PlanOf(env), RulesOf(items))
  {
    if items != [] {
      var n := |items| - 1;
      assert RulesOf(items)[..n] == RulesOf(items[..n]);
      PlansAreCompact(env, items[..n]);
      assert CompileRule(env, items[n]).0 == PlanOf(env)(items[n].rule);
    }
  }

  /** With distinct, non-empty ids every permutation of validation.rules compiles
      to the identical rule plan. */
  lemma CompilationIgnoresRuleOrder(env: Env, rules: seq<Value>, others: seq<Value>)
    requires DistinctIds(rules) && multiset(rules) == multiset(others)
    ensures Compile(env, Rules(rules)).0 == Compile(env, Rules(others)).0
  {
    RuleOrderIsCanonical(rules, others);
    PlansOfRules(env, rules);
    PlansOfRules(env, others);
  }

  lemma PlansOfRules(env: Env, rules: seq<Value>)
    ensures Compile(env, Rules(rules)).0 == Compact(PlanOf(env), RulesOf(Ordered(rules)))
  {
    PlansAreCompact(env, Ordered(rules));
  }

  /** Without any condition on ids, permuting validation.rules permutes the plan. */
  lemma CompilationPermutes(env: Env, rules: seq<Value>, others: seq<Value>)
    requires multiset(rules) == multiset(others)
    ensures multiset(Compile(env, Rules(rules)).0) == multiset(Compile(env, Rules(others)).0)
  {
    OrderedIsSortedPermutation(rules);
    OrderedIsSortedPermutation(others);
    PlansOfRules(env, rules);
    PlansOfRules(env, others);
    CompactPermuted(PlanOf(env), RulesOf(Ordered(rules)), RulesOf(Ordered(others)));
  }

  /** Nor does the rule order decide what a profile requires. */
  lemma RequiredIgnoresRuleOrder(env: Env, rules: seq<Value>, others: seq<Value>, field: string, profile: string)
    requires multiset(rules) == multiset(others)
    ensures Listed(RequiredBy(env, Ordered(rules)), field, profile)
      <==> Listed(RequiredBy(env, Ordered(others)), field, profile)
  {
    CompilationPermutes(env, rules, others);
    RequiredIff(env, Ordered(rules), field, profile);
    RequiredIff(env, Ordered(others), field, profile);
    var a, b := CompileRules(env, Ordered(rules)).0, CompileRules(env, Ordered(others)).0;
    assert forall plan :: plan in a <==> plan in multiset(a);
    assert forall plan :: plan in b <==> plan in multiset(b);
  }

  // ---------------------------------------------------------------------
  // When the rules compile cleanly
  // ---------------------------------------------------------------------

  ghost predicate ValidRule(env: Env, rule: Value) {
    && rule.Obj?
    && "module_id" in rule.fields && rule.fields["module_id"].Str?
    && var id := rule.fields["module_id"].s;
       && id != "" && id in env.allowlist && id in env.catalog
       && (env.catalog[id].valueType == "any" || ToPlanTypeId(env.catalog[id].valueType).Some?)
       && ("config" in rule.fields ==> rule.fields["config"].Obj?)
       && (ScopeOf(rule).Some? ==>
             ScopeOf(rule).value in env.knownFields
             && FieldFits(env, ScopeOf(rule).value, ToPlanTypeId(env.catalog[id].valueType)))
  }

  /** The field the rule applies to, if it names one. */
  ghost function ScopeOf(rule: Value): Option<string>
    requires rule.Obj?
  {
    if "applies_to" in rule.fields && rule.fields["applies_to"].Obj?
       && "field" in rule.fields["applies_to"].fields && rule.fields["applies_to"].fields["field"].Str?
    then Some(rule.fields["applies_to"].fields["field"].s) else None
  }

  ghost predicate FieldFits(env: Env, field: string, expected: Option<TypeId>) {
    field in env.finalTypes ==>
      env.finalTypes[field].None? || expected.None? || env.finalTypes[field] == expected
  }

  lemma RuleIsCleanIff(env: Env, item: Indexed)
    ensures var (plan, diags) := CompileRule(env, item);
      && (diags == [] <==> ValidRule(env, item.rule))
      && (diags == [] ==> plan.Some?)
      && (diags == [] ==> plan.value.moduleId == item.rule.fields["module_id"].s)
      && (diags == [] ==> plan.value.field == ScopeOf(item.rule))
  {
  }

  ghost predicate AllValid(env: Env, rules: seq<Value>) { forall rule :: rule in rules ==> ValidRule(env, rule) }

  lemma AllValidSnoc(env: Env, rules: seq<Value>, rule: Value)
    ensures AllValid(env, rules + [rule]) <==> AllValid(env, rules) && ValidRule(env, rule)
  {
  }

  lemma {:induction false} RulesAreCleanIff(env: Env, items: seq<Indexed>)
    ensures var (plans, diags) := CompileRules(env, items);
      && (diags == [] <==> AllValid(env, RulesOf(items)))
      && (diags == [] ==> |plans| == |items|)
  {
    if items != [] {
      var init, last := items[..|items| - 1], items[|items| - 1];
      RulesAreCleanIff(env, init);
      RuleIsCleanIff(env, last);
      AllValidSnoc(env, RulesOf(init), last.rule);
      assert RulesOf(items) == RulesOf(init) + [last.rule];
    }
  }

  /** The rules compile without diagnostics exactly when each of them is valid,
      and then every one of them is in the plan. */
  lemma ValidationCompilesCleanlyIff(env: Env, rules: seq<Value>)
    ensures var (plans, diags) := Compile(env, Rules(rules));
      (diags == [] <==> AllValid(env, rules)) && (diags == [] ==> |plans| == |rules|)
  {
    var ordered := Ordered(rules);
    RulesAreCleanIff(env, ordered);
    OrderedIsSortedPermutation(rules);
    assert |multiset(RulesOf(ordered))| == |ordered| && |multiset(rules)| == |rules|;
    forall rule ensures rule in rules <==> rule in RulesOf(ordered) {
      assert rule in rules <==> rule in multiset(rules);
      assert rule in RulesOf(ordered) <==> rule in multiset(RulesOf(ordered));
    }
  }
}
