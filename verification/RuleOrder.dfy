/** Whether the order of the validation rules can be seen in a result. */
module RuleOrder {
  import opened Options
  import opened Values
  import opened Permutations
  import opened StableSort
  import opened Lexicographic
  import opened ValidationCompiler
  import opened Strictness
  import opened ValidationExecutor

  function PolicyOf(mode: Option<Mode>): Policy { if mode.Some? then WithMode(mode.value) else None }

  /** The items the rules contribute, in plan order. */
  function Raw(host: Host, catalog: map<string, ModuleSpec>, plan: seq<RulePlan>, record: Record, profile: string)
    : seq<Item>
  {
    Compact(Running(host, catalog, record, profile), plan)
  }

  /** The item as it is reported: strictness rewrites its severity. */
  function Answer(mode: Option<Mode>, item: Item): Item {
    if mode.Some? then item.(severity := Answered(mode.value, item.severity)) else item
  }

  function AnswerAll(mode: Option<Mode>, items: seq<Item>): seq<Item> {
    seq(|items|, i requires 0 <= i < |items| => Answer(mode, items[i]))
  }

  lemma {:induction false} InsertAnswered(mode: Option<Mode>, x: Item, xs: seq<Item>)
    ensures AnswerAll(mode, Insert(ItemLe, x, xs)) == Insert(ItemLe, Answer(mode, x), AnswerAll(mode, xs))
  {
    if xs != [] && !ItemLe(x, xs[0]) {
      InsertAnswered(mode, x, xs[1..]);
      var answers := AnswerAll(mode, xs);
      assert answers[0] == Answer(mode, xs[0]) && answers[1..] == AnswerAll(mode, xs[1..]);
      assert Insert(ItemLe, x, xs) == [xs[0]] + Insert(ItemLe, x, xs[1..]);
      assert Insert(ItemLe, Answer(mode, x), answers) == [answers[0]] + Insert(ItemLe, Answer(mode, x), answers[1..]);
    }
  }

  /** The sort key does not see the severity, so answering and sorting commute. */
  lemma {:induction false} SortAnswered(mode: Option<Mode>, items: seq<Item>)
    ensures AnswerAll(mode, Sort(ItemLe, items)) == Sort(ItemLe, AnswerAll(mode, items))
  {
    if items != [] {
      SortAnswered(mode, items[1..]);
      InsertAnswered(mode, items[0], Sort(ItemLe, items[1..]));
      assert AnswerAll(mode, items)[1..] == AnswerAll(mode, items[1..]);
    }
  }

  /** What a run reports: the raw items, answered, and sorted. */
  lemma ReportedItems(host: Host, catalog: map<string, ModuleSpec>, mode: Option<Mode>, plan: seq<RulePlan>,
                      record: Record, profile: string)
    ensures var r := Validate(host, catalog, PolicyOf(mode), plan, record, profile);
      && r.items == Sort(ItemLe, AnswerAll(mode, Raw(host, catalog, plan, record, profile)))
      && r.isValid == (r.decision != Fail)
  {
    var items := Sort(ItemLe, Raw(host, catalog, plan, record, profile));
    SortAnswered(mode, Raw(host, catalog, plan, record, profile));
    if mode.Some? {
      StrictnessIsCoherent(items, mode.value);
      LevelsOfEffective(items, mode.value);
    } else {
      assert AnswerAll(mode, items) == items;
    }
  }

  /** Items that tie on the sort key are reported alike. */
  ghost predicate TiesAgree(mode: Option<Mode>, items: seq<Item>) {
    forall x, y :: x in items && y in items && SortKey(x) == SortKey(y) ==> Answer(mode, x) == Answer(mode, y)
  }

  lemma AnswerAllPermuted(mode: Option<Mode>, a: seq<Item>, b: seq<Item>)
    requires multiset(a) == multiset(b)
    ensures multiset(AnswerAll(mode, a)) == multiset(AnswerAll(mode, b))
  {
    var answer := (item: Item) => Some(Answer(mode, item));
    CompactTotal(answer, a);
    CompactTotal(answer, b);
    assert AnswerAll(mode, a) == Compact(answer, a) && AnswerAll(mode, b) == Compact(answer, b);
    CompactPermuted(answer, a, b);
  }

  lemma ReorderedReport(host: Host, catalog: map<string, ModuleSpec>, mode: Option<Mode>, plan: seq<RulePlan>,
                        other: seq<RulePlan>, record: Record, profile: string)
    requires multiset(plan) == multiset(other) && TiesAgree(mode, Raw(host, catalog, plan, record, profile))
    ensures Validate(host, catalog, PolicyOf(mode), plan, record, profile)
      == Validate(host, catalog, PolicyOf(mode), other, record, profile)
  {
    var a, b := Raw(host, catalog, plan, record, profile), Raw(host, catalog, other, record, profile);
    CompactPermuted(Running(host, catalog, record, profile), plan, other);
    AnswerAllPermuted(mode, a, b);
    TupleLeIsTotalOrder();
    AnsweredTies(mode, a);
    SortIgnoresInputOrder(ItemLe, AnswerAll(mode, a), AnswerAll(mode, b));
    ReportedItems(host, catalog, mode, plan, record, profile);
    ReportedItems(host, catalog, mode, other, record, profile);
    DecisionIgnoresRuleOrder(host, catalog, PolicyOf(mode), plan, other, record, profile);
  }

  lemma AnsweredTies(mode: Option<Mode>, items: seq<Item>)
    requires TiesAgree(mode, items) && TotalOrder(TupleLe)
    ensures var all := AnswerAll(mode, items);
      forall x, y :: x in all && y in all && ItemLe(x, y) && ItemLe(y, x) ==> x == y
  {
  }

  /** A tie that does not agree shows: the two orders of its rules are reported
      differently, so one of them differs from the plan's own order. */
  lemma TieShows(host: Host, catalog: map<string, ModuleSpec>, mode: Option<Mode>, plan: seq<RulePlan>,
                 record: Record, profile: string, x: Item, y: Item) returns (other: seq<RulePlan>)
    requires x in Raw(host, catalog, plan, record, profile) && y in Raw(host, catalog, plan, record, profile)
    requires SortKey(x) == SortKey(y) && Answer(mode, x) != Answer(mode, y)
    ensures multiset(other) == multiset(plan)
    ensures Validate(host, catalog, PolicyOf(mode), other, record, profile)
      != Validate(host, catalog, PolicyOf(mode), plan, record, profile)
  {
    var run := Running(host, catalog, record, profile);
    CompactMember(run, plan, x);
    CompactMember(run, plan, y);
    var i :| 0 <= i < |plan| && run(plan[i]) == Some(x);
    var j :| 0 <= j < |plan| && run(plan[j]) == Some(y);
    var rest := PickTwo(plan, i, j);
    SwappedTie(host, catalog, mode, rest, plan[i], plan[j], record, profile, x, y);
    other := rest + [plan[i]] + [plan[j]];
    if Validate(host, catalog, PolicyOf(mode), other, record, profile)
      == Validate(host, catalog, PolicyOf(mode), plan, record, profile)
    {
      other := rest + [plan[j]] + [plan[i]];
    }
  }

  lemma SwappedTie(host: Host, catalog: map<string, ModuleSpec>, mode: Option<Mode>, rest: seq<RulePlan>,
                   p: RulePlan, q: RulePlan, record: Record, profile: string, x: Item, y: Item)
    requires RunRule(host, catalog, record, profile, p) == Some(x)
    requires RunRule(host, catalog, record, profile, q) == Some(y)
    requires SortKey(x) == SortKey(y) && Answer(mode, x) != Answer(mode, y)
    ensures Validate(host, catalog, PolicyOf(mode), rest + [p] + [q], record, profile)
      != Validate(host, catalog, PolicyOf(mode), rest + [q] + [p], record, profile)
  {
    var front := TiesOfTwo(host, catalog, mode, rest, p, q, record, profile, x, y, x);
    var front' := TiesOfTwo(host, catalog, mode, rest, q, p, record, profile, y, x, x);
    assert (front + [Answer(mode, x)] + [Answer(mode, y)])[|front|] == Answer(mode, x);
    assert (front + [Answer(mode, y)] + [Answer(mode, x)])[|front|] == Answer(mode, y);
  }

  /** The reported items that tie with k end with those of the last two rules. */
  lemma TiesOfTwo(host: Host, catalog: map<string, ModuleSpec>, mode: Option<Mode>, rest: seq<RulePlan>,
                  p: RulePlan, q: RulePlan, record: Record, profile: string, x: Item, y: Item, k: Item)
    returns (front: seq<Item>)
    requires RunRule(host, catalog, record, profile, p) == Some(x)
    requires RunRule(host, catalog, record, profile, q) == Some(y)
    requires SortKey(x) == SortKey(y) == SortKey(k)
    ensures front == Ties(ItemLe, k, AnswerAll(mode, Raw(host, catalog, rest, record, profile)))
    ensures Ties(ItemLe, k, Validate(host, catalog, PolicyOf(mode), rest + [p] + [q], record, profile).items)
      == front + [Answer(mode, x)] + [Answer(mode, y)]
  {
    var raw := Raw(host, catalog, rest, record, profile);
    CompactSnoc(Running(host, catalog, record, profile), rest, p);
    CompactSnoc(Running(host, catalog, record, profile), rest + [p], q);
    ReportedItems(host, catalog, mode, rest + [p] + [q], record, profile);
    front := Ties(ItemLe, k, AnswerAll(mode, raw));
    TiesOfAnswers(mode, raw, x, y, k);
  }

  lemma TiesOfAnswers(mode: Option<Mode>, raw: seq<Item>, x: Item, y: Item, k: Item)
    requires SortKey(x) == SortKey(y) == SortKey(k)
    ensures Ties(ItemLe, k, Sort(ItemLe, AnswerAll(mode, raw + [x] + [y])))
      == Ties(ItemLe, k, AnswerAll(mode, raw)) + [Answer(mode, x)] + [Answer(mode, y)]
  {
    var all := AnswerAll(mode, raw);
    TupleLeIsTotalOrder();
    SortIsStable(ItemLe, k, AnswerAll(mode, raw + [x] + [y]));
    assert AnswerAll(mode, raw + [x] + [y]) == all + [Answer(mode, x)] + [Answer(mode, y)];
    AnswerTies(mode, x, k);
    AnswerTies(mode, y, k);
    CompactSnoc(Tied(ItemLe, k), all, Answer(mode, x));
    CompactSnoc(Tied(ItemLe, k), all + [Answer(mode, x)], Answer(mode, y));
  }

  lemma AnswerTies(mode: Option<Mode>, x: Item, k: Item)
    requires SortKey(x) == SortKey(k)
    ensures Tied(ItemLe, k)(Answer(mode, x)) == Some(Answer(mode, x))
  {
    TupleLeIsTotalOrder();
    assert SortKey(Answer(mode, x)) == SortKey(k);
    assert TupleLe(SortKey(k), SortKey(k));
    assert ItemLe(Answer(mode, x), k) && ItemLe(k, Answer(mode, x));
  }

  /** Every reordering of the plan reports the same result. */
  ghost predicate OrderFree(host: Host, catalog: map<string, ModuleSpec>, mode: Option<Mode>, plan: seq<RulePlan>,
                            record: Record, profile: string)
  {
    forall other: seq<RulePlan> :: multiset(other) == multiset(plan) ==>
      Validate(host, catalog, PolicyOf(mode), other, record, profile)
        == Validate(host, catalog, PolicyOf(mode), plan, record, profile)
  }

  /** Order independence, exactly: the rule order never shows if and only if the
      items produced that tie on the sort key are reported alike. */
  lemma OrderFreeIff(host: Host, catalog: map<string, ModuleSpec>, mode: Option<Mode>, plan: seq<RulePlan>,
                     record: Record, profile: string)
    ensures OrderFree(host, catalog, mode, plan, record, profile)
      <==> TiesAgree(mode, Raw(host, catalog, plan, record, profile))
  {
    var items := Raw(host, catalog, plan, record, profile);
    if TiesAgree(mode, items) {
      forall other: seq<RulePlan> | multiset(other) == multiset(plan)
        ensures Validate(host, catalog, PolicyOf(mode), other, record, profile)
          == Validate(host, catalog, PolicyOf(mode), plan, record, profile)
      {
        ReorderedReport(host, catalog, mode, plan, other, record, profile);
      }
    } else {
      var x, y :| x in items && y in items && SortKey(x) == SortKey(y) && Answer(mode, x) != Answer(mode, y);
      var other := TieShows(host, catalog, mode, plan, record, profile, x, y);
    }
  }

  // ---------------------------------------------------------------------
  // Order independence, read off the rules
  // ---------------------------------------------------------------------

  function IdText(rule: RulePlan): string { if rule.ruleId.Some? then rule.ruleId.value else "" }

  /** The rule reports failures under a code of its own. */
  predicate NamesOwnCode(rule: RulePlan) {
    rule.onFailCode.Some? && rule.onFailCode.value !in
      {"", "EXEC_VALIDATION_MODULE_NOT_FOUND", "EXEC_VALIDATION_MODULE_FAILED", "EXEC_VALIDATION_BAD_RESULT"}
  }

  /** Items of the two rules that tie are the same item. */
  predicate Interchangeable(host: Host, a: RulePlan, b: RulePlan) {
    a == b
    || (a.ruleId == b.ruleId && a.severityHint == b.severityHint
        && (NormalizeSeverity(host, a.severityHint) == FAIL || (NamesOwnCode(a) && NamesOwnCode(b))))
  }

  /** Rules of the same module and id are interchangeable. Distinct ids are one
      way to have it so. */
  ghost predicate Distinguishable(host: Host, plan: seq<RulePlan>) {
    forall i, j :: 0 <= i < |plan| && 0 <= j < |plan|
      && plan[i].moduleId == plan[j].moduleId && IdText(plan[i]) == IdText(plan[j])
      ==> Interchangeable(host, plan[i], plan[j])
  }

  ghost predicate DistinctRuleIds(plan: seq<RulePlan>) {
    && (forall i :: 0 <= i < |plan| ==> plan[i].ruleId.Some? && plan[i].ruleId.value != "")
    && (forall i, j :: 0 <= i < j < |plan| ==> plan[i].ruleId != plan[j].ruleId)
  }

  lemma DistinctIdsDistinguish(host: Host, plan: seq<RulePlan>)
    requires DistinctRuleIds(plan)
    ensures Distinguishable(host, plan)
  {
  }

  lemma ItemOfRule(host: Host, catalog: map<string, ModuleSpec>, record: Record, profile: string, rule: RulePlan)
    requires RunRule(host, catalog, record, profile, rule).Some?
    ensures var item := RunRule(host, catalog, record, profile, rule).value;
      && item.ruleId == rule.ruleId && item.moduleId == rule.moduleId && item.severityHint == rule.severityHint
      && (item.severity == FAIL || item.severity == NormalizeSeverity(host, rule.severityHint))
      && (NamesOwnCode(rule) && item.code == rule.onFailCode.value ==>
            item.severity == NormalizeSeverity(host, rule.severityHint))
      && (NamesOwnCode(rule) && item.code != rule.onFailCode.value ==> item.severity == FAIL && !NamesOwnCode(
            rule.(onFailCode := Some(item.code))))
  {
  }

  lemma DistinguishableItems(host: Host, catalog: map<string, ModuleSpec>, plan: seq<RulePlan>,
                             record: Record, profile: string)
    requires Distinguishable(host, plan)
    ensures TiesAgree(None, Raw(host, catalog, plan, record, profile))
  {
    var run, items := Running(host, catalog, record, profile), Raw(host, catalog, plan, record, profile);
    forall x, y | x in items && y in items && SortKey(x) == SortKey(y) ensures Answer(None, x) == Answer(None, y) {
      CompactMember(run, plan, x);
      CompactMember(run, plan, y);
      var i :| 0 <= i < |plan| && run(plan[i]) == Some(x);
      var j :| 0 <= j < |plan| && run(plan[j]) == Some(y);
      ItemOfRule(host, catalog, record, profile, plan[i]);
      ItemOfRule(host, catalog, record, profile, plan[j]);
      SameKey(x, y);
    }
  }

  lemma SameKey(x: Item, y: Item)
    requires SortKey(x) == SortKey(y)
    ensures x.moduleId == y.moduleId && x.path == y.path && x.code == y.code && x.message == y.message
    ensures (if x.ruleId.Some? then x.ruleId.value else "") == (if y.ruleId.Some? then y.ruleId.value else "")
  {
  }

  /** When the rules are distinguishable, as with distinct ids, any reordering of
      the plan gives the identical result on every record, under any policy. */
  lemma ResultIgnoresRuleOrder(host: Host, catalog: map<string, ModuleSpec>, policy: Policy,
                               plan: seq<RulePlan>, other: seq<RulePlan>, record: Record, profile: string)
    requires Distinguishable(host, plan) && multiset(plan) == multiset(other)
    ensures Validate(host, catalog, policy, plan, record, profile)
      == Validate(host, catalog, policy, other, record, profile)
  {
    DistinguishableItems(host, catalog, plan, record, profile);
    ReorderedReport(host, catalog, None, plan, other, record, profile);
    ReportedItems(host, catalog, None, plan, record, profile);
    ReportedItems(host, catalog, None, other, record, profile);
    assert AnswerAll(None, Raw(host, catalog, plan, record, profile)) == Raw(host, catalog, plan, record, profile);
    assert AnswerAll(None, Raw(host, catalog, other, record, profile)) == Raw(host, catalog, other, record, profile);
  }

  /** From the schema on: permuting validation.rules changes no result. */
  lemma SchemaRuleOrderIsIrrelevant(host: Host, env: Env, policy: Policy, rules: seq<Value>, others: seq<Value>,
                                    record: Record, profile: string)
    requires multiset(rules) == multiset(others)
    requires DistinctIds(rules) || Distinguishable(host, Compile(env, Rules(rules)).0)
    ensures Validate(host, env.catalog, policy, Compile(env, Rules(rules)).0, record, profile)
      == Validate(host, env.catalog, policy, Compile(env, Rules(others)).0, record, profile)
  {
    if DistinctIds(rules) {
      CompilationIgnoresRuleOrder(env, rules, others);
    } else {
      CompilationPermutes(env, rules, others);
      ResultIgnoresRuleOrder(host, env.catalog, policy, Compile(env, Rules(rules)).0, Compile(env, Rules(others)).0,
                             record, profile);
    }
  }

  /** The decision alone needs no condition on the rules. */
  lemma SchemaDecisionIgnoresRuleOrder(host: Host, env: Env, mode: Option<Mode>, rules: seq<Value>,
                                       others: seq<Value>, record: Record, profile: string)
    requires multiset(rules) == multiset(others)
    ensures Validate(host, env.catalog, PolicyOf(mode), Compile(env, Rules(rules)).0, record, profile).decision
      == Validate(host, env.catalog, PolicyOf(mode), Compile(env, Rules(others)).0, record, profile).decision
  {
    CompilationPermutes(env, rules, others);
    DecisionIgnoresRuleOrder(host, env.catalog, PolicyOf(mode), Compile(env, Rules(rules)).0,
                             Compile(env, Rules(others)).0, record, profile);
  }

  // A schema whose rule order shows: two rules without ids on a module that
  // rejects everything, one of them asking for a warning.

  function RejectAll(): ModuleSpec {
    ModuleSpec("any", (v: Value, config: map<string, Value>, record: Record, profile: string) =>
      Attributes(map["ok" := Bool(false)]))
  }

  function Rejecting(host: Host): Env { Env(host, map["reject" := RejectAll()], {"reject"}, {}, map[]) }

  const PLAIN_RULE: Value := Obj(map["module_id" := Str("reject")])

  const WARNING_RULE: Value := Obj(map[
    "module_id" := Str("reject"), "on_fail" := Obj(map["severity_hint" := Str("WARN")])])

  function RejectPlan(hint: Option<string>): RulePlan {
    RulePlan("reject", None, None, map[], None, None, hint, None)
  }

  function RejectItem(host: Host, hint: Option<string>): Item {
    Item("VALIDATION_FAILED", "Validation failed: " + "reject", "$", None, "reject",
         NormalizeSeverity(host, hint), hint)
  }

  lemma RejectingPlan(host: Host, a: Value, b: Value, p: RulePlan, q: RulePlan)
    requires RuleKey(a) == RuleKey(b)
    requires PlanOf(Rejecting(host))(a) == Some(p) && PlanOf(Rejecting(host))(b) == Some(q)
    ensures Compile(Rejecting(host), Rules([a, b])).0 == [p, q]
  {
    TwoTiedRules(a, b);
    PlansOfRules(Rejecting(host), [a, b]);
    CompactTwo(PlanOf(Rejecting(host)), a, b);
  }

  lemma TwoTiedRules(a: Value, b: Value)
    requires RuleKey(a) == RuleKey(b)
    ensures RulesOf(Ordered([a, b])) == [a, b]
  {
    var x, y := Indexed(0, a), Indexed(1, b);
    assert WithIndex([a, b]) == [x, y] && [x, y][1..] == [y] && [y][1..] == [];
    assert Sort(IndexedLe, [y]) == [y];
    assert Sort(IndexedLe, [x, y]) == Insert(IndexedLe, x, [y]) == [x, y];
  }

  lemma Rejects(host: Host, record: Record, profile: string, hint: Option<string>)
    ensures RunRule(host, Rejecting(host).catalog, record, profile, RejectPlan(hint)) == Some(RejectItem(host, hint))
  {
  }

  lemma PlainAndWarning(host: Host)
    ensures RuleKey(PLAIN_RULE) == RuleKey(WARNING_RULE)
    ensures PlanOf(Rejecting(host))(PLAIN_RULE) == Some(RejectPlan(None))
    ensures PlanOf(Rejecting(host))(WARNING_RULE) == Some(RejectPlan(Some("WARN")))
  {
  }

  /** Without that condition the order can show: swapping two rules of the plan
      changes the result on every record. */
  lemma PlanOrderCanShow(host: Host, record: Record, profile: string)
    ensures var p, q := RejectPlan(None), RejectPlan(Some("WARN"));
      Validate(host, Rejecting(host).catalog, None, [p, q], record, profile)
        != Validate(host, Rejecting(host).catalog, None, [q, p], record, profile)
  {
    var p, q := RejectPlan(None), RejectPlan(Some("WARN"));
    Rejects(host, record, profile, None);
    Rejects(host, record, profile, Some("WARN"));
    SwappedTie(host, Rejecting(host).catalog, None, [], p, q, record, profile,
               RejectItem(host, None), RejectItem(host, Some("WARN")));
    assert [] + [p] + [q] == [p, q] && [] + [q] + [p] == [q, p];
  }

  /** So it does from the schema on. */
  lemma RuleOrderCanShow(host: Host, record: Record, profile: string)
    ensures var env := Rejecting(host);
      Validate(host, env.catalog, None, Compile(env, Rules([PLAIN_RULE, WARNING_RULE])).0, record, profile)
        != Validate(host, env.catalog, None, Compile(env, Rules([WARNING_RULE, PLAIN_RULE])).0, record, profile)
  {
    PlainAndWarning(host);
    RejectingPlan(host, PLAIN_RULE, WARNING_RULE, RejectPlan(None), RejectPlan(Some("WARN")));
    RejectingPlan(host, WARNING_RULE, PLAIN_RULE, RejectPlan(Some("WARN")), RejectPlan(None));
    PlanOrderCanShow(host, record, profile);
  }

  // ---------------------------------------------------------------------
  // From the schema to the decision
  // ---------------------------------------------------------------------

  /** The module that a rule of the schema names answers ok, on what the rule
      applies to, with the rule's config. */
  ghost predicate Accepts(modules: map<string, ModuleSpec>, rule: map<string, Value>, record: Record,
                          profile: string, given: Value)
  {
    && (forall f :: Says(rule, "applies_to", "field", Str(f)) ==>
          given == if f in record then record[f] else Missing)
    && ((forall f :: !Says(rule, "applies_to", "field", Str(f))) ==> given == Obj(record))
    && exists id :: "module_id" in rule && rule["module_id"] == Str(id) && id in modules
         && AnswersOk(modules[id].call(given, if "config" in rule && rule["config"].Obj? then rule["config"].fields
                                              else map[], record, profile))
  }

  predicate AnswersOk(raw: RawResult) { raw.Attributes? && "ok" in raw.attrs && raw.attrs["ok"] == Bool(true) }

  lemma PlanPassesIff(env: Env, rule: Value, record: Record, profile: string)
    requires ValidRule(env, rule)
    ensures PlanOf(env)(rule).Some?
    ensures Passes(env.catalog, record, profile, PlanOf(env)(rule).value)
      <==> exists given :: Accepts(env.catalog, rule.fields, record, profile, given)
  {
    var item := Indexed(0, rule);
    RuleIsCleanIff(env, item);
    PlanFollowsRule(env, item);
    var plan := CompileRule(env, item).0.value;
    var given := match plan.field
      case None => Obj(record)
      case Some(field) => if field in record then record[field] else Missing;
    assert plan.field.Some? ==> Says(rule.fields, "applies_to", "field", Str(plan.field.value));
    assert forall g :: Accepts(env.catalog, rule.fields, record, profile, g) ==> g == given;
    assert Accepts(env.catalog, rule.fields, record, profile, given)
      <==> AnswersOk(ValidationExecutor.Answer(env.catalog, record, profile, plan));
  }

  ghost predicate Accepted(env: Env, rule: Value, record: Record, profile: string) {
    rule.Obj? && exists given :: Accepts(env.catalog, rule.fields, record, profile, given)
  }

  lemma PlansPassIff(env: Env, rules: seq<Value>, record: Record, profile: string)
    requires AllValid(env, rules)
    ensures var plan := Compact(PlanOf(env), rules);
      (forall i :: 0 <= i < |plan| ==> Passes(env.catalog, record, profile, plan[i]))
      <==> forall i :: 0 <= i < |rules| ==> Accepted(env, rules[i], record, profile)
  {
    hide Accepts, Passes;
    forall i | 0 <= i < |rules|
      ensures PlanOf(env)(rules[i]).Some?
      ensures Passes(env.catalog, record, profile, PlanOf(env)(rules[i]).value)
        <==> Accepted(env, rules[i], record, profile)
    {
      PlanPassesIff(env, rules[i], record, profile);
    }
    CompactTotal(PlanOf(env), rules);
  }

  /** From the schema on: a record passes valid rules exactly when the module of each
      of them accepts it. */
  lemma SchemaPassesIff(host: Host, env: Env, policy: Policy, rules: seq<Value>, record: Record, profile: string)
    requires AllValid(env, rules)
    requires policy.None? || exists mode :: policy == WithMode(mode)
    ensures Validate(host, env.catalog, policy, Compile(env, Rules(rules)).0, record, profile).decision == Pass
      <==> forall rule :: rule in rules ==> Accepted(env, rule, record, profile)
  {
    hide Accepted, Passes, Validate, ValidRule;
    var ordered := RulesOf(Ordered(rules));
    PlansOfRules(env, rules);
    PassIffAllRulesPass(host, env.catalog, policy, Compile(env, Rules(rules)).0, record, profile);
    OrderedIsSortedPermutation(rules);
    forall rule ensures rule in rules <==> rule in ordered {
      assert rule in rules <==> rule in multiset(rules);
      assert rule in ordered <==> rule in multiset(ordered);
    }
    PlansPassIff(env, ordered, record, profile);
    assert forall i :: 0 <= i < |ordered| ==> ordered[i] in ordered;
  }
}
