/** What compiling a schema guarantees about running it. */
module TypeSoundness {
  import opened Options
  import opened Values
  import opened MappingPlan
  import opened FieldCompiler
  import opened MappingExecutor

  predicate HasType(v: Value, t: TypeId) {
    match t
    case TString => v.Str?
    case TInt => v.Int?
    case TDecimal => v.Decimal?
    case TBool => v.Bool?
    case TDate => v.Date?
    case TDateTime => v.DateTime?
    case TStringArray => v.List? && forall item :: item in v.items ==> item.Str?
    case TObject => v.Obj? || v.Emitted?
  }

  /** MISSING and null belong to every type; everything belongs to "any". */
  predicate Inhabits(v: Value, t: Option<TypeId>) {
    v.Missing? || v.Null? || t.None? || HasType(v, t.value)
  }

  /** An operation keeps its signature: results inhabit the declared output type,
      and it raises on no value of a declared input type. */
  ghost predicate Honest(spec: OpSpec) {
    && (forall v, args {:trigger spec.call(v, args)} ::
          spec.call(v, args).Some? ==> Inhabits(spec.call(v, args).value, ToPlanTypeId(spec.outputType)))
    && (ToPlanTypeId(spec.inputType).Some? ==>
          forall v, args {:trigger spec.call(v, args)} ::
            Inhabits(v, ToPlanTypeId(spec.inputType)) ==> spec.call(v, args).Some?)
  }

  ghost predicate HonestCatalog(catalog: Catalog) { forall op :: op in catalog ==> Honest(catalog[op]) }

  /** Every default that `on_missing: default` may substitute inhabits the
      output type of its operation. */
  ghost predicate DefaultsFit(transforms: seq<OpCall>) {
    forall k :: 0 <= k < |transforms| && transforms[k].onMissing == Some(Default)
      && transforms[k].args.Some? && "default" in transforms[k].args.value
      ==> Inhabits(transforms[k].args.value["default"], transforms[k].outputType)
  }

  ghost predicate Sound(catalog: Catalog, plan: FieldPlan) {
    Linked(catalog, plan.transforms) && WellTyped(plan.transforms) && DefaultsFit(plan.transforms)
  }

  /** One call keeps to its output type, and stops only with MISSING. */
  lemma AppliedFollowsType(catalog: Catalog, current: Value, call: OpCall, fieldId: string, index: nat)
    requires call.op in catalog && Honest(catalog[call.op])
    requires call.outputType == ToPlanTypeId(catalog[call.op].outputType)
    requires DefaultsFit([call])
    ensures var applied := ApplyTransform(catalog, current, call, fieldId, index);
      Inhabits(applied.value, call.outputType) && (applied.stop ==> applied.value == Missing)
  {
    assert [call][0] == call;
    var args := if call.args.Some? then call.args.value else map[];
    var result := catalog[call.op].call(current, args);
  }

  /** After each transform the value is MISSING, null or of that operation's
      declared output type. */
  lemma {:induction false} ValuesFollowTypes(catalog: Catalog, plan: FieldPlan, source: Value, n: nat)
    requires HonestCatalog(catalog) && Linked(catalog, plan.transforms) && DefaultsFit(plan.transforms)
    requires n <= |plan.transforms|
    ensures Inhabits(RunChain(catalog, plan, source, n).value, LastType(plan.transforms[..n]))
    ensures RunChain(catalog, plan, source, n).stop ==> RunChain(catalog, plan, source, n).value == Missing
  {
    if n > 0 {
      ValuesFollowTypes(catalog, plan, source, n - 1);
      var call := plan.transforms[n - 1];
      assert LastType(plan.transforms[..n]) == call.outputType;
      AppliedFollowsType(catalog, RunChain(catalog, plan, source, n - 1).value, call, plan.fieldId, n - 1);
      ChainStep(catalog, plan, source, n);
    }
  }

  /** A chain that has not stopped moves on to the result of its next call. */
  lemma ChainStep(catalog: Catalog, plan: FieldPlan, source: Value, n: nat)
    requires 1 <= n <= |plan.transforms|
    ensures var before, now := RunChain(catalog, plan, source, n - 1), RunChain(catalog, plan, source, n);
      var applied := ApplyTransform(catalog, before.value, plan.transforms[n - 1], plan.fieldId, n - 1);
      && (before.stop ==> now == before)
      && (!before.stop ==> now.value == applied.value && now.stop == applied.stop)
  {
  }

  /** Call k is reached and reports a failure of its operation. */
  ghost predicate FailsAt(catalog: Catalog, plan: FieldPlan, source: Value, k: nat)
    requires k < |plan.transforms|
  {
    var before := RunChain(catalog, plan, source, k);
    && !before.stop
    && exists issue :: issue in ApplyTransform(catalog, before.value, plan.transforms[k], plan.fieldId, k).issues
         && issue.code == OpFailed
  }

  /** An operation with a declared input type cannot fail behind an operation
      with a declared output type. */
  lemma TypedOpNeverFails(catalog: Catalog, plan: FieldPlan, source: Value, k: nat)
    requires HonestCatalog(catalog) && Sound(catalog, plan)
    requires 1 <= k < |plan.transforms|
    requires plan.transforms[k].inputType.Some? && plan.transforms[k - 1].outputType.Some?
    ensures !FailsAt(catalog, plan, source, k)
  {
  }

  /** Every reported failure comes from a reached call. */
  lemma {:induction false} FailuresHaveAPlace(catalog: Catalog, plan: FieldPlan, source: Value, n: nat)
    requires n <= |plan.transforms|
    requires exists issue :: issue in RunChain(catalog, plan, source, n).issues && issue.code == OpFailed
    ensures exists k :: 0 <= k < n && FailsAt(catalog, plan, source, k)
  {
    var issue :| issue in RunChain(catalog, plan, source, n).issues && issue.code == OpFailed;
    var before := RunChain(catalog, plan, source, n - 1);
    if issue in before.issues {
      FailuresHaveAPlace(catalog, plan, source, n - 1);
    } else {
      assert FailsAt(catalog, plan, source, n - 1);
    }
  }

  /** Type soundness of a field plan, whatever the source value: the value
      reaching the presence step inhabits the final type, and an operation failure
      can only come from a call whose input, or whose predecessor's output, is
      untyped. */
  ghost predicate RunsSoundly(catalog: Catalog, plan: FieldPlan, source: Value) {
    var final := RunChain(catalog, plan, source, |plan.transforms|);
    && Inhabits(final.value, plan.finalType)
    && ((exists issue :: issue in final.issues && issue.code == OpFailed) ==>
          exists k :: 0 <= k < |plan.transforms| && FailsAt(catalog, plan, source, k) && UntypedAt(plan, k))
  }

  lemma SoundPlanRunsSoundly(catalog: Catalog, plan: FieldPlan, source: Value)
    requires HonestCatalog(catalog) && Sound(catalog, plan) && plan.finalType == LastType(plan.transforms)
    ensures RunsSoundly(catalog, plan, source)
  {
    var n := |plan.transforms|;
    ValuesFollowTypes(catalog, plan, source, n);
    assert plan.transforms[..n] == plan.transforms;
    if exists issue :: issue in RunChain(catalog, plan, source, n).issues && issue.code == OpFailed {
      FailuresHaveAPlace(catalog, plan, source, n);
      var k :| 0 <= k < n && FailsAt(catalog, plan, source, k);
      if !UntypedAt(plan, k) {
        TypedOpNeverFails(catalog, plan, source, k);
      }
    }
  }

  /** Every field that compiles cleanly, with fitting defaults, runs soundly on
      every record. */
  lemma CompiledFieldIsSound(env: Env, fieldId: string, mapping: map<string, Value>, path: string, global: Presence,
                             host: Host, record: map<string, Value>)
    requires HonestCatalog(env.catalog)
    requires CompileField(env, fieldId, mapping, path, global).Field?
    requires CompileField(env, fieldId, mapping, path, global).diags == []
    requires DefaultsFit(CompileField(env, fieldId, mapping, path, global).plan.transforms)
    ensures var plan := CompileField(env, fieldId, mapping, path, global).plan;
      RunsSoundly(env.catalog, plan, Extract(host, record, plan.sourcePath))
  {
    CompiledFieldIsWellTyped(env, fieldId, mapping, path, global);
    var plan := CompileField(env, fieldId, mapping, path, global).plan;
    SoundPlanRunsSoundly(env.catalog, plan, Extract(host, record, plan.sourcePath));
  }

  predicate UntypedAt(plan: FieldPlan, k: nat)
    requires k < |plan.transforms|
  {
    k == 0 || plan.transforms[k].inputType.None? || plan.transforms[k - 1].outputType.None?
  }
}

/** A plan runs against the catalog it was compiled with. */
module LinkSoundness {
  import opened Values
  import opened MappingPlan
  import opened FieldCompiler
  import opened MappingCompiler
  import opened MappingExecutor
  import opened StableSort
  import Lexicographic

  /** The issue is not one of the three that report a broken plan. */
  predicate NoLinkIssue(issue: Issue) {
    issue.code != OutputOrderMissing && issue.code != FieldNotFound && issue.code != OpNotFound
  }

  ghost predicate AllLinked(issues: seq<Issue>) { forall i :: 0 <= i < |issues| ==> NoLinkIssue(issues[i]) }

  lemma {:induction false} ChainHasNoLinkIssue(catalog: Catalog, plan: FieldPlan, source: Value, n: nat)
    requires Linked(catalog, plan.transforms) && n <= |plan.transforms|
    ensures AllLinked(RunChain(catalog, plan, source, n).issues)
  {
    if n > 0 { ChainHasNoLinkIssue(catalog, plan, source, n - 1); }
  }

  lemma FieldHasNoLinkIssue(host: Host, catalog: Catalog, plan: FieldPlan, record: map<string, Value>)
    requires Linked(catalog, plan.transforms) && Execute(host, catalog, plan, record).Some?
    ensures AllLinked(Execute(host, catalog, plan, record).value.1)
  {
    ChainHasNoLinkIssue(catalog, plan, Extract(host, record, plan.sourcePath), |plan.transforms|);
  }

  lemma CellHasNoLinkIssue(host: Host, catalog: Catalog, plan: Plan, record: map<string, Value>, id: string)
    requires FieldsLinked(catalog, plan.fields) && id in plan.fields
    requires Cell(host, catalog, plan, record, id).Some?
    ensures AllLinked(Cell(host, catalog, plan, record, id).value.1)
  {
    if Execute(host, catalog, plan.fields[id], record).Some? {
      FieldHasNoLinkIssue(host, catalog, plan.fields[id], record);
    }
  }

  lemma AllLinkedAppend(a: seq<Issue>, b: seq<Issue>)
    requires AllLinked(a) && AllLinked(b)
    ensures AllLinked(a + b)
  {
  }

  lemma {:induction false} CellsAreLinked(host: Host, catalog: Catalog, plan: Plan, record: map<string, Value>,
                                          ids: seq<string>)
    requires FieldsLinked(catalog, plan.fields)
    requires forall id :: id in ids ==> id in plan.fields
    ensures Cells(host, catalog, plan, record, ids).Some? ==> AllLinked(Cells(host, catalog, plan, record, ids).value.1)
  {
    if ids != [] && Cells(host, catalog, plan, record, ids).Some? {
      var n := |ids| - 1;
      CellsAreLinked(host, catalog, plan, record, ids[..n]);
      CellHasNoLinkIssue(host, catalog, plan, record, ids[n]);
      AllLinkedAppend(Cells(host, catalog, plan, record, ids[..n]).value.1,
                      Cell(host, catalog, plan, record, ids[n]).value.1);
    }
  }

  ghost predicate HoldsCell(host: Host, catalog: Catalog, plan: Plan, record: map<string, Value>, id: string,
                            e: Emission)
  {
    Cell(host, catalog, plan, record, id).Some? && Cell(host, catalog, plan, record, id).value.0 == e
  }

  /** A row has one emission per column. */
  lemma {:induction false} RowWidth(host: Host, catalog: Catalog, plan: Plan, record: map<string, Value>,
                                    ids: seq<string>)
    requires Cells(host, catalog, plan, record, ids).Some?
    ensures var emissions := Cells(host, catalog, plan, record, ids).value.0;
      && |emissions| == |ids|
      && forall i :: 0 <= i < |ids| ==> HoldsCell(host, catalog, plan, record, ids[i], emissions[i])
  {
    if ids != [] {
      var init, last := ids[..|ids| - 1], ids[|ids| - 1];
      var emissions := Cells(host, catalog, plan, record, ids).value.0;
      RowWidth(host, catalog, plan, record, init);
      var before := Cells(host, catalog, plan, record, init).value.0;
      assert emissions == before + [emissions[|before|]];
      forall i | 0 <= i < |ids| ensures HoldsCell(host, catalog, plan, record, ids[i], emissions[i]) {
        if i < |init| { assert ids[i] == init[i] && emissions[i] == before[i]; }
      }
    }
  }

  lemma SortKeepsLinked(issues: seq<Issue>)
    requires AllLinked(issues)
    ensures AllLinked(Sort(IssueLe, issues))
  {
    SortIsPermutation(IssueLe, issues);
    forall i | 0 <= i < |Sort(IssueLe, issues)| ensures NoLinkIssue(Sort(IssueLe, issues)[i]) {
      assert Sort(IssueLe, issues)[i] in multiset(issues);
    }
  }

  /** The cell of a column: the field's own emission, except that a tombstone row
      keeps its width with every non-id cell OMIT. */
  ghost predicate IsCell(host: Host, catalog: Catalog, plan: Plan, record: map<string, Value>, id: string, e: Emission)
    requires id in plan.fields
  {
    if IsTombstone(host, plan, record) && id != plan.tombstoneIdField then e == EmitOmit
    else Execute(host, catalog, plan.fields[id], record).Some?
         && e == Execute(host, catalog, plan.fields[id], record).value.0
  }

  /** One such emission per column in the declared order; and no issue reports a
      missing order, field or operation. */
  ghost predicate RunsAsRow(host: Host, catalog: Catalog, plan: Plan, record: map<string, Value>, r: Result)
    requires plan.order.Some?
  {
    var order := plan.order.value;
    && r.output.Row? && |r.output.emissions| == |order|
    && (forall i :: 0 <= i < |order| ==>
          order[i] in plan.fields && IsCell(host, catalog, plan, record, order[i], r.output.emissions[i]))
    && AllLinked(r.issues)
  }

  lemma LinkedIssues(host: Host, catalog: Catalog, plan: Plan, record: map<string, Value>, ids: seq<string>)
    requires FieldsLinked(catalog, plan.fields) && forall id :: id in ids ==> id in plan.fields
    requires Cells(host, catalog, plan, record, ids).Some?
    ensures var issues := Cells(host, catalog, plan, record, ids).value.1;
      AllLinked(Sort(IssueLe, [] + DeleteIssues(host, plan, record) + issues))
  {
    var issues := Cells(host, catalog, plan, record, ids).value.1;
    CellsAreLinked(host, catalog, plan, record, ids);
    AllLinkedAppend([] + DeleteIssues(host, plan, record), issues);
    SortKeepsLinked([] + DeleteIssues(host, plan, record) + issues);
  }

  lemma LinkedCells(host: Host, catalog: Catalog, plan: Plan, record: map<string, Value>, ids: seq<string>)
    requires forall id :: id in ids ==> id in plan.fields
    requires Cells(host, catalog, plan, record, ids).Some?
    ensures var emissions := Cells(host, catalog, plan, record, ids).value.0;
      |emissions| == |ids|
      && forall i :: 0 <= i < |ids| ==>
           ids[i] in plan.fields && IsCell(host, catalog, plan, record, ids[i], emissions[i])
  {
    RowWidth(host, catalog, plan, record, ids);
    var emissions := Cells(host, catalog, plan, record, ids).value.0;
    forall i | 0 <= i < |ids|
      ensures ids[i] in plan.fields && IsCell(host, catalog, plan, record, ids[i], emissions[i])
    {
      assert HoldsCell(host, catalog, plan, record, ids[i], emissions[i]);
    }
  }

  /** What a csv run is made of. */
  lemma CsvRun(host: Host, catalog: Catalog, plan: Plan, record: map<string, Value>)
    requires ValidPlan(plan) && plan.kind == CsvRow && plan.order.Some?
    ensures var r, cells := Run(host, catalog, plan, record), Cells(host, catalog, plan, record, plan.order.value);
      && (r.Some? <==> cells.Some?)
      && (r.Some? ==> r.value == Result(Row(cells.value.0),
            Sort(IssueLe, [] + DeleteIssues(host, plan, record) + cells.value.1)))
  {
  }

  lemma LinkedCsvPlanRuns(host: Host, catalog: Catalog, plan: Plan, record: map<string, Value>)
    requires ValidPlan(plan) && plan.kind == CsvRow && FieldsLinked(catalog, plan.fields)
    requires plan.order.Some? && forall id :: id in plan.order.value ==> id in plan.fields
    ensures match Run(host, catalog, plan, record)
      case Some(r) => RunsAsRow(host, catalog, plan, record, r)
      case None => SomeFieldRaises(host, catalog, plan, record, plan.order.value)
  {
    CsvRun(host, catalog, plan, record);
    if Cells(host, catalog, plan, record, plan.order.value).Some? {
      LinkedIssues(host, catalog, plan, record, plan.order.value);
      LinkedCells(host, catalog, plan, record, plan.order.value);
    } else {
      CellsRaiseIff(host, catalog, plan, record, plan.order.value);
    }
  }

  /** Link soundness for csv_row, on every record: the run gives the whole row, or
      raises because some field's value has no text. */
  lemma CleanCsvPlanRunsLinked(host: Host, env: Env, section: Section, record: map<string, Value>)
    requires CompileSection(env, section).Compiled? && CompileSection(env, section).diags == []
    requires CompileSection(env, section).plan.kind == CsvRow
    ensures var plan := CompileSection(env, section).plan;
      && ValidPlan(plan) && plan.order.Some? && IsPermutationOf(plan.order.value, plan.fieldIds)
      && match Run(host, env.catalog, plan, record)
         case Some(r) => RunsAsRow(host, env.catalog, plan, record, r)
         case None => SomeFieldRaises(host, env.catalog, plan, record, plan.order.value)
  {
    CleanCompilationIsLinked(env, section);
    LinkedCsvPlanRuns(host, env.catalog, CompileSection(env, section).plan, record);
  }

  lemma {:induction false} ObjectIssuesAreLinked(host: Host, catalog: Catalog, plan: Plan, record: map<string, Value>,
                                                 ids: seq<string>)
    requires FieldsLinked(catalog, plan.fields)
    requires forall id :: id in ids ==> id in plan.fields
    ensures ObjectFields(host, catalog, plan, record, ids).Some? ==>
      AllLinked(ObjectFields(host, catalog, plan, record, ids).value.1)
  {
    if ids != [] && ObjectFields(host, catalog, plan, record, ids).Some? {
      var n := |ids| - 1;
      ObjectIssuesAreLinked(host, catalog, plan, record, ids[..n]);
      FieldHasNoLinkIssue(host, catalog, plan.fields[ids[n]], record);
      AllLinkedAppend(ObjectFields(host, catalog, plan, record, ids[..n]).value.1,
                      Execute(host, catalog, plan.fields[ids[n]], record).value.1);
    }
  }

  /** The field's own emission. */
  ghost predicate Emits(host: Host, catalog: Catalog, plan: FieldPlan, record: map<string, Value>, e: Emission) {
    Execute(host, catalog, plan, record).Some? && Execute(host, catalog, plan, record).value.0 == e
  }

  /** Exactly the fields whose emission is not OMIT, each with its own emission. */
  ghost predicate HoldsEmissions(host: Host, catalog: Catalog, plan: Plan, record: map<string, Value>,
                                 fields: map<string, Emission>, ids: seq<string>)
    requires forall id :: id in ids ==> id in plan.fields
  {
    && (forall id :: id in fields ==> id in ids)
    && (forall id :: id in ids ==>
          Emits(host, catalog, plan.fields[id], record, if id in fields then fields[id] else EmitOmit))
    && (forall id :: id in fields ==> !fields[id].EmitOmit?)
  }

  lemma {:induction false} ObjectHoldsEmissions(host: Host, catalog: Catalog, plan: Plan, record: map<string, Value>,
                                                ids: seq<string>)
    requires forall id :: id in ids ==> id in plan.fields
    requires ObjectFields(host, catalog, plan, record, ids).Some?
    ensures HoldsEmissions(host, catalog, plan, record, ObjectFields(host, catalog, plan, record, ids).value.0, ids)
  {
    if ids != [] {
      var n := |ids| - 1;
      ObjectHoldsEmissions(host, catalog, plan, record, ids[..n]);
      assert ids == ids[..n] + [ids[n]];
      AddedEmission(host, catalog, plan, record, ObjectFields(host, catalog, plan, record, ids[..n]).value.0,
                    ids[..n], ids[n]);
    }
  }

  lemma AddedEmission(host: Host, catalog: Catalog, plan: Plan, record: map<string, Value>,
                      fields: map<string, Emission>, ids: seq<string>, id: string)
    requires id in plan.fields && forall i :: i in ids ==> i in plan.fields
    requires HoldsEmissions(host, catalog, plan, record, fields, ids)
    requires Execute(host, catalog, plan.fields[id], record).Some?
    ensures var e := Execute(host, catalog, plan.fields[id], record).value.0;
      HoldsEmissions(host, catalog, plan, record, if e.EmitOmit? then fields else fields[id := e], ids + [id])
  {
  }

  /** Link soundness for json_object. */
  lemma CleanObjectPlanRunsLinked(host: Host, env: Env, section: Section, record: map<string, Value>)
    requires CompileSection(env, section).Compiled? && CompileSection(env, section).diags == []
    requires CompileSection(env, section).plan.kind == JsonObject
    ensures var plan := CompileSection(env, section).plan;
      && ValidPlan(plan)
      && match Run(host, env.catalog, plan, record)
         case Some(r) => RunsAsObject(host, env.catalog, plan, record, r)
         case None => SomeFieldRaises(host, env.catalog, plan, record, plan.fieldIds)
  {
    CleanCompilationIsLinked(env, section);
    LinkedObjectPlanRuns(host, env.catalog, CompileSection(env, section).plan, record);
  }

  ghost predicate RunsAsObject(host: Host, catalog: Catalog, plan: Plan, record: map<string, Value>, r: Result)
    requires ValidPlan(plan)
  {
    && r.output.Object? && AllLinked(r.issues)
    && HoldsEmissions(host, catalog, plan, record, r.output.fields, plan.fieldIds)
  }

  lemma LinkedObjectPlanRuns(host: Host, catalog: Catalog, plan: Plan, record: map<string, Value>)
    requires ValidPlan(plan) && plan.kind == JsonObject && FieldsLinked(catalog, plan.fields)
    ensures match Run(host, catalog, plan, record)
      case Some(r) => RunsAsObject(host, catalog, plan, record, r)
      case None => SomeFieldRaises(host, catalog, plan, record, plan.fieldIds)
  {
    var ids := Sort(Lexicographic.StrLe, plan.fieldIds);
    RunRaisesIff(host, catalog, plan, record);
    SortedFieldIds(plan);
    if ObjectFields(host, catalog, plan, record, ids).Some? {
      SortIsPermutation(Lexicographic.StrLe, plan.fieldIds);
      forall id ensures id in plan.fieldIds <==> id in ids {
        assert id in plan.fieldIds <==> id in multiset(plan.fieldIds);
        assert id in ids <==> id in multiset(ids);
      }
      ObjectIssuesAreLinked(host, catalog, plan, record, ids);
      ObjectHoldsEmissions(host, catalog, plan, record, ids);
      SortKeepsLinked(ObjectFields(host, catalog, plan, record, ids).value.1);
    }
  }
}
