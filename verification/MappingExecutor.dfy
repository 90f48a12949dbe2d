/** `MappingExecutor`: runs a compiled plan on one record. */
module MappingExecutor {
  import opened Options
  import opened Values
  import opened MappingPlan
  import opened StableSort
  import opened Lexicographic

  datatype IssueCode =
    | OutputOrderMissing | FieldNotFound | OpNotFound | OpFailed
    | OnMissingDefaultRequired | MissingError | PresenceError | DeleteUnsupported

  function CodeText(code: IssueCode): string {
    match code
    case OutputOrderMissing => "EXEC_MAPPING_OUTPUT_ORDER_MISSING"
    case FieldNotFound => "EXEC_MAPPING_FIELD_NOT_FOUND"
    case OpNotFound => "EXEC_MAPPING_OP_NOT_FOUND"
    case OpFailed => "EXEC_MAPPING_OP_FAILED"
    case OnMissingDefaultRequired => "EXEC_MAPPING_ON_MISSING_DEFAULT_REQUIRED"
    case MissingError => "EXEC_MAPPING_MISSING_ERROR"
    case PresenceError => "EXEC_MAPPING_PRESENCE_ERROR"
    case DeleteUnsupported => "CONTRACT.DELETE_UNSUPPORTED"
  }

  /** The message is left out: code and path determine it, so it never decides
      the order of issues. */
  datatype Issue = Issue(code: IssueCode, path: string)

  /** `_apply_transform`: the value after the call, whether the chain stops, and
      the issues it reports. */
  datatype Applied = Applied(value: Value, stop: bool, issues: seq<Issue>)

  function Stopped(code: IssueCode, path: string): Applied { Applied(Missing, true, [Issue(code, path)]) }

  function TransformPath(fieldId: string, index: nat): string {
    "mapping.fields." + fieldId + ".transforms[" + Decimal10(index) + "]"
  }

  function ApplyTransform(catalog: Catalog, current: Value, call: OpCall, fieldId: string, index: nat): Applied {
    var path := TransformPath(fieldId, index);
    if current.Missing? && call.onMissing.Some? then
      match call.onMissing.value
      case Omit => Applied(Missing, true, [])
      case Pass => Applied(Missing, false, [])
      case Default =>
        if call.args.Some? && "default" in call.args.value then Applied(call.args.value["default"], false, [])
        else Stopped(OnMissingDefaultRequired, path + ".args.default")
      case Error => Stopped(MissingError, path)
    else if call.op !in catalog then Stopped(OpNotFound, path + ".op")
    else
      match catalog[call.op].call(current, if call.args.Some? then call.args.value else map[])
      case Some(value) => Applied(value, false, [])
      case None => Stopped(OpFailed, path)
  }

  /** The chain after its first n calls, stopped early or not. */
  function RunChain(catalog: Catalog, plan: FieldPlan, source: Value, n: nat): Applied
    requires n <= |plan.transforms|
  {
    if n == 0 then Applied(source, false, [])
    else
      var before := RunChain(catalog, plan, source, n - 1);
      if before.stop then before
      else
        var after := ApplyTransform(catalog, before.value, plan.transforms[n - 1], plan.fieldId, n - 1);
        after.(issues := before.issues + after.issues)
  }

  /** `_apply_presence`; None where `str(current)` raises. */
  function ApplyPresence(host: Host, current: Value, plan: FieldPlan): Option<(Emission, seq<Issue>)> {
    match current
    case Emitted(emission) => Some((emission, []))
    case Missing =>
      (match plan.presence
       case OmitMissing => Some((EmitOmit, []))
       case EmitNullIfMissing => Some((EmitNull, []))
       case ErrorIfMissing =>
         Some((EmitOmit, [Issue(PresenceError, "mapping.fields." + plan.fieldId + ".presence")])))
    case Null => Some((EmitNull, []))
    case _ =>
      match host.str(current)
      case Some(text) => Some((EmitValue(text), []))
      case None => None
  }

  /** One field of one record; None where it raises. */
  function Execute(host: Host, catalog: Catalog, plan: FieldPlan, record: map<string, Value>)
    : Option<(Emission, seq<Issue>)>
  {
    var chain := RunChain(catalog, plan, Extract(host, record, plan.sourcePath), |plan.transforms|);
    match ApplyPresence(host, chain.value, plan)
    case None => None
    case Some((emission, issues)) => Some((emission, chain.issues + issues))
  }

  method ExecuteField(host: Host, catalog: Catalog, plan: FieldPlan, record: map<string, Value>)
    returns (r: Option<(Emission, seq<Issue>)>)
    ensures r == Execute(host, catalog, plan, record)
  {
    var current := ExtractBySourcePath(host, record, plan.sourcePath);
    ghost var source := current;
    var issues: seq<Issue> := [];
    var n, stop := 0, false;
    while n < |plan.transforms| && !stop
      invariant n <= |plan.transforms|
      invariant RunChain(catalog, plan, source, n) == Applied(current, stop, issues)
      decreases |plan.transforms| - n
    {
      var applied := ApplyTransform(catalog, current, plan.transforms[n], plan.fieldId, n);
      current, stop, issues := applied.value, applied.stop, issues + applied.issues;
      n := n + 1;
    }
    StopIsFinal(catalog, plan, source, n, |plan.transforms|);
    match ApplyPresence(host, current, plan) {
      case None => r := None;
      case Some((emission, presenceIssues)) => r := Some((emission, issues + presenceIssues));
    }
  }

  lemma {:induction false} StopIsFinal(catalog: Catalog, plan: FieldPlan, source: Value, n: nat, m: nat)
    requires n <= m <= |plan.transforms|
    ensures RunChain(catalog, plan, source, n).stop
      ==> RunChain(catalog, plan, source, m) == RunChain(catalog, plan, source, n)
  {
    if n < m { StopIsFinal(catalog, plan, source, n, m - 1); }
  }

  // ---------------------------------------------------------------------
  // Whole records
  // ---------------------------------------------------------------------

  datatype Output = Row(emissions: seq<Emission>) | Object(fields: map<string, Emission>)
  datatype Result = Result(output: Output, issues: seq<Issue>)

  predicate IssueLe(a: Issue, b: Issue) {
    TupleLe([CodeText(a.code), a.path], [CodeText(b.code), b.path])
  }

  /** `_is_delete_intent` */
  predicate IsDeleteIntent(host: Host, v: Value) {
    match v
    case Bool(b) => b
    case Str(s) => host.lower(host.strip(s)) in {"true", "1", "yes", "y"}
    case _ => false
  }

  predicate WantsDelete(host: Host, plan: Plan, record: map<string, Value>) {
    IsDeleteIntent(host, Extract(host, record, plan.tombstoneFlagPath))
  }

  /** The row is projected as a tombstone. */
  predicate IsTombstone(host: Host, plan: Plan, record: map<string, Value>) {
    plan.tombstoneEnabled && WantsDelete(host, plan, record)
  }

  /** One cell of a csv row. */
  function Cell(host: Host, catalog: Catalog, plan: Plan, record: map<string, Value>, id: string)
    : Option<(Emission, seq<Issue>)>
  {
    if id !in plan.fields then Some((EmitOmit, [Issue(FieldNotFound, "mapping.fields." + id)]))
    else if IsTombstone(host, plan, record) && id != plan.tombstoneIdField then Some((EmitOmit, []))
    else Execute(host, catalog, plan.fields[id], record)
  }

  function AddCell(before: Option<(seq<Emission>, seq<Issue>)>, cell: Option<(Emission, seq<Issue>)>)
    : Option<(seq<Emission>, seq<Issue>)>
  {
    if before.None? || cell.None? then None
    else Some((before.value.0 + [cell.value.0], before.value.1 + cell.value.1))
  }

  function Cells(host: Host, catalog: Catalog, plan: Plan, record: map<string, Value>, ids: seq<string>)
    : Option<(seq<Emission>, seq<Issue>)>
  {
    if ids == [] then Some(([], []))
    else
      AddCell(Cells(host, catalog, plan, record, ids[..|ids| - 1]),
              Cell(host, catalog, plan, record, ids[|ids| - 1]))
  }

  /** The columns: the declared order, or the sorted fields with an issue. */
  function Columns(plan: Plan): (seq<string>, seq<Issue>) {
    if plan.order.Some? then (plan.order.value, [])
    else (Sort(StrLe, plan.fieldIds), [Issue(OutputOrderMissing, "mapping.output_order")])
  }

  /** The artifact profile only enters the message. */
  function DeleteIssues(host: Host, plan: Plan, record: map<string, Value>): seq<Issue> {
    if WantsDelete(host, plan, record) && !plan.tombstoneEnabled
    then [Issue(DeleteUnsupported, "build:contract")] else []
  }

  function AddField(before: Option<(map<string, Emission>, seq<Issue>)>, id: string,
                    field: Option<(Emission, seq<Issue>)>)
    : Option<(map<string, Emission>, seq<Issue>)>
  {
    if before.None? || field.None? then None
    else
      var (fields, issues) := before.value;
      var (emission, more) := field.value;
      Some((if emission.EmitOmit? then fields else fields[id := emission], issues + more))
  }

  /** The object fields that are not omitted. */
  function ObjectFields(host: Host, catalog: Catalog, plan: Plan, record: map<string, Value>, ids: seq<string>)
    : Option<(map<string, Emission>, seq<Issue>)>
    requires forall id :: id in ids ==> id in plan.fields
  {
    if ids == [] then Some((map[], []))
    else
      var id := ids[|ids| - 1];
      AddField(ObjectFields(host, catalog, plan, record, ids[..|ids| - 1]), id,
               Execute(host, catalog, plan.fields[id], record))
  }

  /** `fieldIds` lists the keys of `fields`. */
  ghost predicate ValidPlan(plan: Plan) { forall id :: id in plan.fieldIds <==> id in plan.fields }

  lemma SortedFieldIds(plan: Plan)
    requires ValidPlan(plan)
    ensures forall id :: id in Sort(StrLe, plan.fieldIds) ==> id in plan.fields
  {
    SortIsPermutation(StrLe, plan.fieldIds);
    forall id | id in Sort(StrLe, plan.fieldIds) ensures id in plan.fields {
      assert id in multiset(Sort(StrLe, plan.fieldIds));
    }
  }

  /** One record; None where a field raises. */
  ghost function Run(host: Host, catalog: Catalog, plan: Plan, record: map<string, Value>): Option<Result>
    requires ValidPlan(plan)
  {
    SortedFieldIds(plan);
    if plan.kind == CsvRow then
      var (columns, orderIssues) := Columns(plan);
      match Cells(host, catalog, plan, record, columns)
      case None => None
      case Some((emissions, cellIssues)) =>
        Some(Result(Row(emissions), Sort(IssueLe, orderIssues + DeleteIssues(host, plan, record) + cellIssues)))
    else
      match ObjectFields(host, catalog, plan, record, Sort(StrLe, plan.fieldIds))
      case None => None
      case Some((fields, issues)) => Some(Result(Object(fields), Sort(IssueLe, issues)))
  }

  method RunOne(host: Host, catalog: Catalog, plan: Plan, record: map<string, Value>) returns (r: Option<Result>)
    requires ValidPlan(plan)
    ensures r == Run(host, catalog, plan, record)
  {
    if plan.kind == CsvRow {
      r := RunRow(host, catalog, plan, record);
    } else {
      r := RunObject(host, catalog, plan, record);
    }
  }

  method RunRow(host: Host, catalog: Catalog, plan: Plan, record: map<string, Value>) returns (r: Option<Result>)
    requires ValidPlan(plan) && plan.kind == CsvRow
    ensures r == Run(host, catalog, plan, record)
  {
    var (columns, orderIssues) := Columns(plan);
    var cells := RunCells(host, catalog, plan, record, columns);
    match cells {
      case None => r := None;
      case Some((emissions, cellIssues)) =>
        r := Some(Result(Row(emissions),
                         Sort(IssueLe, orderIssues + DeleteIssues(host, plan, record) + cellIssues)));
    }
  }

  method RunCells(host: Host, catalog: Catalog, plan: Plan, record: map<string, Value>, columns: seq<string>)
    returns (r: Option<(seq<Emission>, seq<Issue>)>)
    ensures r == Cells(host, catalog, plan, record, columns)
  {
    var emissions: seq<Emission>, issues: seq<Issue> := [], [];
    var tombstone := IsTombstone(host, plan, record);
    for n := 0 to |columns|
      invariant Cells(host, catalog, plan, record, columns[..n]) == Some((emissions, issues))
    {
      assert columns[..n + 1][..n] == columns[..n];
      var id := columns[n];
      if id !in plan.fields {
        issues := issues + [Issue(FieldNotFound, "mapping.fields." + id)];
        emissions := emissions + [EmitOmit];
      } else if tombstone && id != plan.tombstoneIdField {
        emissions := emissions + [EmitOmit];
        assert issues + [] == issues;
      } else {
        var field := ExecuteField(host, catalog, plan.fields[id], record);
        if field.None? {
          CellsRaiseIsFinal(host, catalog, plan, record, columns, n + 1);
          return None;
        }
        emissions, issues := emissions + [field.value.0], issues + field.value.1;
      }
    }
    assert columns[..|columns|] == columns;
    r := Some((emissions, issues));
  }

  lemma {:induction false} CellsRaiseIsFinal(host: Host, catalog: Catalog, plan: Plan, record: map<string, Value>,
                                             ids: seq<string>, n: nat)
    requires n <= |ids| && Cells(host, catalog, plan, record, ids[..n]).None?
    ensures Cells(host, catalog, plan, record, ids).None?
  {
    if n < |ids| {
      assert ids[..|ids| - 1][..n] == ids[..n];
      CellsRaiseIsFinal(host, catalog, plan, record, ids[..|ids| - 1], n);
    } else {
      assert ids[..n] == ids;
    }
  }

  method RunObject(host: Host, catalog: Catalog, plan: Plan, record: map<string, Value>) returns (r: Option<Result>)
    requires ValidPlan(plan) && plan.kind == JsonObject
    ensures r == Run(host, catalog, plan, record)
  {
    SortedFieldIds(plan);
    var fields := RunFields(host, catalog, plan, record, Sort(StrLe, plan.fieldIds));
    match fields {
      case None => r := None;
      case Some((kept, issues)) => r := Some(Result(Object(kept), Sort(IssueLe, issues)));
    }
  }

  method RunFields(host: Host, catalog: Catalog, plan: Plan, record: map<string, Value>, ids: seq<string>)
    returns (r: Option<(map<string, Emission>, seq<Issue>)>)
    requires forall id :: id in ids ==> id in plan.fields
    ensures r == ObjectFields(host, catalog, plan, record, ids)
  {
    var fields: map<string, Emission>, issues: seq<Issue> := map[], [];
    for n := 0 to |ids|
      invariant ObjectFields(host, catalog, plan, record, ids[..n]) == Some((fields, issues))
    {
      assert ids[..n + 1][..n] == ids[..n];
      var field := ExecuteField(host, catalog, plan.fields[ids[n]], record);
      assert ObjectFields(host, catalog, plan, record, ids[..n + 1]) == AddField(Some((fields, issues)), ids[n], field);
      if field.None? {
        FieldsRaiseIsFinal(host, catalog, plan, record, ids, n + 1);
        return None;
      }
      if !field.value.0.EmitOmit? {
        fields := fields[ids[n] := field.value.0];
      }
      issues := issues + field.value.1;
    }
    assert ids[..|ids|] == ids;
    r := Some((fields, issues));
  }

  lemma {:induction false} FieldsRaiseIsFinal(host: Host, catalog: Catalog, plan: Plan, record: map<string, Value>,
                                              ids: seq<string>, n: nat)
    requires forall id :: id in ids ==> id in plan.fields
    requires n <= |ids| && ObjectFields(host, catalog, plan, record, ids[..n]).None?
    ensures ObjectFields(host, catalog, plan, record, ids).None?
  {
    if n < |ids| {
      assert ids[..|ids| - 1][..n] == ids[..n];
      FieldsRaiseIsFinal(host, catalog, plan, record, ids[..|ids| - 1], n);
    } else {
      assert ids[..n] == ids;
    }
  }

  // ---------------------------------------------------------------------
  // When a run raises
  // ---------------------------------------------------------------------

  /** The value the field ends up with is to be emitted, but has no text. */
  ghost predicate Unprintable(host: Host, catalog: Catalog, plan: FieldPlan, record: map<string, Value>) {
    var v := RunChain(catalog, plan, Extract(host, record, plan.sourcePath), |plan.transforms|).value;
    !v.Missing? && !v.Null? && !v.Emitted? && host.str(v).None?
  }

  /** Executing the field for this record raises. Tombstones skip all but the id. */
  ghost predicate FieldRaises(host: Host, catalog: Catalog, plan: Plan, record: map<string, Value>, id: string) {
    && id in plan.fields
    && (plan.kind == CsvRow && IsTombstone(host, plan, record) ==> id == plan.tombstoneIdField)
    && Unprintable(host, catalog, plan.fields[id], record)
  }

  lemma CellRaisesIff(host: Host, catalog: Catalog, plan: Plan, record: map<string, Value>, id: string)
    ensures plan.kind == CsvRow ==>
      (Cell(host, catalog, plan, record, id).None? <==> FieldRaises(host, catalog, plan, record, id))
    ensures plan.kind == JsonObject && id in plan.fields ==>
      (Execute(host, catalog, plan.fields[id], record).None? <==> FieldRaises(host, catalog, plan, record, id))
  {
  }

  ghost predicate SomeFieldRaises(host: Host, catalog: Catalog, plan: Plan, record: map<string, Value>,
                                  ids: seq<string>)
  {
    exists id :: id in ids && FieldRaises(host, catalog, plan, record, id)
  }

  lemma SomeRaisesSnoc(host: Host, catalog: Catalog, plan: Plan, record: map<string, Value>, ids: seq<string>)
    requires ids != []
    ensures SomeFieldRaises(host, catalog, plan, record, ids) <==>
      (SomeFieldRaises(host, catalog, plan, record, ids[..|ids| - 1])
       || FieldRaises(host, catalog, plan, record, ids[|ids| - 1]))
  {
  }

  lemma {:induction false} CellsRaiseIff(host: Host, catalog: Catalog, plan: Plan, record: map<string, Value>,
                                         ids: seq<string>)
    requires plan.kind == CsvRow
    ensures Cells(host, catalog, plan, record, ids).None? <==> SomeFieldRaises(host, catalog, plan, record, ids)
  {
    if ids != [] {
      CellsRaiseIff(host, catalog, plan, record, ids[..|ids| - 1]);
      CellRaisesIff(host, catalog, plan, record, ids[|ids| - 1]);
      SomeRaisesSnoc(host, catalog, plan, record, ids);
    }
  }

  lemma {:induction false} FieldsRaiseIff(host: Host, catalog: Catalog, plan: Plan, record: map<string, Value>,
                                          ids: seq<string>)
    requires plan.kind == JsonObject && forall id :: id in ids ==> id in plan.fields
    ensures ObjectFields(host, catalog, plan, record, ids).None?
      <==> SomeFieldRaises(host, catalog, plan, record, ids)
  {
    if ids != [] {
      FieldsRaiseIff(host, catalog, plan, record, ids[..|ids| - 1]);
      CellRaisesIff(host, catalog, plan, record, ids[|ids| - 1]);
      SomeRaisesSnoc(host, catalog, plan, record, ids);
    }
  }

  /** Nothing else in a run raises: it does exactly when some field that is
      executed ends with a value that has no text. */
  lemma RunRaisesIff(host: Host, catalog: Catalog, plan: Plan, record: map<string, Value>)
    requires ValidPlan(plan)
    ensures Run(host, catalog, plan, record).None? <==>
      SomeFieldRaises(host, catalog, plan, record,
                      if plan.kind == CsvRow then Columns(plan).0 else plan.fieldIds)
  {
    SortedFieldIds(plan);
    if plan.kind == CsvRow {
      CellsRaiseIff(host, catalog, plan, record, Columns(plan).0);
    } else {
      var ids := Sort(StrLe, plan.fieldIds);
      FieldsRaiseIff(host, catalog, plan, record, ids);
      SortIsPermutation(StrLe, plan.fieldIds);
      forall id ensures id in ids <==> id in plan.fieldIds {
        assert id in ids <==> id in multiset(ids);
        assert id in plan.fieldIds <==> id in multiset(plan.fieldIds);
      }
    }
  }

  /** A field without transforms that reads an integer too long for `str`. */
  lemma LongIntegerRaises(host: Host, catalog: Catalog, n: int)
    requires host.str(Int(n)).None?
    ensures var field := FieldPlan("f", "f", [], OmitMissing, None, false);
      var plan := Plan(CsvRow, Some(["f"]), map["f" := field], ["f"], false, "delete", "id");
      Run(host, catalog, plan, map["f" := Int(n)]).None?
  {
    var field := FieldPlan("f", "f", [], OmitMissing, None, false);
    var plan := Plan(CsvRow, Some(["f"]), map["f" := field], ["f"], false, "delete", "id");
    ReadField(host, map["f" := Int(n)], 'f');
    assert FieldRaises(host, catalog, plan, map["f" := Int(n)], "f");
    assert "f" in Columns(plan).0;
    RunRaisesIff(host, catalog, plan, map["f" := Int(n)]);
  }

  // ---------------------------------------------------------------------
  // What an issue means for the output
  // ---------------------------------------------------------------------

  lemma AppliedIssueStops(catalog: Catalog, current: Value, call: OpCall, fieldId: string, index: nat)
    ensures var applied := ApplyTransform(catalog, current, call, fieldId, index);
      |applied.issues| <= 1 && (applied.issues != [] ==> applied.stop && applied.value == Missing)
  {
  }

  /** A chain reports at most one issue, and then it has stopped with MISSING. */
  lemma {:induction false} ChainReportsAtMostOnce(catalog: Catalog, plan: FieldPlan, source: Value, n: nat)
    requires n <= |plan.transforms|
    ensures var chain := RunChain(catalog, plan, source, n);
      |chain.issues| <= 1 && (chain.issues != [] ==> chain.stop && chain.value == Missing)
  {
    if n > 0 {
      ChainReportsAtMostOnce(catalog, plan, source, n - 1);
      AppliedIssueStops(catalog, RunChain(catalog, plan, source, n - 1).value, plan.transforms[n - 1], plan.fieldId,
                        n - 1);
    }
  }

  /** What a field emits, from the value v its chain ends with: MISSING is
      omitted, made null, or omitted with one more issue, as the presence mode
      says; null stays null, an emission is passed on, and any other value becomes
      its text. */
  lemma EmissionFollowsPresence(host: Host, catalog: Catalog, plan: FieldPlan, record: map<string, Value>)
    ensures var r := Execute(host, catalog, plan, record);
      var chain := RunChain(catalog, plan, Extract(host, record, plan.sourcePath), |plan.transforms|);
      var v, issues := chain.value, chain.issues;
      && (v == Missing && plan.presence == OmitMissing ==> r == Some((EmitOmit, issues)))
      && (v == Missing && plan.presence == EmitNullIfMissing ==> r == Some((EmitNull, issues)))
      && (v == Missing && plan.presence == ErrorIfMissing ==>
            r == Some((EmitOmit, issues + [Issue(PresenceError, "mapping.fields." + plan.fieldId + ".presence")])))
      && (v == Null ==> r == Some((EmitNull, issues)))
      && (v.Emitted? ==> r == Some((v.emission, issues)))
      && (v != Missing && v != Null && !v.Emitted? ==>
            r == (match host.str(v) case Some(text) => Some((EmitValue(text), issues)) case None => None))
  {
    var chain := RunChain(catalog, plan, Extract(host, record, plan.sourcePath), |plan.transforms|);
    assert chain.issues + [] == chain.issues;
  }

  /** A field that reports an issue never emits a value: at most one issue comes
      from its chain and one from its presence rule, and the emission is the one
      the presence rule gives to MISSING. */
  lemma FailedFieldEmitsNoValue(host: Host, catalog: Catalog, plan: FieldPlan, record: map<string, Value>)
    requires Execute(host, catalog, plan, record).Some?
    ensures var (emission, issues) := Execute(host, catalog, plan, record).value;
      && |issues| <= 2
      && (issues != [] ==> emission == ApplyPresence(host, Missing, plan).value.0 && !emission.EmitValue?)
  {
    var chain := RunChain(catalog, plan, Extract(host, record, plan.sourcePath), |plan.transforms|);
    ChainReportsAtMostOnce(catalog, plan, Extract(host, record, plan.sourcePath), |plan.transforms|);
    PresenceReportsOnlyMissing(host, chain.value, plan);
  }

  lemma PresenceReportsOnlyMissing(host: Host, current: Value, plan: FieldPlan)
    requires ApplyPresence(host, current, plan).Some?
    ensures var (emission, issues) := ApplyPresence(host, current, plan).value;
      && |issues| <= 1 && (issues != [] ==> current == Missing)
      && (current == Missing ==> !emission.EmitValue?)
  {
  }

  /** Issues come out sorted by code and path, and none is lost or added. */
  lemma IssuesAreOrdered(issues: seq<Issue>)
    ensures SortedBy(IssueLe, Sort(IssueLe, issues))
    ensures multiset(Sort(IssueLe, issues)) == multiset(issues)
  {
    TupleLeIsTotalOrder();
    SortIsSorted(IssueLe, issues);
    SortIsPermutation(IssueLe, issues);
  }
}
