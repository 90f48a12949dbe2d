/** `compile_mapping`: all fields, the output order and the tombstone settings. */
module MappingCompiler {
  import opened Options
  import opened Permutations
  import opened PyDict
  import opened Values
  import opened MappingPlan
  import opened FieldCompiler
  import opened StableSort
  import opened Lexicographic

  /** The mapping section. `fields` is None unless it is an object, and then its
      entries in document order; an absent key reads as Null. */
  datatype Section = Section(
    outputKind: Value, outputOrder: Value, presence: Value,
    fields: Option<seq<Entry<string, Value>>>, deleteTombstone: Value)

  /** `compile_output_order` for csv_row: the ids, if they are a list of strings. */
  function ReadOrder(raw: Value): Option<seq<string>> {
    if raw.List? && forall item :: item in raw.items ==> item.Str?
    then Some(seq(|raw.items|, i requires 0 <= i < |raw.items| && raw.items[i] in raw.items => raw.items[i].s))
    else None
  }

  /** Diagnostics of the loop over the declared order: unknown and repeated ids. */
  function OrderDiags(order: seq<string>, known: set<string>): seq<Diag> {
    if order == [] then []
    else
      var n := |order| - 1;
      var path := "mapping.output_order[" + Decimal10(n) + "]";
      OrderDiags(order[..n], known)
      + (if order[n] in known then [] else [Diag("COMPILER_FIELD_UNDEFINED", path)])
      + (if order[n] in order[..n] then [Diag("COMPILER_MAPPING_OUTPUT_ORDER_INVALID", path)] else [])
  }

  /** Diagnostics of the loop over the known fields: ids the order misses. */
  function MissingDiags(ids: seq<string>, order: seq<string>): seq<Diag> {
    if ids == [] then []
    else
      var id := ids[|ids| - 1];
      MissingDiags(ids[..|ids| - 1], order)
      + if id in order then [] else [Diag("COMPILER_MAPPING_OUTPUT_ORDER_INVALID", "mapping.fields." + id)]
  }

  /** `ids` are the known fields in sorted order. */
  method CompileOutputOrder(kind: OutputKind, raw: Value, ids: seq<string>)
    returns (order: Option<seq<string>>, diags: seq<Diag>)
    ensures (order, diags) == OutputOrder(kind, raw, ids)
  {
    if kind != CsvRow {
      return None, [];
    }
    order := ReadOrder(raw);
    if order.None? {
      return None, [Diag("COMPILER_MAPPING_OUTPUT_ORDER_INVALID", "mapping.output_order")];
    }
    var seen;
    seen, diags := ScanOrder(order.value, set id | id in ids);
    var missing := ScanMissing(ids, seen, order.value);
    diags := diags + missing;
  }

  /** `seen` maps each declared id to its first index. */
  method ScanOrder(order: seq<string>, known: set<string>) returns (seen: map<string, nat>, diags: seq<Diag>)
    ensures diags == OrderDiags(order, known)
    ensures forall id :: id in seen <==> id in order
    ensures forall id :: id in seen ==> seen[id] < |order| && order[seen[id]] == id && id !in order[..seen[id]]
  {
    seen, diags := map[], [];
    for n := 0 to |order|
      invariant diags == OrderDiags(order[..n], known)
      invariant forall id :: id in seen <==> id in order[..n]
      invariant forall id :: id in seen ==> seen[id] < n && order[seen[id]] == id && id !in order[..seen[id]]
    {
      assert order[..n + 1][..n] == order[..n];
      var path := "mapping.output_order[" + Decimal10(n) + "]";
      if order[n] !in known {
        diags := diags + [Diag("COMPILER_FIELD_UNDEFINED", path)];
      }
      if order[n] in seen {
        diags := diags + [Diag("COMPILER_MAPPING_OUTPUT_ORDER_INVALID", path)];
      } else {
        seen := seen[order[n] := n];
      }
    }
    assert order[..|order|] == order;
  }

  method ScanMissing(ids: seq<string>, seen: map<string, nat>, ghost order: seq<string>) returns (diags: seq<Diag>)
    requires forall id :: id in seen <==> id in order
    ensures diags == MissingDiags(ids, order)
  {
    diags := [];
    for n := 0 to |ids|
      invariant diags == MissingDiags(ids[..n], order)
    {
      assert ids[..n + 1][..n] == ids[..n];
      if ids[n] !in seen {
        diags := diags + [Diag("COMPILER_MAPPING_OUTPUT_ORDER_INVALID", "mapping.fields." + ids[n])];
      }
    }
    assert ids[..|ids|] == ids;
  }

  function OutputOrder(kind: OutputKind, raw: Value, ids: seq<string>): (Option<seq<string>>, seq<Diag>) {
    if kind != CsvRow then (None, [])
    else match ReadOrder(raw)
      case None => (None, [Diag("COMPILER_MAPPING_OUTPUT_ORDER_INVALID", "mapping.output_order")])
      case Some(order) => (Some(order), OrderDiags(order, set id | id in ids) + MissingDiags(ids, order))
  }

  /** Repetition-free, and with exactly these elements. */
  ghost predicate IsPermutationOf(order: seq<string>, ids: seq<string>) {
    && (forall i, j :: 0 <= i < j < |order| ==> order[i] != order[j])
    && (forall id :: id in order <==> id in ids)
  }

  lemma {:induction false} OrderDiagsEmptyIff(order: seq<string>, known: set<string>)
    ensures OrderDiags(order, known) == [] <==>
      (forall i :: 0 <= i < |order| ==> order[i] in known)
      && (forall i, j :: 0 <= i < j < |order| ==> order[i] != order[j])
  {
    if order != [] {
      var n := |order| - 1;
      OrderDiagsEmptyIff(order[..n], known);
      if order[n] in order[..n] {
        var i :| 0 <= i < n && order[..n][i] == order[n];
        assert order[i] == order[n];
      }
      if exists i, j :: 0 <= i < j < |order| && order[i] == order[j] {
        var i, j :| 0 <= i < j < |order| && order[i] == order[j];
        if j < n { assert order[..n][i] == order[..n][j]; } else { assert order[..n][i] == order[n]; }
      }
    }
  }

  lemma {:induction false} MissingDiagsEmptyIff(ids: seq<string>, order: seq<string>)
    ensures MissingDiags(ids, order) == [] <==> forall id :: id in ids ==> id in order
  {
    if ids != [] {
      var init, last := ids[..|ids| - 1], ids[|ids| - 1];
      MissingDiagsEmptyIff(init, order);
      assert ids == init + [last];
    }
  }

  /** The order compiles cleanly exactly when it is a list of strings that lists
      every known field once and nothing else. */
  lemma OutputOrderIsCleanIff(raw: Value, ids: seq<string>)
    ensures var (order, diags) := OutputOrder(CsvRow, raw, ids);
      diags == [] <==> order.Some? && IsPermutationOf(order.value, ids)
  {
    if ReadOrder(raw).Some? {
      var order := ReadOrder(raw).value;
      OrderDiagsEmptyIff(order, set id | id in ids);
      MissingDiagsEmptyIff(ids, order);
    }
  }

  // ---------------------------------------------------------------------
  // The whole section
  // ---------------------------------------------------------------------

  function KeyIds(fields: seq<Entry<string, Value>>): seq<string> {
    seq(|fields|, i requires 0 <= i < |fields| => fields[i].key)
  }

  /** The loop over `sorted(fields)`: plans in that order, or a raise. */
  datatype Fields = Fields(plans: map<string, FieldPlan>, ids: seq<string>, diags: seq<Diag>) | FieldsRaised

  ghost function CompileFields(env: Env, raw: map<string, Value>, ids: seq<string>, global: Presence): Fields
    requires forall id :: id in ids ==> id in raw
  {
    if ids == [] then Fields(map[], [], [])
    else
      var n := |ids| - 1;
      var before := CompileFields(env, raw, ids[..n], global);
      if before.FieldsRaised? then before else AddField(env, before, ids[n], raw[ids[n]], global)
  }

  /** One turn of that loop. */
  ghost function AddField(env: Env, before: Fields, id: string, raw: Value, global: Presence): Fields
    requires before.Fields?
  {
    var path := "mapping.fields." + id;
    if !raw.Obj? then before.(diags := before.diags + [Diag("COMPILER_MAPPING_FIELD_INVALID", path)])
    else match CompileField(env, id, raw.fields, path, global)
      case Raised => FieldsRaised
      case Field(plan, diags) => Fields(before.plans[id := plan], before.ids + [id], before.diags + diags)
  }

  function GlobalPresence(raw: Value): (Presence, seq<Diag>) {
    if !raw.Obj? || "default" !in raw.fields || raw.fields["default"].Null? then (OmitMissing, [])
    else match ReadPresence(raw.fields["default"])
      case Some(p) => (p, [])
      case None => (OmitMissing, [Diag("COMPILER_PRESENCE_DEFAULT_INVALID", "mapping.presence.default")])
  }

  function ReadKind(raw: Value): (OutputKind, seq<Diag>) {
    if raw == Str("csv_row") then (CsvRow, [])
    else if raw == Str("json_object") then (JsonObject, [])
    else (JsonObject, [Diag("COMPILER_MAPPING_OUTPUT_KIND_INVALID", "mapping.output_kind")])
  }

  /** `read_delete_tombstone_settings`: enabled, flag path, id field. */
  function ReadTombstone(raw: Value): ((bool, string, string), seq<Diag>) {
    if raw.Null? then ((false, "delete", "id"), [])
    else if !raw.Obj? then
      ((false, "delete", "id"), [Diag("COMPILER_MAPPING_DELETE_TOMBSTONE_INVALID", "mapping.delete_tombstone")])
    else
      var flag, id := ReadName(raw.fields, "flag_path", "delete"), ReadName(raw.fields, "id_field", "id");
      var enabledOk := "enabled" !in raw.fields || raw.fields["enabled"].Bool?;
      (("enabled" in raw.fields && raw.fields["enabled"] == Bool(true), flag.0, id.0),
       (if enabledOk then []
        else [Diag("COMPILER_MAPPING_DELETE_TOMBSTONE_INVALID", "mapping.delete_tombstone.enabled")])
       + flag.1 + id.1)
  }

  /** The tombstone block is absent, or an object of a boolean and two names. */
  ghost predicate ValidTombstone(raw: Value) {
    raw.Null? || (raw.Obj?
      && ("enabled" in raw.fields ==> raw.fields["enabled"].Bool?)
      && ("flag_path" in raw.fields ==> raw.fields["flag_path"].Str? && raw.fields["flag_path"].s != "")
      && ("id_field" in raw.fields ==> raw.fields["id_field"].Str? && raw.fields["id_field"].s != ""))
  }

  ghost function GivenOr(raw: Value, key: string, default: Value): Value {
    if raw.Obj? && key in raw.fields then raw.fields[key] else default
  }

  /** It is read without diagnostics exactly when it is valid. What it names is
      used, and what it leaves out or names by no text keeps its default. Nothing
      but an explicit `true` enables tombstones. */
  lemma TombstoneIsReadIff(raw: Value)
    ensures var ((enabled, flagPath, idField), diags) := ReadTombstone(raw);
      && (diags == [] <==> ValidTombstone(raw))
      && (enabled <==> raw.Obj? && "enabled" in raw.fields && raw.fields["enabled"] == Bool(true))
      && IsNameIn(raw, "flag_path", "delete", flagPath) && IsNameIn(raw, "id_field", "id", idField)
  {
  }

  /** The name the block gives under the key, as far as it is a non-empty text, and
      otherwise the default. */
  ghost predicate IsNameIn(raw: Value, key: string, default: string, name: string) {
    var given := GivenOr(raw, key, Str(default));
    name == if given.Str? && given != Str("") then given.s else default
  }

  function ReadName(fields: map<string, Value>, key: string, default: string): (string, seq<Diag>) {
    if key !in fields then (default, [])
    else if fields[key].Str? && fields[key].s != "" then (fields[key].s, [])
    else (default, [Diag("COMPILER_MAPPING_DELETE_TOMBSTONE_INVALID", "mapping.delete_tombstone." + key)])
  }

  datatype Compilation = Compiled(plan: Plan, diags: seq<Diag>) | CompileRaised

  function SectionFields(section: Section): seq<Entry<string, Value>> {
    if section.fields.Some? then section.fields.value else []
  }

  function SortedIds(section: Section): seq<string> { Sort(StrLe, KeyIds(SectionFields(section))) }

  lemma SortedIdsAreKeys(section: Section)
    ensures forall id :: id in SortedIds(section) <==> id in ToMap(SectionFields(section))
    ensures multiset(SortedIds(section)) == multiset(KeyIds(SectionFields(section)))
  {
    var fields := SectionFields(section);
    SortIsPermutation(StrLe, KeyIds(fields));
    forall id ensures id in SortedIds(section) <==> id in ToMap(fields) {
      ToMapKeys(fields, id);
      assert id in SortedIds(section) <==> id in multiset(SortedIds(section));
      assert id in KeyIds(fields) <==> id in multiset(KeyIds(fields));
      if Has(fields, id) {
        var i :| 0 <= i < |fields| && fields[i].key == id;
        assert KeyIds(fields)[i] == id;
      }
    }
  }

  ghost function CompileSection(env: Env, section: Section): Compilation {
    SortedIdsAreKeys(section);
    var (global, presenceDiags) := GlobalPresence(section.presence);
    var (kind, kindDiags) := ReadKind(section.outputKind);
    var fieldsDiags := if section.fields.Some? then [] else [Diag("COMPILER_MAPPING_FIELDS_INVALID", "mapping.fields")];
    var compiled := CompileFields(env, ToMap(SectionFields(section)), SortedIds(section), global);
    if compiled.FieldsRaised? then CompileRaised
    else
      var (order, orderDiags) := OutputOrder(kind, section.outputOrder, compiled.ids);
      var ((enabled, flagPath, idField), tombstoneDiags) := ReadTombstone(section.deleteTombstone);
      Compiled(Plan(kind, order, compiled.plans, compiled.ids, enabled, flagPath, idField),
               presenceDiags + kindDiags + fieldsDiags + compiled.diags + orderDiags + tombstoneDiags)
  }

  const NO_MAPPING: Plan := Plan(JsonObject, None, map[], [], false, "delete", "id")

  /** `mapping` is None unless it is an object. */
  method CompileMapping(env: Env, mapping: Option<Section>) returns (r: Compilation)
    ensures mapping.None? ==> r == Compiled(Plan(JsonObject, None, map[], [], false, "delete", "id"),
                                            [Diag("COMPILER_MAPPING_OUTPUT_KIND_INVALID", "mapping")])
    ensures mapping.Some? ==> r == CompileSection(env, mapping.value)
  {
    if mapping.None? {
      return Compiled(NO_MAPPING, [Diag("COMPILER_MAPPING_OUTPUT_KIND_INVALID", "mapping")]);
    }
    var section := mapping.value;
    SortedIdsAreKeys(section);
    var (global, presenceDiags) := GlobalPresence(section.presence);
    var (kind, kindDiags) := ReadKind(section.outputKind);
    var fieldsDiags := if section.fields.Some? then [] else [Diag("COMPILER_MAPPING_FIELDS_INVALID", "mapping.fields")];
    var compiled := CompileAllFields(env, ToMap(SectionFields(section)), SortedIds(section), global);
    if compiled.FieldsRaised? {
      return CompileRaised;
    }
    var order, orderDiags := CompileOutputOrder(kind, section.outputOrder, compiled.ids);
    var ((enabled, flagPath, idField), tombstoneDiags) := ReadTombstone(section.deleteTombstone);
    r := Compiled(Plan(kind, order, compiled.plans, compiled.ids, enabled, flagPath, idField),
                  presenceDiags + kindDiags + fieldsDiags + compiled.diags + orderDiags + tombstoneDiags);
  }

  method CompileAllFields(env: Env, raw: map<string, Value>, ids: seq<string>, global: Presence) returns (r: Fields)
    requires forall id :: id in ids ==> id in raw
    ensures r == CompileFields(env, raw, ids, global)
  {
    var plans: map<string, FieldPlan>, fieldIds: seq<string>, diags: seq<Diag> := map[], [], [];
    for n := 0 to |ids|
      invariant CompileFields(env, raw, ids[..n], global) == Fields(plans, fieldIds, diags)
    {
      assert ids[..n + 1][..n] == ids[..n];
      var id := ids[n];
      assert CompileFields(env, raw, ids[..n + 1], global)
        == AddField(env, Fields(plans, fieldIds, diags), id, raw[id], global);
      if raw[id].Obj? {
        var field := CompileFieldMapping(env, id, raw[id].fields, "mapping.fields." + id, global);
        if field.Raised? {
          FieldsRaiseIsFinal(env, raw, ids, global, n + 1);
          return FieldsRaised;
        }
        plans, fieldIds, diags := plans[id := field.plan], fieldIds + [id], diags + field.diags;
      } else {
        diags := diags + [Diag("COMPILER_MAPPING_FIELD_INVALID", "mapping.fields." + id)];
      }
    }
    assert ids[..|ids|] == ids;
    r := Fields(plans, fieldIds, diags);
  }

  lemma {:induction false} FieldsRaiseIsFinal(env: Env, raw: map<string, Value>, ids: seq<string>, global: Presence,
                                              n: nat)
    requires forall id :: id in ids ==> id in raw
    requires n <= |ids| && CompileFields(env, raw, ids[..n], global).FieldsRaised?
    ensures CompileFields(env, raw, ids, global).FieldsRaised?
  {
    if n < |ids| {
      assert ids[..|ids| - 1][..n] == ids[..n];
      FieldsRaiseIsFinal(env, raw, ids[..|ids| - 1], global, n);
    } else {
      assert ids[..n] == ids;
    }
  }

  // ---------------------------------------------------------------------
  // What a compiled section guarantees
  // ---------------------------------------------------------------------

  ghost predicate FieldsLinked(catalog: Catalog, plans: map<string, FieldPlan>) {
    forall id :: id in plans ==> plans[id].fieldId == id && Linked(catalog, plans[id].transforms)
  }

  ghost predicate FieldsWellTyped(plans: map<string, FieldPlan>) {
    forall id :: id in plans ==>
      WellTyped(plans[id].transforms) && plans[id].finalType == LastType(plans[id].transforms)
  }

  ghost predicate FieldsSound(env: Env, r: Fields, ids: seq<string>) {
    r.Fields? ==>
      && FieldsLinked(env.catalog, r.plans)
      && (forall id :: id in r.plans <==> id in r.ids)
      && (r.diags == [] ==> FieldsWellTyped(r.plans) && r.ids == ids)
  }

  lemma {:induction false} CompiledFieldsAreSound(env: Env, raw: map<string, Value>, ids: seq<string>, global: Presence)
    requires forall id :: id in ids ==> id in raw
    ensures FieldsSound(env, CompileFields(env, raw, ids, global), ids)
  {
    if ids != [] {
      var n := |ids| - 1;
      var id, before := ids[n], CompileFields(env, raw, ids[..n], global);
      CompiledFieldsAreSound(env, raw, ids[..n], global);
      assert ids == ids[..n] + [id];
      if before.Fields? && raw[id].Obj? {
        var field := CompileField(env, id, raw[id].fields, "mapping.fields." + id, global);
        if field.Field? {
          CompiledFieldIsWellTyped(env, id, raw[id].fields, "mapping.fields." + id, global);
          AddFieldIsSound(env, before, ids[..n], field.plan, field.diags);
        }
      }
    }
  }

  lemma AddFieldIsSound(env: Env, before: Fields, ids: seq<string>, plan: FieldPlan, diags: seq<Diag>)
    requires before.Fields? && FieldsSound(env, before, ids)
    requires Linked(env.catalog, plan.transforms) && plan.finalType == LastType(plan.transforms)
    requires diags == [] ==> WellTyped(plan.transforms)
    ensures var plans, done := before.plans[plan.fieldId := plan], before.ids + [plan.fieldId];
      FieldsSound(env, Fields(plans, done, before.diags + diags), ids + [plan.fieldId])
  {
  }

  /** A plan that compiled without diagnostics is linked and well typed, has one
      field per key of the schema, and for csv_row orders exactly those. */
  lemma CleanCompilationIsLinked(env: Env, section: Section)
    requires CompileSection(env, section).Compiled? && CompileSection(env, section).diags == []
    ensures var plan := CompileSection(env, section).plan;
      && FieldsLinked(env.catalog, plan.fields) && FieldsWellTyped(plan.fields)
      && plan.fields.Keys == ToMap(SectionFields(section)).Keys
      && (plan.kind == CsvRow ==> plan.order.Some? && IsPermutationOf(plan.order.value, plan.fieldIds))
      && (forall id :: id in plan.fields <==> id in plan.fieldIds)
  {
    SortedIdsAreKeys(section);
    var (global, _) := GlobalPresence(section.presence);
    CompiledFieldsAreSound(env, ToMap(SectionFields(section)), SortedIds(section), global);
    OutputOrderIsCleanIff(section.outputOrder, CompileSection(env, section).plan.fieldIds);
  }

  /** The compiled plan does not depend on the key order of `mapping.fields`. */
  lemma CompilationIgnoresKeyOrder(env: Env, a: Section, b: Section)
    requires a.fields.Some? && b.fields.Some? && a == b.(fields := a.fields)
    requires Distinct(a.fields.value) && multiset(a.fields.value) == multiset(b.fields.value)
    requires Distinct(b.fields.value)
    ensures CompileSection(env, a) == CompileSection(env, b)
  {
    SameEntriesSameMap(a.fields.value, b.fields.value);
    SameEntriesSameKeys(a.fields.value, b.fields.value);
    StrLeIsTotalOrder();
    SortIgnoresInputOrder(StrLe, KeyIds(a.fields.value), KeyIds(b.fields.value));
  }

  lemma SameEntriesSameMap(a: seq<Entry<string, Value>>, b: seq<Entry<string, Value>>)
    requires Distinct(a) && Distinct(b) && multiset(a) == multiset(b)
    ensures ToMap(a) == ToMap(b)
  {
    MapIsIncluded(a, b);
    MapIsIncluded(b, a);
  }

  lemma MapIsIncluded(a: seq<Entry<string, Value>>, b: seq<Entry<string, Value>>)
    requires Distinct(a) && Distinct(b) && multiset(a) == multiset(b)
    ensures forall k :: k in ToMap(a) ==> k in ToMap(b) && ToMap(b)[k] == ToMap(a)[k]
  {
    forall k | k in ToMap(a) ensures k in ToMap(b) && ToMap(b)[k] == ToMap(a)[k] {
      ToMapKeys(a, k);
      var i :| 0 <= i < |a| && a[i].key == k;
      ToMapAt(a, i);
      assert a[i] in multiset(b);
      var j :| 0 <= j < |b| && b[j] == a[i];
      ToMapAt(b, j);
    }
  }

  lemma SameEntriesSameKeys(a: seq<Entry<string, Value>>, b: seq<Entry<string, Value>>)
    requires multiset(a) == multiset(b)
    ensures multiset(KeyIds(a)) == multiset(KeyIds(b))
  {
    var keyOf := (e: Entry<string, Value>) => Some(e.key);
    CompactTotal(keyOf, a);
    CompactTotal(keyOf, b);
    assert KeyIds(a) == Compact(keyOf, a) && KeyIds(b) == Compact(keyOf, b);
    CompactPermuted(keyOf, a, b);
  }
}
