/** What the mapping section of a schema says about a record, read off the raw
    blocks, and that compiling a field and running its plan gives just that. */
module FieldMeaning {
  import opened Options
  import opened Values
  import opened MappingPlan
  import opened FieldCompiler
  import opened MappingExecutor

  /** A runtime issue as it is reported. */
  datatype Note = Note(code: string, path: string)

  function NotesOf(issues: seq<Issue>): seq<Note> {
    seq(|issues|, i requires 0 <= i < |issues| => Note(CodeText(issues[i].code), issues[i].path))
  }

  lemma NotesAppend(a: seq<Issue>, b: seq<Issue>)
    ensures NotesOf(a + b) == NotesOf(a) + NotesOf(b)
  {
  }

  /** A raw transform that compiles without diagnostics and without a raise. */
  ghost predicate Usable(env: Env, raw: Value) { ValidTransform(env, raw) && !PrepareRaises(env, raw) }

  ghost predicate AllUsable(env: Env, raws: seq<Value>) { forall i :: 0 <= i < |raws| ==> Usable(env, raws[i]) }

  /** The compiled calls are the raw transforms, one for one. */
  ghost predicate Transcribed(env: Env, raws: seq<Value>, calls: seq<OpCall>) {
    && |calls| == |raws|
    && forall i :: 0 <= i < |raws| ==> ValidTransform(env, raws[i]) && Transcribes(env, raws[i], calls[i])
  }

  /** The arguments it hands its operation: those it gives, as `prepare` leaves them. */
  ghost function ArgsOf(env: Env, raw: Value): Args
    requires Usable(env, raw)
  {
    if "args" !in raw.fields || !raw.fields["args"].Obj? then map[]
    else if SpecOf(env, raw).prepare.None? then raw.fields["args"].fields
    else SpecOf(env, raw).prepare.value(raw.fields["args"].fields).value
  }

  /** A transform hands a value on, or ends the chain with MISSING. */
  datatype Turn = On(value: Value) | End(notes: seq<Note>)

  ghost function TransformMeans(env: Env, raw: Value, v: Value, at: string): Turn
    requires Usable(env, raw)
  {
    var onMissing := if v == Missing && "on_missing" in raw.fields then raw.fields["on_missing"] else Null;
    if onMissing == Str("omit") then End([])
    else if onMissing == Str("error") then End([Note("EXEC_MAPPING_MISSING_ERROR", at)])
    else if onMissing == Str("pass") then On(Missing)
    else if onMissing == Str("default") then
      if "default" in ArgsOf(env, raw) then On(ArgsOf(env, raw)["default"])
      else End([Note("EXEC_MAPPING_ON_MISSING_DEFAULT_REQUIRED", at + ".args.default")])
    else match SpecOf(env, raw).call(v, ArgsOf(env, raw))
      case Some(w) => On(w)
      case None => End([Note("EXEC_MAPPING_OP_FAILED", at)])
  }

  /** The value the transforms from the n-th on make of v, and what they report. */
  ghost function TransformsMean(env: Env, raws: seq<Value>, n: nat, v: Value, at: string): (Value, seq<Note>)
    requires AllUsable(env, raws)
    decreases |raws| - n
  {
    if n >= |raws| then (v, [])
    else match TransformMeans(env, raws[n], v, at + ".transforms[" + Decimal10(n) + "]")
      case On(w) => TransformsMean(env, raws, n + 1, w, at)
      case End(notes) => (Missing, notes)
  }

  /** The field's blocks are in order: it compiles, and without diagnostics. */
  ghost predicate CleanField(env: Env, mapping: map<string, Value>) {
    && ValidSource(Get(mapping, "source")) && ValidPresence(Get(mapping, "presence"))
    && ("transforms" in mapping ==> mapping["transforms"].List?)
    && CleanChain(env, TransformsOf(mapping))
    && AllUsable(env, TransformsOf(mapping))
  }

  ghost function TransformsOf(mapping: map<string, Value>): seq<Value> {
    if "transforms" in mapping && mapping["transforms"].List? then mapping["transforms"].items else []
  }

  /** The presence mode in force: the field's own, or else the section's. */
  ghost function ModeOf(mapping: map<string, Value>, global: string): string
    requires ValidPresence(Get(mapping, "presence"))
  {
    if "presence" in mapping && mapping["presence"].Obj? && "default" in mapping["presence"].fields
    then mapping["presence"].fields["default"].s else global
  }

  /** What the field makes of a record: its emission and notes; None where the
      value it ends with has no text. */
  ghost function FieldMeans(host: Host, env: Env, id: string, mapping: map<string, Value>, global: string,
                            record: map<string, Value>): Option<(Emission, seq<Note>)>
    requires CleanField(env, mapping)
  {
    var at := "mapping.fields." + id;
    var source := Extract(host, record, mapping["source"].fields["path"].s);
    var (v, notes) := TransformsMean(env, TransformsOf(mapping), 0, source, at);
    var mode := ModeOf(mapping, global);
    if v == Missing then
      if mode == "emit_null_if_missing" then Some((EmitNull, notes))
      else if mode == "error_if_missing" then
        Some((EmitOmit, notes + [Note("EXEC_MAPPING_PRESENCE_ERROR", at + ".presence")]))
      else Some((EmitOmit, notes))
    else if v == Null then Some((EmitNull, notes))
    else if v.Emitted? then Some((v.emission, notes))
    else match host.str(v)
      case Some(text) => Some((EmitValue(text), notes))
      case None => None
  }

  /** One compiled call does to a value what its raw transform says. */
  lemma CallFollowsTransform(env: Env, raw: Value, call: OpCall, v: Value, fieldId: string, n: nat)
    requires Usable(env, raw) && Transcribes(env, raw, call)
    ensures var applied := ApplyTransform(env.catalog, v, call, fieldId, n);
      match TransformMeans(env, raw, v, "mapping.fields." + fieldId + ".transforms[" + Decimal10(n) + "]")
      case On(w) => applied == Applied(w, false, [])
      case End(notes) => applied.value == Missing && applied.stop && NotesOf(applied.issues) == notes
  {
    assert call.args.Some? ==> call.args.value == ArgsOf(env, raw);
    assert call.args.None? ==> ArgsOf(env, raw) == map[];
  }

  /** The rest of a running chain does what the rest of the raw transforms says. */
  lemma {:induction false} ChainFollowsTransforms(env: Env, raws: seq<Value>, plan: FieldPlan, source: Value, n: nat)
    requires AllUsable(env, raws) && Transcribed(env, raws, plan.transforms)
    requires n <= |raws| && !RunChain(env.catalog, plan, source, n).stop
    ensures var before, after := RunChain(env.catalog, plan, source, n), RunChain(env.catalog, plan, source, |raws|);
      var (v, notes) := TransformsMean(env, raws, n, before.value, "mapping.fields." + plan.fieldId);
      after.value == v && NotesOf(after.issues) == NotesOf(before.issues) + notes
    decreases |raws| - n
  {
    var before := RunChain(env.catalog, plan, source, n);
    if n == |raws| {
      assert NotesOf(before.issues) + [] == NotesOf(before.issues);
    } else {
      var at := "mapping.fields." + plan.fieldId;
      assert at + ".transforms[" + Decimal10(n) + "]" == TransformPath(plan.fieldId, n);
      CallFollowsTransform(env, raws[n], plan.transforms[n], before.value, plan.fieldId, n);
      var applied := ApplyTransform(env.catalog, before.value, plan.transforms[n], plan.fieldId, n);
      NotesAppend(before.issues, applied.issues);
      if applied.stop {
        StopIsFinal(env.catalog, plan, source, n + 1, |raws|);
      } else {
        assert before.issues + [] == before.issues;
        ChainFollowsTransforms(env, raws, plan, source, n + 1);
      }
    }
  }

  lemma CleanFieldCompiles(env: Env, fieldId: string, mapping: map<string, Value>, path: string, global: Presence)
    requires CleanField(env, mapping)
    ensures var r := CompileField(env, fieldId, mapping, path, global);
      r.Field? && r.diags == [] && Transcribed(env, TransformsOf(mapping), r.plan.transforms)
  {
    var raws := TransformsOf(mapping);
    assert RawTransforms(mapping) == Some(raws);
    CompileRaisesIff(env, fieldId, mapping, path, global);
    FieldCompilesCleanlyIff(env, fieldId, mapping, path, global);
    if raws == [] {
      assert CompileChain(env, [], path).transforms == [];
    }
    forall i | 0 <= i < |raws|
      ensures |CompileChain(env, raws, path).transforms| == |raws|
      ensures ValidTransform(env, raws[i]) && Transcribes(env, raws[i], CompileChain(env, raws, path).transforms[i])
    {
      CleanChainIsTranscribed(env, raws, path, i);
    }
  }

  /** Compiling a field and running its plan gives, on every record, what the
      field's blocks say: the same emission, the same issues, and a raise where
      the value has no text. */
  lemma FieldMeansItsText(host: Host, env: Env, fieldId: string, mapping: map<string, Value>, path: string,
                          global: Presence, record: map<string, Value>)
    requires CleanField(env, mapping)
    ensures CompileField(env, fieldId, mapping, path, global).Field?
    ensures var plan := CompileField(env, fieldId, mapping, path, global).plan;
      match FieldMeans(host, env, fieldId, mapping, PresenceText(global), record)
      case None => Execute(host, env.catalog, plan, record).None?
      case Some((emission, notes)) =>
        var r := Execute(host, env.catalog, plan, record);
        r.Some? && r.value.0 == emission && NotesOf(r.value.1) == notes
  {
    CleanFieldCompiles(env, fieldId, mapping, path, global);
    PlanFollowsItsBlocks(env, fieldId, mapping, path, global);
    PresenceInForce(env, fieldId, mapping, path, global);
    var plan := CompileField(env, fieldId, mapping, path, global).plan;
    assert Says(mapping, "source", "path", Str(mapping["source"].fields["path"].s));
    ChainFollowsTransforms(env, TransformsOf(mapping), plan, Extract(host, record, plan.sourcePath), 0);
    FieldsAgree(host, env, mapping, plan, PresenceText(global), record);
  }

  /** A plan agrees with the blocks when its source, chain and mode do. */
  lemma FieldsAgree(host: Host, env: Env, mapping: map<string, Value>, plan: FieldPlan, global: string,
                    record: map<string, Value>)
    requires CleanField(env, mapping)
    requires plan.sourcePath == mapping["source"].fields["path"].s
    requires ModeOf(mapping, global) == PresenceText(plan.presence)
    requires var source := Extract(host, record, plan.sourcePath);
      var chain := RunChain(env.catalog, plan, source, |plan.transforms|);
      var (v, notes) := TransformsMean(env, TransformsOf(mapping), 0, source, "mapping.fields." + plan.fieldId);
      chain.value == v && NotesOf(chain.issues) == notes
    ensures var r := Execute(host, env.catalog, plan, record);
      match FieldMeans(host, env, plan.fieldId, mapping, global, record)
      case None => r.None?
      case Some((emission, notes)) => r.Some? && r.value.0 == emission && NotesOf(r.value.1) == notes
  {
    hide Execute, RunChain, TransformsMean, CleanField;
    EmissionFollowsPresence(host, env.catalog, plan, record);
    var chain := RunChain(env.catalog, plan, Extract(host, record, plan.sourcePath), |plan.transforms|);
    NotesAppend(chain.issues, [Issue(PresenceError, "mapping.fields." + plan.fieldId + ".presence")]);
  }

  lemma PresenceInForce(env: Env, fieldId: string, mapping: map<string, Value>, path: string, global: Presence)
    requires CleanField(env, mapping) && CompileField(env, fieldId, mapping, path, global).Field?
    ensures ModeOf(mapping, PresenceText(global))
      == PresenceText(CompileField(env, fieldId, mapping, path, global).plan.presence)
  {
    PlanFollowsItsBlocks(env, fieldId, mapping, path, global);
  }
}

/** The same for the whole mapping section. */
module SchemaMeaning {
  import opened Options
  import opened PyDict
  import opened Values
  import opened MappingPlan
  import opened FieldCompiler
  import opened MappingCompiler
  import opened MappingExecutor
  import opened FieldMeaning
  import opened LinkSoundness
  import opened Permutations
  import opened StableSort
  import opened Lexicographic

  // ---------------------------------------------------------------------
  // When a section compiles cleanly
  // ---------------------------------------------------------------------

  ghost function RawFields(section: Section): map<string, Value> {
    match section.fields case Some(fields) => ToMap(fields) case None => map[]
  }

  ghost predicate CleanEntry(env: Env, raw: Value) { raw.Obj? && CleanField(env, raw.fields) }

  ghost predicate CleanEntries(env: Env, raw: map<string, Value>) {
    forall id :: id in raw ==> CleanEntry(env, raw[id])
  }

  ghost predicate ValidGlobal(raw: Value) {
    raw.Obj? && "default" in raw.fields ==>
      raw.fields["default"] in {Null, Str("omit_missing"), Str("emit_null_if_missing"), Str("error_if_missing")}
  }

  /** A list of texts, with each of these ids once. */
  ghost predicate ListsOnce(raw: Value, ids: set<string>) {
    && raw.List?
    && (forall i :: 0 <= i < |raw.items| ==> raw.items[i].Str? && raw.items[i].s in ids)
    && (forall i, j :: 0 <= i < j < |raw.items| ==> raw.items[i] != raw.items[j])
    && (forall id :: id in ids ==> Str(id) in raw.items)
  }

  ghost predicate CleanSchema(env: Env, section: Section) {
    && section.outputKind in {Str("csv_row"), Str("json_object")}
    && section.fields.Some? && CleanEntries(env, RawFields(section))
    && ValidGlobal(section.presence) && ValidTombstone(section.deleteTombstone)
    && (section.outputKind == Str("csv_row") ==> ListsOnce(section.outputOrder, RawFields(section).Keys))
  }

  lemma FieldIsCleanIff(env: Env, id: string, mapping: map<string, Value>, path: string, global: Presence)
    ensures var r := CompileField(env, id, mapping, path, global);
      r.Field? && r.diags == [] <==> CleanField(env, mapping)
  {
    if CleanField(env, mapping) {
      CleanFieldCompiles(env, id, mapping, path, global);
    }
    if CompileField(env, id, mapping, path, global).Field? {
      CompileRaisesIff(env, id, mapping, path, global);
      FieldCompilesCleanlyIff(env, id, mapping, path, global);
      assert RawTransforms(mapping) == Some(TransformsOf(mapping));
    }
  }

  ghost predicate Clean(r: Fields) { r.Fields? && r.diags == [] }

  ghost predicate AllClean(env: Env, raw: map<string, Value>, ids: seq<string>)
    requires forall id :: id in ids ==> id in raw
  {
    forall i :: 0 <= i < |ids| ==> CleanEntry(env, raw[ids[i]])
  }

  lemma AddedIsCleanIff(env: Env, before: Fields, id: string, raw: Value, global: Presence)
    requires before.Fields?
    ensures Clean(MappingCompiler.AddField(env, before, id, raw, global)) <==> Clean(before) && CleanEntry(env, raw)
  {
    if raw.Obj? {
      FieldIsCleanIff(env, id, raw.fields, "mapping.fields." + id, global);
    }
  }

  lemma {:induction false} FieldsAreCleanIff(env: Env, raw: map<string, Value>, ids: seq<string>, global: Presence)
    requires forall id :: id in ids ==> id in raw
    ensures Clean(CompileFields(env, raw, ids, global)) <==> AllClean(env, raw, ids)
  {
    if ids != [] {
      var init, last := ids[..|ids| - 1], ids[|ids| - 1];
      var before := CompileFields(env, raw, init, global);
      FieldsAreCleanIff(env, raw, init, global);
      AllCleanSnoc(env, raw, init, last);
      assert ids == init + [last];
      if before.Fields? {
        AddedIsCleanIff(env, before, last, raw[last], global);
      }
    }
  }

  lemma AllCleanSnoc(env: Env, raw: map<string, Value>, ids: seq<string>, id: string)
    requires id in raw && forall i :: i in ids ==> i in raw
    ensures AllClean(env, raw, ids + [id]) <==> AllClean(env, raw, ids) && CleanEntry(env, raw[id])
  {
    forall i | 0 <= i < |ids| ensures (ids + [id])[i] == ids[i] {}
    assert (ids + [id])[|ids|] == id;
  }

  lemma GlobalIsReadIff(raw: Value)
    ensures var (global, diags) := GlobalPresence(raw);
      && (diags == [] <==> ValidGlobal(raw))
      && (ValidGlobal(raw) ==> PresenceText(global) == TextIn(raw, "default", "omit_missing"))
      && (!ValidGlobal(raw) ==> global == OmitMissing)
  {
  }

  /** The text under the key of a block, or its default. */
  ghost function TextIn(raw: Value, key: string, default: string): string {
    if raw.Obj? && key in raw.fields && raw.fields[key].Str? then raw.fields[key].s else default
  }

  lemma OrderIsReadIff(raw: Value, ids: seq<string>)
    ensures var (order, diags) := OutputOrder(CsvRow, raw, ids);
      && (diags == [] <==> ListsOnce(raw, set id | id in ids))
      && (diags == [] ==> order.Some? && |order.value| == |raw.items|)
      && (diags == [] ==> forall i :: 0 <= i < |raw.items| ==> raw.items[i] == Str(order.value[i]))
  {
    OutputOrderIsCleanIff(raw, ids);
    var known := set id | id in ids;
    if ReadOrder(raw).Some? {
      var order := ReadOrder(raw).value;
      assert forall i :: 0 <= i < |raw.items| ==> raw.items[i] in raw.items;
      assert forall i :: 0 <= i < |raw.items| ==> raw.items[i] == Str(order[i]);
      if IsPermutationOf(order, ids) {
        forall id | id in known ensures Str(id) in raw.items {
          var i :| 0 <= i < |order| && order[i] == id;
          assert raw.items[i] == Str(id);
        }
        forall i | 0 <= i < |raw.items| ensures raw.items[i].s in known { assert order[i] in order; }
      }
      if ListsOnce(raw, known) {
        forall id ensures id in order <==> id in ids {
          if id in order {
            var i :| 0 <= i < |order| && order[i] == id;
            assert raw.items[i].s in known;
          }
          if id in ids {
            assert id in known;
            var i :| 0 <= i < |raw.items| && raw.items[i] == Str(id);
            assert order[i] == id;
          }
        }
        assert IsPermutationOf(order, ids);
      }
    } else if raw.List? {
      var item :| item in raw.items && !item.Str?;
      var i :| 0 <= i < |raw.items| && raw.items[i] == item;
    }
  }

  lemma EntriesAreClean(env: Env, raw: map<string, Value>, ids: seq<string>)
    requires forall id :: id in ids <==> id in raw
    ensures AllClean(env, raw, ids) <==> CleanEntries(env, raw)
  {
    if AllClean(env, raw, ids) {
      forall id | id in raw ensures CleanEntry(env, raw[id]) {
        var i :| 0 <= i < |ids| && ids[i] == id;
      }
    }
  }

  /** What compiling the fields of the section gives. */
  ghost function FieldsOf(env: Env, section: Section): Fields {
    SortedIdsAreKeys(section);
    CompileFields(env, RawFields(section), SortedIds(section), GlobalPresence(section.presence).0)
  }

  /** The diagnostics of a section are those of its parts. */
  lemma SectionIsCleanIff(env: Env, section: Section)
    ensures var r, fields := CompileSection(env, section), FieldsOf(env, section);
      (r.Compiled? && r.diags == []) <==>
        (&& Clean(fields) && section.fields.Some?
         && GlobalPresence(section.presence).1 == [] && ReadKind(section.outputKind).1 == []
         && OutputOrder(ReadKind(section.outputKind).0, section.outputOrder, fields.ids).1 == []
         && ReadTombstone(section.deleteTombstone).1 == [])
  {
  }

  lemma FieldsOfClean(env: Env, section: Section)
    ensures Clean(FieldsOf(env, section)) <==> CleanEntries(env, RawFields(section))
    ensures Clean(FieldsOf(env, section)) ==> FieldsOf(env, section).ids == SortedIds(section)
    ensures (set id | id in SortedIds(section)) == RawFields(section).Keys
  {
    SortedIdsAreKeys(section);
    var raw, ids, global := RawFields(section), SortedIds(section), GlobalPresence(section.presence).0;
    FieldsAreCleanIff(env, raw, ids, global);
    EntriesAreClean(env, raw, ids);
    CompiledFieldsAreSound(env, raw, ids, global);
  }

  /** A section compiles, and without diagnostics, exactly when its blocks are in
      order. */
  lemma SchemaCompilesCleanlyIff(env: Env, section: Section)
    ensures var r := CompileSection(env, section);
      r.Compiled? && r.diags == [] <==> CleanSchema(env, section)
  {
    SectionIsCleanIff(env, section);
    FieldsOfClean(env, section);
    GlobalIsReadIff(section.presence);
    TombstoneIsReadIff(section.deleteTombstone);
    OrderIsReadIff(section.outputOrder, SortedIds(section));
  }

  // ---------------------------------------------------------------------
  // What a section says about a record
  // ---------------------------------------------------------------------

  /** The section as it reads: for a csv_row its columns, the mapping of each
      field, the presence mode of fields that name none, and the tombstone
      settings. */
  datatype Schema = Schema(
    isRow: bool, columns: seq<string>, fields: map<string, map<string, Value>>, global: string,
    tombstones: bool, flagPath: string, idField: string)

  ghost function TextsOf(raw: Value): seq<string> {
    if !raw.List? then []
    else seq(|raw.items|, i requires 0 <= i < |raw.items| => if raw.items[i].Str? then raw.items[i].s else "")
  }

  ghost function SchemaOf(section: Section): Schema {
    var raw := RawFields(section);
    Schema(section.outputKind == Str("csv_row"), TextsOf(section.outputOrder),
           map id | id in raw && raw[id].Obj? :: raw[id].fields,
           TextIn(section.presence, "default", "omit_missing"),
           GivenOr(section.deleteTombstone, "enabled", Null) == Bool(true),
           TextIn(section.deleteTombstone, "flag_path", "delete"), TextIn(section.deleteTombstone, "id_field", "id"))
  }

  /** The flag of the record asks for its deletion. */
  ghost predicate AsksDeletion(host: Host, schema: Schema, record: map<string, Value>) {
    var flag := Extract(host, record, schema.flagPath);
    flag == Bool(true) || (flag.Str? && host.lower(host.strip(flag.s)) in {"true", "1", "yes", "y"})
  }

  /** Of these fields each has its blocks in order. */
  ghost predicate Readable(env: Env, schema: Schema, ids: seq<string>) {
    forall id :: id in ids ==> id in schema.fields && CleanField(env, schema.fields[id])
  }

  /** What one column, or one field of an object, holds: OMIT outside the id
      column of a tombstone row, and otherwise what the field says. */
  ghost function CellMeans(host: Host, env: Env, schema: Schema, record: map<string, Value>, id: string)
    : Option<(Emission, seq<Note>)>
    requires Readable(env, schema, [id])
  {
    assert id in [id];
    if schema.isRow && schema.tombstones && AsksDeletion(host, schema, record) && id != schema.idField
    then Some((EmitOmit, []))
    else FieldMeans(host, env, id, schema.fields[id], schema.global, record)
  }

  ghost predicate Raises(host: Host, env: Env, schema: Schema, record: map<string, Value>, id: string) {
    Readable(env, schema, [id]) && CellMeans(host, env, schema, record, id).None?
  }

  ghost predicate Holds(host: Host, env: Env, schema: Schema, record: map<string, Value>, id: string, e: Emission) {
    && Readable(env, schema, [id])
    && CellMeans(host, env, schema, record, id).Some? && CellMeans(host, env, schema, record, id).value.0 == e
  }

  /** What these fields report, one after the other. */
  ghost function NotesOfCells(host: Host, env: Env, schema: Schema, record: map<string, Value>, ids: seq<string>)
    : seq<Note>
    requires Readable(env, schema, ids)
  {
    if ids == [] then []
    else
      var cell := CellMeans(host, env, schema, record, ids[|ids| - 1]);
      NotesOfCells(host, env, schema, record, ids[..|ids| - 1]) + if cell.Some? then cell.value.1 else []
  }

  /** A deletion is asked for that the schema does not provide for. */
  ghost function DeletionNotes(host: Host, schema: Schema, record: map<string, Value>): seq<Note> {
    if AsksDeletion(host, schema, record) && !schema.tombstones
    then [Note("CONTRACT.DELETE_UNSUPPORTED", "build:contract")] else []
  }

  predicate NoteLe(a: Note, b: Note) {
    if a.code == b.code then StrLe(a.path, b.path) else StrLe(a.code, b.code)
  }

  /** The issues are these notes, sorted by code and then path. */
  ghost predicate Reports(issues: seq<Issue>, notes: seq<Note>) {
    && multiset(NotesOf(issues)) == multiset(notes)
    && forall i, j :: 0 <= i < j < |issues| ==> NoteLe(NotesOf(issues)[i], NotesOf(issues)[j])
  }

  /** A row with the declared columns, each holding what its field says. */
  ghost predicate IsRow(host: Host, env: Env, schema: Schema, record: map<string, Value>, r: Result)
    requires Readable(env, schema, schema.columns)
  {
    && r.output.Row? && |r.output.emissions| == |schema.columns|
    && (forall i :: 0 <= i < |schema.columns| ==>
          Holds(host, env, schema, record, schema.columns[i], r.output.emissions[i]))
    && Reports(r.issues, DeletionNotes(host, schema, record)
                         + NotesOfCells(host, env, schema, record, schema.columns))
  }

  /** An object with the fields that say anything but OMIT, each holding what it
      says; `ids` lists them all. */
  ghost predicate IsObject(host: Host, env: Env, schema: Schema, record: map<string, Value>, ids: seq<string>,
                           r: Result)
    requires Readable(env, schema, ids)
  {
    && r.output.Object?
    && (forall id :: id in r.output.fields ==> id in ids && r.output.fields[id] != EmitOmit)
    && (forall id :: id in ids ==>
          Holds(host, env, schema, record, id, if id in r.output.fields then r.output.fields[id] else EmitOmit))
    && Reports(r.issues, NotesOfCells(host, env, schema, record, ids))
  }

  // ---------------------------------------------------------------------
  // What a clean section compiles to
  // ---------------------------------------------------------------------

  /** The field's own plan, compiled without diagnostics. */
  ghost predicate IsPlanOf(env: Env, id: string, raw: Value, global: Presence, plan: FieldPlan) {
    raw.Obj? && CompileField(env, id, raw.fields, "mapping.fields." + id, global) == Field(plan, [])
  }

  lemma PlanIsAdded(env: Env, before: Fields, id: string, raw: Value, global: Presence)
    requires before.Fields? && Clean(MappingCompiler.AddField(env, before, id, raw, global))
    ensures var plans := MappingCompiler.AddField(env, before, id, raw, global).plans;
      && id in plans && IsPlanOf(env, id, raw, global, plans[id])
      && plans == before.plans[id := plans[id]]
  {
  }

  lemma LastIsAdded(env: Env, raw: map<string, Value>, ids: seq<string>, global: Presence)
    requires ids != [] && forall i :: i in ids ==> i in raw
    requires Clean(CompileFields(env, raw, ids, global))
    ensures var init, last := ids[..|ids| - 1], ids[|ids| - 1];
      var before := CompileFields(env, raw, init, global);
      Clean(before) && CompileFields(env, raw, ids, global)
        == MappingCompiler.AddField(env, before, last, raw[last], global)
  {
  }

  lemma {:induction false} PlanIsFiled(env: Env, raw: map<string, Value>, ids: seq<string>, global: Presence,
                                       id: string)
    requires id in ids && forall i :: i in ids ==> i in raw
    requires Clean(CompileFields(env, raw, ids, global))
    ensures var plans := CompileFields(env, raw, ids, global).plans;
      id in plans && IsPlanOf(env, id, raw[id], global, plans[id])
  {
    hide CompileField, CompileFields, MappingCompiler.AddField;
    var init, last := ids[..|ids| - 1], ids[|ids| - 1];
    LastIsAdded(env, raw, ids, global);
    PlanIsAdded(env, CompileFields(env, raw, init, global), last, raw[last], global);
    if id != last {
      assert ids == init + [last];
      PlanIsFiled(env, raw, init, global, id);
    }
  }

  /** Each field of the schema, in order, with its own plan under its id. */
  ghost predicate FieldsFollow(env: Env, schema: Schema, global: Presence, plans: map<string, FieldPlan>) {
    && PresenceText(global) == schema.global && plans.Keys == schema.fields.Keys
    && forall id :: id in plans ==>
         CleanField(env, schema.fields[id]) && IsPlanOf(env, id, Obj(schema.fields[id]), global, plans[id])
  }

  /** The plan has its parts from the schema. */
  ghost predicate PlanFollows(schema: Schema, plan: Plan) {
    && plan.tombstoneEnabled == schema.tombstones && plan.tombstoneFlagPath == schema.flagPath
    && plan.tombstoneIdField == schema.idField
    && (plan.kind == CsvRow <==> schema.isRow) && (schema.isRow ==> plan.order == Some(schema.columns))
  }

  lemma PlansAreFiled(env: Env, raw: map<string, Value>, ids: seq<string>, global: Presence)
    requires (forall id :: id in ids <==> id in raw) && Clean(CompileFields(env, raw, ids, global))
    ensures var plans := CompileFields(env, raw, ids, global).plans;
      plans.Keys == raw.Keys && forall id :: id in plans ==> IsPlanOf(env, id, raw[id], global, plans[id])
  {
    hide CompileField, CompileFields, MappingCompiler.AddField;
    var plans := CompileFields(env, raw, ids, global).plans;
    CompiledFieldsAreSound(env, raw, ids, global);
    forall id | id in raw ensures id in plans && IsPlanOf(env, id, raw[id], global, plans[id]) {
      PlanIsFiled(env, raw, ids, global, id);
    }
  }

  lemma PlansFollow(env: Env, schema: Schema, raw: map<string, Value>, global: Presence, plans: map<string, FieldPlan>)
    requires CleanEntries(env, raw) && PresenceText(global) == schema.global
    requires schema.fields == map id | id in raw && raw[id].Obj? :: raw[id].fields
    requires plans.Keys == raw.Keys && forall id :: id in plans ==> IsPlanOf(env, id, raw[id], global, plans[id])
    ensures FieldsFollow(env, schema, global, plans)
  {
    forall id | id in raw
      ensures id in schema.fields && raw[id] == Obj(schema.fields[id]) && CleanField(env, schema.fields[id])
    {
      assert CleanEntry(env, raw[id]);
    }
  }

  lemma FieldsHavePlans(env: Env, section: Section)
    requires CleanEntries(env, RawFields(section)) && ValidGlobal(section.presence)
    ensures FieldsOf(env, section).Fields?
    ensures FieldsFollow(env, SchemaOf(section), GlobalPresence(section.presence).0, FieldsOf(env, section).plans)
  {
    SortedIdsAreKeys(section);
    FieldsOfClean(env, section);
    GlobalIsReadIff(section.presence);
    PlansAreFiled(env, RawFields(section), SortedIds(section), GlobalPresence(section.presence).0);
    PlansFollow(env, SchemaOf(section), RawFields(section), GlobalPresence(section.presence).0,
                FieldsOf(env, section).plans);
  }

  /** The parts of a compiled section. */
  lemma SectionParts(env: Env, section: Section)
    requires FieldsOf(env, section).Fields?
    ensures CompileSection(env, section).Compiled?
    ensures var plan, kind := CompileSection(env, section).plan, ReadKind(section.outputKind).0;
      && plan.kind == kind && plan.order == OutputOrder(kind, section.outputOrder, FieldsOf(env, section).ids).0
      && plan.fields == FieldsOf(env, section).plans && plan.fieldIds == FieldsOf(env, section).ids
      && (plan.tombstoneEnabled, plan.tombstoneFlagPath, plan.tombstoneIdField)
        == ReadTombstone(section.deleteTombstone).0
  {
  }

  lemma ColumnsAreRead(raw: Value, ids: seq<string>)
    requires ListsOnce(raw, set id | id in ids)
    ensures OutputOrder(CsvRow, raw, ids).0 == Some(TextsOf(raw))
  {
    OrderIsReadIff(raw, ids);
    assert OutputOrder(CsvRow, raw, ids).0.value == TextsOf(raw);
  }

  lemma CleanSectionCompiles(env: Env, section: Section)
    requires CleanSchema(env, section)
    ensures CompileSection(env, section).Compiled?
    ensures var plan := CompileSection(env, section).plan;
      && FieldsFollow(env, SchemaOf(section), GlobalPresence(section.presence).0, plan.fields)
      && PlanFollows(SchemaOf(section), plan) && plan.fieldIds == SortedIds(section) && ValidPlan(plan)
  {
    SortedIdsAreKeys(section);
    FieldsOfClean(env, section);
    FieldsHavePlans(env, section);
    SectionParts(env, section);
    TombstoneIsReadIff(section.deleteTombstone);
    if section.outputKind == Str("csv_row") {
      ColumnsAreRead(section.outputOrder, SortedIds(section));
    }
  }

  // ---------------------------------------------------------------------
  // Running it
  // ---------------------------------------------------------------------

  /** The two readings of a field or cell agree. */
  ghost predicate Agree(meant: Option<(Emission, seq<Note>)>, got: Option<(Emission, seq<Issue>)>) {
    match meant
    case None => got.None?
    case Some((emission, notes)) => got.Some? && got.value.0 == emission && NotesOf(got.value.1) == notes
  }

  lemma FieldFollowsText(host: Host, env: Env, schema: Schema, global: Presence, plan: Plan,
                         record: map<string, Value>, id: string)
    requires FieldsFollow(env, schema, global, plan.fields) && id in schema.fields
    ensures id in plan.fields && CleanField(env, schema.fields[id])
    ensures Agree(FieldMeans(host, env, id, schema.fields[id], schema.global, record),
                  Execute(host, env.catalog, plan.fields[id], record))
  {
    hide FieldMeans, Execute, CleanField;
    assert IsPlanOf(env, id, Obj(schema.fields[id]), global, plan.fields[id]);
    FieldMeansItsText(host, env, id, schema.fields[id], "mapping.fields." + id, global, record);
  }

  lemma DeletionFollowsText(host: Host, schema: Schema, plan: Plan, record: map<string, Value>)
    requires PlanFollows(schema, plan)
    ensures WantsDelete(host, plan, record) <==> AsksDeletion(host, schema, record)
    ensures NotesOf([] + DeleteIssues(host, plan, record)) == DeletionNotes(host, schema, record)
  {
  }

  lemma CellFollowsText(host: Host, env: Env, schema: Schema, global: Presence, plan: Plan,
                        record: map<string, Value>, id: string)
    requires FieldsFollow(env, schema, global, plan.fields) && PlanFollows(schema, plan) && id in schema.fields
    ensures id in plan.fields && Readable(env, schema, [id])
    ensures Agree(CellMeans(host, env, schema, record, id),
                  if plan.kind == CsvRow then Cell(host, env.catalog, plan, record, id)
                  else Execute(host, env.catalog, plan.fields[id], record))
  {
    hide FieldMeans, Execute, CleanField, IsPlanOf;
    FieldFollowsText(host, env, schema, global, plan, record, id);
    DeletionFollowsText(host, schema, plan, record);
    assert NotesOf([]) == [];
  }

  ghost predicate RowAgrees(host: Host, env: Env, schema: Schema, record: map<string, Value>, ids: seq<string>,
                            cells: Option<(seq<Emission>, seq<Issue>)>)
  {
    && Readable(env, schema, ids)
    && (cells.None? <==> exists i :: 0 <= i < |ids| && Raises(host, env, schema, record, ids[i]))
    && (cells.Some? ==>
          && |cells.value.0| == |ids|
          && (forall i :: 0 <= i < |ids| ==> Holds(host, env, schema, record, ids[i], cells.value.0[i]))
          && NotesOf(cells.value.1) == NotesOfCells(host, env, schema, record, ids))
  }

  lemma OneMoreCell(host: Host, env: Env, schema: Schema, record: map<string, Value>, ids: seq<string>, id: string,
                    before: Option<(seq<Emission>, seq<Issue>)>, cell: Option<(Emission, seq<Issue>)>)
    requires RowAgrees(host, env, schema, record, ids, before) && Readable(env, schema, [id])
    requires Agree(CellMeans(host, env, schema, record, id), cell)
    ensures RowAgrees(host, env, schema, record, ids + [id], AddCell(before, cell))
  {
    hide CellMeans, CleanField;
    var all := ids + [id];
    assert all[..|ids|] == ids && all[|ids|] == id && id in [id];
    assert Readable(env, schema, all);
    if before.Some? && cell.Some? {
      NotesAppend(before.value.1, cell.value.1);
    } else if before.None? {
      var i :| 0 <= i < |ids| && Raises(host, env, schema, record, ids[i]);
      assert all[i] == ids[i];
    } else {
      assert Raises(host, env, schema, record, all[|ids|]);
    }
  }

  lemma {:induction false} CellsFollowText(host: Host, env: Env, schema: Schema, global: Presence, plan: Plan,
                                           record: map<string, Value>, ids: seq<string>)
    requires FieldsFollow(env, schema, global, plan.fields) && PlanFollows(schema, plan) && plan.kind == CsvRow
    requires forall id :: id in ids ==> id in schema.fields
    ensures RowAgrees(host, env, schema, record, ids, Cells(host, env.catalog, plan, record, ids))
  {
    hide FieldsFollow, PlanFollows, CellMeans, Cell, AddCell, CleanField;
    if ids != [] {
      var init, last := ids[..|ids| - 1], ids[|ids| - 1];
      CellsFollowText(host, env, schema, global, plan, record, init);
      CellFollowsText(host, env, schema, global, plan, record, last);
      assert ids == init + [last];
      OneMoreCell(host, env, schema, record, init, last, Cells(host, env.catalog, plan, record, init),
                  Cell(host, env.catalog, plan, record, last));
    }
  }

  lemma {:induction false} FieldsFollowText(host: Host, env: Env, schema: Schema, global: Presence, plan: Plan,
                                            record: map<string, Value>, ids: seq<string>)
    requires FieldsFollow(env, schema, global, plan.fields) && PlanFollows(schema, plan) && plan.kind == JsonObject
    requires forall id :: id in ids ==> id in plan.fields
    ensures Readable(env, schema, ids)
    ensures ObjectFields(host, env.catalog, plan, record, ids).None?
      <==> exists i :: 0 <= i < |ids| && Raises(host, env, schema, record, ids[i])
    ensures ObjectFields(host, env.catalog, plan, record, ids).Some? ==>
      NotesOf(ObjectFields(host, env.catalog, plan, record, ids).value.1)
        == NotesOfCells(host, env, schema, record, ids)
  {
    hide PlanFollows, CellMeans, CleanField, Execute, IsPlanOf;
    if ids != [] {
      var init, last := ids[..|ids| - 1], ids[|ids| - 1];
      FieldsFollowText(host, env, schema, global, plan, record, init);
      CellFollowsText(host, env, schema, global, plan, record, last);
      assert ids == init + [last];
      var before, field := ObjectFields(host, env.catalog, plan, record, init),
                           Execute(host, env.catalog, plan.fields[last], record);
      if before.Some? && field.Some? {
        NotesAppend(before.value.1, field.value.1);
      } else if before.None? {
        var i :| 0 <= i < |init| && Raises(host, env, schema, record, init[i]);
        assert ids[i] == init[i];
      } else {
        assert Raises(host, env, schema, record, ids[|init|]);
      }
    }
  }

  function NoteOf(): Issue -> Option<Note> { (issue: Issue) => Some(Note(CodeText(issue.code), issue.path)) }

  /** Sorting the issues reports their notes. */
  lemma SortedIssuesReport(issues: seq<Issue>)
    ensures Reports(Sort(IssueLe, issues), NotesOf(issues))
  {
    var sorted := Sort(IssueLe, issues);
    IssuesAreOrdered(issues);
    CompactTotal(NoteOf(), issues);
    CompactTotal(NoteOf(), sorted);
    assert NotesOf(issues) == Compact(NoteOf(), issues) && NotesOf(sorted) == Compact(NoteOf(), sorted);
    CompactPermuted(NoteOf(), sorted, issues);
    forall i, j | 0 <= i < j < |sorted| ensures NoteLe(NotesOf(sorted)[i], NotesOf(sorted)[j]) {
      assert IssueLe(sorted[i], sorted[j]);
      PairLe(CodeText(sorted[i].code), sorted[i].path, CodeText(sorted[j].code), sorted[j].path);
    }
  }

  lemma PairLe(a: string, b: string, c: string, d: string)
    ensures TupleLe([a, b], [c, d]) <==> if a == c then StrLe(b, d) else StrLe(a, c)
  {
    StrLeIsTotalOrder();
    assert [a, b][1..] == [b] && [c, d][1..] == [d];
    assert [b][1..] == [] && [d][1..] == [] && StrLe(b, b);
    assert Lex(StrLe, [b], [d]) <==> StrLe(b, d);
  }

  lemma RowFollowsText(host: Host, env: Env, schema: Schema, global: Presence, plan: Plan, record: map<string, Value>)
    requires FieldsFollow(env, schema, global, plan.fields) && PlanFollows(schema, plan) && ValidPlan(plan)
    requires schema.isRow && forall id :: id in schema.columns ==> id in schema.fields
    ensures Readable(env, schema, schema.columns)
    ensures match Run(host, env.catalog, plan, record)
      case Some(r) => IsRow(host, env, schema, record, r)
      case None => exists i :: 0 <= i < |schema.columns| && Raises(host, env, schema, record, schema.columns[i])
  {
    hide FieldsFollow, Run, Cells, DeleteIssues, DeletionNotes;
    CsvRun(host, env.catalog, plan, record);
    CellsFollowText(host, env, schema, global, plan, record, schema.columns);
    DeletionFollowsText(host, schema, plan, record);
    var cells := Cells(host, env.catalog, plan, record, schema.columns);
    if cells.Some? {
      var deletion := [] + DeleteIssues(host, plan, record);
      SortedIssuesReport(deletion + cells.value.1);
      NotesAppend(deletion, cells.value.1);
    }
  }

  /** A csv_row section whose blocks are in order does to every record what it
      says: it raises when the value of a cell has no text, and otherwise gives
      the row with its issues. */
  lemma CsvSchemaMeansItsText(host: Host, env: Env, section: Section, record: map<string, Value>)
    requires CleanSchema(env, section) && section.outputKind == Str("csv_row")
    ensures CompileSection(env, section).Compiled? && ValidPlan(CompileSection(env, section).plan)
    ensures var schema := SchemaOf(section);
      && Readable(env, schema, schema.columns)
      && match Run(host, env.catalog, CompileSection(env, section).plan, record)
         case Some(r) => IsRow(host, env, schema, record, r)
         case None => exists i :: 0 <= i < |schema.columns| && Raises(host, env, schema, record, schema.columns[i])
  {
    hide FieldsFollow, IsRow, Run;
    CleanSectionCompiles(env, section);
    SortedIdsAreKeys(section);
    RowFollowsText(host, env, SchemaOf(section), GlobalPresence(section.presence).0,
                   CompileSection(env, section).plan, record);
  }

  lemma ObjectHolds(host: Host, env: Env, schema: Schema, global: Presence, plan: Plan, record: map<string, Value>,
                    ids: seq<string>)
    requires FieldsFollow(env, schema, global, plan.fields) && PlanFollows(schema, plan) && plan.kind == JsonObject
    requires forall id :: id in ids ==> id in plan.fields
    requires ObjectFields(host, env.catalog, plan, record, ids).Some?
    ensures var fields := ObjectFields(host, env.catalog, plan, record, ids).value.0;
      && (forall id :: id in fields ==> id in ids && fields[id] != EmitOmit)
      && (forall id :: id in ids ==>
            Holds(host, env, schema, record, id, if id in fields then fields[id] else EmitOmit))
  {
    hide CleanField, CellMeans, Execute, ObjectFields, PlanFollows;
    var fields := ObjectFields(host, env.catalog, plan, record, ids).value.0;
    ObjectHoldsEmissions(host, env.catalog, plan, record, ids);
    forall id | id in ids
      ensures Holds(host, env, schema, record, id, if id in fields then fields[id] else EmitOmit)
    {
      CellFollowsText(host, env, schema, global, plan, record, id);
      assert Emits(host, env.catalog, plan.fields[id], record, if id in fields then fields[id] else EmitOmit);
    }
  }

  lemma ObjectRun(host: Host, catalog: Catalog, plan: Plan, record: map<string, Value>)
    requires ValidPlan(plan) && plan.kind == JsonObject
    ensures forall id :: id in Sort(StrLe, plan.fieldIds) ==> id in plan.fields
    ensures var r, fields := Run(host, catalog, plan, record),
                             ObjectFields(host, catalog, plan, record, Sort(StrLe, plan.fieldIds));
      && (r.Some? <==> fields.Some?)
      && (r.Some? ==> r.value == Result(Object(fields.value.0), Sort(IssueLe, fields.value.1)))
  {
    SortedFieldIds(plan);
  }

  lemma ObjectFollowsText(host: Host, env: Env, schema: Schema, global: Presence, plan: Plan,
                          record: map<string, Value>)
    requires FieldsFollow(env, schema, global, plan.fields) && PlanFollows(schema, plan) && ValidPlan(plan)
    requires !schema.isRow
    ensures var ids := Sort(StrLe, plan.fieldIds);
      && Readable(env, schema, ids)
      && match Run(host, env.catalog, plan, record)
         case Some(r) => IsObject(host, env, schema, record, ids, r)
         case None => exists i :: 0 <= i < |ids| && Raises(host, env, schema, record, ids[i])
  {
    hide FieldsFollow, Run, ObjectFields, Holds, Readable, Raises, Reports, NotesOf, NotesOfCells, Sort, ValidPlan;
    var ids := Sort(StrLe, plan.fieldIds);
    ObjectRun(host, env.catalog, plan, record);
    FieldsFollowText(host, env, schema, global, plan, record, ids);
    var fields := ObjectFields(host, env.catalog, plan, record, ids);
    if fields.Some? {
      SortedIssuesReport(fields.value.1);
      ObjectHolds(host, env, schema, global, plan, record, ids);
    }
  }

  lemma SortedTwice(section: Section)
    ensures Sort(StrLe, SortedIds(section)) == SortedIds(section)
  {
    StrLeIsTotalOrder();
    SortedIdsAreKeys(section);
    SortIgnoresInputOrder(StrLe, SortedIds(section), KeyIds(SectionFields(section)));
  }

  /** A json_object section likewise, over its sorted fields. */
  lemma ObjectSchemaMeansItsText(host: Host, env: Env, section: Section, record: map<string, Value>)
    requires CleanSchema(env, section) && section.outputKind == Str("json_object")
    ensures CompileSection(env, section).Compiled? && ValidPlan(CompileSection(env, section).plan)
    ensures var schema, ids := SchemaOf(section), SortedIds(section);
      && Readable(env, schema, ids)
      && match Run(host, env.catalog, CompileSection(env, section).plan, record)
         case Some(r) => IsObject(host, env, schema, record, ids, r)
         case None => exists i :: 0 <= i < |ids| && Raises(host, env, schema, record, ids[i])
  {
    hide FieldsFollow, IsObject, Run;
    CleanSectionCompiles(env, section);
    SortedTwice(section);
    ObjectFollowsText(host, env, SchemaOf(section), GlobalPresence(section.presence).0,
                      CompileSection(env, section).plan, record);
  }

  // ---------------------------------------------------------------------
  // Sections that are out of order
  // ---------------------------------------------------------------------

  /** The field compiles to this plan, with diagnostics or without. */
  ghost predicate CompilesTo(env: Env, id: string, raw: Value, global: Presence, plan: FieldPlan) {
    raw.Obj?
    && var r := CompileField(env, id, raw.fields, "mapping.fields." + id, global); r.Field? && r.plan == plan
  }

  ghost predicate HoldPlans(env: Env, raw: map<string, Value>, ids: seq<string>, global: Presence,
                            plans: map<string, FieldPlan>)
    requires forall id :: id in ids ==> id in raw
  {
    && (forall id :: id in plans <==> id in ids && raw[id].Obj?)
    && forall id :: id in plans ==> CompilesTo(env, id, raw[id], global, plans[id])
  }

  lemma HoldOneMore(env: Env, raw: map<string, Value>, ids: seq<string>, global: Presence, before: Fields, id: string)
    requires id in raw && forall i :: i in ids ==> i in raw
    requires before.Fields? && HoldPlans(env, raw, ids, global, before.plans)
    ensures var after := MappingCompiler.AddField(env, before, id, raw[id], global);
      after.Fields? ==> HoldPlans(env, raw, ids + [id], global, after.plans)
  {
    hide CompileField;
  }

  lemma {:induction false} FieldsHoldPlans(env: Env, raw: map<string, Value>, ids: seq<string>, global: Presence)
    requires forall id :: id in ids ==> id in raw
    requires CompileFields(env, raw, ids, global).Fields?
    ensures HoldPlans(env, raw, ids, global, CompileFields(env, raw, ids, global).plans)
  {
    hide HoldPlans, CompileField, MappingCompiler.AddField;
    if ids != [] {
      var init, last := ids[..|ids| - 1], ids[|ids| - 1];
      FieldsHoldPlans(env, raw, init, global);
      HoldOneMore(env, raw, init, global, CompileFields(env, raw, init, global), last);
      assert ids == init + [last];
    } else {
      NoPlansYet(env, raw, global);
    }
  }

  lemma NoPlansYet(env: Env, raw: map<string, Value>, global: Presence)
    ensures HoldPlans(env, raw, [], global, map[])
  {
  }

  /** Also with diagnostics a section that compiles has its parts from its blocks:
      the kind, the declared order where it is a list of texts, a plan per field
      that is an object, and the tombstone settings. */
  lemma CompiledSectionFollows(env: Env, section: Section)
    requires CompileSection(env, section).Compiled?
    ensures forall id :: id in SortedIds(section) <==> id in RawFields(section)
    ensures var plan, raw := CompileSection(env, section).plan, RawFields(section);
      && (plan.kind == CsvRow <==> section.outputKind == Str("csv_row"))
      && (plan.order.Some? <==> plan.kind == CsvRow && section.outputOrder.List?
                                && forall item :: item in section.outputOrder.items ==> item.Str?)
      && (plan.order.Some? ==> plan.order.value == TextsOf(section.outputOrder))
      && HoldPlans(env, raw, SortedIds(section), GlobalPresence(section.presence).0, plan.fields)
      && (plan.tombstoneEnabled <==> GivenOr(section.deleteTombstone, "enabled", Null) == Bool(true))
      && IsNameIn(section.deleteTombstone, "flag_path", "delete", plan.tombstoneFlagPath)
      && IsNameIn(section.deleteTombstone, "id_field", "id", plan.tombstoneIdField)
  {
    hide HoldPlans, CompileFields;
    SortedIdsAreKeys(section);
    CompiledHasFields(env, section);
    SectionParts(env, section);
    FieldsHoldPlans(env, RawFields(section), SortedIds(section), GlobalPresence(section.presence).0);
    TombstoneIsReadIff(section.deleteTombstone);
    OrderIsDeclared(section.outputOrder, FieldsOf(env, section).ids);
  }

  lemma CompiledHasFields(env: Env, section: Section)
    ensures CompileSection(env, section).Compiled? <==> FieldsOf(env, section).Fields?
  {
  }

  lemma OrderIsDeclared(raw: Value, ids: seq<string>)
    ensures var order := OutputOrder(CsvRow, raw, ids).0;
      && (order.Some? <==> raw.List? && forall item :: item in raw.items ==> item.Str?)
      && (order.Some? ==> order.value == TextsOf(raw))
    ensures OutputOrder(JsonObject, raw, ids).0.None?
  {
    if ReadOrder(raw).Some? {
      assert forall i :: 0 <= i < |raw.items| ==> raw.items[i] in raw.items;
      assert ReadOrder(raw).value == TextsOf(raw);
    }
  }

  // ---------------------------------------------------------------------
  // Plans that are out of order
  // ---------------------------------------------------------------------

  /** A csv plan without an order reports so, and gives its fields in sorted order. */
  lemma MissingOrderIsReported(host: Host, catalog: Catalog, plan: Plan, record: map<string, Value>)
    returns (ids: seq<string>)
    requires ValidPlan(plan) && plan.kind == CsvRow && plan.order.None?
    requires Run(host, catalog, plan, record).Some?
    ensures multiset(ids) == multiset(plan.fieldIds) && SortedBy(StrLe, ids)
    ensures var r := Run(host, catalog, plan, record).value;
      && Note("EXEC_MAPPING_OUTPUT_ORDER_MISSING", "mapping.output_order") in NotesOf(r.issues)
      && r.output.Row? && |r.output.emissions| == |ids|
      && forall i :: 0 <= i < |ids| ==> HoldsCell(host, catalog, plan, record, ids[i], r.output.emissions[i])
  {
    ids := Sort(StrLe, plan.fieldIds);
    StrLeIsTotalOrder();
    SortIsPermutation(StrLe, plan.fieldIds);
    SortIsSorted(StrLe, plan.fieldIds);
    RowWidth(host, catalog, plan, record, ids);
    var issues := Run(host, catalog, plan, record).value.issues;
    var missing := Issue(OutputOrderMissing, "mapping.output_order");
    var cells := Cells(host, catalog, plan, record, ids).value;
    IssuesAreOrdered([missing] + DeleteIssues(host, plan, record) + cells.1);
    assert missing in multiset(issues);
    var i :| 0 <= i < |issues| && issues[i] == missing;
    assert NotesOf(issues)[i] == Note("EXEC_MAPPING_OUTPUT_ORDER_MISSING", "mapping.output_order");
  }

  /** A column without a field is omitted and reported. */
  lemma UnknownColumnIsReported(host: Host, catalog: Catalog, plan: Plan, record: map<string, Value>, id: string)
    requires id !in plan.fields
    ensures Agree(Some((EmitOmit, [Note("EXEC_MAPPING_FIELD_NOT_FOUND", "mapping.fields." + id)])),
                  Cell(host, catalog, plan, record, id))
  {
  }

  /** A call whose operation is not in the catalog ends the chain and is reported,
      unless `on_missing` settles it before. */
  lemma UnknownOpIsReported(catalog: Catalog, v: Value, call: OpCall, fieldId: string, n: nat)
    requires call.op !in catalog && (v != Missing || call.onMissing.None?)
    ensures var applied := ApplyTransform(catalog, v, call, fieldId, n);
      && applied.value == Missing && applied.stop
      && NotesOf(applied.issues)
        == [Note("EXEC_MAPPING_OP_NOT_FOUND", "mapping.fields." + fieldId + ".transforms[" + Decimal10(n) + "].op")]
  {
    assert TransformPath(fieldId, n) + ".op" == "mapping.fields." + fieldId + ".transforms[" + Decimal10(n) + "].op";
  }
}
