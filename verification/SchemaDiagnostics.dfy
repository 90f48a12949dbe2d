/** Every diagnostic of a mapping section has its cause, and every cause its
    diagnostic. */
module SchemaDiagnostics {
  import opened Options
  import opened PyDict
  import opened Values
  import opened MappingPlan
  import opened FieldCompiler
  import opened MappingCompiler
  import opened SchemaMeaning

  // ---------------------------------------------------------------------
  // The output order
  // ---------------------------------------------------------------------

  /** The n-th declared id is unknown, or a repetition. */
  ghost predicate OrderComplainsAt(order: seq<string>, ids: seq<string>, d: Diag, n: nat) {
    && n < |order| && d.path == "mapping.output_order[" + Decimal10(n) + "]"
    && (|| (d.code == "COMPILER_FIELD_UNDEFINED" && order[n] !in ids)
        || (d.code == "COMPILER_MAPPING_OUTPUT_ORDER_INVALID" && exists m :: 0 <= m < n && order[m] == order[n]))
  }

  lemma {:induction false} OrderComplains(order: seq<string>, ids: seq<string>, known: set<string>, d: Diag)
    requires forall id :: id in known <==> id in ids
    ensures d in OrderDiags(order, known) <==> exists n: nat :: OrderComplainsAt(order, ids, d, n)
  {
    hide OrderComplainsAt;
    if order == [] {
      NoOrderComplains(ids, d);
    } else {
      var init := order[..|order| - 1];
      OrderComplains(init, ids, known, d);
      LastOrderComplains(order, ids, known, d);
      forall n: nat
        ensures OrderComplainsAt(order, ids, d, n)
          <==> OrderComplainsAt(init, ids, d, n) || (n == |init| && OrderComplainsAt(order, ids, d, |init|))
      {
        EarlierOrderComplains(order, ids, d, n);
      }
    }
  }

  lemma NoOrderComplains(ids: seq<string>, d: Diag)
    ensures forall n: nat :: !OrderComplainsAt([], ids, d, n)
  {
  }

  lemma EarlierOrderComplains(order: seq<string>, ids: seq<string>, d: Diag, n: nat)
    requires order != []
    ensures n < |order| - 1 ==>
      (OrderComplainsAt(order, ids, d, n) <==> OrderComplainsAt(order[..|order| - 1], ids, d, n))
    ensures n >= |order| - 1 ==> !OrderComplainsAt(order[..|order| - 1], ids, d, n)
    ensures n > |order| - 1 ==> !OrderComplainsAt(order, ids, d, n)
  {
    if n < |order| - 1 { assert forall k :: 0 <= k <= n ==> order[..|order| - 1][k] == order[k]; }
  }

  lemma LastOrderComplains(order: seq<string>, ids: seq<string>, known: set<string>, d: Diag)
    requires order != [] && forall id :: id in known <==> id in ids
    ensures var n := |order| - 1;
      d in OrderDiags(order, known) <==> d in OrderDiags(order[..n], known) || OrderComplainsAt(order, ids, d, n)
  {
    var n := |order| - 1;
    assert order[n] in order[..n] <==> exists m :: 0 <= m < n && order[m] == order[n];
  }

  lemma {:induction false} MissingComplains(ids: seq<string>, order: seq<string>, d: Diag)
    ensures d in MissingDiags(ids, order) <==>
      exists id :: id in ids && id !in order
        && d == Diag("COMPILER_MAPPING_OUTPUT_ORDER_INVALID", "mapping.fields." + id)
  {
    if ids != [] {
      var init, last := ids[..|ids| - 1], ids[|ids| - 1];
      MissingComplains(init, order, d);
      assert ids == init + [last];
    }
  }

  /** Why the order of a csv_row has this diagnostic: it is no list of texts, it
      has an unknown or repeated id, or a known one is missing. */
  ghost predicate OrderHasCause(raw: Value, ids: seq<string>, d: Diag) {
    if raw.List? && forall i :: 0 <= i < |raw.items| ==> raw.items[i].Str? then
      || (exists n: nat :: OrderComplainsAt(TextsOf(raw), ids, d, n))
      || (exists id :: id in ids && Str(id) !in raw.items
            && d == Diag("COMPILER_MAPPING_OUTPUT_ORDER_INVALID", "mapping.fields." + id))
    else d == Diag("COMPILER_MAPPING_OUTPUT_ORDER_INVALID", "mapping.output_order")
  }

  lemma OrderHasCauseIff(raw: Value, ids: seq<string>, d: Diag)
    ensures d in OutputOrder(CsvRow, raw, ids).1 <==> OrderHasCause(raw, ids, d)
  {
    if raw.List? && forall i :: 0 <= i < |raw.items| ==> raw.items[i].Str? {
      var order := TextsOf(raw);
      assert forall item :: item in raw.items ==> item.Str?;
      assert ReadOrder(raw).value == order;
      OrderComplains(order, ids, (set id | id in ids), d);
      MissingComplains(ids, order, d);
      forall id ensures id in order <==> Str(id) in raw.items {
        if id in order {
          var i :| 0 <= i < |order| && order[i] == id;
          assert raw.items[i] == Str(id);
        }
        if Str(id) in raw.items {
          var i :| 0 <= i < |raw.items| && raw.items[i] == Str(id);
          assert order[i] == id;
        }
      }
    } else if raw.List? {
      var i :| 0 <= i < |raw.items| && !raw.items[i].Str?;
      assert raw.items[i] in raw.items;
    }
  }

  // ---------------------------------------------------------------------
  // The fields
  // ---------------------------------------------------------------------

  /** The entry is no object, or its field has the diagnostic. */
  ghost predicate EntryComplains(env: Env, id: string, raw: Value, global: Presence, d: Diag) {
    if !raw.Obj? then d == Diag("COMPILER_MAPPING_FIELD_INVALID", "mapping.fields." + id)
    else
      var r := CompileField(env, id, raw.fields, "mapping.fields." + id, global);
      r.Field? && d in r.diags
  }

  lemma {:induction false} FieldsComplain(env: Env, raw: map<string, Value>, ids: seq<string>, global: Presence,
                                          d: Diag)
    requires forall id :: id in ids ==> id in raw
    requires CompileFields(env, raw, ids, global).Fields?
    ensures d in CompileFields(env, raw, ids, global).diags
      <==> exists id :: id in ids && EntryComplains(env, id, raw[id], global, d)
    ensures forall id :: id in CompileFields(env, raw, ids, global).ids <==> id in ids && raw[id].Obj?
  {
    hide EntryComplains, AddField;
    if ids != [] {
      var init, last := ids[..|ids| - 1], ids[|ids| - 1];
      FieldsComplain(env, raw, init, global, d);
      LastFieldComplains(env, CompileFields(env, raw, init, global), last, raw[last], global, d);
      assert ids == init + [last];
    }
  }

  lemma LastFieldComplains(env: Env, before: Fields, id: string, raw: Value, global: Presence, d: Diag)
    requires before.Fields? && AddField(env, before, id, raw, global).Fields?
    ensures var after := AddField(env, before, id, raw, global);
      && (d in after.diags <==> d in before.diags || EntryComplains(env, id, raw, global, d))
      && (forall x :: x in after.ids <==> x in before.ids || (x == id && raw.Obj?))
  {
  }

  // ---------------------------------------------------------------------
  // The whole section
  // ---------------------------------------------------------------------

  /** Why the tombstone block has this diagnostic. */
  ghost predicate TombstoneHasCause(raw: Value, d: Diag) {
    d.code == "COMPILER_MAPPING_DELETE_TOMBSTONE_INVALID"
    && if !raw.Obj? then raw != Null && d.path == "mapping.delete_tombstone"
       else
         || (d.path == "mapping.delete_tombstone.enabled" && "enabled" in raw.fields && !raw.fields["enabled"].Bool?)
         || exists key :: key in {"flag_path", "id_field"} && d.path == "mapping.delete_tombstone." + key
              && key in raw.fields && (!raw.fields[key].Str? || raw.fields[key] == Str(""))
  }

  lemma TombstoneHasCauseIff(raw: Value, d: Diag)
    ensures d in ReadTombstone(raw).1 <==> TombstoneHasCause(raw, d)
  {
  }

  /** Why the section as a whole has this diagnostic, its fields aside. */
  ghost predicate SectionHasCause(section: Section, ids: seq<string>, d: Diag) {
    || (d == Diag("COMPILER_PRESENCE_DEFAULT_INVALID", "mapping.presence.default") && !ValidGlobal(section.presence))
    || (d == Diag("COMPILER_MAPPING_OUTPUT_KIND_INVALID", "mapping.output_kind")
        && section.outputKind !in {Str("csv_row"), Str("json_object")})
    || (d == Diag("COMPILER_MAPPING_FIELDS_INVALID", "mapping.fields") && section.fields.None?)
    || (section.outputKind == Str("csv_row") && OrderHasCause(section.outputOrder, ids, d))
    || TombstoneHasCause(section.deleteTombstone, d)
  }

  /** The diagnostics are those of the parts. */
  lemma SectionDiags(env: Env, section: Section, d: Diag)
    requires CompileSection(env, section).Compiled?
    ensures FieldsOf(env, section).Fields?
    ensures var kind := ReadKind(section.outputKind).0;
      d in CompileSection(env, section).diags <==>
        (|| d in GlobalPresence(section.presence).1 || d in ReadKind(section.outputKind).1
         || (section.fields.None? && d == Diag("COMPILER_MAPPING_FIELDS_INVALID", "mapping.fields"))
         || d in FieldsOf(env, section).diags
         || d in OutputOrder(kind, section.outputOrder, FieldsOf(env, section).ids).1
         || d in ReadTombstone(section.deleteTombstone).1)
  {
  }

  /** A section that compiles has exactly the diagnostics it gives cause for: as a
      whole, or in one of its fields. */
  lemma SectionComplains(env: Env, section: Section, d: Diag) returns (ids: seq<string>)
    requires CompileSection(env, section).Compiled?
    ensures forall id :: id in ids <==> id in RawFields(section) && RawFields(section)[id].Obj?
    ensures d in CompileSection(env, section).diags <==>
      (|| SectionHasCause(section, ids, d)
       || exists id :: id in RawFields(section)
            && EntryComplains(env, id, RawFields(section)[id], GlobalPresence(section.presence).0, d))
  {
    hide CompileSection, CompileFields, EntryComplains, OutputOrder, ReadTombstone, OrderHasCause, TombstoneHasCause;
    var global := GlobalPresence(section.presence).0;
    SectionDiags(env, section, d);
    ids := FieldsOf(env, section).ids;
    SortedIdsAreKeys(section);
    FieldsComplain(env, RawFields(section), SortedIds(section), global, d);
    OrderHasCauseIff(section.outputOrder, ids, d);
    TombstoneHasCauseIff(section.deleteTombstone, d);
    NoOrderForObjects(section.outputOrder, ids);
  }

  lemma NoOrderForObjects(raw: Value, ids: seq<string>)
    ensures OutputOrder(JsonObject, raw, ids).1 == []
  {
  }
}
