/** `compile_field_mapping`: one field of the mapping section. */
module FieldCompiler {
  import opened Options
  import opened Values
  import opened MappingPlan

  /** What a field is compiled against. */
  datatype Env = Env(catalog: Catalog, allowlist: set<string>)

  /** One step of the transform loop: the compiled call if there is one, the
      diagnostics, the static type after it, and whether `prepare` raised. */
  datatype Step = Step(call: Option<OpCall>, diags: seq<Diag>, current: Option<TypeId>, raised: bool)

  function Get(m: map<string, Value>, key: string): Value { if key in m then m[key] else Null }

  function Skip(code: string, path: string, current: Option<TypeId>): Step {
    Step(None, [Diag(code, path)], current, false)
  }

  function ReadOnMissing(raw: Value): Option<OnMissing> {
    if !raw.Str? then None
    else match raw.s
      case "pass" => Some(Pass)
      case "default" => Some(Default)
      case "omit" => Some(Omit)
      case "error" => Some(Error)
      case _ => None
  }

  function CompileTransform(env: Env, raw: Value, path: string, current: Option<TypeId>): Step {
    if !raw.Obj? then Skip("SCHEMA_TYPE_OP_ARGS_INVALID", path, current)
    else
      var op := Get(raw.fields, "op");
      if !op.Str? || op.s == "" then Skip("SCHEMA_LINK_OP_INVALID", path + ".op", current)
      else if op.s !in env.allowlist then Skip("SCHEMA_LINK_OP_NOT_ALLOWED", path + ".op", current)
      else if op.s !in env.catalog then Skip("SCHEMA_LINK_OP_NOT_FOUND", path + ".op", current)
      else CompileLinked(env.catalog[op.s], op.s, raw.fields, path, current)
  }

  /** The rest of the step, once the operation is found. */
  function CompileLinked(spec: OpSpec, op: string, raw: map<string, Value>, path: string,
                         current: Option<TypeId>): Step {
    var rawArgs, rawMissing := Get(raw, "args"), Get(raw, "on_missing");
    var onMissing := ReadOnMissing(rawMissing);
    var input, output := ToPlanTypeId(spec.inputType), ToPlanTypeId(spec.outputType);
    var diags :=
      (if !rawArgs.Null? && !rawArgs.Obj? then [Diag("SCHEMA_TYPE_OP_ARGS_INVALID", path + ".args")] else [])
      + (if !rawMissing.Null? && onMissing.None? then [Diag("SCHEMA_TYPE_ENUM_INVALID", path + ".on_missing")] else []);
    if input.None? && spec.inputType != "any" then
      Step(None, diags + [Diag("SCHEMA_TYPE_INVALID_TYPE_ID", path + ".op")], current, false)
    else if output.None? && spec.outputType != "any" then
      Step(None, diags + [Diag("SCHEMA_TYPE_INVALID_TYPE_ID", path + ".op")], current, false)
    else
      var mismatch := if IsTypeMismatch(current, input) then [Diag("SCHEMA_TYPE_MISMATCH", path + ".op")] else [];
      var prepared :=
        if !rawArgs.Obj? then Some(None)
        else if spec.prepare.None? then Some(Some(rawArgs.fields))
        else match spec.prepare.value(rawArgs.fields)
          case Some(enriched) => Some(Some(enriched))
          case None => None;
      if prepared.None? then Step(None, diags + mismatch, output, true)
      else Step(Some(OpCall(op, prepared.value, onMissing, input, output)), diags + mismatch, output, false)
  }

  /** The chain compiled from a list of raw transforms, up to the first raise. */
  datatype Chain = Chain(transforms: seq<OpCall>, diags: seq<Diag>, current: Option<TypeId>, raised: bool)

  function CompileChain(env: Env, raws: seq<Value>, path: string): Chain {
    if raws == [] then Chain([], [], None, false)
    else
      var n := |raws| - 1;
      var before := CompileChain(env, raws[..n], path);
      if before.raised then before
      else
        var step := CompileTransform(env, raws[n], path + ".transforms[" + Decimal10(n) + "]", before.current);
        Chain(before.transforms + (if step.call.Some? then [step.call.value] else []),
              before.diags + step.diags, step.current, step.raised)
  }

  function SourceDiags(source: Value, path: string): seq<Diag> {
    if !source.Obj? then [Diag("COMPILER_MAPPING_FIELD_INVALID", path + ".source")]
    else
      (if Get(source.fields, "path").Str? then []
       else [Diag("COMPILER_MAPPING_FIELD_INVALID", path + ".source.path")])
      + (if "required" !in source.fields || source.fields["required"].Bool? then []
         else [Diag("COMPILER_MAPPING_FIELD_INVALID", path + ".source.required")])
  }

  function ReadPresence(raw: Value): Option<Presence> {
    if !raw.Str? then None
    else match raw.s
      case "omit_missing" => Some(OmitMissing)
      case "emit_null_if_missing" => Some(EmitNullIfMissing)
      case "error_if_missing" => Some(ErrorIfMissing)
      case _ => None
  }

  /** `compile_field_presence`: the field's default if it is valid, else the global one. */
  function FieldPresence(raw: Value, global: Presence, path: string): (Presence, seq<Diag>) {
    if !raw.Obj? || "default" !in raw.fields then (global, [])
    else match ReadPresence(raw.fields["default"])
      case Some(p) => (p, [])
      case None => (global, [Diag("COMPILER_PRESENCE_DEFAULT_INVALID", path + ".presence.default")])
  }

  /** The raw transforms the loop runs over; None where `enumerate(None)` raises. */
  function RawTransforms(mapping: map<string, Value>): Option<seq<Value>> {
    if "transforms" !in mapping then Some([])
    else match mapping["transforms"]
      case Null => None
      case List(items) => Some(items)
      case _ => Some([])
  }

  function TransformsDiags(mapping: map<string, Value>, path: string): seq<Diag> {
    if "transforms" in mapping && !mapping["transforms"].Null? && !mapping["transforms"].List?
    then [Diag("SCHEMA_TYPE_OP_ARGS_INVALID", path + ".transforms")] else []
  }

  datatype Compiled = Field(plan: FieldPlan, diags: seq<Diag>) | Raised

  ghost function CompileField(env: Env, fieldId: string, mapping: map<string, Value>, path: string,
                              global: Presence): Compiled {
    var raws := RawTransforms(mapping);
    if raws.None? || CompileChain(env, raws.value, path).raised then Raised
    else
      var source := Get(mapping, "source");
      var (presence, presenceDiags) := FieldPresence(Get(mapping, "presence"), global, path);
      var chain := CompileChain(env, raws.value, path);
      Field(FieldPlan(fieldId,
                      if source.Obj? && Get(source.fields, "path").Str? then Get(source.fields, "path").s else "",
                      chain.transforms, presence, chain.current,
                      source.Obj? && Get(source.fields, "required") == Bool(true)),
            SourceDiags(source, path) + presenceDiags + TransformsDiags(mapping, path) + chain.diags)
  }

  method CompileFieldMapping(env: Env, fieldId: string, mapping: map<string, Value>, path: string, global: Presence)
    returns (r: Compiled)
    ensures r == CompileField(env, fieldId, mapping, path, global)
  {
    var source := Get(mapping, "source");
    var sourcePath, required := "", false;
    if source.Obj? {
      if Get(source.fields, "path").Str? {
        sourcePath := Get(source.fields, "path").s;
      }
      required := Get(source.fields, "required") == Bool(true);
    }
    var (presence, presenceDiags) := FieldPresence(Get(mapping, "presence"), global, path);
    var diags := SourceDiags(source, path) + presenceDiags + TransformsDiags(mapping, path);
    var raws := RawTransforms(mapping);
    if raws.None? {
      return Raised;
    }
    var transforms: seq<OpCall>, chainDiags: seq<Diag>, current: Option<TypeId> := [], [], None;
    assert raws.value[..0] == [];
    for n := 0 to |raws.value|
      invariant CompileChain(env, raws.value[..n], path) == Chain(transforms, chainDiags, current, false)
    {
      assert raws.value[..n + 1][..n] == raws.value[..n];
      var step := CompileTransform(env, raws.value[n], path + ".transforms[" + Decimal10(n) + "]", current);
      if step.call.Some? {
        transforms := transforms + [step.call.value];
      }
      chainDiags, current := chainDiags + step.diags, step.current;
      if step.raised {
        RaiseIsFinal(env, raws.value, path, n + 1);
        return Raised;
      }
    }
    assert raws.value[..|raws.value|] == raws.value;
    r := Field(FieldPlan(fieldId, sourcePath, transforms, presence, current, required), diags + chainDiags);
  }

  /** A raise in the middle of the chain ends the compilation. */
  lemma {:induction false} RaiseIsFinal(env: Env, raws: seq<Value>, path: string, n: nat)
    requires n <= |raws| && CompileChain(env, raws[..n], path).raised
    ensures CompileChain(env, raws, path).raised
  {
    if n < |raws| {
      assert raws[..|raws| - 1][..n] == raws[..n];
      RaiseIsFinal(env, raws[..|raws| - 1], path, n);
    } else {
      assert raws[..n] == raws;
    }
  }

  predicate PrepareRaises(env: Env, raw: Value) {
    raw.Obj?
    && (var op := Get(raw.fields, "op");
        && op.Str? && op.s != "" && op.s in env.allowlist && op.s in env.catalog
        && (var spec := env.catalog[op.s];
            && (ToPlanTypeId(spec.inputType).Some? || spec.inputType == "any")
            && (ToPlanTypeId(spec.outputType).Some? || spec.outputType == "any")
            && Get(raw.fields, "args").Obj? && spec.prepare.Some?
            && spec.prepare.value(Get(raw.fields, "args").fields).None?))
  }

  lemma StepRaisesIff(env: Env, raw: Value, path: string, current: Option<TypeId>)
    ensures CompileTransform(env, raw, path, current).raised <==> PrepareRaises(env, raw)
  {
  }

  ghost predicate SomePrepareRaises(env: Env, raws: seq<Value>) {
    exists n :: 0 <= n < |raws| && PrepareRaises(env, raws[n])
  }

  lemma SomeRaisesSnoc(env: Env, raws: seq<Value>)
    requires raws != []
    ensures SomePrepareRaises(env, raws)
      <==> SomePrepareRaises(env, raws[..|raws| - 1]) || PrepareRaises(env, raws[|raws| - 1])
  {
  }

  /** The transform loop raises exactly when the `prepare` of some linked
      operation does. */
  lemma {:induction false} ChainRaisesIff(env: Env, raws: seq<Value>, path: string)
    ensures CompileChain(env, raws, path).raised <==> SomePrepareRaises(env, raws)
  {
    if raws != [] {
      var n := |raws| - 1;
      ChainRaisesIff(env, raws[..n], path);
      StepRaisesIff(env, raws[n], path + ".transforms[" + Decimal10(n) + "]",
                    CompileChain(env, raws[..n], path).current);
      SomeRaisesSnoc(env, raws);
    }
  }

  /** `compile` is not exception-free: it raises exactly on `transforms: null` and
      when the `prepare` of some linked operation raises. */
  lemma CompileRaisesIff(env: Env, fieldId: string, mapping: map<string, Value>, path: string, global: Presence)
    ensures CompileField(env, fieldId, mapping, path, global).Raised?
      <==> RawTransforms(mapping).None? || SomePrepareRaises(env, RawTransforms(mapping).value)
  {
    if RawTransforms(mapping).Some? {
      ChainRaisesIff(env, RawTransforms(mapping).value, path);
    }
  }

  /** So a field that says `transforms: null` cannot be compiled at all. */
  lemma NullTransformsRaise(env: Env, fieldId: string, path: string, global: Presence)
    ensures CompileField(env, fieldId, map["transforms" := Null], path, global).Raised?
    ensures CompileField(env, fieldId, map[], path, global).Field?
  {
  }

  // ---------------------------------------------------------------------
  // What a compiled chain guarantees
  // ---------------------------------------------------------------------

  /** Every call links to the catalog under its declared types. */
  ghost predicate Linked(catalog: Catalog, transforms: seq<OpCall>) {
    forall k :: 0 <= k < |transforms| ==>
      && transforms[k].op in catalog
      && transforms[k].inputType == ToPlanTypeId(catalog[transforms[k].op].inputType)
      && transforms[k].outputType == ToPlanTypeId(catalog[transforms[k].op].outputType)
  }

  /** Neighbours agree wherever both types are known. */
  ghost predicate WellTyped(transforms: seq<OpCall>) {
    forall j, k :: 0 <= j && k == j + 1 && k < |transforms|
      ==> !IsTypeMismatch(transforms[j].outputType, transforms[k].inputType)
  }

  function LastType(transforms: seq<OpCall>): Option<TypeId> {
    if transforms == [] then None else transforms[|transforms| - 1].outputType
  }

  /** A chain always links; without diagnostics it has one call per raw
      transform, neighbours agree, and the inferred type is the last output type. */
  lemma {:induction false} CompiledChainIsLinked(env: Env, raws: seq<Value>, path: string)
    requires !CompileChain(env, raws, path).raised
    ensures var chain := CompileChain(env, raws, path);
      && Linked(env.catalog, chain.transforms)
      && chain.current == LastType(chain.transforms)
      && (chain.diags == [] ==> |chain.transforms| == |raws| && WellTyped(chain.transforms))
  {
    if raws != [] {
      var n := |raws| - 1;
      CompiledChainIsLinked(env, raws[..n], path);
      StepIsLinked(env, raws[n], path + ".transforms[" + Decimal10(n) + "]",
                   CompileChain(env, raws[..n], path).current);
    }
  }

  /** One step either adds a linked call and moves to its output type, or reports
      a diagnostic and stays. */
  lemma StepIsLinked(env: Env, raw: Value, path: string, current: Option<TypeId>)
    requires !CompileTransform(env, raw, path, current).raised
    ensures var step := CompileTransform(env, raw, path, current);
      && (step.call.Some? ==> Linked(env.catalog, [step.call.value]) && step.current == step.call.value.outputType)
      && (step.call.None? ==> step.diags != [] && step.current == current)
      && (step.diags == [] ==> !IsTypeMismatch(current, step.call.value.inputType))
  {
  }

  /** In particular for the plan of a field that compiles cleanly. */
  lemma CompiledFieldIsWellTyped(env: Env, fieldId: string, mapping: map<string, Value>, path: string, global: Presence)
    requires CompileField(env, fieldId, mapping, path, global).Field?
    ensures var r := CompileField(env, fieldId, mapping, path, global);
      && Linked(env.catalog, r.plan.transforms)
      && r.plan.finalType == LastType(r.plan.transforms)
      && (r.diags == [] ==> WellTyped(r.plan.transforms))
  {
    CompiledChainIsLinked(env, RawTransforms(mapping).value, path);
  }

  // ---------------------------------------------------------------------
  // When a chain compiles cleanly
  // ---------------------------------------------------------------------

  /** The operation of a raw transform: a non-empty text. */
  ghost predicate NamesOp(raw: Value, op: string) {
    raw.Obj? && "op" in raw.fields && raw.fields["op"] == Str(op) && op != ""
  }

  ghost predicate NamesLinked(env: Env, raw: Value, op: string) {
    NamesOp(raw, op) && op in env.allowlist && op in env.catalog
  }

  ghost predicate KnownTypes(env: Env, op: string)
    requires op in env.catalog
  {
    SupportedType(env.catalog[op].inputType) && SupportedType(env.catalog[op].outputType)
  }

  /** Why a transform, met with this static type, has a diagnostic of this code at
      this place below its path. */
  ghost predicate Complains(env: Env, raw: Value, current: Option<TypeId>, code: string, at: string) {
    || (code == "SCHEMA_TYPE_OP_ARGS_INVALID" && at == "" && !raw.Obj?)
    || (code == "SCHEMA_LINK_OP_INVALID" && at == ".op" && raw.Obj? && forall op :: !NamesOp(raw, op))
    || (code == "SCHEMA_LINK_OP_NOT_ALLOWED" && at == ".op"
        && exists op :: NamesOp(raw, op) && op !in env.allowlist)
    || (code == "SCHEMA_LINK_OP_NOT_FOUND" && at == ".op"
        && exists op :: NamesOp(raw, op) && op in env.allowlist && op !in env.catalog)
    || exists op :: NamesLinked(env, raw, op) && LinkedComplains(env, raw, op, current, code, at)
  }

  /** The same once its operation is found. */
  ghost predicate LinkedComplains(env: Env, raw: Value, op: string, current: Option<TypeId>, code: string, at: string)
    requires NamesLinked(env, raw, op)
  {
    || (code == "SCHEMA_TYPE_OP_ARGS_INVALID" && at == ".args"
        && "args" in raw.fields && !raw.fields["args"].Null? && !raw.fields["args"].Obj?)
    || (code == "SCHEMA_TYPE_ENUM_INVALID" && at == ".on_missing"
        && "on_missing" in raw.fields
        && raw.fields["on_missing"] !in {Null, Str("pass"), Str("default"), Str("omit"), Str("error")})
    || (code == "SCHEMA_TYPE_INVALID_TYPE_ID" && at == ".op" && !KnownTypes(env, op))
    || (code == "SCHEMA_TYPE_MISMATCH" && at == ".op" && KnownTypes(env, op)
        && current.Some? && ToPlanTypeId(env.catalog[op].inputType) !in {None, current})
  }

  lemma LinkedTransformComplains(env: Env, raw: Value, op: string, path: string, current: Option<TypeId>, code: string,
                                 at: string)
    requires NamesLinked(env, raw, op)
    ensures Diag(code, path + at) in CompileLinked(env.catalog[op], op, raw.fields, path, current).diags
      <==> LinkedComplains(env, raw, op, current, code, at)
  {
    SuffixIsUnique(path, at, ".args");
    SuffixIsUnique(path, at, ".on_missing");
    SuffixIsUnique(path, at, ".op");
  }

  /** The diagnostics of a transform are exactly the ones it has given cause for. */
  lemma TransformComplains(env: Env, raw: Value, path: string, current: Option<TypeId>, code: string, at: string)
    ensures Diag(code, path + at) in CompileTransform(env, raw, path, current).diags
      <==> Complains(env, raw, current, code, at)
  {
    hide CompileLinked, LinkedComplains;
    SuffixIsUnique(path, at, ".op");
    SuffixIsUnique(path, at, "");
    assert path + "" == path;
    if exists op :: NamesOp(raw, op) {
      var op :| NamesOp(raw, op);
      assert Get(raw.fields, "op") == Str(op);
      assert forall x :: NamesOp(raw, x) <==> x == op;
      assert forall x :: NamesLinked(env, raw, x) ==> x == op;
      if NamesLinked(env, raw, op) {
        LinkedTransformComplains(env, raw, op, path, current, code, at);
      }
    } else if raw.Obj? && Get(raw.fields, "op").Str? {
      assert !NamesOp(raw, Get(raw.fields, "op").s);
    }
  }

  /** The diagnostics of a chain are those of its transforms, each met with the
      static type that the calls compiled before it leave. */
  lemma {:induction false} ChainComplains(env: Env, raws: seq<Value>, path: string, d: Diag)
    requires !CompileChain(env, raws, path).raised
    ensures d in CompileChain(env, raws, path).diags <==> exists n: nat :: ComplainsAt(env, raws, path, d, n)
  {
    hide ComplainsAt, CompileTransform;
    if raws == [] {
      NothingComplains(env, path, d);
    } else {
      var init := raws[..|raws| - 1];
      ChainComplains(env, init, path, d);
      LastComplains(env, raws, path, d);
      forall n: nat
        ensures ComplainsAt(env, raws, path, d, n)
          <==> ComplainsAt(env, init, path, d, n) || (n == |init| && ComplainsAt(env, raws, path, d, |init|))
      {
        EarlierComplains(env, raws, path, d, n);
      }
    }
  }

  lemma NothingComplains(env: Env, path: string, d: Diag)
    ensures forall n: nat :: !ComplainsAt(env, [], path, d, n)
  {
  }

  lemma EarlierComplains(env: Env, raws: seq<Value>, path: string, d: Diag, n: nat)
    requires raws != []
    ensures n < |raws| - 1 ==>
      (ComplainsAt(env, raws, path, d, n) <==> ComplainsAt(env, raws[..|raws| - 1], path, d, n))
    ensures n >= |raws| - 1 ==> !ComplainsAt(env, raws[..|raws| - 1], path, d, n)
    ensures n > |raws| - 1 ==> !ComplainsAt(env, raws, path, d, n)
  {
    hide CompileTransform, CompileChain;
    if n < |raws| - 1 { assert raws[..|raws| - 1][..n] == raws[..n]; }
  }

  lemma LastComplains(env: Env, raws: seq<Value>, path: string, d: Diag)
    requires raws != [] && !CompileChain(env, raws, path).raised
    ensures var init := raws[..|raws| - 1];
      && !CompileChain(env, init, path).raised
      && (d in CompileChain(env, raws, path).diags
          <==> d in CompileChain(env, init, path).diags || ComplainsAt(env, raws, path, d, |raws| - 1))
  {
    hide CompileTransform;
    CompiledChainIsLinked(env, raws[..|raws| - 1], path);
  }

  ghost predicate ComplainsAt(env: Env, raws: seq<Value>, path: string, d: Diag, n: nat) {
    n < |raws|
    && var before := LastType(CompileChain(env, raws[..n], path).transforms);
       d in CompileTransform(env, raws[n], path + ".transforms[" + Decimal10(n) + "]", before).diags
  }

  /** Why the source and presence blocks, and `transforms` as a whole, have one. */
  ghost predicate BlocksComplain(mapping: map<string, Value>, code: string, at: string) {
    var source, presence := Get(mapping, "source"), Get(mapping, "presence");
    || (code == "COMPILER_MAPPING_FIELD_INVALID" && at == ".source" && !source.Obj?)
    || (code == "COMPILER_MAPPING_FIELD_INVALID" && at == ".source.path"
        && source.Obj? && forall p :: !Says(mapping, "source", "path", Str(p)))
    || (code == "COMPILER_MAPPING_FIELD_INVALID" && at == ".source.required"
        && source.Obj? && "required" in source.fields && !source.fields["required"].Bool?)
    || (code == "COMPILER_PRESENCE_DEFAULT_INVALID" && at == ".presence.default"
        && !ValidPresence(presence))
    || (code == "SCHEMA_TYPE_OP_ARGS_INVALID" && at == ".transforms"
        && "transforms" in mapping && !mapping["transforms"].Null? && !mapping["transforms"].List?)
  }

  lemma BlockComplains(mapping: map<string, Value>, global: Presence, path: string, code: string, at: string)
    ensures Diag(code, path + at)
      in SourceDiags(Get(mapping, "source"), path) + FieldPresence(Get(mapping, "presence"), global, path).1
         + TransformsDiags(mapping, path)
      <==> BlocksComplain(mapping, code, at)
  {
    hide FieldPresence, SourceDiags;
    SourceComplains(mapping, path, code, at);
    PresenceComplains(Get(mapping, "presence"), global, path, code, at);
    SuffixIsUnique(path, at, ".transforms");
  }

  lemma SourceComplains(mapping: map<string, Value>, path: string, code: string, at: string)
    ensures var source := Get(mapping, "source");
      Diag(code, path + at) in SourceDiags(source, path) <==>
        code == "COMPILER_MAPPING_FIELD_INVALID"
        && (|| (at == ".source" && !source.Obj?)
            || (at == ".source.path" && source.Obj? && forall p :: !Says(mapping, "source", "path", Str(p)))
            || (at == ".source.required"
                && source.Obj? && "required" in source.fields && !source.fields["required"].Bool?))
  {
    SuffixIsUnique(path, at, ".source");
    SuffixIsUnique(path, at, ".source.path");
    SuffixIsUnique(path, at, ".source.required");
    var source := Get(mapping, "source");
    if source.Obj? && Get(source.fields, "path").Str? {
      assert Says(mapping, "source", "path", Str(Get(source.fields, "path").s));
    }
  }

  lemma PresenceComplains(presence: Value, global: Presence, path: string, code: string, at: string)
    ensures Diag(code, path + at) in FieldPresence(presence, global, path).1 <==>
      (code == "COMPILER_PRESENCE_DEFAULT_INVALID" && at == ".presence.default" && !ValidPresence(presence))
  {
    SuffixIsUnique(path, at, ".presence.default");
  }

  /** The diagnostics of a field: what its blocks give cause for, then what its
      transforms do. */
  lemma FieldComplains(env: Env, fieldId: string, mapping: map<string, Value>, path: string, global: Presence, d: Diag)
    requires CompileField(env, fieldId, mapping, path, global).Field?
    ensures d in CompileField(env, fieldId, mapping, path, global).diags <==>
      (|| (exists at :: d.path == path + at && BlocksComplain(mapping, d.code, at))
       || exists n: nat :: ComplainsAt(env, RawTransforms(mapping).value, path, d, n))
  {
    ChainComplains(env, RawTransforms(mapping).value, path, d);
    BlockPathsAreBelow(mapping, global, path, d);
  }

  lemma BlockPathsAreBelow(mapping: map<string, Value>, global: Presence, path: string, d: Diag)
    ensures d in SourceDiags(Get(mapping, "source"), path) + FieldPresence(Get(mapping, "presence"), global, path).1
                 + TransformsDiags(mapping, path)
      <==> exists at :: d.path == path + at && BlocksComplain(mapping, d.code, at)
  {
    var diags := SourceDiags(Get(mapping, "source"), path) + FieldPresence(Get(mapping, "presence"), global, path).1
                 + TransformsDiags(mapping, path);
    forall at { BlockComplains(mapping, global, path, d.code, at); }
    if d in diags {
      assert path <= d.path;
      var at := d.path[|path|..];
      assert d.path == path + at && d == Diag(d.code, path + at);
    }
  }

  /** The raw transform on its own is in order. */
  ghost predicate ValidTransform(env: Env, raw: Value) {
    && raw.Obj?
    && "op" in raw.fields && raw.fields["op"].Str? && raw.fields["op"].s != ""
    && raw.fields["op"].s in env.allowlist && raw.fields["op"].s in env.catalog
    && ("args" in raw.fields ==> raw.fields["args"].Null? || raw.fields["args"].Obj?)
    && ("on_missing" in raw.fields ==>
          raw.fields["on_missing"] in {Null, Str("pass"), Str("default"), Str("omit"), Str("error")})
    && SupportedType(SpecOf(env, raw).inputType) && SupportedType(SpecOf(env, raw).outputType)
  }

  ghost predicate SupportedType(raw: string) { raw == "any" || ToPlanTypeId(raw).Some? }

  ghost function SpecOf(env: Env, raw: Value): OpSpec
    requires raw.Obj? && "op" in raw.fields && raw.fields["op"].Str? && raw.fields["op"].s in env.catalog
  { env.catalog[raw.fields["op"].s] }

  /** The output of one raw transform can feed the next. */
  ghost predicate Feeds(env: Env, from: Value, to: Value) {
    ValidTransform(env, from) && ValidTransform(env, to)
    && var output, input := ToPlanTypeId(SpecOf(env, from).outputType), ToPlanTypeId(SpecOf(env, to).inputType);
       output == input || output.None? || input.None?
  }

  ghost predicate CleanChain(env: Env, raws: seq<Value>) {
    && (forall n :: 0 <= n < |raws| ==> ValidTransform(env, raws[n]))
    && (forall j, k :: 0 <= j && k == j + 1 && k < |raws| ==> Feeds(env, raws[j], raws[k]))
  }

  ghost predicate ValidAfter(env: Env, current: Option<TypeId>, raw: Value) {
    ValidTransform(env, raw) && !IsTypeMismatch(current, ToPlanTypeId(SpecOf(env, raw).inputType))
  }

  /** One step adds no diagnostic exactly when its transform is valid and its
      input type does not clash with the static type reached. */
  lemma StepIsCleanIff(env: Env, raw: Value, path: string, current: Option<TypeId>)
    requires !CompileTransform(env, raw, path, current).raised
    ensures var step := CompileTransform(env, raw, path, current);
      && (step.diags == [] <==> ValidAfter(env, current, raw))
      && (step.diags == [] ==> step.current == ToPlanTypeId(SpecOf(env, raw).outputType))
  {
  }

  /** Exactly the clean chains compile without diagnostics. */
  lemma {:induction false} ChainCompilesCleanlyIff(env: Env, raws: seq<Value>, path: string)
    requires !CompileChain(env, raws, path).raised
    ensures var chain := CompileChain(env, raws, path);
      && (chain.diags == [] <==> CleanChain(env, raws))
      && (chain.diags == [] && raws != [] ==>
            chain.current == ToPlanTypeId(SpecOf(env, raws[|raws| - 1]).outputType))
  {
    if raws != [] {
      var n := |raws| - 1;
      var init := raws[..n];
      var before := CompileChain(env, init, path);
      ChainCompilesCleanlyIff(env, init, path);
      StepIsCleanIff(env, raws[n], path + ".transforms[" + Decimal10(n) + "]", before.current);
      CleanChainSnoc(env, init, raws[n]);
      assert raws == init + [raws[n]];
    }
  }

  lemma CleanChainSnoc(env: Env, init: seq<Value>, raw: Value)
    ensures CleanChain(env, init + [raw]) <==>
      CleanChain(env, init) && ValidTransform(env, raw) && (init != [] ==> Feeds(env, init[|init| - 1], raw))
  {
    var raws := init + [raw];
    forall n | 0 <= n < |init| ensures raws[n] == init[n] {}
    assert raws[|init|] == raw;
    if CleanChain(env, raws) {
      forall n | 0 <= n < |init| ensures ValidTransform(env, init[n]) { assert ValidTransform(env, raws[n]); }
      forall j, k | 0 <= j && k == j + 1 && k < |init| ensures Feeds(env, init[j], init[k]) {
        assert Feeds(env, raws[j], raws[k]);
      }
      assert init != [] ==> Feeds(env, raws[|init| - 1], raws[|init|]);
    }
  }

  /** The source block names a path, and flags `required` with a boolean if at all. */
  ghost predicate ValidSource(source: Value) {
    && source.Obj? && "path" in source.fields && source.fields["path"].Str?
    && ("required" in source.fields ==> source.fields["required"].Bool?)
  }

  ghost predicate ValidPresence(presence: Value) {
    presence.Obj? && "default" in presence.fields ==>
      presence.fields["default"] in {Str("omit_missing"), Str("emit_null_if_missing"), Str("error_if_missing")}
  }

  /** A field compiles without diagnostics exactly when its source and presence
      blocks are valid and its transforms are a clean chain. */
  lemma FieldCompilesCleanlyIff(env: Env, fieldId: string, mapping: map<string, Value>, path: string, global: Presence)
    requires CompileField(env, fieldId, mapping, path, global).Field?
    ensures CompileField(env, fieldId, mapping, path, global).diags == [] <==>
      (ValidSource(Get(mapping, "source")) && ValidPresence(Get(mapping, "presence"))
       && ("transforms" in mapping ==> mapping["transforms"].List?)
       && CleanChain(env, RawTransforms(mapping).value))
  {
    ChainCompilesCleanlyIff(env, RawTransforms(mapping).value, path);
    SourceIsCleanIff(Get(mapping, "source"), path);
    PresenceIsCleanIff(Get(mapping, "presence"), global, path);
  }

  lemma SourceIsCleanIff(source: Value, path: string)
    ensures SourceDiags(source, path) == [] <==> ValidSource(source)
  {
  }

  lemma PresenceIsCleanIff(presence: Value, global: Presence, path: string)
    ensures FieldPresence(presence, global, path).1 == [] <==> ValidPresence(presence)
  {
  }

  /** How the schema writes an `on_missing` behaviour ... */
  ghost function OnMissingText(mode: OnMissing): string {
    match mode case Pass => "pass" case Default => "default" case Omit => "omit" case Error => "error"
  }

  /** ... and a presence mode. */
  ghost function PresenceText(mode: Presence): string {
    match mode
    case OmitMissing => "omit_missing"
    case EmitNullIfMissing => "emit_null_if_missing"
    case ErrorIfMissing => "error_if_missing"
  }

  /** Whatever diagnostics it has, a compiled field reads the path its source
      block names, is required when that block says so, and has the presence mode
      its presence block names; the section's where it names none of the three. */
  lemma PlanFollowsItsBlocks(env: Env, fieldId: string, mapping: map<string, Value>, path: string, global: Presence)
    requires CompileField(env, fieldId, mapping, path, global).Field?
    ensures var plan := CompileField(env, fieldId, mapping, path, global).plan;
      && plan.fieldId == fieldId
      && (forall p :: Says(mapping, "source", "path", Str(p)) ==> plan.sourcePath == p)
      && ((forall p :: !Says(mapping, "source", "path", Str(p))) ==> plan.sourcePath == "")
      && (plan.requiredSource <==> Says(mapping, "source", "required", Bool(true)))
      && (forall mode :: Says(mapping, "presence", "default", Str(PresenceText(mode))) ==> plan.presence == mode)
      && ((forall mode :: !Says(mapping, "presence", "default", Str(PresenceText(mode)))) ==> plan.presence == global)
  {
    var plan, source := CompileField(env, fieldId, mapping, path, global).plan, Get(mapping, "source");
    if plan.sourcePath != "" { assert Says(mapping, "source", "path", Str(plan.sourcePath)); }
    if plan.presence != global { assert Says(mapping, "presence", "default", Str(PresenceText(plan.presence))); }
  }

  /** c is what the raw transform says: its operation, its on_missing, and its
      arguments, enriched by `prepare` where the operation has one. */
  ghost predicate Transcribes(env: Env, raw: Value, c: OpCall)
    requires ValidTransform(env, raw)
  {
    && c.op == raw.fields["op"].s
    && (c.onMissing.None? <==> "on_missing" !in raw.fields || raw.fields["on_missing"].Null?)
    && (c.onMissing.Some? ==> raw.fields["on_missing"] == Str(OnMissingText(c.onMissing.value)))
    && (c.args.Some? <==> "args" in raw.fields && raw.fields["args"].Obj?)
    && (c.args.Some? ==>
          var prepare := SpecOf(env, raw).prepare;
          if prepare.None? then c.args.value == raw.fields["args"].fields
          else prepare.value(raw.fields["args"].fields) == Some(c.args.value))
  }

  /** The last transform of a clean chain becomes its last call. */
  lemma LastIsTranscribed(env: Env, init: seq<Value>, raw: Value, path: string)
    requires !CompileChain(env, init + [raw], path).raised && CleanChain(env, init + [raw])
    ensures CleanChain(env, init) && !CompileChain(env, init, path).raised && ValidTransform(env, raw)
    ensures var calls := CompileChain(env, init, path).transforms;
      var more := CompileChain(env, init + [raw], path).transforms;
      |more| == |calls| + 1 && more[..|calls|] == calls && Transcribes(env, raw, more[|calls|])
  {
    assert (init + [raw])[..|init|] == init;
    CleanChainSnoc(env, init, raw);
    StepTranscribes(env, raw, path + ".transforms[" + Decimal10(|init|) + "]", CompileChain(env, init, path).current);
  }

  /** A clean chain is compiled call for call. */
  lemma {:induction false} CleanChainIsTranscribed(env: Env, raws: seq<Value>, path: string, n: nat)
    requires !CompileChain(env, raws, path).raised && CleanChain(env, raws)
    requires n < |raws|
    ensures |CompileChain(env, raws, path).transforms| == |raws|
    ensures Transcribes(env, raws[n], CompileChain(env, raws, path).transforms[n])
  {
    hide Transcribes, ValidTransform, CompileTransform;
    var init, last := raws[..|raws| - 1], raws[|raws| - 1];
    assert raws == init + [last];
    LastIsTranscribed(env, init, last, path);
    if init == [] {
      assert CompileChain(env, [], path).transforms == [];
    } else {
      CleanChainIsTranscribed(env, init, path, if n < |init| then n else 0);
    }
  }

  /** The default a raw transform asks for, if it asks for one. */
  ghost predicate AsksForDefault(raw: Value) {
    && raw.Obj? && "on_missing" in raw.fields && raw.fields["on_missing"] == Str("default")
    && "args" in raw.fields && raw.fields["args"].Obj? && "default" in raw.fields["args"].fields
  }

  /** `prepare` leaves `args.default` as it is. */
  ghost predicate KeepsDefault(spec: OpSpec) {
    spec.prepare.Some? ==>
      forall args {:trigger spec.prepare.value(args)} :: spec.prepare.value(args).Some? ==>
        var prepared := spec.prepare.value(args).value;
        ("default" in prepared <==> "default" in args)
        && ("default" in args ==> prepared["default"] == args["default"])
  }

  lemma StepTranscribes(env: Env, raw: Value, path: string, current: Option<TypeId>)
    requires ValidTransform(env, raw) && !CompileTransform(env, raw, path, current).raised
    ensures var step := CompileTransform(env, raw, path, current);
      step.call.Some? && Transcribes(env, raw, step.call.value)
  {
  }
}
