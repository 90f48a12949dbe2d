/** Built-in mapping operations, and that they keep the signatures they declare. */
module Builtins {
  import opened Options
  import opened Values
  import opened MappingPlan
  import opened FieldCompiler
  import opened TypeSoundness
  import opened TaxCode

  function Spec(input: string, output: string, call: (Value, Args) -> Option<Value>): OpSpec {
    OpSpec(input, output, call, None)
  }

  predicate Absent(v: Value) { v.Missing? || v.Null? }

  /** trim, lower, upper, normalize_whitespace and strip_html share this shape. */
  function MapText(f: string -> string, v: Value): Option<Value> {
    if Absent(v) then Some(v) else if v.Str? then Some(Str(f(v.s))) else None
  }

  function StringOp(f: string -> string): OpSpec {
    Spec("string", "string", (v: Value, args: Args) => MapText(f, v))
  }

  function ToStr(host: Host): OpSpec {
    Spec("any", "string", (v: Value, args: Args) =>
      if Absent(v) then Some(v) else if host.str(v).Some? then Some(Str(host.str(v).value)) else None)
  }

  function AsInt(host: Host, v: Value): Option<Value> {
    if Absent(v) || v.Int? then Some(v)
    else if v.Str? && host.strip(v.s) != "" && host.toIndex(host.strip(v.s)).Some?
    then Some(Int(host.toIndex(host.strip(v.s)).value))
    else None
  }

  function ToInt(host: Host): OpSpec { Spec("any", "int", (v: Value, args: Args) => AsInt(host, v)) }

  function AsBool(host: Host, v: Value): Option<Value> {
    if Absent(v) || v.Bool? then Some(v)
    else if v.Int? then if v.i == 0 || v.i == 1 then Some(Bool(v.i == 1)) else None
    else if v.Str? then
      if host.lower(host.strip(v.s)) in {"true", "1", "yes", "y", "on"} then Some(Bool(true))
      else if host.lower(host.strip(v.s)) in {"false", "0", "no", "n", "off"} then Some(Bool(false))
      else None
    else None
  }

  function ToBool(host: Host): OpSpec { Spec("any", "bool", (v: Value, args: Args) => AsBool(host, v)) }

  function Truncate(host: Host): OpSpec {
    Spec("any", "string", (v: Value, args: Args) =>
      if "max_length" !in args || !args["max_length"].Int? || args["max_length"].i < 1 then None
      else if Absent(v) then Some(v)
      else if host.str(v).None? then None
      else
        var text := host.str(v).value;
        Some(Str(if |text| > args["max_length"].i then text[..args["max_length"].i] else text)))
  }

  function DefaultValue(): OpSpec {
    Spec("any", "any", (v: Value, args: Args) =>
      if "value" !in args then None else Some(if Absent(v) then args["value"] else v))
  }

  function GetPathOp(host: Host): OpSpec {
    Spec("any", "any", (v: Value, args: Args) =>
      if "path" in args && args["path"].Str? && args["path"].s != ""
      then Some(Lookup(host, v, Split(args["path"].s))) else None)
  }

  function EmitIfPresent(host: Host): OpSpec {
    Spec("any", "object", (v: Value, args: Args) =>
      if v.Missing? then Some(Emitted(EmitOmit))
      else if v.Null? then Some(Emitted(EmitNull))
      else if host.str(v).Some? then Some(Emitted(EmitValue(host.str(v).value)))
      else None)
  }

  function EmitNullIfMissing(): OpSpec { Spec("any", "object", (v: Value, args: Args) => Some(Emitted(EmitNull))) }

  function OmitIfMissing(): OpSpec { Spec("any", "object", (v: Value, args: Args) => Some(Emitted(EmitOmit))) }

  function Availability(inStock: bool): Value { Str(if inStock then "in_stock" else "out_of_stock") }

  function AsAvailability(host: Host, v: Value): Option<Value> {
    if Absent(v) then Some(v)
    else if v.Bool? then Some(Availability(v.b))
    else if v.Int? then if v.i == 0 || v.i == 1 then Some(Availability(v.i == 1)) else None
    else if v.Str? then
      if host.lower(host.strip(v.s)) in {"true", "1", "yes"} then Some(Availability(true))
      else if host.lower(host.strip(v.s)) in {"false", "0", "no"} then Some(Availability(false))
      else None
    else None
  }

  function BoolToAvailability(host: Host): OpSpec {
    Spec("any", "string", (v: Value, args: Args) => AsAvailability(host, v))
  }

  function IntToAvailability(): OpSpec {
    Spec("any", "string", (v: Value, args: Args) =>
      if v.Missing? then Some(Missing)
      else if v.Null? then Some(Availability(false))
      else if v.Int? then Some(Availability(v.i > 0))
      else None)
  }

  function TaxCall(host: Host, table: Option<TaxTable>, v: Value, args: Args): Option<Value> {
    if Absent(v) then Some(v)
    else if !v.Obj? || table.None? || "_lookup_data" !in args then None
    else Some(Str(Resolve(host, table.value,
                          Field(v.fields, args, "override_key", "tax_code_override"),
                          Field(v.fields, args, "category_key", "tax_category"),
                          Field(v.fields, args, "taxable_key", "taxable"))))
  }

  /** `prepare` raises without a table; without prepared arguments `call` does. */
  function MapTaxCode(host: Host, table: Option<TaxTable>): OpSpec {
    OpSpec("any", "string", (v: Value, args: Args) => TaxCall(host, table, v, args),
           Some((args: Args) => if table.None? then None else Some(args["_lookup_data" := Obj(map[])])))
  }

  /** `value.get(args.get(arg, default))` */
  function Field(fields: map<string, Value>, args: Args, arg: string, default: string): Value {
    var key := if arg in args then args[arg] else Str(default);
    if key.Str? && key.s in fields then fields[key.s] else Null
  }

  // ---------------------------------------------------------------------
  // Operations over libraries that are not modelled
  // ---------------------------------------------------------------------

  /** What such a library function gives: it raises, passes MISSING or null on,
      or returns a value of its type. */
  datatype Given<T> = Fails | GivesMissing | GivesNull | Gives(value: T)

  type Textual = (Value, Args) -> Given<string>

  datatype Library = Library(
    collapse: string -> string, stripHtml: string -> string,
    formatDate: Textual, formatDatetime: Textual, formatMoney: Textual, formatPrice: Textual,
    formatShipping: Textual, regexExtract: Textual, stripSuffix: Textual,
    parseDate: (Value, Args) -> Given<int>, roundDecimal: (Value, Args) -> Given<real>,
    toDecimal: (Value, Args) -> Given<real>)

  function GivenText(given: Given<string>): Option<Value> {
    match given case Fails => None case GivesMissing => Some(Missing) case GivesNull => Some(Null)
    case Gives(text) => Some(Str(text))
  }

  function GivenDate(given: Given<int>): Option<Value> {
    match given case Fails => None case GivesMissing => Some(Missing) case GivesNull => Some(Null)
    case Gives(day) => Some(Date(day))
  }

  function GivenDecimal(given: Given<real>): Option<Value> {
    match given case Fails => None case GivesMissing => Some(Missing) case GivesNull => Some(Null)
    case Gives(d) => Some(Decimal(d))
  }

  function TextOp(f: Textual): OpSpec {
    Spec("any", "string", (v: Value, args: Args) => GivenText(f(v, args)))
  }

  function DateOp(f: (Value, Args) -> Given<int>): OpSpec {
    Spec("any", "date", (v: Value, args: Args) => GivenDate(f(v, args)))
  }

  function DecimalOp(f: (Value, Args) -> Given<real>): OpSpec {
    Spec("any", "decimal", (v: Value, args: Args) => GivenDecimal(f(v, args)))
  }

  // ---------------------------------------------------------------------
  // The registry
  // ---------------------------------------------------------------------

  function TextCatalog(host: Host, lib: Library): Catalog {
    map["trim" := StringOp(host.strip), "lower" := StringOp(host.lower), "upper" := StringOp(host.upper),
        "normalize_whitespace" := StringOp(lib.collapse), "strip_html" := StringOp(lib.stripHtml)]
  }

  function ConversionCatalog(host: Host): Catalog {
    map["to_str" := ToStr(host), "to_int" := ToInt(host), "to_bool" := ToBool(host), "truncate" := Truncate(host),
        "default_value" := DefaultValue(), "get_path" := GetPathOp(host)]
  }

  function PresenceCatalog(host: Host, table: Option<TaxTable>): Catalog {
    map["emit_if_present" := EmitIfPresent(host), "emit_null_if_missing" := EmitNullIfMissing(),
        "omit_if_missing" := OmitIfMissing(), "bool_to_availability" := BoolToAvailability(host),
        "int_to_availability" := IntToAvailability(), "map_tax_code" := MapTaxCode(host, table)]
  }

  function LibraryCatalog(lib: Library): Catalog {
    map["format_date" := TextOp(lib.formatDate), "format_datetime_utc" := TextOp(lib.formatDatetime),
        "format_money" := TextOp(lib.formatMoney), "format_price" := TextOp(lib.formatPrice),
        "format_shipping" := TextOp(lib.formatShipping), "regex_extract" := TextOp(lib.regexExtract),
        "strip_suffix" := TextOp(lib.stripSuffix), "parse_date" := DateOp(lib.parseDate),
        "round_decimal" := DecimalOp(lib.roundDecimal), "to_decimal" := DecimalOp(lib.toDecimal)]
  }

  /** `MAPPING_OP_REGISTRY` */
  function Registry(host: Host, lib: Library, table: Option<TaxTable>): Catalog {
    TextCatalog(host, lib) + ConversionCatalog(host) + PresenceCatalog(host, table) + LibraryCatalog(lib)
  }

  /** Each operation keeps its declared signature. The string-only operations
      raise on no string. */
  lemma StringOpsAreHonest(f: string -> string)
    ensures Honest(StringOp(f))
  {
    var spec := StringOp(f);
    assert ToPlanTypeId(spec.inputType) == Some(TString) == ToPlanTypeId(spec.outputType);
    forall v: Value, args: Args
      ensures spec.call(v, args) == MapText(f, v)
    {
    }
  }

  lemma ConversionsAreHonest(host: Host)
    ensures Honest(ToStr(host)) && Honest(ToInt(host)) && Honest(ToBool(host)) && Honest(Truncate(host))
    ensures Honest(DefaultValue()) && Honest(GetPathOp(host))
  {
  }

  lemma PresenceOpsAreHonest(host: Host)
    ensures Honest(EmitIfPresent(host)) && Honest(EmitNullIfMissing()) && Honest(OmitIfMissing())
  {
  }

  lemma LookupsAreHonest(host: Host, table: Option<TaxTable>)
    ensures Honest(BoolToAvailability(host)) && Honest(IntToAvailability()) && Honest(MapTaxCode(host, table))
  {
    var tax := MapTaxCode(host, table);
    forall v: Value, args: Args ensures tax.call(v, args) == TaxCall(host, table, v, args) {}
  }

  lemma TextOpIsHonest(f: Textual)
    ensures Honest(TextOp(f))
  {
    var spec := TextOp(f);
    assert ToPlanTypeId(spec.inputType) == None && ToPlanTypeId(spec.outputType) == Some(TString);
    forall v: Value, args: Args ensures spec.call(v, args) == GivenText(f(v, args)) {}
  }

  lemma DateOpIsHonest(f: (Value, Args) -> Given<int>)
    ensures Honest(DateOp(f))
  {
    var spec := DateOp(f);
    assert ToPlanTypeId(spec.inputType) == None && ToPlanTypeId(spec.outputType) == Some(TDate);
    forall v: Value, args: Args ensures spec.call(v, args) == GivenDate(f(v, args)) {}
  }

  lemma DecimalOpIsHonest(f: (Value, Args) -> Given<real>)
    ensures Honest(DecimalOp(f))
  {
    var spec := DecimalOp(f);
    assert ToPlanTypeId(spec.inputType) == None && ToPlanTypeId(spec.outputType) == Some(TDecimal);
    forall v: Value, args: Args ensures spec.call(v, args) == GivenDecimal(f(v, args)) {}
  }

  /** The whole registry is honest, whatever the libraries do. */
  lemma RegistryIsHonest(host: Host, lib: Library, table: Option<TaxTable>)
    ensures HonestCatalog(Registry(host, lib, table))
  {
    TextCatalogIsHonest(host, lib);
    ConversionCatalogIsHonest(host);
    PresenceCatalogIsHonest(host, table);
    LibraryCatalogIsHonest(lib);
    HonestTogether(TextCatalog(host, lib), ConversionCatalog(host));
    HonestTogether(TextCatalog(host, lib) + ConversionCatalog(host), PresenceCatalog(host, table));
    HonestTogether(TextCatalog(host, lib) + ConversionCatalog(host) + PresenceCatalog(host, table),
                   LibraryCatalog(lib));
  }

  lemma HonestTogether(a: Catalog, b: Catalog)
    requires HonestCatalog(a) && HonestCatalog(b)
    ensures HonestCatalog(a + b)
  {
  }

  lemma ConversionCatalogIsHonest(host: Host)
    ensures HonestCatalog(ConversionCatalog(host))
  {
    ConversionsAreHonest(host);
  }

  lemma PresenceCatalogIsHonest(host: Host, table: Option<TaxTable>)
    ensures HonestCatalog(PresenceCatalog(host, table))
  {
    PresenceOpsAreHonest(host);
    LookupsAreHonest(host, table);
  }

  lemma TextCatalogIsHonest(host: Host, lib: Library)
    ensures HonestCatalog(TextCatalog(host, lib))
  {
    StringOpsAreHonest(host.strip);
    StringOpsAreHonest(host.lower);
    StringOpsAreHonest(host.upper);
    StringOpsAreHonest(lib.collapse);
    StringOpsAreHonest(lib.stripHtml);
  }

  lemma LibraryCatalogIsHonest(lib: Library)
    ensures HonestCatalog(LibraryCatalog(lib))
  {
    TextOpIsHonest(lib.formatDate);
    TextOpIsHonest(lib.formatDatetime);
    TextOpIsHonest(lib.formatMoney);
    TextOpIsHonest(lib.formatPrice);
    TextOpIsHonest(lib.formatShipping);
    TextOpIsHonest(lib.regexExtract);
    TextOpIsHonest(lib.stripSuffix);
    DateOpIsHonest(lib.parseDate);
    DecimalOpIsHonest(lib.roundDecimal);
    DecimalOpIsHonest(lib.toDecimal);
  }

  /** Every default the raw transforms ask for inhabits the output type of its
      operation. */
  ghost predicate RawDefaultsFit(env: Env, raws: seq<Value>) {
    forall n :: 0 <= n < |raws| && ValidTransform(env, raws[n]) && AsksForDefault(raws[n]) ==>
      Inhabits(raws[n].fields["args"].fields["default"], ToPlanTypeId(SpecOf(env, raws[n]).outputType))
  }

  ghost predicate DefaultKeeping(catalog: Catalog) { forall op :: op in catalog ==> KeepsDefault(catalog[op]) }

  lemma RegistryKeepsDefaults(host: Host, lib: Library, table: Option<TaxTable>)
    ensures DefaultKeeping(Registry(host, lib, table))
  {
    var text, conversions := TextCatalog(host, lib), ConversionCatalog(host);
    Unprepared(text);
    Unprepared(conversions);
    PresenceKeepsDefaults(host, table);
    Unprepared(LibraryCatalog(lib));
    KeepingTogether(text, conversions);
    KeepingTogether(text + conversions, PresenceCatalog(host, table));
    KeepingTogether(text + conversions + PresenceCatalog(host, table), LibraryCatalog(lib));
  }

  lemma Unprepared(catalog: Catalog)
    requires forall op :: op in catalog ==> catalog[op].prepare.None?
    ensures DefaultKeeping(catalog)
  {
  }

  lemma KeepingTogether(a: Catalog, b: Catalog)
    requires DefaultKeeping(a) && DefaultKeeping(b)
    ensures DefaultKeeping(a + b)
  {
  }

  lemma TaxKeepsDefault(host: Host, table: Option<TaxTable>)
    ensures KeepsDefault(MapTaxCode(host, table))
  {
  }

  lemma PresenceKeepsDefaults(host: Host, table: Option<TaxTable>)
    ensures DefaultKeeping(PresenceCatalog(host, table))
  {
    TaxKeepsDefault(host, table);
    var catalog := PresenceCatalog(host, table);
    forall op | op in catalog ensures KeepsDefault(catalog[op]) {
      assert op != "map_tax_code" ==> catalog[op].prepare.None?;
    }
  }

  /** The compiled call carries the default of its raw transform. */
  lemma CallKeepsDefault(env: Env, raw: Value, c: OpCall)
    requires ValidTransform(env, raw) && Transcribes(env, raw, c) && KeepsDefault(SpecOf(env, raw))
    requires c.onMissing == Some(Default) && c.args.Some? && "default" in c.args.value
    ensures AsksForDefault(raw) && c.args.value["default"] == raw.fields["args"].fields["default"]
  {
  }

  /** Fitting defaults in the schema are fitting defaults in the plan. */
  lemma DefaultsFitFromRaw(env: Env, raws: seq<Value>, path: string)
    requires !CompileChain(env, raws, path).raised && CleanChain(env, raws) && RawDefaultsFit(env, raws)
    requires DefaultKeeping(env.catalog)
    ensures DefaultsFit(CompileChain(env, raws, path).transforms)
  {
    var calls := CompileChain(env, raws, path).transforms;
    CompiledChainIsLinked(env, raws, path);
    ChainCompilesCleanlyIff(env, raws, path);
    forall k | 0 <= k < |calls| && calls[k].onMissing == Some(Default)
               && calls[k].args.Some? && "default" in calls[k].args.value
      ensures Inhabits(calls[k].args.value["default"], calls[k].outputType)
    {
      CleanChainIsTranscribed(env, raws, path, k);
      assert ValidTransform(env, raws[k]);
      CallKeepsDefault(env, raws[k], calls[k]);
    }
  }

  /** Type soundness of the program as it ships: every field of a schema that
      compiles cleanly against the registry, and whose defaults fit, runs soundly on
      every record. */
  lemma RegistryFieldIsSound(host: Host, lib: Library, table: Option<TaxTable>, allowlist: set<string>,
                             fieldId: string, mapping: map<string, Value>, path: string, global: Presence,
                             record: map<string, Value>)
    requires var env := Env(Registry(host, lib, table), allowlist);
      var r := CompileField(env, fieldId, mapping, path, global);
      r.Field? && r.diags == [] && RawDefaultsFit(env, RawTransforms(mapping).value)
    ensures var env := Env(Registry(host, lib, table), allowlist);
      var plan := CompileField(env, fieldId, mapping, path, global).plan;
      RunsSoundly(env.catalog, plan, Extract(host, record, plan.sourcePath))
  {
    RegistryIsHonest(host, lib, table);
    RegistryKeepsDefaults(host, lib, table);
    CleanFieldIsSound(Env(Registry(host, lib, table), allowlist), fieldId, mapping, path, global, host, record);
  }

  lemma CleanFieldIsSound(env: Env, fieldId: string, mapping: map<string, Value>, path: string, global: Presence,
                          host: Host, record: map<string, Value>)
    requires HonestCatalog(env.catalog) && DefaultKeeping(env.catalog)
    requires var r := CompileField(env, fieldId, mapping, path, global);
      r.Field? && r.diags == [] && RawDefaultsFit(env, RawTransforms(mapping).value)
    ensures var plan := CompileField(env, fieldId, mapping, path, global).plan;
      RunsSoundly(env.catalog, plan, Extract(host, record, plan.sourcePath))
  {
    FieldCompilesCleanlyIff(env, fieldId, mapping, path, global);
    DefaultsFitFromRaw(env, RawTransforms(mapping).value, path);
    CompiledFieldIsSound(env, fieldId, mapping, path, global, host, record);
  }

  /** Compiling can raise: map_tax_code without a tax table does, in `prepare`. */
  lemma MissingTaxTableRaises(host: Host, lib: Library, fieldId: string, path: string, global: Presence)
    ensures var op := Obj(map["op" := Str("map_tax_code"), "args" := Obj(map[])]);
      var mapping := map["transforms" := List([op])];
      CompileField(Env(Registry(host, lib, None), {"map_tax_code"}), fieldId, mapping, path, global).Raised?
  {
    RegistryHasTax(host, lib);
    RaisingPrepare(host, Registry(host, lib, None), fieldId, path, global);
  }

  lemma RegistryHasTax(host: Host, lib: Library)
    ensures "map_tax_code" in Registry(host, lib, None)
    ensures Registry(host, lib, None)["map_tax_code"] == MapTaxCode(host, None)
  {
    var before := TextCatalog(host, lib) + ConversionCatalog(host);
    var presence := PresenceCatalog(host, None);
    assert "map_tax_code" in presence && presence["map_tax_code"] == MapTaxCode(host, None);
    assert (before + presence)["map_tax_code"] == MapTaxCode(host, None);
    assert "map_tax_code" !in LibraryCatalog(lib);
  }

  lemma RaisingPrepare(host: Host, catalog: Catalog, fieldId: string, path: string, global: Presence)
    requires "map_tax_code" in catalog && catalog["map_tax_code"] == MapTaxCode(host, None)
    ensures var op := Obj(map["op" := Str("map_tax_code"), "args" := Obj(map[])]);
      var mapping := map["transforms" := List([op])];
      CompileField(Env(catalog, {"map_tax_code"}), fieldId, mapping, path, global).Raised?
  {
    var env := Env(catalog, {"map_tax_code"});
    var op := Obj(map["op" := Str("map_tax_code"), "args" := Obj(map[])]);
    var mapping := map["transforms" := List([op])];
    assert PrepareRaises(env, [op][0]);
    CompileRaisesIff(env, fieldId, mapping, path, global);
  }
}
