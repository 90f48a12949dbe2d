/** What the registered mapping operations do, by the name a schema gives them. */
module BuiltinMeaning {
  import opened Options
  import opened Values
  import opened MappingPlan
  import opened TaxCode
  import opened Builtins

  /** The operation turns v into w ... */
  ghost predicate Turns(spec: OpSpec, v: Value, args: Args, w: Value) { spec.call(v, args) == Some(w) }

  /** ... or raises. */
  ghost predicate Fails(spec: OpSpec, v: Value, args: Args) { spec.call(v, args) == None }

  /** MISSING and null come out as they went in. */
  ghost predicate PassesAbsent(spec: OpSpec, args: Args) {
    Turns(spec, Missing, args, Missing) && Turns(spec, Null, args, Null)
  }

  ghost predicate Present(v: Value) { v != Missing && v != Null }

  ghost predicate Declares(spec: OpSpec, input: string, output: string) {
    spec.inputType == input && spec.outputType == output
  }

  // ---------------------------------------------------------------------
  // Text operations
  // ---------------------------------------------------------------------

  /** Does to a text what f does, passes absent values on, and raises otherwise. */
  lemma StringOpMeans(f: string -> string, v: Value, args: Args)
    ensures Declares(StringOp(f), "string", "string") && PassesAbsent(StringOp(f), args)
    ensures v.Str? ==> Turns(StringOp(f), v, args, Str(f(v.s)))
    ensures Present(v) && !v.Str? ==> Fails(StringOp(f), v, args)
  {
  }

  // ---------------------------------------------------------------------
  // Conversions
  // ---------------------------------------------------------------------

  /** The text of any value. */
  lemma ToStrMeans(host: Host, v: Value, args: Args)
    ensures Declares(ToStr(host), "any", "string") && PassesAbsent(ToStr(host), args)
    ensures Present(v) ==>
      && (forall text :: Turns(ToStr(host), v, args, Str(text)) <==> host.str(v) == Some(text))
      && (Fails(ToStr(host), v, args) <==> host.str(v) == None)
  {
  }

  /** The number a value is, or that its text, without surrounding blanks, reads as. */
  ghost predicate ReadsAs(host: Host, v: Value, n: int) {
    v == Int(n) || (v.Str? && host.strip(v.s) != "" && host.toIndex(host.strip(v.s)) == Some(n))
  }

  lemma ToIntMeans(host: Host, v: Value, args: Args)
    ensures Declares(ToInt(host), "any", "int") && PassesAbsent(ToInt(host), args)
    ensures Present(v) ==>
      && (forall n :: Turns(ToInt(host), v, args, Int(n)) <==> ReadsAs(host, v, n))
      && (Fails(ToInt(host), v, args) <==> forall n :: !ReadsAs(host, v, n))
  {
    if v.Int? { assert ReadsAs(host, v, v.i); }
    if v.Str? && host.strip(v.s) != "" && host.toIndex(host.strip(v.s)).Some? {
      assert ReadsAs(host, v, host.toIndex(host.strip(v.s)).value);
    }
  }

  /** The value says yes, or no: as a boolean, as 1 or 0, or in one of these words. */
  ghost predicate Affirms(host: Host, v: Value, b: bool, words: set<string>) {
    v == Bool(b) || v == Int(if b then 1 else 0) || (v.Str? && host.lower(host.strip(v.s)) in words)
  }

  lemma ToBoolMeans(host: Host, v: Value, args: Args)
    ensures Declares(ToBool(host), "any", "bool") && PassesAbsent(ToBool(host), args)
    ensures Present(v) ==>
      var yes, no := Affirms(host, v, true, {"true", "1", "yes", "y", "on"}),
                     Affirms(host, v, false, {"false", "0", "no", "n", "off"});
      && (Turns(ToBool(host), v, args, Bool(true)) <==> yes)
      && (Turns(ToBool(host), v, args, Bool(false)) <==> no)
      && (Fails(ToBool(host), v, args) <==> !yes && !no)
  {
  }

  /** The longest prefix of the text within the limit; without a positive limit it
      raises on every value. */
  lemma TruncateMeans(host: Host, v: Value, args: Args, n: nat)
    requires n >= 1 && "max_length" in args && args["max_length"] == Int(n)
    ensures Declares(Truncate(host), "any", "string") && PassesAbsent(Truncate(host), args)
    ensures Present(v) && host.str(v) == None ==> Fails(Truncate(host), v, args)
    ensures Present(v) && host.str(v).Some? ==> exists t :: IsCut(host.str(v).value, n, t)
                                                  && Turns(Truncate(host), v, args, Str(t))
  {
    if Present(v) && host.str(v).Some? {
      var text := host.str(v).value;
      var t := if |text| > n then text[..n] else text;
      assert IsCut(text, n, t) && Turns(Truncate(host), v, args, Str(t));
    }
  }

  ghost predicate IsCut(text: string, n: nat, t: string) { t <= text && |t| <= n && (|t| == n || t == text) }

  lemma TruncateNeedsLimit(host: Host, v: Value, args: Args)
    requires "max_length" !in args || !args["max_length"].Int? || args["max_length"].i < 1
    ensures Fails(Truncate(host), v, args)
  {
  }

  /** default_value replaces absent values only, and raises without its argument. */
  lemma DefaultValueMeans(v: Value, args: Args)
    ensures Declares(DefaultValue(), "any", "any")
    ensures "value" in args ==> Turns(DefaultValue(), v, args, if Present(v) then v else args["value"])
    ensures "value" !in args ==> Fails(DefaultValue(), v, args)
  {
  }

  /** get_path reads below the value, and raises without a path. */
  lemma GetPathMeans(host: Host, v: Value, args: Args, path: string)
    requires path != ""
    ensures Declares(GetPathOp(host), "any", "any")
    ensures "path" in args && args["path"] == Str(path) ==>
      Turns(GetPathOp(host), v, args, Lookup(host, v, Split(path)))
    ensures "path" !in args || !args["path"].Str? || args["path"].s == "" ==> Fails(GetPathOp(host), v, args)
  {
  }

  // ---------------------------------------------------------------------
  // Emissions, availability and tax codes
  // ---------------------------------------------------------------------

  /** The emit operations end a chain with an emission: of the value's text, or
      OMIT or NULL for what is absent; or always NULL; or always OMIT. */
  lemma EmitOpsMean(host: Host, v: Value, args: Args)
    ensures Declares(EmitIfPresent(host), "any", "object")
    ensures Declares(Builtins.EmitNullIfMissing(), "any", "object") && Declares(OmitIfMissing(), "any", "object")
    ensures v == Missing ==> Turns(EmitIfPresent(host), v, args, Emitted(EmitOmit))
    ensures v == Null ==> Turns(EmitIfPresent(host), v, args, Emitted(EmitNull))
    ensures Present(v) && host.str(v).Some? ==>
      Turns(EmitIfPresent(host), v, args, Emitted(EmitValue(host.str(v).value)))
    ensures Present(v) && host.str(v).None? ==> Fails(EmitIfPresent(host), v, args)
    ensures Turns(Builtins.EmitNullIfMissing(), v, args, Emitted(EmitNull))
    ensures Turns(OmitIfMissing(), v, args, Emitted(EmitOmit))
  {
  }

  lemma BoolToAvailabilityMeans(host: Host, v: Value, args: Args)
    ensures Declares(BoolToAvailability(host), "any", "string") && PassesAbsent(BoolToAvailability(host), args)
    ensures Present(v) ==>
      var yes, no := Affirms(host, v, true, {"true", "1", "yes"}), Affirms(host, v, false, {"false", "0", "no"});
      && (Turns(BoolToAvailability(host), v, args, Str("in_stock")) <==> yes)
      && (Turns(BoolToAvailability(host), v, args, Str("out_of_stock")) <==> no)
      && (Fails(BoolToAvailability(host), v, args) <==> !yes && !no)
  {
  }

  /** An inventory count is in stock when positive; null counts as none. */
  lemma IntToAvailabilityMeans(v: Value, args: Args)
    ensures Declares(IntToAvailability(), "any", "string")
    ensures Turns(IntToAvailability(), Missing, args, Missing)
    ensures Turns(IntToAvailability(), v, args, Str("in_stock")) <==> v.Int? && v.i > 0
    ensures Turns(IntToAvailability(), v, args, Str("out_of_stock")) <==> v == Null || (v.Int? && v.i <= 0)
    ensures Fails(IntToAvailability(), v, args) <==> Present(v) && !v.Int?
  {
  }

  /** What a product has under the key that the argument names, or else under the
      default key. */
  ghost predicate Under(product: map<string, Value>, args: Args, arg: string, default: string, v: Value) {
    var key := if arg in args then args[arg] else Str(default);
    if key.Str? && key.s in product then product[key.s] == v else v == Null
  }

  /** map_tax_code resolves the three values of a product against the table. */
  lemma TaxOpMeans(host: Host, table: TaxTable, product: map<string, Value>, args: Args,
                   override: Value, category: Value, taxable: Value)
    requires "_lookup_data" in args
    requires Under(product, args, "override_key", "tax_code_override", override)
    requires Under(product, args, "category_key", "tax_category", category)
    requires Under(product, args, "taxable_key", "taxable", taxable)
    ensures Declares(MapTaxCode(host, Some(table)), "any", "string")
    ensures PassesAbsent(MapTaxCode(host, Some(table)), args)
    ensures Turns(MapTaxCode(host, Some(table)), Obj(product), args,
                  Str(Resolve(host, table, override, category, taxable)))
    ensures forall v :: Present(v) && !v.Obj? ==> Fails(MapTaxCode(host, Some(table)), v, args)
  {
    hide Resolve;
    var spec := MapTaxCode(host, Some(table));
    forall v: Value ensures spec.call(v, args) == TaxCall(host, Some(table), v, args) {}
  }

  /** Its arguments are prepared with the table: what a schema gives is kept, and a
      missing table raises. */
  lemma TaxOpIsPrepared(host: Host, table: Option<TaxTable>, args: Args)
    ensures var prepare := MapTaxCode(host, table).prepare;
      && prepare.Some?
      && (prepare.value(args).Some? <==> table.Some?)
      && (table.Some? ==>
            var prepared := prepare.value(args).value;
            "_lookup_data" in prepared
            && forall key :: key != "_lookup_data" ==>
                 (key in prepared <==> key in args) && (key in args ==> prepared[key] == args[key]))
  {
  }

  // ---------------------------------------------------------------------
  // Operations over libraries
  // ---------------------------------------------------------------------

  /** The operation is that of the library: it fails, passes on, and gives as it does. */
  ghost predicate Follows<T>(spec: OpSpec, output: string, f: (Value, Args) -> Given<T>, wrap: T -> Value) {
    Declares(spec, "any", output)
    && forall v: Value, args: Args {:trigger spec.call(v, args)} :: match f(v, args)
       case Fails => Fails(spec, v, args)
       case GivesMissing => Turns(spec, v, args, Missing)
       case GivesNull => Turns(spec, v, args, Null)
       case Gives(t) => Turns(spec, v, args, wrap(t))
  }

  function AsText(): string -> Value { t => Str(t) }
  function AsDate(): int -> Value { t => Date(t) }
  function AsDecimal(): real -> Value { t => Decimal(t) }

  lemma TextOpFollows(f: Textual)
    ensures Follows(TextOp(f), "string", f, AsText())
  {
    forall v: Value, args: Args ensures TextOp(f).call(v, args) == GivenText(f(v, args)) {}
  }

  lemma DateOpFollows(f: (Value, Args) -> Given<int>)
    ensures Follows(DateOp(f), "date", f, AsDate())
  {
    forall v: Value, args: Args ensures DateOp(f).call(v, args) == GivenDate(f(v, args)) {}
  }

  lemma DecimalOpFollows(f: (Value, Args) -> Given<real>)
    ensures Follows(DecimalOp(f), "decimal", f, AsDecimal())
  {
    forall v: Value, args: Args ensures DecimalOp(f).call(v, args) == GivenDecimal(f(v, args)) {}
  }

  // ---------------------------------------------------------------------
  // The registry
  // ---------------------------------------------------------------------

  /** The operation of this name. */
  ghost predicate Holds(catalog: Catalog, op: string, spec: OpSpec) { op in catalog && catalog[op] == spec }

  lemma LayerHolds(a: Catalog, b: Catalog, c: Catalog, d: Catalog, op: string, spec: OpSpec)
    ensures Holds(d, op, spec) ==> Holds(a + b + c + d, op, spec)
    ensures op !in d && Holds(c, op, spec) ==> Holds(a + b + c + d, op, spec)
    ensures op !in d && op !in c && Holds(b, op, spec) ==> Holds(a + b + c + d, op, spec)
    ensures op !in d && op !in c && op !in b && Holds(a, op, spec) ==> Holds(a + b + c + d, op, spec)
  {
  }

  /** No name is in two of the four parts. */
  lemma TextNamesAreApart(host: Host, lib: Library, table: Option<TaxTable>, op: string)
    requires op in {"trim", "lower", "upper", "normalize_whitespace", "strip_html"}
    ensures op !in ConversionCatalog(host) && op !in PresenceCatalog(host, table) && op !in LibraryCatalog(lib)
  {
    hide LibraryCatalog;
    TextNamesAreNoLibrary(lib, op);
  }

  lemma TextNamesAreNoLibrary(lib: Library, op: string)
    requires op in {"trim", "lower", "upper", "normalize_whitespace", "strip_html"}
    ensures op !in LibraryCatalog(lib)
  {
  }

  lemma ConversionNamesAreApart(host: Host, lib: Library, table: Option<TaxTable>, op: string)
    requires op in {"to_str", "to_int", "to_bool", "truncate", "default_value", "get_path"}
    ensures op !in PresenceCatalog(host, table) && op !in LibraryCatalog(lib)
  {
    hide LibraryCatalog;
    ConversionNamesAreNoLibrary(lib, op);
  }

  lemma ConversionNamesAreNoLibrary(lib: Library, op: string)
    requires op in {"to_str", "to_int", "to_bool", "truncate", "default_value", "get_path"}
    ensures op !in LibraryCatalog(lib)
  {
  }

  lemma PresenceNamesAreApart(lib: Library, op: string)
    requires op in {"emit_if_present", "emit_null_if_missing", "omit_if_missing", "bool_to_availability",
                    "int_to_availability", "map_tax_code"}
    ensures op !in LibraryCatalog(lib)
  {
  }

  lemma TextNames(host: Host, lib: Library, table: Option<TaxTable>)
    ensures var all := Registry(host, lib, table);
      && Holds(all, "trim", StringOp(host.strip)) && Holds(all, "lower", StringOp(host.lower))
      && Holds(all, "upper", StringOp(host.upper))
      && Holds(all, "normalize_whitespace", StringOp(lib.collapse))
      && Holds(all, "strip_html", StringOp(lib.stripHtml))
  {
    hide ConversionCatalog, PresenceCatalog, LibraryCatalog, StringOp;
    forall op | op in {"trim", "lower", "upper", "normalize_whitespace", "strip_html"} {
      TextNamesAreApart(host, lib, table, op);
    }
    var a, b, c, d := TextCatalog(host, lib), ConversionCatalog(host), PresenceCatalog(host, table),
                      LibraryCatalog(lib);
    LayerHolds(a, b, c, d, "trim", StringOp(host.strip));
    LayerHolds(a, b, c, d, "lower", StringOp(host.lower));
    LayerHolds(a, b, c, d, "upper", StringOp(host.upper));
    LayerHolds(a, b, c, d, "normalize_whitespace", StringOp(lib.collapse));
    LayerHolds(a, b, c, d, "strip_html", StringOp(lib.stripHtml));
  }

  lemma ConversionNames(host: Host, lib: Library, table: Option<TaxTable>)
    ensures var all := Registry(host, lib, table);
      && Holds(all, "to_str", ToStr(host)) && Holds(all, "to_int", ToInt(host))
      && Holds(all, "to_bool", ToBool(host)) && Holds(all, "truncate", Truncate(host))
      && Holds(all, "default_value", DefaultValue()) && Holds(all, "get_path", GetPathOp(host))
  {
    hide TextCatalog, PresenceCatalog, LibraryCatalog;
    forall op | op in {"to_str", "to_int", "to_bool", "truncate", "default_value", "get_path"} {
      ConversionNamesAreApart(host, lib, table, op);
    }
    var a, b, c, d := TextCatalog(host, lib), ConversionCatalog(host), PresenceCatalog(host, table),
                      LibraryCatalog(lib);
    LayerHolds(a, b, c, d, "to_str", ToStr(host));
    LayerHolds(a, b, c, d, "to_int", ToInt(host));
    LayerHolds(a, b, c, d, "to_bool", ToBool(host));
    LayerHolds(a, b, c, d, "truncate", Truncate(host));
    LayerHolds(a, b, c, d, "default_value", DefaultValue());
    LayerHolds(a, b, c, d, "get_path", GetPathOp(host));
  }

  lemma EmitNames(host: Host, lib: Library, table: Option<TaxTable>)
    ensures var all := Registry(host, lib, table);
      && Holds(all, "emit_if_present", EmitIfPresent(host))
      && Holds(all, "emit_null_if_missing", Builtins.EmitNullIfMissing())
      && Holds(all, "omit_if_missing", OmitIfMissing())
  {
    hide TextCatalog, ConversionCatalog, LibraryCatalog;
    forall op | op in {"emit_if_present", "emit_null_if_missing", "omit_if_missing"} {
      PresenceNamesAreApart(lib, op);
    }
    var a, b, c, d := TextCatalog(host, lib), ConversionCatalog(host), PresenceCatalog(host, table),
                      LibraryCatalog(lib);
    LayerHolds(a, b, c, d, "emit_if_present", EmitIfPresent(host));
    LayerHolds(a, b, c, d, "emit_null_if_missing", Builtins.EmitNullIfMissing());
    LayerHolds(a, b, c, d, "omit_if_missing", OmitIfMissing());
  }

  lemma LookupNames(host: Host, lib: Library, table: Option<TaxTable>)
    ensures var all := Registry(host, lib, table);
      && Holds(all, "bool_to_availability", BoolToAvailability(host))
      && Holds(all, "int_to_availability", IntToAvailability())
      && Holds(all, "map_tax_code", MapTaxCode(host, table))
  {
    hide TextCatalog, ConversionCatalog, LibraryCatalog;
    forall op | op in {"bool_to_availability", "int_to_availability", "map_tax_code"} {
      PresenceNamesAreApart(lib, op);
    }
    var a, b, c, d := TextCatalog(host, lib), ConversionCatalog(host), PresenceCatalog(host, table),
                      LibraryCatalog(lib);
    LayerHolds(a, b, c, d, "bool_to_availability", BoolToAvailability(host));
    LayerHolds(a, b, c, d, "int_to_availability", IntToAvailability());
    LayerHolds(a, b, c, d, "map_tax_code", MapTaxCode(host, table));
  }

  lemma FormatNames(host: Host, lib: Library, table: Option<TaxTable>)
    ensures var all := Registry(host, lib, table);
      && Holds(all, "format_date", TextOp(lib.formatDate))
      && Holds(all, "format_datetime_utc", TextOp(lib.formatDatetime))
      && Holds(all, "format_money", TextOp(lib.formatMoney)) && Holds(all, "format_price", TextOp(lib.formatPrice))
      && Holds(all, "format_shipping", TextOp(lib.formatShipping))
  {
    hide TextCatalog, ConversionCatalog, PresenceCatalog;
    var a, b, c, d := TextCatalog(host, lib), ConversionCatalog(host), PresenceCatalog(host, table),
                      LibraryCatalog(lib);
    forall op, spec { LayerHolds(a, b, c, d, op, spec); }
  }

  lemma LibraryNames(host: Host, lib: Library, table: Option<TaxTable>)
    ensures var all := Registry(host, lib, table);
      && Holds(all, "regex_extract", TextOp(lib.regexExtract))
      && Holds(all, "strip_suffix", TextOp(lib.stripSuffix)) && Holds(all, "parse_date", DateOp(lib.parseDate))
      && Holds(all, "round_decimal", DecimalOp(lib.roundDecimal))
      && Holds(all, "to_decimal", DecimalOp(lib.toDecimal))
  {
    hide TextCatalog, ConversionCatalog, PresenceCatalog;
    var a, b, c, d := TextCatalog(host, lib), ConversionCatalog(host), PresenceCatalog(host, table),
                      LibraryCatalog(lib);
    forall op, spec { LayerHolds(a, b, c, d, op, spec); }
  }

  const NAMES: set<string> := {
    "default_value", "get_path", "to_str", "to_int", "to_decimal", "to_bool", "bool_to_availability",
    "int_to_availability", "trim", "lower", "upper", "normalize_whitespace", "parse_date", "format_date",
    "format_datetime_utc", "round_decimal", "format_money", "format_price", "format_shipping", "map_tax_code",
    "regex_extract", "strip_html", "strip_suffix", "truncate", "emit_if_present", "emit_null_if_missing",
    "omit_if_missing"}

  /** The registry has these operations and no other. */
  lemma RegistryNames(host: Host, lib: Library, table: Option<TaxTable>)
    ensures forall op :: op in Registry(host, lib, table) <==> op in NAMES
  {
  }
}
