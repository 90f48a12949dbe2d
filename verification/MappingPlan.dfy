/** Compiled mapping plans and the catalog of mapping operations. */
module MappingPlan {
  import opened Options
  import opened Values

  datatype TypeId =
    | TString | TInt | TDecimal | TBool | TDate | TDateTime | TStringArray | TObject

  /** `to_plan_type_id`: "any" and unknown ids have no plan type. */
  function ToPlanTypeId(raw: string): Option<TypeId> {
    match raw
    case "string" => Some(TString)
    case "int" => Some(TInt)
    case "decimal" => Some(TDecimal)
    case "bool" => Some(TBool)
    case "date" => Some(TDate)
    case "datetime" => Some(TDateTime)
    case "array[string]" => Some(TStringArray)
    case "object" => Some(TObject)
    case _ => None
  }

  /** The id a schema or catalog writes a type with. */
  ghost function TypeName(t: TypeId): string {
    match t
    case TString => "string"
    case TInt => "int"
    case TDecimal => "decimal"
    case TBool => "bool"
    case TDate => "date"
    case TDateTime => "datetime"
    case TStringArray => "array[string]"
    case TObject => "object"
  }

  /** Reading a type id undoes writing it, and nothing else reads as a type. */
  lemma TypeIsReadIff(raw: string, t: TypeId)
    ensures ToPlanTypeId(raw) == Some(t) <==> raw == TypeName(t)
  {
  }

  predicate IsTypeMismatch(current: Option<TypeId>, expected: Option<TypeId>) {
    current.Some? && expected.Some? && current != expected
  }

  type Args = map<string, Value>

  /** `call` is None where the operation raises, `prepare` likewise. */
  datatype OpSpec = OpSpec(
    inputType: string, outputType: string,
    call: (Value, Args) -> Option<Value>,
    prepare: Option<Args -> Option<Args>>)

  type Catalog = map<string, OpSpec>

  datatype OnMissing = Pass | Default | Omit | Error
  datatype Presence = OmitMissing | EmitNullIfMissing | ErrorIfMissing

  datatype OpCall = OpCall(
    op: string, args: Option<Args>, onMissing: Option<OnMissing>,
    inputType: Option<TypeId>, outputType: Option<TypeId>)

  datatype FieldPlan = FieldPlan(
    fieldId: string, sourcePath: string, transforms: seq<OpCall>, presence: Presence,
    finalType: Option<TypeId>, requiredSource: bool)

  datatype OutputKind = CsvRow | JsonObject

  /** `fields` is a dict; `fieldIds` are its keys in insertion order. */
  datatype Plan = Plan(
    kind: OutputKind, order: Option<seq<string>>, fields: map<string, FieldPlan>, fieldIds: seq<string>,
    tombstoneEnabled: bool, tombstoneFlagPath: string, tombstoneIdField: string)

  /** A compile diagnostic; all of them are errors here. The message is left out. */
  datatype Diag = Diag(code: string, path: string)
}
