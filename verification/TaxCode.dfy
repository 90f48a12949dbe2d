/** `map_tax_code`: override, then longest-prefix category lookup, then the
    taxable fallback. */
module TaxCode {
  import opened Options
  import opened PyDict
  import opened Values
  import opened StableSort

  datatype TaxTable = TaxTable(mappings: seq<Entry<string, string>>, defaultTaxable: string, defaultExempt: string)

  predicate LongerFirst(a: string, b: string) { |a| >= |b| }

  function KeysIn(mappings: seq<Entry<string, string>>): seq<string> {
    seq(|mappings|, i requires 0 <= i < |mappings| => mappings[i].key)
  }

  /** `sorted(mappings, key=len, reverse=True)` */
  function SortedKeys(table: TaxTable): seq<string> { Sort(LongerFirst, KeysIn(table.mappings)) }

  /** The scan: the first key that the category starts with. */
  function FirstPrefix(keys: seq<string>, category: string): Option<string> {
    if keys == [] then None
    else if keys[0] <= category then Some(keys[0])
    else FirstPrefix(keys[1..], category)
  }

  predicate NonEmptyText(host: Host, v: Value) { v.Str? && v.s != "" && host.strip(v.s) != "" }

  /** The hit of the category lookup, if it is reached and has one. */
  function CategoryHit(host: Host, table: TaxTable, category: Value): Option<string> {
    if NonEmptyText(host, category) then FirstPrefix(SortedKeys(table), host.strip(category.s)) else None
  }

  predicate IsFalsyTaxable(host: Host, taxable: Value) {
    match taxable
    case Bool(b) => !b
    case Str(s) => host.lower(s) in {"false", "no", "0"}
    case Int(i) => i == 0
    case Float(f) => f == 0.0
    case Decimal(d) => d == 0.0
    case _ => false
  }

  /** `_map_tax_code` on a dict; `get` is `value.get(...)` of the three keys. */
  function Resolve(host: Host, table: TaxTable, override: Value, category: Value, taxable: Value): string {
    if NonEmptyText(host, override) then host.strip(override.s)
    else
      var hit := CategoryHit(host, table, category);
      if hit.Some? && hit.value in ToMap(table.mappings) then ToMap(table.mappings)[hit.value]
      else if IsFalsyTaxable(host, taxable) then table.defaultExempt
      else table.defaultTaxable
  }

  /** p is a key, a prefix of the category, and longer than any other such key. */
  ghost predicate IsLongestPrefix(mappings: map<string, string>, category: string, p: string) {
    && p in mappings && p <= category
    && forall q :: q in mappings && q <= category && q != p ==> |q| < |p|
  }

  lemma {:induction false} FirstPrefixOfSorted(keys: seq<string>, category: string)
    requires SortedBy(LongerFirst, keys)
    ensures match FirstPrefix(keys, category)
      case None => forall q :: q in keys ==> !(q <= category)
      case Some(p) => p in keys && p <= category && forall q :: q in keys && q <= category ==> |q| <= |p|
  {
    if keys != [] {
      FirstPrefixOfSorted(keys[1..], category);
      assert keys == [keys[0]] + keys[1..];
      forall q | q in keys ensures |q| <= |keys[0]| {
        var i :| 0 <= i < |keys| && keys[i] == q;
        assert i == 0 || LongerFirst(keys[0], keys[i]);
      }
    }
  }

  lemma KeysInAreKeys(table: TaxTable)
    ensures forall q :: q in SortedKeys(table) <==> q in ToMap(table.mappings)
  {
    var keys := KeysIn(table.mappings);
    SortIsPermutation(LongerFirst, keys);
    forall q ensures q in SortedKeys(table) <==> q in ToMap(table.mappings) {
      ToMapKeys(table.mappings, q);
      assert q in SortedKeys(table) <==> q in multiset(SortedKeys(table));
      assert q in keys <==> q in multiset(keys);
      if Has(table.mappings, q) {
        var i :| 0 <= i < |table.mappings| && table.mappings[i].key == q;
        assert keys[i] == q;
      }
    }
  }

  /** The scan finds the longest key that prefixes the category, and finds none
      exactly when there is none. */
  lemma ScanFindsLongestPrefix(table: TaxTable, category: string)
    ensures match FirstPrefix(SortedKeys(table), category)
      case None => forall q :: q in ToMap(table.mappings) ==> !(q <= category)
      case Some(p) => IsLongestPrefix(ToMap(table.mappings), category, p)
  {
    SortIsSorted(LongerFirst, KeysIn(table.mappings));
    FirstPrefixOfSorted(SortedKeys(table), category);
    KeysInAreKeys(table);
    var hit := FirstPrefix(SortedKeys(table), category);
    if hit.Some? {
      var p := hit.value;
      assert forall q :: q in ToMap(table.mappings) && q <= category && |q| == |p| ==> q == category[..|p|] == p;
    }
  }

  /** There is only one longest prefix, so the result depends on the table as a
      mapping, not on the order of its entries. */
  lemma ResultIgnoresTableOrder(host: Host, a: TaxTable, b: TaxTable, override: Value, category: Value, taxable: Value)
    requires ToMap(a.mappings) == ToMap(b.mappings)
    requires a.defaultTaxable == b.defaultTaxable && a.defaultExempt == b.defaultExempt
    ensures Resolve(host, a, override, category, taxable) == Resolve(host, b, override, category, taxable)
  {
    if NonEmptyText(host, category) {
      var text := host.strip(category.s);
      ScanFindsLongestPrefix(a, text);
      ScanFindsLongestPrefix(b, text);
    }
  }

  /** The value is a text, and this is what is left of it without surrounding
      blanks. */
  ghost predicate GivesText(host: Host, v: Value, text: string) {
    v.Str? && v.s != "" && text == host.strip(v.s) && text != ""
  }

  ghost predicate NoKeyPrefixes(host: Host, m: map<string, string>, category: Value) {
    forall q, text :: q in m && GivesText(host, category, text) ==> !(q <= text)
  }

  /** An override that gives a text is the result. */
  lemma OverrideIsTaken(host: Host, table: TaxTable, override: Value, category: Value, taxable: Value, text: string)
    requires GivesText(host, override, text)
    ensures Resolve(host, table, override, category, taxable) == text
  {
  }

  /** Without one, a key that prefixes the category decides: the longest. */
  lemma LongestPrefixDecides(host: Host, table: TaxTable, override: Value, category: Value, taxable: Value,
                             text: string, p: string)
    requires (forall t :: !GivesText(host, override, t)) && GivesText(host, category, text)
    requires IsLongestPrefix(ToMap(table.mappings), text, p)
    ensures Resolve(host, table, override, category, taxable) == ToMap(table.mappings)[p]
  {
    ScanFindsLongestPrefix(table, text);
    NoTextIsGiven(host, override);
  }

  lemma NoTextIsGiven(host: Host, v: Value)
    requires forall t :: !GivesText(host, v, t)
    ensures !NonEmptyText(host, v)
  {
    if v.Str? { assert !GivesText(host, v, host.strip(v.s)); }
  }

  /** The flag says no: false, zero, or one of three texts. */
  ghost predicate SaysNo(host: Host, taxable: Value) {
    taxable in {Bool(false), Int(0), Float(0.0), Decimal(0.0)}
    || (taxable.Str? && host.lower(taxable.s) in {"false", "no", "0"})
  }

  /** The taxable fallback is reached exactly when no key is a prefix, and then
      gives the exempt code to a flag that says no, and the taxable code to any
      other. */
  lemma FallbackIff(host: Host, table: TaxTable, override: Value, category: Value, taxable: Value)
    ensures CategoryHit(host, table, category).None? <==> NoKeyPrefixes(host, ToMap(table.mappings), category)
    ensures (forall t :: !GivesText(host, override, t)) && NoKeyPrefixes(host, ToMap(table.mappings), category) ==>
      Resolve(host, table, override, category, taxable)
        == if SaysNo(host, taxable) then table.defaultExempt else table.defaultTaxable
  {
    if NonEmptyText(host, category) {
      ScanFindsLongestPrefix(table, host.strip(category.s));
      assert GivesText(host, category, host.strip(category.s));
    }
    if forall t :: !GivesText(host, override, t) {
      NoTextIsGiven(host, override);
    }
  }

  /** Nothing but the override matters for the result. */
  ghost predicate OverrideDecides(host: Host, override: Value) {
    forall a: TaxTable, b: TaxTable, category, taxable ::
      Resolve(host, a, override, category, taxable) == Resolve(host, b, override, Null, Null)
  }

  /** The override settles the code, whatever table, category and flag say,
      exactly when it gives a text. */
  lemma OverrideDecidesIff(host: Host, override: Value)
    ensures OverrideDecides(host, override) <==> exists text :: GivesText(host, override, text)
  {
    if forall text :: !GivesText(host, override, text) {
      var a, b := TaxTable([], "a", "a"), TaxTable([], "b", "b");
      FallbackIff(host, a, override, Null, Null);
      FallbackIff(host, b, override, Null, Null);
      assert Resolve(host, a, override, Null, Null) != Resolve(host, b, override, Null, Null);
    } else {
      var text :| GivesText(host, override, text);
    }
  }
}
