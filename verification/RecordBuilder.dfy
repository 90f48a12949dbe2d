/** `_unflatten` and `_build_record`: from flat dot-path records to nested ones. */
module RecordBuilder {
  import opened Options
  import opened Permutations
  import opened PyDict
  import opened Values

  type Flat = seq<Entry<string, Value>>
  type Tree = map<string, Value>

  /** Stores v at the segment path, turning whatever is in the way into a dict. */
  function SetPath(t: Tree, path: seq<string>, v: Value): Tree
    requires path != []
    decreases |path|
  {
    if |path| == 1 then t[path[0] := v]
    else t[path[0] := Obj(SetPath(Child(t, path[0]), path[1..], v))]
  }

  function Child(t: Tree, segment: string): Tree {
    if segment in t && t[segment].Obj? then t[segment].fields else map[]
  }

  function Built(record: Flat): Tree {
    if record == [] then map[]
    else
      var last := record[|record| - 1];
      SetPath(Built(record[..|record| - 1]), Split(last.key), last.value)
  }

  method Unflatten(record: Flat) returns (result: Tree)
    ensures result == Built(record)
  {
    result := map[];
    for k := 0 to |record|
      invariant result == Built(record[..k])
    {
      assert record[..k + 1][..k] == record[..k];
      result := SetPath(result, Split(record[k].key), record[k].value);
    }
    assert record[..|record|] == record;
  }

  // ---------------------------------------------------------------------
  // Paths that do not interfere
  // ---------------------------------------------------------------------

  /** Neither path leads to or through the other. */
  ghost predicate Apart(p: seq<string>, q: seq<string>) { !(p <= q) && !(q <= p) }

  /** Nothing but dicts lies on the way to p: setting it overwrites no leaf. */
  ghost predicate Free(t: Tree, p: seq<string>)
    decreases |p|
  {
    |p| <= 1 || p[0] !in t || (t[p[0]].Obj? && Free(t[p[0]].fields, p[1..]))
  }

  ghost predicate PrefixFree(record: Flat) {
    forall i, j :: 0 <= i < |record| && 0 <= j < |record| && i != j
      ==> Apart(Split(record[i].key), Split(record[j].key))
  }

  lemma {:induction false} LookupSet(host: Host, t: Tree, p: seq<string>, v: Value)
    requires p != []
    ensures Lookup(host, Obj(SetPath(t, p, v)), p) == v
    decreases |p|
  {
    if |p| > 1 {
      LookupSet(host, Child(t, p[0]), p[1..], v);
    } else {
      assert p[1..] == [];
    }
  }

  lemma ApartTails(p: seq<string>, q: seq<string>)
    requires p != [] && q != [] && Apart(p, q) && p[0] == q[0]
    ensures p[1..] != [] && q[1..] != [] && Apart(p[1..], q[1..])
  {
  }

  lemma {:induction false} LookupElsewhere(host: Host, t: Tree, p: seq<string>, v: Value, q: seq<string>)
    requires p != [] && Apart(p, q) && Free(t, p)
    ensures Lookup(host, Obj(SetPath(t, p, v)), q) == Lookup(host, Obj(t), q)
    decreases |p|
  {
    if q != [] && p[0] == q[0] {
      ApartTails(p, q);
      LookupElsewhere(host, Child(t, p[0]), p[1..], v, q[1..]);
      LookupUnderSet(host, t, p, v, q);
      LookupUnderChild(host, t, q);
    }
  }

  lemma LookupUnderSet(host: Host, t: Tree, p: seq<string>, v: Value, q: seq<string>)
    requires |p| > 1 && q != [] && p[0] == q[0]
    ensures Lookup(host, Obj(SetPath(t, p, v)), q)
      == Lookup(host, Obj(SetPath(Child(t, p[0]), p[1..], v)), q[1..])
  {
  }

  lemma LookupUnderChild(host: Host, t: Tree, q: seq<string>)
    requires |q| > 1 && (q[0] in t ==> t[q[0]].Obj?)
    ensures Lookup(host, Obj(t), q) == Lookup(host, Obj(Child(t, q[0])), q[1..])
  {
  }

  lemma {:induction false} SetKeepsFree(t: Tree, p: seq<string>, v: Value, q: seq<string>)
    requires p != [] && Apart(p, q) && Free(t, q) && Free(t, p)
    ensures Free(SetPath(t, p, v), q)
    decreases |p|
  {
    if |q| > 1 && p[0] == q[0] {
      ApartTails(p, q);
      SetKeepsFree(Child(t, p[0]), p[1..], v, q[1..]);
    }
  }

  lemma {:induction false} SetsCommute(t: Tree, p: seq<string>, v: Value, q: seq<string>, w: Value)
    requires p != [] && q != [] && Apart(p, q) && Free(t, p) && Free(t, q)
    ensures SetPath(SetPath(t, p, v), q, w) == SetPath(SetPath(t, q, w), p, v)
    decreases |p|
  {
    if p[0] != q[0] {
      SetsBeside(t, p, v, q, w);
    } else {
      ApartTails(p, q);
      FreeChild(t, p);
      FreeChild(t, q);
      SetsCommute(Child(t, p[0]), p[1..], v, q[1..], w);
      SetsUnder(t, p, v, q, w);
    }
  }

  lemma FreeChild(t: Tree, p: seq<string>)
    requires |p| > 1 && Free(t, p)
    ensures Free(Child(t, p[0]), p[1..])
  {
  }

  lemma SetsBeside(t: Tree, p: seq<string>, v: Value, q: seq<string>, w: Value)
    requires p != [] && q != [] && p[0] != q[0]
    ensures SetPath(SetPath(t, p, v), q, w) == SetPath(SetPath(t, q, w), p, v)
  {
  }

  lemma SetsUnder(t: Tree, p: seq<string>, v: Value, q: seq<string>, w: Value)
    requires |p| > 1 && |q| > 1 && p[0] == q[0]
    requires var c := Child(t, p[0]);
      SetPath(SetPath(c, p[1..], v), q[1..], w) == SetPath(SetPath(c, q[1..], w), p[1..], v)
    ensures SetPath(SetPath(t, p, v), q, w) == SetPath(SetPath(t, q, w), p, v)
  {
  }

  lemma {:induction false} BuiltIsFree(record: Flat, q: seq<string>)
    requires PrefixFree(record)
    requires forall i :: 0 <= i < |record| ==> Apart(Split(record[i].key), q)
    ensures Free(Built(record), q)
  {
    if record != [] {
      var init, last := record[..|record| - 1], record[|record| - 1];
      BuiltIsFree(init, q);
      BuiltIsFree(init, Split(last.key));
      SetKeepsFree(Built(init), Split(last.key), last.value, q);
    }
  }

  // ---------------------------------------------------------------------
  // Round trip
  // ---------------------------------------------------------------------

  /** Each value of a prefix-free flat record is found again at its segments. */
  lemma {:induction false} BuiltHoldsEntries(host: Host, record: Flat, i: nat)
    requires PrefixFree(record) && i < |record|
    ensures Lookup(host, Obj(Built(record)), Split(record[i].key)) == record[i].value
  {
    var init, last := record[..|record| - 1], record[|record| - 1];
    if i == |record| - 1 {
      LookupSet(host, Built(init), Split(last.key), last.value);
    } else {
      BuiltHoldsEntries(host, init, i);
      BuiltIsFree(init, Split(last.key));
      LookupElsewhere(host, Built(init), Split(last.key), last.value, Split(init[i].key));
    }
  }

  /** Reading a path back gives its value exactly when the path is not empty, or
      the value is what a failed read gives: `_unflatten` files the empty path
      under the empty segment, where the reader never looks. */
  lemma UnflattenRoundTrip(host: Host, record: Flat, i: nat)
    requires PrefixFree(record) && i < |record|
    ensures Extract(host, Built(record), record[i].key) == record[i].value
      <==> record[i].key != "" || record[i].value == Missing
  {
    BuiltHoldsEntries(host, record, i);
  }

  /** The empty path is the one the reader loses. */
  lemma EmptyPathIsLost(host: Host, v: Value)
    requires v != Missing
    ensures Extract(host, Built([Entry("", v)]), "") != v
    ensures Lookup(host, Obj(Built([Entry("", v)])), Split("")) == v
  {
  }

  function File(t: Tree, e: Entry<string, Value>): Tree { SetPath(t, Split(e.key), e.value) }

  lemma BuiltSnoc(rest: Flat, e: Entry<string, Value>)
    ensures Built(rest + [e]) == File(Built(rest), e)
  {
  }

  lemma FilingCommutes(rest: Flat, x: Entry<string, Value>, y: Entry<string, Value>)
    requires PrefixFree(rest + [x] + [y])
    ensures File(File(Built(rest), x), y) == File(File(Built(rest), y), x)
  {
    var whole := rest + [x] + [y];
    forall i | 0 <= i < |rest|
      ensures Apart(Split(rest[i].key), Split(x.key)) && Apart(Split(rest[i].key), Split(y.key))
    {
      assert whole[i] == rest[i] && whole[|rest|] == x && whole[|rest| + 1] == y;
    }
    assert whole[|rest|] == x && whole[|rest| + 1] == y;
    DropLast(rest + [x], y);
    DropLast(rest, x);
    BuiltIsFree(rest, Split(x.key));
    BuiltIsFree(rest, Split(y.key));
    SetsCommute(Built(rest), Split(x.key), x.value, Split(y.key), y.value);
  }

  lemma {:induction false} MoveToEnd(before: Flat, x: Entry<string, Value>, after: Flat)
    requires PrefixFree(before + [x] + after)
    ensures Built(before + [x] + after) == File(Built(before + after), x)
    decreases |after|
  {
    if after == [] {
      assert before + [x] + after == before + [x] && before + after == before;
      BuiltSnoc(before, x);
    } else {
      var init, y := after[..|after| - 1], after[|after| - 1];
      assert before + [x] + after == (before + [x] + init) + [y];
      assert before + after == (before + init) + [y];
      DropLast(before + [x] + init, y);
      MoveToEnd(before, x, init);
      BuiltSnoc(before + [x] + init, y);
      BuiltSnoc(before + init, y);
      MovedIsPrefixFree(before, x, init, y);
      FilingCommutes(before + init, x, y);
    }
  }

  lemma MovedIsPrefixFree(before: Flat, x: Entry<string, Value>, init: Flat, y: Entry<string, Value>)
    requires PrefixFree(before + [x] + init + [y])
    ensures PrefixFree(before + init + [x] + [y])
  {
    var whole, moved := before + [x] + init + [y], before + init + [x] + [y];
    var n := |before| + |init|;
    forall i, j | 0 <= i < |moved| && 0 <= j < |moved| && i != j
      ensures Apart(Split(moved[i].key), Split(moved[j].key))
    {
      var k := (m: int) => if m < |before| then m else if m < n then m + 1 else if m == n then |before| else m;
      assert moved[i] == whole[k(i)] && moved[j] == whole[k(j)];
    }
  }

  lemma DropLast(rest: Flat, y: Entry<string, Value>)
    requires PrefixFree(rest + [y])
    ensures PrefixFree(rest)
  {
    forall i, j | 0 <= i < |rest| && 0 <= j < |rest| && i != j
      ensures Apart(Split(rest[i].key), Split(rest[j].key))
    {
      assert (rest + [y])[i] == rest[i] && (rest + [y])[j] == rest[j];
    }
  }

  lemma DropKeepsPrefixFree(before: Flat, x: Entry<string, Value>, after: Flat)
    requires PrefixFree(before + [x] + after)
    ensures PrefixFree(before + after)
  {
    var whole, rest := before + [x] + after, before + after;
    forall i, j | 0 <= i < |rest| && 0 <= j < |rest| && i != j
      ensures Apart(Split(rest[i].key), Split(rest[j].key))
    {
      assert whole[if i < |before| then i else i + 1] == rest[i];
      assert whole[if j < |before| then j else j + 1] == rest[j];
    }
  }

  /** The nested record does not depend on the order of the flat one's keys. */
  lemma {:induction false} UnflattenIgnoresKeyOrder(a: Flat, b: Flat)
    requires multiset(a) == multiset(b) && PrefixFree(b)
    ensures Built(a) == Built(b)
  {
    if a == [] {
      assert |multiset(b)| == 0;
    } else {
      var init, x := a[..|a| - 1], a[|a| - 1];
      var before, after := SplitAtLast(a, b);
      DropKeepsPrefixFree(before, x, after);
      UnflattenIgnoresKeyOrder(init, before + after);
      MoveToEnd(before, x, after);
    }
  }

  // ---------------------------------------------------------------------
  // _build_record
  // ---------------------------------------------------------------------

  /** `_str_or_none`, with None as the empty string: both are falsy. None where
      `str(value)` raises. */
  function StrOrEmpty(host: Host, v: Value): Option<string> {
    if v.Null? then Some("")
    else match host.str(v) case Some(text) => Some(host.strip(text)) case None => None
  }

  /** A record is identified by its product.item_id, cannot be, or raises. */
  datatype BuildResult = Identified(record: Tree) | Unidentified | BuildRaised

  function BuildRecord(host: Host, nested: Tree): BuildResult {
    if "product" !in nested || !nested["product"].Obj? then Unidentified
    else
      var product := nested["product"].fields;
      match StrOrEmpty(host, if "item_id" in product then product["item_id"] else Null)
      case None => BuildRaised
      case Some(id) =>
        if id == "" then Unidentified
        else Identified(nested["product" := Obj(product["item_id" := Str(id)])])
  }

  const ITEM_ID: seq<string> := ["product", "item_id"]

  /** Building changes the record at product.item_id and nowhere else. */
  lemma BuildRecordTouchesOnlyItemId(host: Host, nested: Tree, q: seq<string>)
    requires BuildRecord(host, nested).Identified?
    ensures var built, id := Obj(BuildRecord(host, nested).record), Lookup(host, Obj(nested), ITEM_ID);
      && id != Null && host.str(id).Some? && Lookup(host, built, ITEM_ID) == Str(host.strip(host.str(id).value))
      && (Apart(ITEM_ID, q) ==> Lookup(host, built, q) == Lookup(host, Obj(nested), q))
  {
    var product := nested["product"].fields;
    var id := Str(StrOrEmpty(host, product["item_id"]).value);
    assert ITEM_ID[1..] == ["item_id"] && ITEM_ID[1..][1..] == [];
    assert Lookup(host, Obj(nested), ITEM_ID) == Lookup(host, Obj(product), ["item_id"]);
    assert Lookup(host, Obj(product), ["item_id"]) == product["item_id"];
    assert BuildRecord(host, nested).record == SetPath(nested, ITEM_ID, id);
    LookupSet(host, nested, ITEM_ID, id);
    if Apart(ITEM_ID, q) {
      LookupElsewhere(host, nested, ITEM_ID, id, q);
    }
  }

  /** Which nested records the producer keeps: those whose product.item_id is
      present and has a non-blank text. */
  lemma IdentifiedIff(host: Host, nested: Tree)
    ensures var id := Lookup(host, Obj(nested), ITEM_ID);
      var inDict := "product" in nested && nested["product"].Obj? && "item_id" in nested["product"].fields;
      && (BuildRecord(host, nested).Identified? <==>
            inDict && id != Null && host.str(id).Some? && host.strip(host.str(id).value) != "")
      && (BuildRecord(host, nested).BuildRaised? <==> inDict && id != Null && host.str(id).None?)
  {
    assert ITEM_ID[1..] == ["item_id"] && ITEM_ID[1..][1..] == [];
    if "product" in nested && nested["product"].Obj? && "item_id" in nested["product"].fields {
      assert Lookup(host, Obj(nested), ITEM_ID) == Lookup(host, nested["product"], ["item_id"]);
      assert Lookup(host, nested["product"], ["item_id"]) == nested["product"].fields["item_id"];
    }
  }
}
