/** `ConnectorMapper` and `ProductProducer`: from raw source records, through
    routed flat records, to nested records. */
module ConnectorMapper {
  import opened Options
  import opened Permutations
  import opened PyDict
  import opened Values
  import opened RecordBuilder

  datatype FieldMapping = FieldMapping(source: string, target: string, required: bool)
  datatype Config = Config(mappings: seq<FieldMapping>, continueOnError: bool)

  type Routes = seq<Entry<string, string>>

  /** The dict comprehension {m.source: m.target}. */
  function RoutesOf(mappings: seq<FieldMapping>): Routes {
    if mappings == [] then []
    else
      var last := mappings[|mappings| - 1];
      Put(RoutesOf(mappings[..|mappings| - 1]), last.source, last.target)
  }

  /** No later mapping has the same source. */
  ghost predicate IsLast(mappings: seq<FieldMapping>, i: nat) {
    i < |mappings| && forall j :: i < j < |mappings| ==> mappings[j].source != mappings[i].source
  }

  /** e is what some mapping says, and none after it says otherwise. */
  ghost predicate IsMapped(mappings: seq<FieldMapping>, e: Entry<string, string>) {
    exists i: nat :: IsLast(mappings, i) && e == Entry(mappings[i].source, mappings[i].target)
  }

  /** The routes are the mappings, each source with the target of its last one. */
  lemma {:induction false} RoutesAreMappings(mappings: seq<FieldMapping>)
    ensures Distinct(RoutesOf(mappings))
    ensures forall e :: e in RoutesOf(mappings) <==> IsMapped(mappings, e)
  {
    if mappings != [] {
      var init, last := mappings[..|mappings| - 1], mappings[|mappings| - 1];
      RoutesAreMappings(init);
      PutDistinct(RoutesOf(init), last.source, last.target);
      forall e ensures e in RoutesOf(mappings) <==> IsMapped(mappings, e) {
        PutEntry(RoutesOf(init), last.source, last.target, e);
        MappedSnoc(init, last, e);
        assert mappings == init + [last];
      }
    }
  }

  lemma MappedSnoc(mappings: seq<FieldMapping>, m: FieldMapping, e: Entry<string, string>)
    ensures IsMapped(mappings + [m], e)
      <==> e == Entry(m.source, m.target) || (IsMapped(mappings, e) && e.key != m.source)
  {
    var all := mappings + [m];
    assert IsLast(all, |mappings|);
    if IsMapped(mappings, e) && e.key != m.source {
      var i: nat :| IsLast(mappings, i) && e == Entry(mappings[i].source, mappings[i].target);
      assert IsLast(all, i);
    }
    if IsMapped(all, e) {
      var i: nat :| IsLast(all, i) && e == Entry(all[i].source, all[i].target);
      if i < |mappings| {
        assert all[|mappings|].source != all[i].source;
        assert forall j :: i < j < |mappings| ==> all[j] == mappings[j];
        assert IsLast(mappings, i);
      }
    }
  }

  predicate Required(mappings: seq<FieldMapping>, source: string) {
    exists m :: m in mappings && m.source == source && m.required
  }

  /** One raw record is routed, skipped, or stops the stream. */
  datatype Routed = Output(flat: Flat) | Skipped | Stopped

  /** The record does not have the source of some required mapping. */
  ghost predicate LacksRequired(cfg: Config, record: map<string, Value>) {
    exists m :: m in cfg.mappings && m.required && m.source !in record
  }

  /** Looking at the routes alone finds such a source if there is one. */
  lemma LacksRouteIff(cfg: Config, record: map<string, Value>)
    ensures var routes := RoutesOf(cfg.mappings);
      LacksRequired(cfg, record) <==>
        exists i :: 0 <= i < |routes| && routes[i].key !in record && Required(cfg.mappings, routes[i].key)
  {
    var routes := RoutesOf(cfg.mappings);
    RoutesAreMappings(cfg.mappings);
    if LacksRequired(cfg, record) {
      var m :| m in cfg.mappings && m.required && m.source !in record;
      var i := LastOf(cfg.mappings, m.source);
      var e := Entry(m.source, cfg.mappings[i].target);
      assert IsMapped(cfg.mappings, e);
      var k :| 0 <= k < |routes| && routes[k] == e;
    }
  }

  lemma {:induction false} LastOf(mappings: seq<FieldMapping>, source: string) returns (i: nat)
    requires exists m :: m in mappings && m.source == source
    ensures IsLast(mappings, i) && mappings[i].source == source
  {
    var n := |mappings| - 1;
    if mappings[n].source == source {
      i := n;
    } else {
      assert mappings == mappings[..n] + [mappings[n]];
      i := LastOf(mappings[..n], source);
      assert forall j :: i < j < n ==> mappings[j] == mappings[..n][j];
    }
  }

  /** The present sources under their targets, as successive dict assignments. */
  function Present(routes: Routes, record: map<string, Value>): Flat {
    if routes == [] then []
    else
      var rest, last := Present(routes[..|routes| - 1], record), routes[|routes| - 1];
      if last.key in record then Put(rest, last.value, record[last.key]) else rest
  }

  method RouteRecord(cfg: Config, record: map<string, Value>) returns (r: Routed)
    ensures LacksRequired(cfg, record) ==> r == if cfg.continueOnError then Skipped else Stopped
    ensures !LacksRequired(cfg, record) ==> r == Output(Present(RoutesOf(cfg.mappings), record))
  {
    var routes := RoutesOf(cfg.mappings);
    LacksRouteIff(cfg, record);
    var output: Flat := [];
    for k := 0 to |routes|
      invariant output == Present(routes[..k], record)
      invariant forall i :: 0 <= i < k ==> routes[i].key in record || !Required(cfg.mappings, routes[i].key)
    {
      assert routes[..k + 1][..k] == routes[..k];
      var route := routes[k];
      if route.key in record {
        output := Put(output, route.value, record[route.key]);
      } else if Required(cfg.mappings, route.key) {
        return if cfg.continueOnError then Skipped else Stopped;
      }
    }
    assert routes[..|routes|] == routes;
    r := Output(output);
  }

  /** The flat records the stream yields before it ends or stops. */
  ghost function YieldedBy(cfg: Config, records: seq<map<string, Value>>): seq<Flat> {
    if records == [] then []
    else if LacksRequired(cfg, records[0]) then
      if cfg.continueOnError then YieldedBy(cfg, records[1..]) else []
    else [Present(RoutesOf(cfg.mappings), records[0])] + YieldedBy(cfg, records[1..])
  }

  /** Raises exactly when a record lacks a required source and errors are not
      to be skipped. */
  method ApplyStream(cfg: Config, records: seq<map<string, Value>>) returns (out: seq<Flat>, raised: bool)
    ensures out == YieldedBy(cfg, records)
    ensures raised <==> !cfg.continueOnError && exists record :: record in records && LacksRequired(cfg, record)
  {
    out := [];
    for k := 0 to |records|
      invariant out + YieldedBy(cfg, records[k..]) == YieldedBy(cfg, records)
      invariant forall i :: 0 <= i < k ==> cfg.continueOnError || !LacksRequired(cfg, records[i])
    {
      assert records[k..][1..] == records[k + 1..];
      var routed := RouteRecord(cfg, records[k]);
      match routed {
        case Output(flat) => out := out + [flat];
        case Skipped =>
        case Stopped => return out, true;
      }
    }
    raised := false;
  }

  /** Keeps the identified records, and ends on the first that raises. */
  method ProduceStream(host: Host, mapped: seq<Flat>) returns (records: seq<Tree>, raised: bool)
    ensures records == Kept(host, mapped)
    ensures raised <==> exists i :: 0 <= i < |mapped| && BuildRecord(host, Built(mapped[i])).BuildRaised?
  {
    records := [];
    assert mapped[0..] == mapped;
    for k := 0 to |mapped|
      invariant records + Kept(host, mapped[k..]) == Kept(host, mapped)
      invariant forall i :: 0 <= i < k ==> !BuildRecord(host, Built(mapped[i])).BuildRaised?
    {
      assert mapped[k..][1..] == mapped[k + 1..];
      var nested := Unflatten(mapped[k]);
      match BuildRecord(host, nested) {
        case BuildRaised => return records, true;
        case Unidentified =>
        case Identified(record) => records := records + [record];
      }
    }
    raised := false;
  }

  function Kept(host: Host, mapped: seq<Flat>): seq<Tree> {
    if mapped == [] then []
    else match BuildRecord(host, Built(mapped[0]))
      case BuildRaised => []
      case Unidentified => Kept(host, mapped[1..])
      case Identified(record) => [record] + Kept(host, mapped[1..])
  }

  /** The record routed, unless it lacks a required source. */
  ghost function RoutedAlone(cfg: Config): map<string, Value> -> Option<Flat> {
    (record: map<string, Value>) =>
      if LacksRequired(cfg, record) then None else Some(Present(RoutesOf(cfg.mappings), record))
  }

  lemma CompactCons<A, B>(f: A -> Option<B>, x: A, xs: seq<A>)
    ensures Compact(f, [x] + xs) == (match f(x) case Some(y) => [y] case None => []) + Compact(f, xs)
  {
    CompactAppend(f, [x], xs);
    CompactOne(f, x);
  }

  /** The stream is the comprehension over the records that can be routed: over all
      of them when errors are skipped, and otherwise over those before the first
      that lacks a required source. */
  lemma {:induction false} StreamIsComprehension(cfg: Config, records: seq<map<string, Value>>, n: nat)
    requires n <= |records|
    requires cfg.continueOnError ==> n == |records|
    requires !cfg.continueOnError ==>
      (forall i :: 0 <= i < n ==> !LacksRequired(cfg, records[i])) && (n < |records| ==> LacksRequired(cfg, records[n]))
    ensures YieldedBy(cfg, records) == Compact(RoutedAlone(cfg), records[..n])
  {
    if records != [] && n > 0 {
      assert records[..n] == [records[0]] + records[1..][..n - 1];
      StreamIsComprehension(cfg, records[1..], n - 1);
      CompactCons(RoutedAlone(cfg), records[0], records[1..][..n - 1]);
    }
  }

  ghost function KeptAlone(host: Host): Flat -> Option<Tree> {
    (flat: Flat) => match BuildRecord(host, Built(flat))
      case Identified(record) => Some(record)
      case _ => None
  }

  /** The producer keeps the identified records before the first that raises. */
  lemma {:induction false} KeptIsComprehension(host: Host, mapped: seq<Flat>, n: nat)
    requires n <= |mapped| && forall i :: 0 <= i < n ==> !BuildRecord(host, Built(mapped[i])).BuildRaised?
    requires n < |mapped| ==> BuildRecord(host, Built(mapped[n])).BuildRaised?
    ensures Kept(host, mapped) == Compact(KeptAlone(host), mapped[..n])
  {
    if mapped != [] && n > 0 {
      assert mapped[..n] == [mapped[0]] + mapped[1..][..n - 1];
      KeptIsComprehension(host, mapped[1..], n - 1);
      CompactCons(KeptAlone(host), mapped[0], mapped[1..][..n - 1]);
    }
  }

  // ---------------------------------------------------------------------
  // From source keys to mapped targets
  // ---------------------------------------------------------------------

  ghost predicate TargetsApart(routes: Routes) {
    forall i, j :: 0 <= i < |routes| && 0 <= j < |routes| && i != j
      ==> Apart(Split(routes[i].value), Split(routes[j].value))
  }

  /** e is a route whose source was present, with the value found there. */
  ghost predicate IsRouted(routes: Routes, record: map<string, Value>, e: Entry<string, Value>) {
    exists i :: 0 <= i < |routes| && routes[i].value == e.key && routes[i].key in record
      && record[routes[i].key] == e.value
  }

  /** Every entry of the routed record is a route whose source was present. */
  lemma {:induction false} PresentComesFromRoutes(routes: Routes, record: map<string, Value>)
    requires TargetsApart(routes)
    ensures forall e :: e in Present(routes, record) ==> IsRouted(routes, record, e)
    ensures PrefixFree(Present(routes, record))
  {
    if routes != [] {
      var init, last := routes[..|routes| - 1], routes[|routes| - 1];
      var rest := Present(init, record);
      PresentComesFromRoutes(init, record);
      forall e | IsRouted(init, record, e) ensures IsRouted(routes, record, e) {
        RoutedInMore(routes, record, e);
      }
      if last.key in record {
        RouteIsAppended(routes, record);
        assert routes[|routes| - 1] == last;
        assert IsRouted(routes, record, Entry(last.value, record[last.key]));
      }
    }
  }

  lemma RoutedInMore(routes: Routes, record: map<string, Value>, e: Entry<string, Value>)
    requires routes != [] && IsRouted(routes[..|routes| - 1], record, e)
    ensures IsRouted(routes, record, e)
  {
  }

  /** A new target is appended, apart from all the earlier ones. */
  lemma RouteIsAppended(routes: Routes, record: map<string, Value>)
    requires routes != [] && TargetsApart(routes)
    requires routes[|routes| - 1].key in record
    requires var rest := Present(routes[..|routes| - 1], record);
      PrefixFree(rest) && forall e :: e in rest ==> IsRouted(routes[..|routes| - 1], record, e)
    ensures var last := routes[|routes| - 1];
      Present(routes, record) == Present(routes[..|routes| - 1], record) + [Entry(last.value, record[last.key])]
    ensures PrefixFree(Present(routes, record))
  {
    var rest, last := Present(routes[..|routes| - 1], record), routes[|routes| - 1];
    forall i | 0 <= i < |rest| ensures Apart(Split(rest[i].key), Split(last.value)) && rest[i].key != last.value {
      assert rest[i] in rest;
      var j :| 0 <= j < |routes| - 1 && routes[..|routes| - 1][j].value == rest[i].key;
      assert Apart(Split(routes[j].value), Split(last.value));
    }
    PutShape(rest, last.value, record[last.key]);
  }

  /** One more route changes the flat record at its end only. */
  lemma PresentSnoc(routes: Routes, record: map<string, Value>)
    requires routes != [] && TargetsApart(routes)
    ensures var init, last := Present(routes[..|routes| - 1], record), routes[|routes| - 1];
      Present(routes, record) == if last.key in record then init + [Entry(last.value, record[last.key])] else init
  {
    if routes[|routes| - 1].key in record {
      PresentComesFromRoutes(routes[..|routes| - 1], record);
      RouteIsAppended(routes, record);
    }
  }

  lemma {:induction false} PresentHasRoute(routes: Routes, record: map<string, Value>, i: nat)
    requires TargetsApart(routes) && i < |routes| && routes[i].key in record
    ensures Entry(routes[i].value, record[routes[i].key]) in Present(routes, record)
  {
    var init := routes[..|routes| - 1];
    PresentSnoc(routes, record);
    if i < |init| {
      assert init[i] == routes[i];
      PresentHasRoute(init, record, i);
    }
  }

  /** Of different mappings neither the sources are the same, nor does one target
      lead to or through the other. */
  ghost predicate Separate(mappings: seq<FieldMapping>) {
    forall i, j :: 0 <= i < |mappings| && 0 <= j < |mappings| && i != j
      ==> mappings[i].source != mappings[j].source && Apart(Split(mappings[i].target), Split(mappings[j].target))
  }

  /** Then the routes are the mappings as they stand. */
  lemma {:induction false} RoutesInOrder(mappings: seq<FieldMapping>)
    requires Separate(mappings)
    ensures |RoutesOf(mappings)| == |mappings| && TargetsApart(RoutesOf(mappings))
    ensures forall i :: 0 <= i < |mappings| ==>
      RoutesOf(mappings)[i] == Entry(mappings[i].source, mappings[i].target)
  {
    if mappings != [] {
      var init, last := mappings[..|mappings| - 1], mappings[|mappings| - 1];
      RoutesInOrder(init);
      PutShape(RoutesOf(init), last.source, last.target);
    }
  }

  /** End to end: reading a mapped target from the record built of a raw one gives
      the raw value under the source. Only product.item_id, stripped to a string,
      and the paths through or above it can differ. */
  lemma MappedTargetReadsSource(host: Host, cfg: Config, record: map<string, Value>, m: FieldMapping)
    requires Separate(cfg.mappings) && m in cfg.mappings && m.source in record && m.target != ""
    requires BuildRecord(host, Built(Present(RoutesOf(cfg.mappings), record))).Identified?
    ensures var built := BuildRecord(host, Built(Present(RoutesOf(cfg.mappings), record))).record;
      && (Apart(["product", "item_id"], Split(m.target)) ==> Extract(host, built, m.target) == record[m.source])
      && (Split(m.target) == ["product", "item_id"] ==>
            && host.str(record[m.source]).Some?
            && Extract(host, built, m.target) == Str(host.strip(host.str(record[m.source]).value)))
  {
    var routes := RoutesOf(cfg.mappings);
    var flat := Present(routes, record);
    RoutesInOrder(cfg.mappings);
    var i :| 0 <= i < |cfg.mappings| && cfg.mappings[i] == m;
    PresentComesFromRoutes(routes, record);
    PresentHasRoute(routes, record, i);
    var k :| 0 <= k < |flat| && flat[k] == Entry(m.target, record[m.source]);
    BuiltHoldsEntries(host, flat, k);
    BuildRecordTouchesOnlyItemId(host, Built(flat), Split(m.target));
  }
}
