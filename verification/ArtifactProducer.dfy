/** The lazy record loop of `ArtifactProducer`, feeding the usage counters. */
module ArtifactProducer {
  import opened Options
  import opened Values
  import Strictness
  import V = ValidationExecutor
  import M = MappingExecutor

  type Record = map<string, Value>

  /** Input items need not be mappings. */
  datatype Input = Invalid | Item(record: Record)

  /** The stages an item passes through; None where the stage raises. */
  datatype Stages = Stages(
    itemRef: Record -> Option<string>,
    validate: Record -> Option<V.Result>,
    map_: Record -> Option<M.Result>)

  /** `fault_isolation`: absent, or one of its three strategies. */
  datatype FaultIsolation = Absent | FailFast | SkipItem | IgnoreItem

  predicate Reraises(policy: FaultIsolation) { policy == Absent || policy == FailFast }

  /** Writer-facing values: OMIT is MISSING, NULL is None. */
  datatype Cell = MissingCell | NullCell | TextCell(text: string)
  datatype Row = TupleRow(cells: seq<Cell>) | DictRow(fields: map<string, Cell>)

  function ToCell(e: Emission): Cell {
    match e case EmitOmit => MissingCell case EmitNull => NullCell case EmitValue(text) => TextCell(text)
  }

  function ToRow(output: M.Output): Row {
    match output
    case Row(emissions) => TupleRow(seq(|emissions|, i requires 0 <= i < |emissions| => ToCell(emissions[i])))
    case Object(fields) => DictRow(map id | id in fields && !fields[id].EmitOmit? :: ToCell(fields[id]))
  }

  /** A report entry, with the place in the loop that added it. */
  datatype Origin = TypeReject | FromValidation | FailStop | FromMapping
  datatype Entry = Entry(origin: Origin, severity: Strictness.Severity, code: string, itemRef: string)

  function UpperChar(c: char): char { if 'a' <= c <= 'z' then c - 32 as char else c }

  /** `value.upper()` on ASCII text. */
  function Upper(text: string): string { seq(|text|, i requires 0 <= i < |text| => UpperChar(text[i])) }

  /** `_normalize_validation_severity` */
  function NormalizeSeverity(text: string): Strictness.Severity {
    if Upper(text) in {"ERROR", "ERR", "E"} then Strictness.ERROR
    else if Upper(text) in {"WARN", "WARNING", "W"} then Strictness.WARN
    else Strictness.INFO
  }

  /** The texts are the same but for the case of ASCII letters; `upper` has none in
      lower case. */
  ghost predicate IsCaseOf(text: string, upper: string) {
    && |text| == |upper|
    && forall i :: 0 <= i < |text| ==>
         text[i] == upper[i] || ('A' <= upper[i] <= 'Z' && text[i] as int == upper[i] as int + 32)
  }

  lemma UpperIsCaseOf(text: string, upper: string)
    requires forall i :: 0 <= i < |upper| ==> 'A' <= upper[i] <= 'Z'
    ensures Upper(text) == upper <==> IsCaseOf(text, upper)
  {
    if IsCaseOf(text, upper) {
      assert forall i :: 0 <= i < |text| ==> UpperChar(text[i]) == upper[i];
    }
    if Upper(text) == upper {
      assert forall i :: 0 <= i < |text| ==> UpperChar(text[i]) == upper[i];
    }
  }

  /** The normalizer knows six tokens, in any case, and takes everything else for
      an INFO. */
  lemma SeverityIsReadIff(text: string)
    ensures NormalizeSeverity(text) == Strictness.ERROR <==>
      IsCaseOf(text, "ERROR") || IsCaseOf(text, "ERR") || IsCaseOf(text, "E")
    ensures NormalizeSeverity(text) == Strictness.WARN <==>
      IsCaseOf(text, "WARN") || IsCaseOf(text, "WARNING") || IsCaseOf(text, "W")
  {
    UpperIsCaseOf(text, "ERROR");
    UpperIsCaseOf(text, "ERR");
    UpperIsCaseOf(text, "E");
    UpperIsCaseOf(text, "WARN");
    UpperIsCaseOf(text, "WARNING");
    UpperIsCaseOf(text, "W");
  }

  /** The severity of a validation item, as the text it is. */
  function Token(level: V.Level): string {
    match level case FAIL => "FAIL" case WARNING => "WARN" case DROP => "DROP"
  }

  function ReportSeverity(level: V.Level): Strictness.Severity { NormalizeSeverity(Token(level)) }

  /** The normalizer knows the tokens ERROR and WARN and their short forms, of
      which an item's severity uses only one: FAIL and DROP come out as INFO. */
  lemma OnlyWarnIsKnown(level: V.Level)
    ensures ReportSeverity(level) == if level == V.WARNING then Strictness.WARN else Strictness.INFO
  {
    assert Upper(Token(level)) == Token(level);
  }

  function ValidationEntries(items: seq<V.Item>, ref: string): seq<Entry> {
    seq(|items|, i requires 0 <= i < |items| =>
      Entry(FromValidation, ReportSeverity(items[i].severity), items[i].code, ref))
  }

  function MappingEntries(issues: seq<M.Issue>, ref: string): seq<Entry> {
    seq(|issues|, i requires 0 <= i < |issues| => Entry(FromMapping, Strictness.ERROR, M.CodeText(issues[i].code), ref))
  }

  datatype Outcome = Rejected | Raised | Dropped | Stopped | Written(row: Row)
  datatype Processed = Processed(outcome: Outcome, entries: seq<Entry>)

  /** One pass of the loop body. */
  function Process(stages: Stages, item: Input): Processed {
    if item.Invalid? then
      Processed(Rejected, [Entry(TypeReject, Strictness.ERROR, "VALIDATION.INVALID_ITEM_TYPE", "unknown")])
    else
      var ref, validation := stages.itemRef(item.record), stages.validate(item.record);
      if ref.None? || validation.None? then Processed(Raised, [])
      else
        var entries := ValidationEntries(validation.value.items, ref.value);
        match validation.value.decision
        case Drop => Processed(Dropped, entries)
        case Fail => Processed(Stopped, entries + [Entry(FailStop, Strictness.ERROR, "BUILD.FAIL_STOP", ref.value)])
        case _ =>
          match stages.map_(item.record)
          case None => Processed(Raised, entries)
          case Some(mapped) =>
            Processed(Written(ToRow(mapped.output)), entries + MappingEntries(mapped.issues, ref.value))
  }

  predicate Ends(policy: FaultIsolation, outcome: Outcome) {
    outcome.Stopped? || (outcome.Raised? && Reraises(policy))
  }

  /** How many items the loop pulls. */
  function Pulled(stages: Stages, policy: FaultIsolation, items: seq<Input>): (n: nat)
    ensures n <= |items|
  {
    if items == [] then 0
    else if Ends(policy, Process(stages, items[0]).outcome) then 1
    else 1 + Pulled(stages, policy, items[1..])
  }

  /** The rows the items yield ... */
  function Rows(stages: Stages, items: seq<Input>): seq<Row> {
    if items == [] then []
    else
      var outcome := Process(stages, items[|items| - 1]).outcome;
      Rows(stages, items[..|items| - 1]) + if outcome.Written? then [outcome.row] else []
  }

  /** ... and the entries they add to the report. */
  function Report(stages: Stages, items: seq<Input>): seq<Entry> {
    if items == [] then []
    else Report(stages, items[..|items| - 1]) + Process(stages, items[|items| - 1]).entries
  }

  /** None of the first k items ends the loop. */
  ghost predicate GoesOn(stages: Stages, policy: FaultIsolation, items: seq<Input>, k: nat) {
    k <= |items| && forall i :: 0 <= i < k ==> !Ends(policy, Process(stages, items[i]).outcome)
  }

  /** `FeedUsageCollector`, as far as the input counter goes. */
  class FeedUsageCollector {
    var input: nat

    constructor ()
      ensures input == 0
    { input := 0; }

    method IncInput(count: nat)
      modifies this
      ensures input == old(input) + count
    { input := input + count; }

    /** A sequence is counted at once, and handed on as it is; any other iterable
        is counted item by item, as it is consumed. */
    method AttachInputCounter(items: seq<Input>, isSequence: bool) returns (lazily: bool)
      modifies this
      ensures lazily == !isSequence
      ensures input == old(input) + if isSequence then |items| else 0
    {
      if isSequence {
        IncInput(|items|);
        return false;
      }
      lazily := true;
    }
  }

  /** The rows and entries of the first n items. */
  ghost predicate Drained(stages: Stages, items: seq<Input>, n: nat, rows: seq<Row>, report: seq<Entry>) {
    n <= |items| && rows == Rows(stages, items[..n]) && report == Report(stages, items[..n])
  }

  /** The last item pulled raised, and the policy lets it through. */
  ghost predicate EndsByRaising(stages: Stages, policy: FaultIsolation, items: seq<Input>) {
    var n := Pulled(stages, policy, items);
    n > 0 && Process(stages, items[n - 1]).outcome.Raised? && Reraises(policy)
  }

  /** Drains the generator; the iterable it pulls from counts its items if it is
      the lazily counting one. */
  method Records(stages: Stages, policy: FaultIsolation, items: seq<Input>, lazily: bool, usage: FeedUsageCollector)
    returns (rows: seq<Row>, report: seq<Entry>, raised: bool)
    modifies usage
    ensures usage.input == old(usage.input) + if lazily then Pulled(stages, policy, items) else 0
    ensures Over(stages, policy, items, rows, report, raised)
  {
    rows, report := [], [];
    for k := 0 to |items|
      invariant usage.input == old(usage.input) + if lazily then k else 0
      invariant Halfway(stages, policy, items, k, rows, report)
    {
      if lazily {
        usage.IncInput(1);
      }
      var processed := Process(stages, items[k]);
      OneMoreItem(stages, policy, items, k, rows, report, processed);
      report := report + processed.entries;
      if processed.outcome.Written? {
        rows := rows + [processed.outcome.row];
      } else if Ends(policy, processed.outcome) {
        return rows, report, processed.outcome.Raised?;
      }
    }
    raised := false;
    EndsNowhere(stages, policy, items, rows, report);
  }

  /** What the loop has done after k items, none of which ended it. */
  ghost predicate Halfway(stages: Stages, policy: FaultIsolation, items: seq<Input>, k: nat, rows: seq<Row>,
                          report: seq<Entry>)
  {
    Drained(stages, items, k, rows, report) && GoesOn(stages, policy, items, k)
  }

  /** What it has done when it is over. */
  ghost predicate Over(stages: Stages, policy: FaultIsolation, items: seq<Input>, rows: seq<Row>, report: seq<Entry>,
                       raised: bool)
  {
    && Drained(stages, items, Pulled(stages, policy, items), rows, report)
    && (raised <==> EndsByRaising(stages, policy, items))
  }

  /** The next item either ends the loop or takes it one item further. */
  lemma OneMoreItem(stages: Stages, policy: FaultIsolation, items: seq<Input>, k: nat, rows: seq<Row>,
                    report: seq<Entry>, p: Processed)
    requires k < |items| && Halfway(stages, policy, items, k, rows, report) && p == Process(stages, items[k])
    ensures var rows1, report1 := if p.outcome.Written? then rows + [p.outcome.row] else rows, report + p.entries;
      if Ends(policy, p.outcome)
      then Pulled(stages, policy, items) == k + 1 && Over(stages, policy, items, rows1, report1, p.outcome.Raised?)
      else Halfway(stages, policy, items, k + 1, rows1, report1)
  {
    assert items[..k + 1][..k] == items[..k];
    if Ends(policy, p.outcome) {
      PulledUpTo(stages, policy, items, k);
    }
  }

  lemma EndsNowhere(stages: Stages, policy: FaultIsolation, items: seq<Input>, rows: seq<Row>, report: seq<Entry>)
    requires Halfway(stages, policy, items, |items|, rows, report)
    ensures Pulled(stages, policy, items) == |items| && Over(stages, policy, items, rows, report, false)
  {
    PulledAll(stages, policy, items);
  }

  /** The counter attached, then the generator drained: a lazy iterable leaves the
      count of the items pulled, a sequence that of all its items. */
  method ProduceCounted(stages: Stages, policy: FaultIsolation, items: seq<Input>, isSequence: bool,
                        usage: FeedUsageCollector)
    returns (rows: seq<Row>, report: seq<Entry>, raised: bool)
    modifies usage
    ensures usage.input == old(usage.input) + if isSequence then |items| else Pulled(stages, policy, items)
    ensures Over(stages, policy, items, rows, report, raised)
  {
    var lazily := usage.AttachInputCounter(items, isSequence);
    rows, report, raised := Records(stages, policy, items, lazily, usage);
  }

  lemma {:induction false} PulledUpTo(stages: Stages, policy: FaultIsolation, items: seq<Input>, k: nat)
    requires GoesOn(stages, policy, items, k)
    requires k < |items| && Ends(policy, Process(stages, items[k]).outcome)
    ensures Pulled(stages, policy, items) == k + 1
  {
    if k > 0 {
      assert items[1..][k - 1] == items[k];
      forall i | 0 <= i < k - 1 ensures items[1..][i] == items[i + 1] {}
      PulledUpTo(stages, policy, items[1..], k - 1);
    }
  }

  lemma {:induction false} PulledAll(stages: Stages, policy: FaultIsolation, items: seq<Input>)
    requires GoesOn(stages, policy, items, |items|)
    ensures Pulled(stages, policy, items) == |items|
  {
    if items != [] {
      forall i | 0 <= i < |items| - 1 ensures items[1..][i] == items[i + 1] {}
      PulledAll(stages, policy, items[1..]);
    }
  }

  /** Every row comes from an item. */
  lemma {:induction false} RowComesFromItem(stages: Stages, items: seq<Input>, row: Row)
    requires row in Rows(stages, items)
    ensures exists i :: 0 <= i < |items| && Process(stages, items[i]).outcome == Written(row)
  {
    var n := |items| - 1;
    if row in Rows(stages, items[..n]) {
      RowComesFromItem(stages, items[..n], row);
      var i :| 0 <= i < n && Process(stages, items[..n][i]).outcome == Written(row);
      assert items[i] == items[..n][i];
    } else {
      assert Process(stages, items[n]).outcome == Written(row);
    }
  }

  // ---------------------------------------------------------------------
  // Stream semantics
  // ---------------------------------------------------------------------

  /** Nothing is pulled after the first item that ends the loop, and everything is
      when there is none. */
  lemma {:induction false} PulledEndsAtFirstEnd(stages: Stages, policy: FaultIsolation, items: seq<Input>)
    ensures var n := Pulled(stages, policy, items);
      && (forall i :: 0 <= i < n - 1 ==> !Ends(policy, Process(stages, items[i]).outcome))
      && (n < |items| ==> n > 0 && Ends(policy, Process(stages, items[n - 1]).outcome))
  {
    if items != [] && !Ends(policy, Process(stages, items[0]).outcome) {
      var n := Pulled(stages, policy, items);
      PulledEndsAtFirstEnd(stages, policy, items[1..]);
      forall i | 0 <= i < n - 1 ensures !Ends(policy, Process(stages, items[i]).outcome) {
        if i > 0 { assert items[i] == items[1..][i - 1]; }
      }
      if n < |items| && n > 1 { assert items[n - 1] == items[1..][n - 2]; }
    }
  }

  /** With no policy, and with fail_fast, the first item that raises ends the loop;
      the two skipping strategies go on to the next one. */
  lemma RaiseEndsIff(stages: Stages, policy: FaultIsolation, items: seq<Input>, k: nat)
    requires k + 1 < |items| && Process(stages, items[k]).outcome.Raised?
    requires forall i :: 0 <= i < k ==>
      !Process(stages, items[i]).outcome.Raised? && !Process(stages, items[i]).outcome.Stopped?
    ensures Pulled(stages, policy, items) == k + 1 <==> policy in {Absent, FailFast}
    ensures Pulled(stages, policy, items) > k + 1 <==> policy in {SkipItem, IgnoreItem}
  {
    assert policy in {Absent, FailFast, SkipItem, IgnoreItem};
    if policy in {Absent, FailFast} {
      PulledUpTo(stages, policy, items, k);
    } else {
      PulledEndsAtFirstEnd(stages, policy, items);
      assert forall i :: 0 <= i <= k ==> !Ends(policy, Process(stages, items[i]).outcome);
    }
  }

  /** Skip-style isolation: the loop pulls up to and including the first FAIL. */
  lemma SkippingStopsAtFirstFail(stages: Stages, policy: FaultIsolation, items: seq<Input>, f: nat)
    requires !Reraises(policy) && f <= |items|
    requires forall i :: 0 <= i < f ==> !Process(stages, items[i]).outcome.Stopped?
    requires f < |items| ==> Process(stages, items[f]).outcome.Stopped?
    ensures Pulled(stages, policy, items) == if f < |items| then f + 1 else f
    ensures Rows(stages, items[..Pulled(stages, policy, items)]) == Rows(stages, items[..f])
  {
    if f < |items| {
      PulledUpTo(stages, policy, items, f);
      assert items[..f + 1][..f] == items[..f];
    } else {
      PulledAll(stages, policy, items);
    }
  }

  /** Outcomes of one kind among the items. */
  ghost function Count(stages: Stages, items: seq<Input>, kind: Outcome -> bool): nat {
    if items == [] then 0
    else
      Count(stages, items[..|items| - 1], kind)
      + if kind(Process(stages, items[|items| - 1]).outcome) then 1 else 0
  }

  lemma {:induction false} EveryItemIsAccountedFor(stages: Stages, items: seq<Input>)
    ensures |items| == |Rows(stages, items)|
      + Count(stages, items, (o: Outcome) => o.Rejected?) + Count(stages, items, (o: Outcome) => o.Dropped?)
      + Count(stages, items, (o: Outcome) => o.Raised?) + Count(stages, items, (o: Outcome) => o.Stopped?)
  {
    if items != [] { EveryItemIsAccountedFor(stages, items[..|items| - 1]); }
  }

  lemma {:induction false} NoneOfKind(stages: Stages, items: seq<Input>, kind: Outcome -> bool)
    requires forall i :: 0 <= i < |items| ==> !kind(Process(stages, items[i]).outcome)
    ensures Count(stages, items, kind) == 0
  {
    if items != [] { NoneOfKind(stages, items[..|items| - 1], kind); }
  }

  lemma StopsAtMostOnce(stages: Stages, policy: FaultIsolation, items: seq<Input>)
    ensures var n := Pulled(stages, policy, items);
      Count(stages, items[..n], (o: Outcome) => o.Stopped?)
        == if n > 0 && Process(stages, items[n - 1]).outcome.Stopped? then 1 else 0
  {
    var n := Pulled(stages, policy, items);
    PulledEndsAtFirstEnd(stages, policy, items);
    if n > 0 {
      assert items[..n][..n - 1] == items[..n - 1];
      NoneOfKind(stages, items[..n - 1], (o: Outcome) => o.Stopped?);
    }
  }

  /** The lazy input counter equals rows + type rejects + drops + skipped errors,
      plus one if the build was stopped. */
  lemma InputCounterAddsUp(stages: Stages, policy: FaultIsolation, items: seq<Input>)
    requires !Reraises(policy)
    ensures var n := Pulled(stages, policy, items);
      var seen := items[..n];
      var stopped := n > 0 && Process(stages, items[n - 1]).outcome.Stopped?;
      n == |Rows(stages, seen)|
        + Count(stages, seen, (o: Outcome) => o.Rejected?) + Count(stages, seen, (o: Outcome) => o.Dropped?)
        + Count(stages, seen, (o: Outcome) => o.Raised?) + (if stopped then 1 else 0)
  {
    var n := Pulled(stages, policy, items);
    EveryItemIsAccountedFor(stages, items[..n]);
    StopsAtMostOnce(stages, policy, items);
  }

  /** Counting a sequence at once gives the same number exactly when nothing
      before its last item ends the loop; otherwise it counts items that were
      never pulled. */
  lemma EagerCountAgreesIff(stages: Stages, policy: FaultIsolation, items: seq<Input>)
    ensures |items| == Pulled(stages, policy, items)
      <==> forall i :: 0 <= i < |items| - 1 ==> !Ends(policy, Process(stages, items[i]).outcome)
  {
  }

  /** What an item whose reference and validation are there adds to the report:
      one entry per validation item, in order, and then the stop, or one error per
      mapping issue, or nothing. */
  ghost predicate Reported(entries: seq<Entry>, ref: string, validation: V.Result, mapped: Option<M.Result>) {
    var n := |validation.items|;
    var issues := if validation.decision in {V.Pass, V.Warn} && mapped.Some? then mapped.value.issues else [];
    && |entries| == n + |issues| + (if validation.decision == V.Fail then 1 else 0)
    && (forall i :: 0 <= i < n ==>
          && entries[i].origin == FromValidation && entries[i].itemRef == ref
          && entries[i].code == validation.items[i].code
          && entries[i].severity
            == if validation.items[i].severity == V.WARNING then Strictness.WARN else Strictness.INFO)
    && (validation.decision == V.Fail ==> entries[n] == Entry(FailStop, Strictness.ERROR, "BUILD.FAIL_STOP", ref))
    && (forall i :: 0 <= i < |issues| ==>
          entries[n + i] == Entry(FromMapping, Strictness.ERROR, M.CodeText(issues[i].code), ref))
  }

  lemma ItemIsReported(stages: Stages, item: Input)
    ensures item.Invalid? ==>
      Process(stages, item).entries
        == [Entry(TypeReject, Strictness.ERROR, "VALIDATION.INVALID_ITEM_TYPE", "unknown")]
    ensures item.Item? ==>
      var ref, validation := stages.itemRef(item.record), stages.validate(item.record);
      if ref.None? || validation.None? then Process(stages, item).entries == []
      else Reported(Process(stages, item).entries, ref.value, validation.value, stages.map_(item.record))
  {
    forall level: V.Level { OnlyWarnIsKnown(level); }
  }

  /** What becomes of an item: it is written exactly when its reference is there,
      validation lets it through, and mapping does not raise; a cell of the row is
      missing, null or the text, as the emission has it. */
  ghost predicate IsWritten(stages: Stages, item: Input) {
    && item.Item? && stages.itemRef(item.record).Some? && stages.validate(item.record).Some?
    && stages.validate(item.record).value.decision in {V.Pass, V.Warn}
    && stages.map_(item.record).Some?
  }

  ghost predicate Shows(cell: Cell, e: Emission) {
    && (cell == MissingCell <==> e == EmitOmit) && (cell == NullCell <==> e == EmitNull)
    && forall text :: cell == TextCell(text) <==> e == EmitValue(text)
  }

  ghost predicate ShowsOutput(row: Row, output: M.Output) {
    match output
    case Row(emissions) =>
      && row.TupleRow? && |row.cells| == |emissions|
      && forall i :: 0 <= i < |emissions| ==> Shows(row.cells[i], emissions[i])
    case Object(fields) =>
      && row.DictRow?
      && (forall id :: id in row.fields <==> id in fields && fields[id] != EmitOmit)
      && forall id :: id in row.fields ==> Shows(row.fields[id], fields[id])
  }

  lemma WrittenIff(stages: Stages, item: Input)
    ensures Process(stages, item).outcome.Written? <==> IsWritten(stages, item)
    ensures IsWritten(stages, item) ==>
      ShowsOutput(Process(stages, item).outcome.row, stages.map_(item.record).value.output)
  {
  }

  /** And the other outcomes: an item that is no mapping is rejected, a decision to
      drop or to fail is followed, and whatever raises does. */
  lemma OutcomeIff(stages: Stages, item: Input)
    ensures Process(stages, item).outcome == Rejected <==> item == Invalid
    ensures item.Item? ==>
      var ref, validation, mapped := stages.itemRef(item.record), stages.validate(item.record),
                                     stages.map_(item.record);
      var decided := (d: V.Decision) => ref.Some? && validation.Some? && validation.value.decision == d;
      var outcome := Process(stages, item).outcome;
      && (outcome == Dropped <==> decided(V.Drop)) && (outcome == Stopped <==> decided(V.Fail))
      && (outcome == Raised <==>
            ref.None? || validation.None? || (mapped.None? && (decided(V.Pass) || decided(V.Warn))))
  {
  }

  /** The items that are written, in order. */
  ghost function WrittenItems(stages: Stages, items: seq<Input>): seq<Input> {
    if items == [] then []
    else
      WrittenItems(stages, items[..|items| - 1])
      + if IsWritten(stages, items[|items| - 1]) then [items[|items| - 1]] else []
  }

  ghost predicate RowShows(stages: Stages, row: Row, item: Input) {
    IsWritten(stages, item) && ShowsOutput(row, stages.map_(item.record).value.output)
  }

  /** The rows are those of the written items, one for one. */
  lemma {:induction false} RowsShowTheirItems(stages: Stages, items: seq<Input>)
    ensures var rows, written := Rows(stages, items), WrittenItems(stages, items);
      |rows| == |written| && forall i :: 0 <= i < |rows| ==> RowShows(stages, rows[i], written[i])
  {
    hide ShowsOutput, Process, IsWritten;
    if items != [] {
      RowsShowTheirItems(stages, items[..|items| - 1]);
      WrittenIff(stages, items[|items| - 1]);
    }
  }

  /** A FAIL_STOP entry is the last of the report, and there is one exactly when
      the last item pulled was decided FAIL. */
  lemma FailStopIsLast(stages: Stages, policy: FaultIsolation, items: seq<Input>, i: nat)
    requires i < |Report(stages, items[..Pulled(stages, policy, items)])|
    ensures var n := Pulled(stages, policy, items);
      var report := Report(stages, items[..n]);
      report[i].origin == FailStop <==>
        n > 0 && Process(stages, items[n - 1]).outcome.Stopped? && i == |report| - 1
  {
    var n := Pulled(stages, policy, items);
    if n > 0 {
      PulledEndsAtFirstEnd(stages, policy, items);
      assert items[..n][..n - 1] == items[..n - 1];
      var before := items[..n - 1];
      forall j | 0 <= j < n - 1 ensures !Process(stages, before[j]).outcome.Stopped? {
        assert before[j] == items[j];
      }
      NoFailStopBefore(stages, before);
      OneFailStop(stages, items[n - 1]);
    }
  }

  lemma OneFailStop(stages: Stages, item: Input)
    ensures var p := Process(stages, item);
      forall i :: 0 <= i < |p.entries| ==>
        (p.entries[i].origin == FailStop <==> p.outcome.Stopped? && i == |p.entries| - 1)
    ensures Process(stages, item).outcome.Stopped? ==> Process(stages, item).entries != []
  {
  }

  lemma {:induction false} NoFailStopBefore(stages: Stages, items: seq<Input>)
    requires forall j :: 0 <= j < |items| ==> !Process(stages, items[j]).outcome.Stopped?
    ensures forall i :: 0 <= i < |Report(stages, items)| ==> Report(stages, items)[i].origin != FailStop
  {
    if items != [] {
      NoFailStopBefore(stages, items[..|items| - 1]);
      OneFailStop(stages, items[|items| - 1]);
    }
  }

  /** An entry is an error exactly when no validation item is behind it. */
  ghost predicate AllSevere(report: seq<Entry>) {
    forall i :: 0 <= i < |report| ==> (report[i].severity == Strictness.ERROR <==> report[i].origin != FromValidation)
  }

  lemma EntriesOfOneItem(stages: Stages, item: Input)
    ensures AllSevere(Process(stages, item).entries)
  {
    forall level: V.Level ensures ReportSeverity(level) != Strictness.ERROR { OnlyWarnIsKnown(level); }
  }

  /** Errors in the report never come from a validation item: those are reported
      as INFO or WARN whatever their severity was. */
  lemma {:induction false} ValidationEntriesAreNeverErrors(stages: Stages, items: seq<Input>)
    ensures AllSevere(Report(stages, items))
  {
    if items != [] {
      ValidationEntriesAreNeverErrors(stages, items[..|items| - 1]);
      EntriesOfOneItem(stages, items[|items| - 1]);
    }
  }

  // ---------------------------------------------------------------------
  // A build stopped at its first item
  // ---------------------------------------------------------------------

  const FAILED_ITEM: V.Item := V.Item("CODE", "message", "$", None, "module", V.FAIL, None)

  /** Stages under which validation fails every item. */
  function Failing(): Stages {
    Stages((r: Record) => Some("ref"),
           (r: Record) => Some(V.Result([FAILED_ITEM], V.Fail, false)),
           (r: Record) => None)
  }

  /** Two items in a list, the first of them decided FAIL: one is pulled, two are
      counted. */
  lemma EagerCountOvershoots(policy: FaultIsolation)
    ensures var items := [Item(map[]), Item(map[])];
      Pulled(Failing(), policy, items) == 1 < |items|
  {
    assert Process(Failing(), Item(map[])).outcome.Stopped?;
  }

  /** The failure itself enters the report as INFO. */
  lemma FailEntersAsInfo()
    ensures Process(Failing(), Item(map[])).entries
      == [Entry(FromValidation, Strictness.INFO, "CODE", "ref"),
          Entry(FailStop, Strictness.ERROR, "BUILD.FAIL_STOP", "ref")]
  {
    OnlyWarnIsKnown(V.FAIL);
  }
}

/** The producer running a compiled schema. */
module PipelineSoundness {
  import opened Options
  import opened Values
  import opened MappingPlan
  import opened FieldCompiler
  import opened MappingCompiler
  import opened ArtifactProducer
  import opened LinkSoundness
  import opened SM = SchemaMeaning
  import V = ValidationExecutor
  import VC = ValidationCompiler
  import M = MappingExecutor

  // ---------------------------------------------------------------------
  // Item references
  // ---------------------------------------------------------------------

  const REF_KEYS: seq<string> := ["id", "sku", "pk", "uuid", "_id"]

  predicate Present(record: Record, key: string) { key in record && !record[key].Null? }

  /** The first of the keys with a non-blank text; None where `str` raises. */
  function RefFrom(host: Host, record: Record, keys: seq<string>): Option<string> {
    if keys == [] then Some("unknown")
    else if !Present(record, keys[0]) then RefFrom(host, record, keys[1..])
    else match host.str(record[keys[0]])
      case None => None
      case Some(text) => if host.strip(text) != "" then Some(host.strip(text)) else RefFrom(host, record, keys[1..])
  }

  /** The n-th key has this non-blank text, and those before it have none. */
  ghost predicate SettlesAt(host: Host, record: Record, keys: seq<string>, n: nat, ref: string) {
    && n < |keys| && keys[n] in record && record[keys[n]] != Null
    && host.str(record[keys[n]]).Some? && ref == host.strip(host.str(record[keys[n]]).value) && ref != ""
    && forall m :: 0 <= m < n ==> Blank(host, record, keys[m])
  }

  lemma SettlesLater(host: Host, record: Record, keys: seq<string>, n: nat, ref: string)
    requires keys != [] && n > 0
    ensures SettlesAt(host, record, keys, n, ref)
      <==> Blank(host, record, keys[0]) && SettlesAt(host, record, keys[1..], n - 1, ref)
  {
    forall m | 0 <= m < |keys| - 1 ensures keys[1..][m] == keys[m + 1] {}
    if SettlesAt(host, record, keys[1..], n - 1, ref) && Blank(host, record, keys[0]) {
      forall m | 0 <= m < n ensures Blank(host, record, keys[m]) {
        if m > 0 { assert Blank(host, record, keys[1..][m - 1]); }
      }
    }
  }

  /** The reference is the text of the first key that has one, or "unknown" when
      none has. */
  lemma {:induction false} RefIff(host: Host, record: Record, keys: seq<string>, ref: string)
    ensures RefFrom(host, record, keys) == Some(ref) <==>
      (|| (exists n: nat :: SettlesAt(host, record, keys, n, ref))
       || (ref == "unknown" && forall n :: 0 <= n < |keys| ==> Blank(host, record, keys[n])))
  {
    if keys != [] {
      RefIff(host, record, keys[1..], ref);
      forall n: nat | n > 0
        ensures SettlesAt(host, record, keys, n, ref)
          <==> Blank(host, record, keys[0]) && SettlesAt(host, record, keys[1..], n - 1, ref)
      {
        SettlesLater(host, record, keys, n, ref);
      }
      forall n | 0 <= n < |keys| - 1 ensures keys[1..][n] == keys[n + 1] {}
      if Blank(host, record, keys[0]) {
        if exists n: nat :: SettlesAt(host, record, keys[1..], n, ref) {
          var n: nat :| SettlesAt(host, record, keys[1..], n, ref);
          assert SettlesAt(host, record, keys, n + 1, ref);
        }
        assert forall n :: 0 < n < |keys| ==> keys[n] == keys[1..][n - 1];
      } else if RefFrom(host, record, keys) == Some(ref) {
        assert SettlesAt(host, record, keys, 0, ref);
      }
    }
  }

  method ExtractItemRef(host: Host, record: Record) returns (ref: Option<string>)
    ensures ref == RefFrom(host, record, ["id", "sku", "pk", "uuid", "_id"])
  {
    assert REF_KEYS[0..] == REF_KEYS;
    for k := 0 to |REF_KEYS|
      invariant RefFrom(host, record, REF_KEYS[k..]) == RefFrom(host, record, REF_KEYS)
    {
      assert REF_KEYS[k..][1..] == REF_KEYS[k + 1..];
      if Present(record, REF_KEYS[k]) {
        var text := host.str(record[REF_KEYS[k]]);
        if text.None? {
          return None;
        }
        if host.strip(text.value) != "" {
          return Some(host.strip(text.value));
        }
      }
    }
    ref := Some("unknown");
  }

  predicate Textless(host: Host, record: Record, key: string) {
    Present(record, key) && host.str(record[key]).None?
  }

  predicate Blank(host: Host, record: Record, key: string) {
    Present(record, key) ==> host.str(record[key]).Some? && host.strip(host.str(record[key]).value) == ""
  }

  /** The n-th key has a value without text, and nothing before it settles the
      reference. */
  ghost predicate RaisesAt(host: Host, record: Record, keys: seq<string>, n: nat) {
    n < |keys| && Textless(host, record, keys[n]) && forall m :: 0 <= m < n ==> Blank(host, record, keys[m])
  }

  lemma RaisesLater(host: Host, record: Record, keys: seq<string>, n: nat)
    requires keys != [] && n > 0
    ensures RaisesAt(host, record, keys, n)
      <==> Blank(host, record, keys[0]) && RaisesAt(host, record, keys[1..], n - 1)
  {
    forall m | 0 <= m < |keys| - 1 ensures keys[1..][m] == keys[m + 1] {}
    if RaisesAt(host, record, keys[1..], n - 1) && Blank(host, record, keys[0]) {
      forall m | 0 <= m < n ensures Blank(host, record, keys[m]) {
        if m > 0 { assert Blank(host, record, keys[1..][m - 1]); }
      }
    }
  }

  /** Reading the reference raises exactly when a value without text comes before
      any key that settles it. */
  lemma {:induction false} RefRaisesIff(host: Host, record: Record, keys: seq<string>)
    ensures RefFrom(host, record, keys).None? <==> exists n: nat :: RaisesAt(host, record, keys, n)
  {
    if keys != [] {
      RefRaisesIff(host, record, keys[1..]);
      forall n: nat | n > 0
        ensures RaisesAt(host, record, keys, n)
          <==> Blank(host, record, keys[0]) && RaisesAt(host, record, keys[1..], n - 1)
      {
        RaisesLater(host, record, keys, n);
      }
      if Textless(host, record, keys[0]) {
        assert RaisesAt(host, record, keys, 0);
      } else if Blank(host, record, keys[0]) && RefFrom(host, record, keys[1..]).None? {
        var n: nat :| RaisesAt(host, record, keys[1..], n);
        RaisesLater(host, record, keys, n + 1);
      }
    }
  }

  // ---------------------------------------------------------------------
  // Rows
  // ---------------------------------------------------------------------

  /** A compiled schema with its executors and policies. */
  datatype Prepared = Prepared(
    host: Host, plan: Plan, catalog: Catalog,
    rules: seq<VC.RulePlan>, modules: map<string, VC.ModuleSpec>, strictness: V.Policy, profile: string)

  function Validated(p: Prepared, r: Record): V.Result {
    V.Validate(p.host, p.modules, p.strictness, p.rules, r, p.profile)
  }

  ghost function StagesOf(p: Prepared): Stages
    requires M.ValidPlan(p.plan)
  {
    Stages((r: Record) => RefFrom(p.host, r, REF_KEYS),
           (r: Record) => Some(Validated(p, r)),
           (r: Record) => M.Run(p.host, p.catalog, p.plan, r))
  }

  /** Whatever the items, a cleanly compiled csv_row schema writes only tuples with
      one cell per declared column: also for tombstones, and for items whose
      mapping reported issues. */
  lemma RowsHaveTheColumns(env: Env, section: Section, p: Prepared, policy: FaultIsolation, items: seq<Input>)
    requires CompileSection(env, section).Compiled? && CompileSection(env, section).diags == []
    requires p.plan == CompileSection(env, section).plan && p.catalog == env.catalog && p.plan.kind == CsvRow
    ensures M.ValidPlan(p.plan) && p.plan.order.Some?
    ensures var stages := StagesOf(p);
      forall row :: row in Rows(stages, items[..Pulled(stages, policy, items)])
        ==> row.TupleRow? && |row.cells| == |p.plan.order.value|
  {
    CleanCompilationIsLinked(env, section);
    var stages := StagesOf(p);
    var seen := items[..Pulled(stages, policy, items)];
    forall row | row in Rows(stages, seen)
      ensures row.TupleRow? && |row.cells| == |p.plan.order.value|
    {
      RowComesFromItem(stages, seen, row);
      var i :| 0 <= i < |seen| && Process(stages, seen[i]).outcome == Written(row);
      WrittenRowIsMapped(p, seen[i], row);
      CleanCsvPlanRunsLinked(p.host, env, section, seen[i].record);
    }
  }

  /** The row of a record: one cell per declared column, each showing what its
      field says of the record. */
  ghost predicate IsTupleOf(p: Prepared, env: Env, schema: Schema, record: Record, row: Row) {
    && row.TupleRow? && |row.cells| == |schema.columns|
    && forall i :: 0 <= i < |schema.columns| ==>
         CellShows(p, env, schema, record, schema.columns[i], row.cells[i])
  }

  ghost predicate CellShows(p: Prepared, env: Env, schema: Schema, record: Record, id: string, cell: Cell) {
    exists e :: SM.Holds(p.host, env, schema, record, id, e) && Shows(cell, e)
  }

  /** From the schema to the feed: whatever the items, a csv_row section whose blocks
      are in order writes one row per item that is written, in order, and each says
      of its record what the section says. */
  lemma FeedMeansItsSchema(env: Env, section: Section, p: Prepared, policy: FaultIsolation, items: seq<Input>)
    requires CleanSchema(env, section) && section.outputKind == Str("csv_row")
    requires CompileSection(env, section).Compiled?
    requires p.plan == CompileSection(env, section).plan && p.catalog == env.catalog
    ensures M.ValidPlan(p.plan)
    ensures var stages := StagesOf(p);
      var seen := items[..Pulled(stages, policy, items)];
      var rows, written := Rows(stages, seen), WrittenItems(stages, seen);
      && |rows| == |written|
      && forall k :: 0 <= k < |rows| ==>
           written[k].Item? && IsTupleOf(p, env, SchemaOf(section), written[k].record, rows[k])
  {
    hide CompileSection, CleanSchema, SM.Readable, SM.CellMeans, SM.Reports;
    CsvSchemaMeansItsText(p.host, env, section, map[]);
    var stages := StagesOf(p);
    var seen := items[..Pulled(stages, policy, items)];
    var rows, written := Rows(stages, seen), WrittenItems(stages, seen);
    RowsShowTheirItems(stages, seen);
    forall k | 0 <= k < |rows|
      ensures written[k].Item? && IsTupleOf(p, env, SchemaOf(section), written[k].record, rows[k])
    {
      assert RowShows(stages, rows[k], written[k]);
      RowMeansItsRecord(env, section, p, written[k].record, rows[k]);
    }
  }

  lemma RowMeansItsRecord(env: Env, section: Section, p: Prepared, record: Record, row: Row)
    requires CleanSchema(env, section) && section.outputKind == Str("csv_row")
    requires CompileSection(env, section).Compiled? && M.ValidPlan(p.plan)
    requires p.plan == CompileSection(env, section).plan && p.catalog == env.catalog
    requires M.Run(p.host, p.catalog, p.plan, record).Some?
    requires ShowsOutput(row, M.Run(p.host, p.catalog, p.plan, record).value.output)
    ensures IsTupleOf(p, env, SchemaOf(section), record, row)
  {
    hide CompileSection, CleanSchema, SM.IsRow, M.Run, ShowsOutput, IsTupleOf;
    CsvSchemaMeansItsText(p.host, env, section, record);
    TupleShows(p, env, SchemaOf(section), record, M.Run(p.host, p.catalog, p.plan, record).value, row);
  }

  lemma TupleShows(p: Prepared, env: Env, schema: Schema, record: Record, r: M.Result, row: Row)
    requires SM.Readable(env, schema, schema.columns) && SM.IsRow(p.host, env, schema, record, r)
    requires ShowsOutput(row, r.output)
    ensures IsTupleOf(p, env, schema, record, row)
  {
    hide SM.Holds, Shows, SM.Reports;
    forall i | 0 <= i < |schema.columns|
      ensures CellShows(p, env, schema, record, schema.columns[i], row.cells[i])
    {
      var e := r.output.emissions[i];
      assert SM.Holds(p.host, env, schema, record, schema.columns[i], e) && Shows(row.cells[i], e);
    }
  }

  lemma WrittenRowIsMapped(p: Prepared, item: Input, row: Row)
    requires M.ValidPlan(p.plan) && Process(StagesOf(p), item).outcome == Written(row)
    ensures item.Item? && M.Run(p.host, p.catalog, p.plan, item.record).Some?
    ensures row == ToRow(M.Run(p.host, p.catalog, p.plan, item.record).value.output)
  {
  }

  /** An item raises exactly when its reference does, or when it is not held back
      by validation and some field it maps ends with a value that has no text. */
  lemma ItemRaisesIff(p: Prepared, item: Input)
    requires M.ValidPlan(p.plan)
    ensures Process(StagesOf(p), item).outcome.Raised? <==>
      item.Item?
      && (|| RefFrom(p.host, item.record, REF_KEYS).None?
          || (Validated(p, item.record).decision in {V.Pass, V.Warn}
              && M.SomeFieldRaises(p.host, p.catalog, p.plan, item.record,
                                   if p.plan.kind == CsvRow then M.Columns(p.plan).0 else p.plan.fieldIds)))
  {
    if item.Item? {
      M.RunRaisesIff(p.host, p.catalog, p.plan, item.record);
    }
  }
}
