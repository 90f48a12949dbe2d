/** `FloodControlFilter`: which records reach the strategy of its mode, and what
    becomes of the ones that strategy suppresses. */
module FloodControl {
  import opened FloodCache
  import opened Options
  import D = Deduplicator
  import R = RateLimiter
  import S = SummaryEmitter

  /** A log record as far as the filter looks at it: its key, whether it carries
      the force-log attribute, and whether its level may be suppressed in the
      active context. */
  datatype LogRecord = LogRecord(key: Key, forced: bool, suppressible: bool) {
    predicate Controlled() { !forced && suppressible }
  }

  datatype Timed = Timed(record: LogRecord, at: real)

  /** The configured strategy, with its state. */
  datatype Mode =
    | AllowAll
    | SuppressContext
    | RateLimit(limits: R.Config, windows: R.State)
    | Deduplicate(dedup: D.Config, seen: D.State)

  predicate Suppresses(mode: Mode, e: Event) {
    match mode
    case AllowAll => false
    case SuppressContext => true
    case RateLimit(cfg, s) => R.Suppresses(cfg, s, e)
    case Deduplicate(cfg, s) => D.Suppresses(cfg, s, e)
  }

  function Step(mode: Mode, e: Event): Mode {
    match mode
    case RateLimit(cfg, s) => RateLimit(cfg, R.Step(cfg, s, e))
    case Deduplicate(cfg, s) => Deduplicate(cfg, D.Step(cfg, s, e))
    case _ => mode
  }

  datatype Strategy =
    | AllowingAll
    | SuppressingContext
    | Limiting(limiter: R.RateLimitStrategy)
    | Deduplicating(deduplicator: D.DeduplicateStrategy)
  {
    function Objects(): set<object> {
      match this
      case Limiting(limiter) => {limiter}
      case Deduplicating(deduplicator) => {deduplicator}
      case _ => {}
    }

    function Now(): Mode
      reads Objects()
    {
      match this
      case AllowingAll => AllowAll
      case SuppressingContext => SuppressContext
      case Limiting(limiter) => RateLimit(limiter.cfg, limiter.Now())
      case Deduplicating(deduplicator) => Deduplicate(deduplicator.cfg, deduplicator.Now())
    }
  }

  class FloodControlFilter {
    const strategy: Strategy
    const emitter: Option<S.SummaryEmitter>

    constructor (strategy: Strategy, emitter: Option<S.SummaryEmitter>)
      ensures this.strategy == strategy && this.emitter == emitter
    {
      this.strategy, this.emitter := strategy, emitter;
    }

    function Summaries(): Option<S.State>
      reads if emitter.Some? then {emitter.value} else {}
    { if emitter.Some? then Some(emitter.value.Now()) else None }

    /** Forced records, and records the context does not put under flood control,
        pass without leaving a trace; the others are the strategy's to decide, and
        exactly the suppressed ones reach the summary, if there is one. */
    method Filter(record: LogRecord, now: real) returns (allow: bool, summary: nat)
      modifies strategy.Objects(), if emitter.Some? then {emitter.value} else {}
      ensures record.forced || !record.suppressible ==> allow && strategy.Now() == old(strategy.Now())
      ensures !record.forced && record.suppressible ==>
        && allow == !Suppresses(old(strategy.Now()), Event(record.key, now))
        && strategy.Now() == Step(old(strategy.Now()), Event(record.key, now))
      ensures strategy.AllowingAll? ==> allow
      ensures strategy.SuppressingContext? ==> allow == (record.forced || !record.suppressible)
      ensures allow || emitter.None? ==> summary == 0 && Summaries() == old(Summaries())
      ensures !allow && emitter.Some? ==>
        && Summaries() == Some(S.Step(emitter.value.cfg, old(emitter.value.Now()), Event(record.key, now)))
        && summary == S.EmittedCount(emitter.value.cfg, old(emitter.value.Now()), Event(record.key, now))
    {
      if record.forced || !record.suppressible {
        return true, 0;
      }
      var suppress;
      match strategy {
        case AllowingAll => suppress := false;
        case SuppressingContext => suppress := true;
        case Limiting(limiter) => suppress := limiter.ShouldSuppress(record.key, now);
        case Deduplicating(deduplicator) => suppress := deduplicator.ShouldSuppress(record.key, now);
      }
      summary := 0;
      if suppress && emitter.Some? {
        summary := emitter.value.RecordSuppression(record.key, now);
      }
      allow := !suppress;
    }

    /** A whole log stream, from a fresh emitter: no refused record of any key goes
        unaccounted. */
    method FilterAll(stream: seq<Timed>) returns (verdicts: seq<bool>, reports: seq<nat>)
      requires emitter.Some? && emitter.value.Now() == S.EMPTY
      modifies strategy.Objects(), if emitter.Some? then {emitter.value} else {}
      ensures Followed(emitter.value.cfg, old(strategy.Now()), stream, verdicts, reports,
                       strategy.Now(), emitter.value.Now())
      ensures Accounted(stream, verdicts, reports, emitter.value.Now(), emitter.value.cfg,
                        Suppressed(old(strategy.Now()), stream))
    {
      ghost var mode, cfg := strategy.Now(), emitter.value.cfg;
      verdicts, reports := [], [];
      for n := 0 to |stream|
        invariant Followed(cfg, mode, stream[..n], verdicts, reports, strategy.Now(), emitter.value.Now())
      {
        assert stream[..n + 1] == stream[..n] + [stream[n]];
        OneMoreRecord(cfg, mode, stream[..n], stream[n], verdicts, reports, strategy.Now(), emitter.value.Now());
        var allow, summary := Filter(stream[n].record, stream[n].at);
        verdicts, reports := verdicts + [allow], reports + [summary];
      }
      assert stream[..|stream|] == stream;
      HeldBackRecordsAreConserved(mode, cfg, stream);
    }
  }

  /** The strategy after a log stream. */
  function After(mode: Mode, stream: seq<Timed>): Mode {
    if stream == [] then mode
    else
      var before, last := After(mode, stream[..|stream| - 1]), stream[|stream| - 1];
      if last.record.Controlled() then Step(before, Event(last.record.key, last.at)) else before
  }

  /** The filter refuses this record after the stream. */
  predicate Refuses(mode: Mode, stream: seq<Timed>, t: Timed) {
    t.record.Controlled() && Suppresses(After(mode, stream), Event(t.record.key, t.at))
  }

  /** The events the summary sees. */
  function Suppressed(mode: Mode, stream: seq<Timed>): seq<Event> {
    if stream == [] then []
    else
      var before, t := stream[..|stream| - 1], stream[|stream| - 1];
      Suppressed(mode, before) + if Refuses(mode, before, t) then [Event(t.record.key, t.at)] else []
  }

  /** What the filter returns for each record: whether it passes ... */
  function Verdicts(mode: Mode, stream: seq<Timed>): (verdicts: seq<bool>)
    ensures |verdicts| == |stream|
  {
    if stream == [] then []
    else
      var before := stream[..|stream| - 1];
      Verdicts(mode, before) + [!Refuses(mode, before, stream[|stream| - 1])]
  }

  /** ... and the count of the summary it causes, 0 when there is none. */
  function Reports(cfg: S.Config, mode: Mode, stream: seq<Timed>): (reports: seq<nat>)
    ensures |reports| == |stream|
  {
    if stream == [] then []
    else
      var before, t := stream[..|stream| - 1], stream[|stream| - 1];
      Reports(cfg, mode, before)
      + [if Refuses(mode, before, t)
         then S.EmittedCount(cfg, S.Run(cfg, Suppressed(mode, before)), Event(t.record.key, t.at)) else 0]
  }

  /** What the filter has returned for the stream, and where it stands. */
  ghost predicate Followed(cfg: S.Config, mode: Mode, stream: seq<Timed>, verdicts: seq<bool>, reports: seq<nat>,
                           now: Mode, summaries: S.State)
  {
    && verdicts == Verdicts(mode, stream) && reports == Reports(cfg, mode, stream)
    && now == After(mode, stream) && summaries == S.Run(cfg, Suppressed(mode, stream))
  }

  lemma OneMoreRecord(cfg: S.Config, mode: Mode, stream: seq<Timed>, t: Timed, verdicts: seq<bool>,
                      reports: seq<nat>, now: Mode, summaries: S.State)
    requires Followed(cfg, mode, stream, verdicts, reports, now, summaries)
    ensures var e := Event(t.record.key, t.at);
      var refuses := t.record.Controlled() && Suppresses(now, e);
      Followed(cfg, mode, stream + [t], verdicts + [!refuses],
               reports + [if refuses then S.EmittedCount(cfg, summaries, e) else 0],
               if t.record.Controlled() then Step(now, e) else now,
               if refuses then S.Step(cfg, summaries, e) else summaries)
  {
    assert (stream + [t])[..|stream|] == stream;
    S.RunSnoc(cfg, Suppressed(mode, stream), Event(t.record.key, t.at));
    assert Suppressed(mode, stream) + [] == Suppressed(mode, stream);
  }

  /** Records of k that were refused. */
  function Refused(stream: seq<Timed>, verdicts: seq<bool>, k: Key): nat
    requires |verdicts| == |stream|
  {
    if stream == [] then 0
    else
      var n := |stream| - 1;
      Refused(stream[..n], verdicts[..n], k) + if !verdicts[n] && stream[n].record.key == k then 1 else 0
  }

  /** What the summaries that records of k caused have reported. */
  function Total(stream: seq<Timed>, reports: seq<nat>, k: Key): nat
    requires |reports| == |stream|
  {
    if stream == [] then 0
    else
      var n := |stream| - 1;
      Total(stream[..n], reports[..n], k) + if stream[n].record.key == k then reports[n] else 0
  }

  lemma RefusedSnoc(stream: seq<Timed>, t: Timed, verdicts: seq<bool>, v: bool, k: Key)
    requires |verdicts| == |stream|
    ensures Refused(stream + [t], verdicts + [v], k)
      == Refused(stream, verdicts, k) + if !v && t.record.key == k then 1 else 0
  {
    assert (stream + [t])[..|stream|] == stream && (verdicts + [v])[..|stream|] == verdicts;
  }

  lemma TotalSnoc(stream: seq<Timed>, t: Timed, reports: seq<nat>, report: nat, k: Key)
    requires |reports| == |stream|
    ensures Total(stream + [t], reports + [report], k)
      == Total(stream, reports, k) + if t.record.key == k then report else 0
  {
    assert (stream + [t])[..|stream|] == stream && (reports + [report])[..|stream|] == reports;
  }

  /** One more record, refused or not. */
  lemma StreamSnoc(cfg: S.Config, mode: Mode, stream: seq<Timed>, t: Timed)
    ensures var e, log, refuses := Event(t.record.key, t.at), Suppressed(mode, stream), Refuses(mode, stream, t);
      && Verdicts(mode, stream + [t]) == Verdicts(mode, stream) + [!refuses]
      && Reports(cfg, mode, stream + [t])
        == Reports(cfg, mode, stream) + [if refuses then S.EmittedCount(cfg, S.Run(cfg, log), e) else 0]
      && Suppressed(mode, stream + [t]) == if refuses then log + [e] else log
  {
    assert (stream + [t])[..|stream|] == stream;
    assert Suppressed(mode, stream) + [] == Suppressed(mode, stream);
  }

  lemma {:induction false} HeldBackIsRecorded(mode: Mode, stream: seq<Timed>, k: Key)
    ensures Refused(stream, Verdicts(mode, stream), k) == S.Recorded(Suppressed(mode, stream), k)
  {
    if stream != [] {
      var before, t := stream[..|stream| - 1], stream[|stream| - 1];
      assert stream == before + [t];
      HeldBackIsRecorded(mode, before, k);
      StreamSnoc(S.Config(0.0, 0), mode, before, t);
      RefusedSnoc(before, t, Verdicts(mode, before), !Refuses(mode, before, t), k);
      S.RecordedSnoc(Suppressed(mode, before), Event(t.record.key, t.at), k);
    }
  }

  lemma {:induction false} ReportsAreSummaries(cfg: S.Config, mode: Mode, stream: seq<Timed>, k: Key)
    ensures Total(stream, Reports(cfg, mode, stream), k) == S.Reported(cfg, Suppressed(mode, stream), k)
  {
    if stream != [] {
      var before, t := stream[..|stream| - 1], stream[|stream| - 1];
      var e, reports := Event(t.record.key, t.at), Reports(cfg, mode, stream);
      assert stream == before + [t];
      ReportsAreSummaries(cfg, mode, before, k);
      StreamSnoc(cfg, mode, before, t);
      TotalSnoc(before, t, Reports(cfg, mode, before), reports[|before|], k);
      S.ReportedSnoc(cfg, Suppressed(mode, before), e, k);
    }
  }

  /** Of each key, the records refused are the suppressions that the summaries
      returned have reported, the ones still pending, and the ones evictions lost
      from the log of suppressions. */
  ghost predicate Accounted(stream: seq<Timed>, verdicts: seq<bool>, reports: seq<nat>, summaries: S.State,
                            cfg: S.Config, log: seq<Event>)
    requires |verdicts| == |stream| && |reports| == |stream|
  {
    forall k :: Refused(stream, verdicts, k)
      == Total(stream, reports, k) + S.CountOf(summaries, k) + S.LostToEviction(cfg, log, k)
  }

  /** No refused record goes unaccounted, over any log stream and in any mode. */
  lemma HeldBackRecordsAreConserved(mode: Mode, cfg: S.Config, stream: seq<Timed>)
    ensures var log := Suppressed(mode, stream);
      Accounted(stream, Verdicts(mode, stream), Reports(cfg, mode, stream), S.Run(cfg, log), cfg, log)
  {
    var log := Suppressed(mode, stream);
    forall k
      ensures Refused(stream, Verdicts(mode, stream), k)
        == Total(stream, Reports(cfg, mode, stream), k)
           + S.CountOf(S.Run(cfg, log), k) + S.LostToEviction(cfg, log, k)
    {
      HeldBackIsRecorded(mode, stream, k);
      ReportsAreSummaries(cfg, mode, stream, k);
      S.SuppressionsAreConserved(cfg, log, k);
    }
  }

  /** In the two modes without memory the filter refuses nothing, and exactly the
      records under flood control. */
  lemma PlainModesDecide(stream: seq<Timed>, t: Timed)
    ensures !Refuses(AllowAll, stream, t)
    ensures Refuses(SuppressContext, stream, t) <==> !t.record.forced && t.record.suppressible
  {
    PlainModesStay(stream);
  }

  lemma {:induction false} PlainModesStay(stream: seq<Timed>)
    ensures After(AllowAll, stream) == AllowAll && After(SuppressContext, stream) == SuppressContext
  {
    if stream != [] { PlainModesStay(stream[..|stream| - 1]); }
  }

  /** The events of a stream that reach the strategy. */
  function Events(stream: seq<Timed>): seq<Event> {
    if stream == [] then []
    else
      var last := stream[|stream| - 1];
      Events(stream[..|stream| - 1])
      + if last.record.Controlled() then [Event(last.record.key, last.at)] else []
  }

  /** The mode after these events. */
  function Fed(mode: Mode, evs: seq<Event>): Mode {
    if evs == [] then mode else Step(Fed(mode, evs[..|evs| - 1]), evs[|evs| - 1])
  }

  lemma {:induction false} AfterIsFed(mode: Mode, stream: seq<Timed>)
    ensures After(mode, stream) == Fed(mode, Events(stream))
  {
    if stream != [] {
      var last := stream[|stream| - 1];
      var evs := Events(stream[..|stream| - 1]);
      AfterIsFed(mode, stream[..|stream| - 1]);
      assert evs + [] == evs;
      assert (evs + [Event(last.record.key, last.at)])[..|evs|] == evs;
    }
  }

  lemma {:induction false} FedIsRun(limits: R.Config, dedup: D.Config, evs: seq<Event>)
    ensures Fed(RateLimit(limits, R.EMPTY), evs) == RateLimit(limits, R.Run(limits, evs))
    ensures Fed(Deduplicate(dedup, D.EMPTY), evs) == Deduplicate(dedup, D.Run(dedup, evs))
  {
    if evs != [] { FedIsRun(limits, dedup, evs[..|evs| - 1]); }
  }

  /** Whatever rate limiting would hold back of a log stream, deduplicating with
      the same window and cache size holds back too. */
  lemma RateLimitKeepsMore(limits: R.Config, stream: seq<Timed>, t: Timed)
    requires limits.Normalized() && KeyNonDecreasing(Events(stream), t.record.key)
    requires Refuses(RateLimit(limits, R.EMPTY), stream, t)
    ensures Refuses(Deduplicate(D.Twin(limits), D.EMPTY), stream, t)
  {
    var evs, e := Events(stream), Event(t.record.key, t.at);
    AfterIsFed(RateLimit(limits, R.EMPTY), stream);
    AfterIsFed(Deduplicate(D.Twin(limits), D.EMPTY), stream);
    FedIsRun(limits, D.Twin(limits), evs);
    if D.Allows(D.Twin(limits), evs, e) {
      D.DeduplicatorIsStricter(limits, evs, e);
    }
  }
}
