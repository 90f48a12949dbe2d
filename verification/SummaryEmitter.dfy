/** `_SummaryEmitter`: counts suppressed records per key and emits the count
    when the summary interval has passed. */
module SummaryEmitter {
  import opened Options
  import opened PyDict
  import opened FloodCache

  datatype Config = Config(interval: real, maxCacheSize: nat)

  datatype State = State(counts: map<Key, nat>, emittedAt: map<Key, real>, seen: LastSeen)

  const EMPTY := State(map[], map[], [])

  function CountOf(s: State, k: Key): nat { if k in s.counts then s.counts[k] else 0 }

  /** A summary for the key of `e` is due. */
  predicate Due(cfg: Config, s: State, e: Event) {
    e.key in s.emittedAt && e.at - s.emittedAt[e.key] >= cfg.interval
  }

  /** The count of the summary emitted on `e`, 0 when none is. */
  function EmittedCount(cfg: Config, s: State, e: Event): nat {
    if Due(cfg, s, e) then CountOf(s, e.key) + 1 else 0
  }

  function Step(cfg: Config, s: State, e: Event): State {
    var gone := KeySet(Evicted(s.seen, e, cfg.maxCacheSize));
    var restart := Due(cfg, s, e) || e.key !in s.emittedAt;
    State(s.counts[e.key := if Due(cfg, s, e) then 0 else CountOf(s, e.key) + 1] - gone,
          (if restart then s.emittedAt[e.key := e.at] else s.emittedAt) - gone,
          Touch(s.seen, e, cfg.maxCacheSize))
  }

  function Run(cfg: Config, evs: seq<Event>): State {
    if evs == [] then EMPTY else Step(cfg, Run(cfg, evs[..|evs| - 1]), evs[|evs| - 1])
  }

  lemma LastUpdateCounts<K, V>(m: map<K, V>, k: K, v: V, w: V)
    ensures m[k := v][k := w] == m[k := w]
  {
  }

  class SummaryEmitter {
    const cfg: Config
    var summaryCounts: map<Key, nat>
    var summaryLastEmittedAt: map<Key, real>
    var lastSeenAt: LastSeen

    function Now(): State
      reads this
    { State(summaryCounts, summaryLastEmittedAt, lastSeenAt) }

    constructor (cfg: Config)
      ensures this.cfg == cfg && Now() == EMPTY
    {
      this.cfg := cfg;
      summaryCounts, summaryLastEmittedAt, lastSeenAt := map[], map[], [];
    }

    /** Returns the count to report in a summary record, 0 for no summary. */
    method RecordSuppression(key: Key, now: real) returns (summary: nat)
      modifies this
      ensures summary == EmittedCount(cfg, old(Now()), Event(key, now))
      ensures Now() == Step(cfg, old(Now()), Event(key, now))
    {
      summary := Count(key, now);
      EnforceCacheLimit();
    }

    /** The call up to the eviction. */
    method Count(key: Key, now: real) returns (summary: nat)
      modifies this
      ensures summary == EmittedCount(cfg, old(Now()), Event(key, now))
      ensures var s, e := old(Now()), Event(key, now);
        && summaryCounts == s.counts[key := if Due(cfg, s, e) then 0 else CountOf(s, key) + 1]
        && summaryLastEmittedAt
          == (if Due(cfg, s, e) || key !in s.emittedAt then s.emittedAt[key := now] else s.emittedAt)
        && lastSeenAt == Put(s.seen, key, now)
    {
      summary := 0;
      summaryCounts := summaryCounts[key := (if key in summaryCounts then summaryCounts[key] else 0) + 1];
      lastSeenAt := Put(lastSeenAt, key, now);
      if key !in summaryLastEmittedAt {
        summaryLastEmittedAt := summaryLastEmittedAt[key := now];
      } else if now - summaryLastEmittedAt[key] >= cfg.interval {
        summary := summaryCounts[key];
        summaryCounts := summaryCounts[key := 0];
        summaryLastEmittedAt := summaryLastEmittedAt[key := now];
        LastUpdateCounts(old(summaryCounts), key, summary, 0);
      }
    }

    method EnforceCacheLimit()
      modifies this
      ensures lastSeenAt == RemoveAll(old(lastSeenAt), OldestKeys(old(lastSeenAt), cfg.maxCacheSize))
      ensures summaryCounts
        == old(summaryCounts) - KeySet(OldestKeys(old(lastSeenAt), cfg.maxCacheSize))
      ensures summaryLastEmittedAt
        == old(summaryLastEmittedAt) - KeySet(OldestKeys(old(lastSeenAt), cfg.maxCacheSize))
    {
      if |lastSeenAt| <= cfg.maxCacheSize {
        return;
      }
      var oldest := OldestKeys(lastSeenAt, cfg.maxCacheSize);
      for i := 0 to |oldest|
        invariant lastSeenAt == RemoveAll(old(lastSeenAt), oldest[..i])
        invariant summaryCounts == old(summaryCounts) - KeySet(oldest[..i])
        invariant summaryLastEmittedAt == old(summaryLastEmittedAt) - KeySet(oldest[..i])
      {
        lastSeenAt := Remove(lastSeenAt, oldest[i]);
        summaryCounts := summaryCounts - {oldest[i]};
        summaryLastEmittedAt := summaryLastEmittedAt - {oldest[i]};
        PopOneMore(old(summaryCounts), oldest, i);
        PopOneMore(old(summaryLastEmittedAt), oldest, i);
      }
      assert oldest[..|oldest|] == oldest;
    }
  }

  /** In every reachable state the three dictionaries have the same keys, within
      the limit. */
  lemma {:induction false} RunKeepsDictsParallel(cfg: Config, evs: seq<Event>)
    requires cfg.maxCacheSize >= 1
    ensures var s := Run(cfg, evs);
      && s.seen == SeenAfter(evs, cfg.maxCacheSize)
      && WithinLimit(s.seen, cfg.maxCacheSize)
      && s.counts.Keys == s.emittedAt.Keys == ToMap(s.seen).Keys
  {
    if evs != [] {
      var before, e := evs[..|evs| - 1], evs[|evs| - 1];
      RunKeepsDictsParallel(cfg, before);
      TouchKeepsLimit(Run(cfg, before).seen, e, cfg.maxCacheSize);
    }
  }

  // ---------------------------------------------------------------------
  // Conservation, over the log of a run
  // ---------------------------------------------------------------------

  /** Suppressions of `k` recorded during the run. */
  ghost function Recorded(evs: seq<Event>, k: Key): nat {
    if evs == [] then 0
    else Recorded(evs[..|evs| - 1], k) + if evs[|evs| - 1].key == k then 1 else 0
  }

  /** Suppressions of `k` reported in summaries during the run. */
  ghost function Reported(cfg: Config, evs: seq<Event>, k: Key): nat {
    if evs == [] then 0
    else
      var before, e := evs[..|evs| - 1], evs[|evs| - 1];
      Reported(cfg, before, k) + if e.key == k then EmittedCount(cfg, Run(cfg, before), e) else 0
  }

  /** Suppressions of `k` dropped with its entry when it was evicted: what was
      pending at that moment, after `e` itself was counted. */
  ghost function LostToEviction(cfg: Config, evs: seq<Event>, k: Key): nat {
    if evs == [] then 0
    else
      var before, e := evs[..|evs| - 1], evs[|evs| - 1];
      var s := Run(cfg, before);
      LostToEviction(cfg, before, k)
      + if k !in Evicted(s.seen, e, cfg.maxCacheSize) then 0
        else if e.key != k then CountOf(s, k)
        else if Due(cfg, s, e) then 0 else CountOf(s, k) + 1
  }

  lemma RunSnoc(cfg: Config, evs: seq<Event>, e: Event)
    ensures Run(cfg, evs + [e]) == Step(cfg, Run(cfg, evs), e)
  {
    assert (evs + [e])[..|evs|] == evs;
  }

  lemma RecordedSnoc(evs: seq<Event>, e: Event, k: Key)
    ensures Recorded(evs + [e], k) == Recorded(evs, k) + if e.key == k then 1 else 0
  {
    assert (evs + [e])[..|evs|] == evs;
  }

  lemma ReportedSnoc(cfg: Config, evs: seq<Event>, e: Event, k: Key)
    ensures Reported(cfg, evs + [e], k)
      == Reported(cfg, evs, k) + if e.key == k then EmittedCount(cfg, Run(cfg, evs), e) else 0
  {
    assert (evs + [e])[..|evs|] == evs;
  }

  /** Nothing is counted twice and nothing disappears unaccounted: per key,
      recorded = reported + pending + lost to eviction, on any run. */
  lemma {:induction false} SuppressionsAreConserved(cfg: Config, evs: seq<Event>, k: Key)
    ensures Recorded(evs, k)
      == Reported(cfg, evs, k) + CountOf(Run(cfg, evs), k) + LostToEviction(cfg, evs, k)
  {
    if evs != [] {
      SuppressionsAreConserved(cfg, evs[..|evs| - 1], k);
    }
  }

  /** With a monotonic clock only other keys' suppressions can be lost: a key's
      own call never drops what it has just counted. */
  lemma OwnSuppressionIsNeverLost(cfg: Config, evs: seq<Event>, e: Event)
    requires cfg.maxCacheSize >= 1 && NonDecreasing(evs + [e])
    ensures LostToEviction(cfg, evs + [e], e.key) == LostToEviction(cfg, evs, e.key)
  {
    RunKeepsDictsParallel(cfg, evs);
    RunNeverEvictsNewest(evs, e, cfg.maxCacheSize);
    assert (evs + [e])[..|evs|] == evs;
  }

  // ---------------------------------------------------------------------
  // Spacing of summaries
  // ---------------------------------------------------------------------

  /** Times of the summaries of `k` since it was last evicted. */
  ghost function SummariesSinceEviction(cfg: Config, evs: seq<Event>, k: Key): seq<real> {
    if evs == [] then []
    else
      var before, e := evs[..|evs| - 1], evs[|evs| - 1];
      var s, times := Run(cfg, before), SummariesSinceEviction(cfg, before, k);
      if k in Evicted(s.seen, e, cfg.maxCacheSize) then []
      else if e.key == k && EmittedCount(cfg, s, e) >= 1 then times + [e.at]
      else times
  }

  ghost predicate SpacedBy(times: seq<real>, interval: real) {
    forall i, j :: 0 <= i && j == i + 1 && j < |times| ==> times[j] - times[i] >= interval
  }

  /** Consecutive summaries of an unevicted key are at least the interval apart. */
  lemma {:induction false} SummariesAreSpaced(cfg: Config, evs: seq<Event>, k: Key)
    ensures SpacedBy(SummariesSinceEviction(cfg, evs, k), cfg.interval)
    ensures EndsAtEmission(SummariesSinceEviction(cfg, evs, k), Run(cfg, evs).emittedAt, k)
  {
    if evs != [] {
      var before, e := evs[..|evs| - 1], evs[|evs| - 1];
      var s, times := Run(cfg, before), SummariesSinceEviction(cfg, before, k);
      SummariesAreSpaced(cfg, before, k);
      if k !in Evicted(s.seen, e, cfg.maxCacheSize) {
        SummaryStep(cfg, s, e, k);
        if e.key == k && Due(cfg, s, e) {
          AppendSpaced(times, e.at, cfg.interval);
          assert SummariesSinceEviction(cfg, evs, k) == times + [e.at];
        } else {
          assert SummariesSinceEviction(cfg, evs, k) == times;
        }
      }
    }
  }

  ghost predicate EndsAtEmission(times: seq<real>, emittedAt: map<Key, real>, k: Key) {
    times != [] ==> k in emittedAt && emittedAt[k] == times[|times| - 1]
  }

  lemma AppendSpaced(times: seq<real>, at: real, interval: real)
    requires SpacedBy(times, interval)
    requires times != [] ==> at - times[|times| - 1] >= interval
    ensures SpacedBy(times + [at], interval)
  {
  }

  /** One call moves the emission time of its own key only, and only forward to
      a summary or to a first sighting. */
  lemma SummaryStep(cfg: Config, s: State, e: Event, k: Key)
    requires k !in Evicted(s.seen, e, cfg.maxCacheSize)
    ensures var after := Step(cfg, s, e).emittedAt;
      && (k != e.key ==> (k in after <==> k in s.emittedAt) && (k in after ==> after[k] == s.emittedAt[k]))
      && (k == e.key ==> k in after)
      && (k == e.key && k in s.emittedAt && !Due(cfg, s, e) ==> after[k] == s.emittedAt[k])
      && (k == e.key && (k !in s.emittedAt || Due(cfg, s, e)) ==> after[k] == e.at)
  {
  }

  /** Time of the first suppression of `k` since it was last evicted. */
  ghost function FirstSinceEviction(cfg: Config, evs: seq<Event>, k: Key): Option<real> {
    if evs == [] then None
    else
      var before, e := evs[..|evs| - 1], evs[|evs| - 1];
      var first := FirstSinceEviction(cfg, before, k);
      if k in Evicted(SeenAfter(before, cfg.maxCacheSize), e, cfg.maxCacheSize) then None
      else if first.None? && e.key == k then Some(e.at)
      else first
  }

  /** The moment the interval of `k` is counted from: its latest summary, or else
      its first suppression, since eviction. */
  ghost function CountingFrom(cfg: Config, evs: seq<Event>, k: Key): Option<real> {
    var times := SummariesSinceEviction(cfg, evs, k);
    if times != [] then Some(times[|times| - 1]) else FirstSinceEviction(cfg, evs, k)
  }

  ghost function Get(m: map<Key, real>, k: Key): Option<real> { if k in m then Some(m[k]) else None }

  ghost predicate ClockCountsFrom(cfg: Config, evs: seq<Event>, k: Key) {
    && Get(Run(cfg, evs).emittedAt, k) == CountingFrom(cfg, evs, k)
    && (SummariesSinceEviction(cfg, evs, k) != [] ==> FirstSinceEviction(cfg, evs, k).Some?)
  }

  lemma {:induction false} EmittedAtIsCountingFrom(cfg: Config, evs: seq<Event>, k: Key)
    requires cfg.maxCacheSize >= 1
    ensures ClockCountsFrom(cfg, evs, k)
  {
    if evs != [] {
      var before, e := evs[..|evs| - 1], evs[|evs| - 1];
      EmittedAtIsCountingFrom(cfg, before, k);
      RunKeepsDictsParallel(cfg, before);
      assert evs == before + [e];
      if k in Evicted(Run(cfg, before).seen, e, cfg.maxCacheSize) {
        EvictedHasNoClock(cfg, before, e, k);
      } else if e.key == k {
        OwnClock(cfg, before, e);
      } else {
        OtherClock(cfg, before, e, k);
      }
    }
  }

  lemma EvictedHasNoClock(cfg: Config, before: seq<Event>, e: Event, k: Key)
    requires Run(cfg, before).seen == SeenAfter(before, cfg.maxCacheSize)
    requires k in Evicted(Run(cfg, before).seen, e, cfg.maxCacheSize)
    ensures ClockCountsFrom(cfg, before + [e], k)
  {
    assert (before + [e])[..|before|] == before;
    assert Run(cfg, before + [e]) == Step(cfg, Run(cfg, before), e);
  }

  lemma OwnClock(cfg: Config, before: seq<Event>, e: Event)
    requires Run(cfg, before).seen == SeenAfter(before, cfg.maxCacheSize)
    requires e.key !in Evicted(Run(cfg, before).seen, e, cfg.maxCacheSize)
    requires ClockCountsFrom(cfg, before, e.key)
    ensures ClockCountsFrom(cfg, before + [e], e.key)
  {
    var s := Run(cfg, before);
    SummaryStep(cfg, s, e, e.key);
    OwnHistory(cfg, before, e);
    var after := Run(cfg, before + [e]).emittedAt;
    if Due(cfg, s, e) {
      assert after[e.key] == e.at;
    } else if e.key in s.emittedAt {
      assert after[e.key] == s.emittedAt[e.key];
    } else {
      assert after[e.key] == e.at;
    }
  }

  lemma OwnHistory(cfg: Config, before: seq<Event>, e: Event)
    requires Run(cfg, before).seen == SeenAfter(before, cfg.maxCacheSize)
    requires e.key !in Evicted(Run(cfg, before).seen, e, cfg.maxCacheSize)
    ensures var s, evs := Run(cfg, before), before + [e];
      var times, first := SummariesSinceEviction(cfg, before, e.key), FirstSinceEviction(cfg, before, e.key);
      && Run(cfg, evs).emittedAt == Step(cfg, s, e).emittedAt
      && SummariesSinceEviction(cfg, evs, e.key) == (if Due(cfg, s, e) then times + [e.at] else times)
      && FirstSinceEviction(cfg, evs, e.key) == (if first.None? then Some(e.at) else first)
  {
    assert (before + [e])[..|before|] == before;
  }

  lemma OtherClock(cfg: Config, before: seq<Event>, e: Event, k: Key)
    requires e.key != k
    requires Run(cfg, before).seen == SeenAfter(before, cfg.maxCacheSize)
    requires k !in Evicted(Run(cfg, before).seen, e, cfg.maxCacheSize)
    requires ClockCountsFrom(cfg, before, k)
    ensures ClockCountsFrom(cfg, before + [e], k)
  {
    assert (before + [e])[..|before|] == before;
    SummaryStep(cfg, Run(cfg, before), e, k);
    assert Run(cfg, before + [e]).emittedAt == Step(cfg, Run(cfg, before), e).emittedAt;
    assert SummariesSinceEviction(cfg, before + [e], k) == SummariesSinceEviction(cfg, before, k);
  }

  /** A suppression is reported exactly when the interval has passed since the
      latest summary of its key, or since its first suppression, not reaching
      back past an eviction; the report then covers all that is pending. */
  lemma SummaryIsEmittedIff(cfg: Config, evs: seq<Event>, e: Event)
    requires cfg.maxCacheSize >= 1
    ensures var from := CountingFrom(cfg, evs, e.key);
      Due(cfg, Run(cfg, evs), e) <==> from.Some? && e.at - from.value >= cfg.interval
    ensures Due(cfg, Run(cfg, evs), e) ==>
      EmittedCount(cfg, Run(cfg, evs), e)
        == Recorded(evs, e.key) - Reported(cfg, evs, e.key) - LostToEviction(cfg, evs, e.key) + 1
  {
    EmittedAtIsCountingFrom(cfg, evs, e.key);
    SuppressionsAreConserved(cfg, evs, e.key);
  }
}
