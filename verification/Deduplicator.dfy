/** `_DeduplicateStrategy`, and how it compares with the rate limiter. */
module Deduplicator {
  import opened PyDict
  import opened FloodCache
  import RateLimiter

  datatype Config = Config(window: real, maxCacheSize: nat)

  datatype State = State(seenAt: map<Key, real>, seen: LastSeen)

  const EMPTY := State(map[], [])

  predicate Suppresses(cfg: Config, s: State, e: Event) {
    e.key in s.seenAt && e.at - s.seenAt[e.key] < cfg.window
  }

  /** State after `_should_suppress` saw `e`. */
  function Step(cfg: Config, s: State, e: Event): State {
    State(s.seenAt[e.key := e.at] - KeySet(Evicted(s.seen, e, cfg.maxCacheSize)),
          Touch(s.seen, e, cfg.maxCacheSize))
  }

  function Run(cfg: Config, evs: seq<Event>): State {
    if evs == [] then EMPTY else Step(cfg, Run(cfg, evs[..|evs| - 1]), evs[|evs| - 1])
  }

  predicate Allows(cfg: Config, evs: seq<Event>, e: Event) { !Suppresses(cfg, Run(cfg, evs), e) }

  class DeduplicateStrategy {
    const cfg: Config
    var seenAt: map<Key, real>
    var lastSeenAt: LastSeen

    function Now(): State
      reads this
    { State(seenAt, lastSeenAt) }

    constructor (cfg: Config)
      ensures this.cfg == cfg && Now() == EMPTY
    {
      this.cfg := cfg;
      seenAt, lastSeenAt := map[], [];
    }

    method ShouldSuppress(key: Key, now: real) returns (suppress: bool)
      modifies this
      ensures suppress == Suppresses(cfg, old(Now()), Event(key, now))
      ensures Now() == Step(cfg, old(Now()), Event(key, now))
    {
      var known := key in seenAt;
      var last := if known then seenAt[key] else 0.0;
      seenAt := seenAt[key := now];
      lastSeenAt := Put(lastSeenAt, key, now);
      EnforceCacheLimit();
      suppress := known && now - last < cfg.window;
    }

    method EnforceCacheLimit()
      modifies this
      ensures lastSeenAt == RemoveAll(old(lastSeenAt), OldestKeys(old(lastSeenAt), cfg.maxCacheSize))
      ensures seenAt == old(seenAt) - KeySet(OldestKeys(old(lastSeenAt), cfg.maxCacheSize))
    {
      if |lastSeenAt| <= cfg.maxCacheSize {
        return;
      }
      var oldest := OldestKeys(lastSeenAt, cfg.maxCacheSize);
      for i := 0 to |oldest|
        invariant lastSeenAt == RemoveAll(old(lastSeenAt), oldest[..i])
        invariant seenAt == old(seenAt) - KeySet(oldest[..i])
      {
        lastSeenAt := Remove(lastSeenAt, oldest[i]);
        seenAt := seenAt - {oldest[i]};
        PopOneMore(old(seenAt), oldest, i);
      }
      assert oldest[..|oldest|] == oldest;
    }
  }

  /** In every reachable state the two dictionaries are the same mapping, within
      the limit. */
  lemma {:induction false} RunKeepsDictsEqual(cfg: Config, evs: seq<Event>)
    requires cfg.maxCacheSize >= 1
    ensures Run(cfg, evs).seen == SeenAfter(evs, cfg.maxCacheSize)
    ensures WithinLimit(Run(cfg, evs).seen, cfg.maxCacheSize)
    ensures Run(cfg, evs).seenAt == ToMap(Run(cfg, evs).seen)
  {
    if evs != [] {
      var before, e := evs[..|evs| - 1], evs[|evs| - 1];
      RunKeepsDictsEqual(cfg, before);
      TouchKeepsLimit(Run(cfg, before).seen, e, cfg.maxCacheSize);
    }
  }

  /** A record is suppressed exactly when it is a duplicate, its key's latest
      record, whatever its verdict was, being less than the window ago, and no
      call has evicted the key since. */
  lemma SuppressedIff(cfg: Config, evs: seq<Event>, e: Event)
    requires cfg.maxCacheSize >= 1
    ensures !Allows(cfg, evs, e)
      <==> exists i: nat :: KeptFrom(evs, e.key, i, cfg.maxCacheSize) && e.at - evs[i].at < cfg.window
  {
    RunKeepsDictsEqual(cfg, evs);
    CachedIff(evs, cfg.maxCacheSize, e.key);
    if e.key in ToMap(SeenAfter(evs, cfg.maxCacheSize)) {
      var j := CachedTimesAreLatest(evs, cfg.maxCacheSize, e.key);
      var i: nat :| KeptFrom(evs, e.key, i, cfg.maxCacheSize);
      assert forall n: nat :: KeptFrom(evs, e.key, n, cfg.maxCacheSize) ==> n == j;
    }
  }

  /** So a duplicate passes only when some call in between evicted its key. */
  lemma AllowedDuplicateWasEvicted(cfg: Config, evs: seq<Event>, e: Event, i: nat) returns (j: nat)
    requires cfg.maxCacheSize >= 1 && Allows(cfg, evs, e)
    requires i < |evs| && IsLatest(evs, e.key, i, evs[i].at) && e.at - evs[i].at < cfg.window
    ensures i <= j < |evs| && EvictsAt(evs, e.key, j, cfg.maxCacheSize)
  {
    SuppressedIff(cfg, evs, e);
    assert !KeptFrom(evs, e.key, i, cfg.maxCacheSize);
    j :| i <= j < |evs| && EvictsAt(evs, e.key, j, cfg.maxCacheSize);
  }

  // ---------------------------------------------------------------------
  // Comparison with the rate limiter
  // ---------------------------------------------------------------------

  /** The deduplicator with the rate limiter's window and cache size. */
  function Twin(cfg: RateLimiter.Config): Config { Config(cfg.window, cfg.maxCacheSize) }

  /** What the deduplicator lets through of k at this time, so does the limiter. */
  ghost predicate StricterAt(cfg: RateLimiter.Config, evs: seq<Event>, k: Key, at: real) {
    Allows(Twin(cfg), evs, Event(k, at)) ==> RateLimiter.Allows(cfg, evs, Event(k, at))
  }

  /** So it is after this run at any time. */
  ghost predicate Stricter(cfg: RateLimiter.Config, evs: seq<Event>, k: Key) {
    forall at: real :: StricterAt(cfg, evs, k, at)
  }

  /** A window after the last record of k the deque has room again. */
  ghost predicate RoomAfterWindow(cfg: RateLimiter.Config, evs: seq<Event>, k: Key) {
    var seen, win := ToMap(SeenAfter(evs, cfg.maxCacheSize)), RateLimiter.WindowOf(RateLimiter.Run(cfg, evs), k);
    k in seen ==> |RateLimiter.DropExpired(win, seen[k] + cfg.window, cfg.window)| < cfg.maxEvents
  }

  /** When the deduplicator lets a record of k through: k is not cached, or its
      last record is at least the window ago. */
  lemma AllowsIff(cfg: RateLimiter.Config, evs: seq<Event>, e: Event)
    requires cfg.Normalized()
    ensures var seen := ToMap(SeenAfter(evs, cfg.maxCacheSize));
      Allows(Twin(cfg), evs, e) <==> (e.key in seen ==> e.at >= seen[e.key] + cfg.window)
  {
    RunKeepsDictsEqual(Twin(cfg), evs);
  }

  /** Exactly when the deduplicator is the stricter one, with no hypothesis on the
      clock. */
  lemma StricterIff(cfg: RateLimiter.Config, evs: seq<Event>, k: Key)
    requires cfg.Normalized()
    ensures Stricter(cfg, evs, k) <==> RoomAfterWindow(cfg, evs, k)
  {
    if Stricter(cfg, evs, k) {
      StricterHasRoom(cfg, evs, k);
    }
    if RoomAfterWindow(cfg, evs, k) {
      forall at: real ensures StricterAt(cfg, evs, k, at) {
        if Allows(Twin(cfg), evs, Event(k, at)) {
          RoomLater(cfg, evs, k, at);
        }
      }
    }
  }

  lemma StricterHasRoom(cfg: RateLimiter.Config, evs: seq<Event>, k: Key)
    requires cfg.Normalized() && Stricter(cfg, evs, k)
    ensures RoomAfterWindow(cfg, evs, k)
  {
    var seen := ToMap(SeenAfter(evs, cfg.maxCacheSize));
    if k in seen {
      AllowsIff(cfg, evs, Event(k, seen[k] + cfg.window));
      RoomAt(cfg, evs, k, seen[k] + cfg.window);
    }
  }

  lemma RoomAt(cfg: RateLimiter.Config, evs: seq<Event>, k: Key, at: real)
    requires Stricter(cfg, evs, k) && Allows(Twin(cfg), evs, Event(k, at))
    ensures var win := RateLimiter.WindowOf(RateLimiter.Run(cfg, evs), k);
      |RateLimiter.DropExpired(win, at, cfg.window)| < cfg.maxEvents
  {
    assert StricterAt(cfg, evs, k, at);
  }

  lemma RoomLater(cfg: RateLimiter.Config, evs: seq<Event>, k: Key, at: real)
    requires cfg.Normalized() && RoomAfterWindow(cfg, evs, k) && Allows(Twin(cfg), evs, Event(k, at))
    ensures RateLimiter.Allows(cfg, evs, Event(k, at))
  {
    AllowsIff(cfg, evs, Event(k, at));
    RateLimiter.RunKeepsDictsParallel(cfg, evs);
    HasRoom(cfg, RateLimiter.Run(cfg, evs), ToMap(SeenAfter(evs, cfg.maxCacheSize)), k, at);
  }

  lemma HasRoom(cfg: RateLimiter.Config, s: RateLimiter.State, seen: map<Key, real>, k: Key, at: real)
    requires cfg.maxEvents >= 1 && seen.Keys == s.windows.Keys
    requires k in seen ==> at >= seen[k] + cfg.window
    requires k in seen ==>
      |RateLimiter.DropExpired(RateLimiter.WindowOf(s, k), seen[k] + cfg.window, cfg.window)| < cfg.maxEvents
    ensures !RateLimiter.Suppresses(cfg, s, Event(k, at))
  {
    if k in seen {
      RateLimiter.LaterDropsMore(s.windows[k], seen[k] + cfg.window, at, cfg.window);
    }
  }

  /** Simulation over whole runs: fed the same records with the same window and
      cache size, every record the deduplicator lets through the rate limiter
      lets through too, across any evictions. The clock may fall back, as long as
      the times of that key's own earlier records do not. */
  lemma DeduplicatorIsStricter(cfg: RateLimiter.Config, evs: seq<Event>, e: Event)
    requires cfg.Normalized() && KeyNonDecreasing(evs, e.key)
    requires Allows(Twin(cfg), evs, e)
    ensures RateLimiter.Allows(cfg, evs, e)
  {
    var seen, win := ToMap(SeenAfter(evs, cfg.maxCacheSize)), RateLimiter.WindowOf(RateLimiter.Run(cfg, evs), e.key);
    RateLimiter.WindowIsPast(cfg, evs, e.key);
    if e.key in seen {
      AllExpired(win, seen[e.key] + cfg.window, cfg.window);
    }
    StricterIff(cfg, evs, e.key);
    assert Event(e.key, e.at) == e && StricterAt(cfg, evs, e.key, e.at);
  }

  lemma {:induction false} AllExpired(win: seq<real>, now: real, window: real)
    requires forall i :: 0 <= i < |win| ==> now - win[i] >= window
    ensures RateLimiter.DropExpired(win, now, window) == []
  {
    if win != [] { AllExpired(win[1..], now, window); }
  }

  lemma SoloStep(cfg: Config, before: seq<Event>, e: Event)
    requires cfg.maxCacheSize >= 1 && Solo(before, e.key)
    ensures Run(cfg, before + [e]).seenAt == map[e.key := e.at]
  {
    var evs := before + [e];
    RunKeepsDictsEqual(cfg, evs);
    SoloRun(evs, e.key, cfg.maxCacheSize);
  }

  function Times(k: Key, times: seq<real>): seq<Event> {
    seq(|times|, i requires 0 <= i < |times| => Event(k, times[i]))
  }

  /** The converse fails: a suppressed duplicate renews the deduplicator's
      window but not the rate limiter's. */
  lemma RateLimiterIsNotStricter(k: Key)
    ensures var evs, e := Times(k, [0.0, 6.0]), Event(k, 12.0);
      RateLimiter.Allows(RateLimiter.Config(10.0, 1, 1), evs, e) && !Allows(Config(10.0, 1), evs, e)
  {
    var cfg := RateLimiter.Config(10.0, 1, 1);
    assert Times(k, [0.0, 6.0]) == [Event(k, 0.0)] + [Event(k, 6.0)];
    assert [Event(k, 0.0)] == [] + [Event(k, 0.0)];
    SoloStep(Config(10.0, 1), [Event(k, 0.0)], Event(k, 6.0));
    RateLimiter.SoloStep(cfg, [], Event(k, 0.0));
    RateLimiter.SoloStep(cfg, [Event(k, 0.0)], Event(k, 6.0));
    RateLimiter.SoloStep(cfg, Times(k, [0.0, 6.0]), Event(k, 12.0));
    DropOne(0.0, 6.0, 10.0);
    DropOne(0.0, 12.0, 10.0);
  }

  lemma DropOne(at: real, now: real, window: real)
    ensures RateLimiter.DropExpired([at], now, window) == if now - at >= window then [] else [at]
  {
  }

  /** The simulation needs that: after a time of the key's own that falls back, a
      record the deduplicator lets through can be suppressed. */
  lemma StricterNeedsMonotonicClock(k: Key)
    ensures var evs, e := Times(k, [0.0, 20.0, 5.0]), Event(k, 16.0);
      Allows(Config(10.0, 1), evs, e) && !RateLimiter.Allows(RateLimiter.Config(10.0, 1, 1), evs, e)
  {
    var cfg := RateLimiter.Config(10.0, 1, 1);
    var two := Times(k, [0.0, 20.0]);
    assert Times(k, [0.0, 20.0, 5.0]) == two + [Event(k, 5.0)];
    SoloStep(Config(10.0, 1), two, Event(k, 5.0));
    LimiterHolds(k);
    RateLimiter.SoloStep(cfg, two, Event(k, 5.0));
    RateLimiter.SoloStep(cfg, Times(k, [0.0, 20.0, 5.0]), Event(k, 16.0));
    DropOne(20.0, 5.0, 10.0);
    DropOne(20.0, 16.0, 10.0);
  }

  lemma LimiterHolds(k: Key)
    ensures RateLimiter.WindowOf(RateLimiter.Run(RateLimiter.Config(10.0, 1, 1), Times(k, [0.0, 20.0])), k) == [20.0]
  {
    var cfg := RateLimiter.Config(10.0, 1, 1);
    var first := [Event(k, 0.0)];
    assert first == [] + [Event(k, 0.0)] && Times(k, [0.0, 20.0]) == first + [Event(k, 20.0)];
    RateLimiter.SoloStep(cfg, [], Event(k, 0.0));
    RateLimiter.SoloStep(cfg, first, Event(k, 20.0));
    DropOne(0.0, 20.0, 10.0);
  }
}
