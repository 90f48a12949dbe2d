/** `_RateLimitStrategy`: at most `maxEvents` allowed records per key and window. */
module RateLimiter {
  import opened PyDict
  import opened FloodCache

  datatype Config = Config(window: real, maxEvents: nat, maxCacheSize: nat) {
    /** What the config normalizer enforces: all three are positive. */
    ghost predicate Normalized() { window > 0.0 && maxEvents >= 1 && maxCacheSize >= 1 }
  }

  datatype State = State(windows: map<Key, seq<real>>, seen: LastSeen)

  const EMPTY := State(map[], [])

  function WindowOf(s: State, k: Key): seq<real> { if k in s.windows then s.windows[k] else [] }

  /** The deque after the `popleft` loop. */
  function DropExpired(win: seq<real>, now: real, window: real): seq<real> {
    if win != [] && now - win[0] >= window then DropExpired(win[1..], now, window) else win
  }

  predicate Suppresses(cfg: Config, s: State, e: Event) {
    |DropExpired(WindowOf(s, e.key), e.at, cfg.window)| >= cfg.maxEvents
  }

  /** State after `_should_suppress` saw `e`. */
  function Step(cfg: Config, s: State, e: Event): State {
    var live := DropExpired(WindowOf(s, e.key), e.at, cfg.window);
    var win := if Suppresses(cfg, s, e) then live else live + [e.at];
    State(s.windows[e.key := win] - KeySet(Evicted(s.seen, e, cfg.maxCacheSize)), Touch(s.seen, e, cfg.maxCacheSize))
  }

  function Run(cfg: Config, evs: seq<Event>): State {
    if evs == [] then EMPTY else Step(cfg, Run(cfg, evs[..|evs| - 1]), evs[|evs| - 1])
  }

  /** The verdict on `e` after the run `evs`. */
  predicate Allows(cfg: Config, evs: seq<Event>, e: Event) { !Suppresses(cfg, Run(cfg, evs), e) }

  // ---------------------------------------------------------------------
  // The class
  // ---------------------------------------------------------------------

  class RateLimitStrategy {
    const cfg: Config
    var eventWindows: map<Key, seq<real>>
    var lastSeenAt: LastSeen

    function Now(): State
      reads this
    { State(eventWindows, lastSeenAt) }

    constructor (cfg: Config)
      ensures this.cfg == cfg && Now() == EMPTY
    {
      this.cfg := cfg;
      eventWindows, lastSeenAt := map[], [];
    }

    method ShouldSuppress(key: Key, now: real) returns (suppress: bool)
      modifies this
      ensures suppress == Suppresses(cfg, old(Now()), Event(key, now))
      ensures Now() == Step(cfg, old(Now()), Event(key, now))
    {
      var window := if key in eventWindows then eventWindows[key] else [];
      ghost var before := window;
      while window != [] && now - window[0] >= cfg.window
        invariant DropExpired(window, now, cfg.window) == DropExpired(before, now, cfg.window)
      {
        window := window[1..];
      }
      suppress := |window| >= cfg.maxEvents;
      if !suppress {
        window := window + [now];
      }
      eventWindows := eventWindows[key := window];
      lastSeenAt := Put(lastSeenAt, key, now);
      EnforceCacheLimit();
    }

    method EnforceCacheLimit()
      modifies this
      ensures lastSeenAt == RemoveAll(old(lastSeenAt), OldestKeys(old(lastSeenAt), cfg.maxCacheSize))
      ensures eventWindows
        == old(eventWindows) - KeySet(OldestKeys(old(lastSeenAt), cfg.maxCacheSize))
    {
      if |lastSeenAt| <= cfg.maxCacheSize {
        return;
      }
      var oldest := OldestKeys(lastSeenAt, cfg.maxCacheSize);
      for i := 0 to |oldest|
        invariant lastSeenAt == RemoveAll(old(lastSeenAt), oldest[..i])
        invariant eventWindows == old(eventWindows) - KeySet(oldest[..i])
      {
        lastSeenAt := Remove(lastSeenAt, oldest[i]);
        eventWindows := eventWindows - {oldest[i]};
        PopOneMore(old(eventWindows), oldest, i);
      }
      assert oldest[..|oldest|] == oldest;
    }
  }

  // ---------------------------------------------------------------------
  // Cache invariant
  // ---------------------------------------------------------------------

  /** The two dictionaries hold the same keys and stay within the limit. */
  lemma {:induction false} RunKeepsDictsParallel(cfg: Config, evs: seq<Event>)
    requires cfg.Normalized()
    ensures Run(cfg, evs).seen == SeenAfter(evs, cfg.maxCacheSize)
    ensures WithinLimit(Run(cfg, evs).seen, cfg.maxCacheSize)
    ensures Run(cfg, evs).windows.Keys == ToMap(Run(cfg, evs).seen).Keys
  {
    if evs != [] {
      var before, e := evs[..|evs| - 1], evs[|evs| - 1];
      RunKeepsDictsParallel(cfg, before);
      TouchKeepsLimit(Run(cfg, before).seen, e, cfg.maxCacheSize);
    }
  }

  // ---------------------------------------------------------------------
  // Refinement of the unbounded history
  // ---------------------------------------------------------------------

  /** Times of the records of `k` that were allowed since `k` was last evicted:
      the full history the deque stands for. */
  ghost function AllowedSinceEviction(cfg: Config, evs: seq<Event>, k: Key): seq<real> {
    if evs == [] then []
    else
      var before, e := evs[..|evs| - 1], evs[|evs| - 1];
      var history := AllowedSinceEviction(cfg, before, k);
      if k in Evicted(SeenAfter(before, cfg.maxCacheSize), e, cfg.maxCacheSize) then []
      else if e.key == k && Allows(cfg, before, e) then history + [e.at]
      else history
  }

  /** How many of the times lie in the last `window` seconds before `now`. */
  function CountRecent(times: seq<real>, now: real, window: real): nat {
    if times == [] then 0
    else
      CountRecent(times[..|times| - 1], now, window)
      + if now - times[|times| - 1] < window then 1 else 0
  }

  ghost predicate Ascending(times: seq<real>) {
    forall i, j :: 0 <= i < j < |times| ==> times[i] <= times[j]
  }

  /** The deque is the history minus an expired prefix. */
  ghost predicate Represents(win: seq<real>, history: seq<real>, at: real, window: real) {
    && |win| <= |history|
    && win == history[|history| - |win|..]
    && Ascending(history)
    && (forall i :: 0 <= i < |history| ==> history[i] <= at)
    && (forall i :: 0 <= i < |history| - |win| ==> at - history[i] >= window)
  }

  ghost predicate AllRecent(times: seq<real>, now: real, window: real) {
    forall i :: 0 <= i < |times| ==> now - times[i] < window
  }

  lemma {:induction false} DropExpiredRepresents(win: seq<real>, history: seq<real>, at: real, now: real, window: real)
    requires Represents(win, history, at, window) && at <= now
    ensures Represents(DropExpired(win, now, window), history, now, window)
    ensures AllRecent(DropExpired(win, now, window), now, window)
  {
    if win != [] {
      var first := |history| - |win|;
      assert win[0] == history[first];
      if now - win[0] >= window {
        assert win[1..] == history[first + 1..];
        DropExpiredRepresents(win[1..], history, now, now, window);
      } else {
        forall i | 0 <= i < |win| ensures now - win[i] < window { assert win[i] == history[first + i]; }
      }
    }
  }

  lemma {:induction false} CountRecentOfSplit(history: seq<real>, now: real, window: real, m: nat)
    requires m <= |history|
    requires forall i :: 0 <= i < m ==> now - history[i] >= window
    requires forall i :: m <= i < |history| ==> now - history[i] < window
    ensures CountRecent(history, now, window) == |history| - m
  {
    if history != [] {
      var init := history[..|history| - 1];
      CountRecentOfSplit(init, now, window, if m == |history| then m - 1 else m);
    }
  }

  /** Expiring the deque at `now` leaves the recent part of the history. */
  lemma LiveIsRecent(win: seq<real>, history: seq<real>, at: real, now: real, window: real)
    requires Represents(win, history, at, window) && at <= now
    ensures Represents(DropExpired(win, now, window), history, now, window)
    ensures CountRecent(history, now, window) == |DropExpired(win, now, window)|
  {
    DropExpiredRepresents(win, history, at, now, window);
    var live := DropExpired(win, now, window);
    var m := |history| - |live|;
    forall i | m <= i < |history| ensures now - history[i] < window {
      assert history[i] == live[i - m];
    }
    CountRecentOfSplit(history, now, window, m);
  }

  lemma AppendRepresents(live: seq<real>, history: seq<real>, now: real, window: real)
    requires Represents(live, history, now, window)
    ensures Represents(live + [now], history + [now], now, window)
  {
  }

  /** maxEvents + 1 consecutive times span at least the window. */
  ghost predicate Spaced(history: seq<real>, maxEvents: nat, window: real) {
    forall i, j :: 0 <= i && j == i + maxEvents && j < |history| ==> history[j] - history[i] >= window
  }

  lemma AppendSpaced(live: seq<real>, history: seq<real>, now: real, maxEvents: nat, window: real)
    requires Represents(live, history, now, window) && |live| < maxEvents
    requires Spaced(history, maxEvents, window)
    ensures Spaced(history + [now], maxEvents, window)
  {
  }

  /** What the deque of `k` knows about the whole run. */
  ghost predicate KeyRefined(cfg: Config, evs: seq<Event>, k: Key) {
    var s, history := Run(cfg, evs), AllowedSinceEviction(cfg, evs, k);
    if k in s.windows && k in ToMap(s.seen)
    then Represents(s.windows[k], history, ToMap(s.seen)[k], cfg.window)
    else k !in s.windows && history == []
  }

  lemma LastSeenIsPast(cfg: Config, evs: seq<Event>, e: Event, k: Key)
    requires cfg.Normalized() && NonDecreasing(evs + [e])
    ensures k in ToMap(SeenAfter(evs, cfg.maxCacheSize))
      ==> ToMap(SeenAfter(evs, cfg.maxCacheSize))[k] <= e.at
  {
    if k in ToMap(SeenAfter(evs, cfg.maxCacheSize)) {
      var i := CachedTimesAreLatest(evs, cfg.maxCacheSize, k);
      assert (evs + [e])[i] == evs[i] && (evs + [e])[|evs|] == e;
    }
  }

  /** When `e` arrives, the live deque is exactly the recent part of the history. */
  lemma LiveWindow(cfg: Config, evs: seq<Event>, e: Event)
    requires cfg.Normalized() && NonDecreasing(evs + [e])
    requires KeyRefined(cfg, evs, e.key)
    ensures var history := AllowedSinceEviction(cfg, evs, e.key);
      var live := DropExpired(WindowOf(Run(cfg, evs), e.key), e.at, cfg.window);
      && Represents(live, history, e.at, cfg.window)
      && CountRecent(history, e.at, cfg.window) == |live|
  {
    var s, history := Run(cfg, evs), AllowedSinceEviction(cfg, evs, e.key);
    RunKeepsDictsParallel(cfg, evs);
    LastSeenIsPast(cfg, evs, e, e.key);
    var at := if e.key in ToMap(s.seen) then ToMap(s.seen)[e.key] else e.at;
    LiveIsRecent(WindowOf(s, e.key), history, at, e.at, cfg.window);
  }

  lemma {:induction false} RunRefinesHistory(cfg: Config, evs: seq<Event>, k: Key)
    requires cfg.Normalized() && NonDecreasing(evs)
    ensures KeyRefined(cfg, evs, k)
  {
    if evs != [] {
      var before, e := evs[..|evs| - 1], evs[|evs| - 1];
      assert evs == before + [e];
      RunRefinesHistory(cfg, before, k);
      NonDecreasingPrefix(before, e);
      if e.key == k {
        LiveWindow(cfg, before, e);
        OwnStepRefines(cfg, before, e);
      } else {
        OtherStepRefines(cfg, before, e, k);
      }
    }
  }

  lemma OwnStepRefines(cfg: Config, before: seq<Event>, e: Event)
    requires cfg.Normalized() && NonDecreasing(before + [e])
    requires var history := AllowedSinceEviction(cfg, before, e.key);
      var live := DropExpired(WindowOf(Run(cfg, before), e.key), e.at, cfg.window);
      Represents(live, history, e.at, cfg.window)
    ensures KeyRefined(cfg, before + [e], e.key)
  {
    var live := DropExpired(WindowOf(Run(cfg, before), e.key), e.at, cfg.window);
    var history := AllowedSinceEviction(cfg, before, e.key);
    OwnStep(cfg, before, e);
    AppendRepresents(live, history, e.at, cfg.window);
  }

  /** One call, seen from its own key. */
  lemma OwnStep(cfg: Config, before: seq<Event>, e: Event)
    requires cfg.Normalized() && NonDecreasing(before + [e])
    ensures var s := Run(cfg, before + [e]);
      var live := DropExpired(WindowOf(Run(cfg, before), e.key), e.at, cfg.window);
      var added := if Allows(cfg, before, e) then [e.at] else [];
      && (e.key, e.at) in ToMap(s.seen).Items
      && e.key in s.windows && s.windows[e.key] == live + added
      && AllowedSinceEviction(cfg, before + [e], e.key)
        == AllowedSinceEviction(cfg, before, e.key) + added
  {
    assert (before + [e])[..|before|] == before;
    RunKeepsDictsParallel(cfg, before);
    RunKeepsDictsParallel(cfg, before + [e]);
    RunNeverEvictsNewest(before, e, cfg.maxCacheSize);
  }

  lemma OtherStepRefines(cfg: Config, before: seq<Event>, e: Event, k: Key)
    requires cfg.Normalized() && k != e.key
    requires KeyRefined(cfg, before, k)
    ensures KeyRefined(cfg, before + [e], k)
  {
    var evs := before + [e];
    assert evs[..|evs| - 1] == before;
    RunKeepsDictsParallel(cfg, before);
    RunKeepsDictsParallel(cfg, evs);
    TouchKeepsLimit(Run(cfg, before).seen, e, cfg.maxCacheSize);
  }

  /** The bounded deque decides exactly as the full history would: a record is
      suppressed iff maxEvents records of its key were already allowed in the
      last window since the key was last evicted. */
  lemma SuppressesIffHistoryIsFull(cfg: Config, evs: seq<Event>, e: Event)
    requires cfg.Normalized() && NonDecreasing(evs + [e])
    ensures Allows(cfg, evs, e)
      <==> CountRecent(AllowedSinceEviction(cfg, evs, e.key), e.at, cfg.window) < cfg.maxEvents
  {
    NonDecreasingPrefix(evs, e);
    RunRefinesHistory(cfg, evs, e.key);
    LiveWindow(cfg, evs, e);
  }

  lemma NonDecreasingPrefix(evs: seq<Event>, e: Event)
    requires NonDecreasing(evs + [e])
    ensures NonDecreasing(evs)
  {
    forall i, j | 0 <= i < j < |evs| ensures evs[i].at <= evs[j].at {
      assert (evs + [e])[i] == evs[i] && (evs + [e])[j] == evs[j];
    }
  }

  /** The rate really is limited: with no eviction in between, any maxEvents + 1
      consecutive allowed records of a key span at least the window. */
  lemma {:induction false} AllowedRecordsAreSpaced(cfg: Config, evs: seq<Event>, k: Key)
    requires cfg.Normalized() && NonDecreasing(evs)
    ensures Spaced(AllowedSinceEviction(cfg, evs, k), cfg.maxEvents, cfg.window)
  {
    if evs != [] {
      var before, e := evs[..|evs| - 1], evs[|evs| - 1];
      assert evs == before + [e];
      NonDecreasingPrefix(before, e);
      AllowedRecordsAreSpaced(cfg, before, k);
      OneMoreIsSpaced(cfg, before, e, k);
    }
  }

  lemma OneMoreIsSpaced(cfg: Config, before: seq<Event>, e: Event, k: Key)
    requires cfg.Normalized() && NonDecreasing(before + [e])
    requires Spaced(AllowedSinceEviction(cfg, before, k), cfg.maxEvents, cfg.window)
    ensures Spaced(AllowedSinceEviction(cfg, before + [e], k), cfg.maxEvents, cfg.window)
  {
    assert (before + [e])[..|before|] == before;
    var history := AllowedSinceEviction(cfg, before, k);
    if e.key == k && Allows(cfg, before, e) {
      NonDecreasingPrefix(before, e);
      RunRefinesHistory(cfg, before, k);
      LiveWindow(cfg, before, e);
      var live := DropExpired(WindowOf(Run(cfg, before), k), e.at, cfg.window);
      AppendSpaced(live, history, e.at, cfg.maxEvents, cfg.window);
    }
    assert AllowedSinceEviction(cfg, before + [e], k) in {[], history, history + [e.at]};
  }

  /** With one key in play the deque alone carries the state. */
  lemma SoloStep(cfg: Config, before: seq<Event>, e: Event)
    requires cfg.Normalized() && Solo(before, e.key)
    ensures var win := DropExpired(WindowOf(Run(cfg, before), e.key), e.at, cfg.window);
      && (Allows(cfg, before, e) <==> |win| < cfg.maxEvents)
      && WindowOf(Run(cfg, before + [e]), e.key) == if |win| < cfg.maxEvents then win + [e.at] else win
  {
    assert (before + [e])[..|before|] == before;
    RunKeepsDictsParallel(cfg, before);
    SoloRun(before, e.key, cfg.maxCacheSize);
    SoloEvictsNothing(Run(cfg, before).seen, e, cfg.maxCacheSize);
  }

  // ---------------------------------------------------------------------
  // The deque at other times
  // ---------------------------------------------------------------------

  /** A later time never leaves a longer deque. */
  lemma {:induction false} LaterDropsMore(win: seq<real>, now: real, later: real, window: real)
    requires now <= later
    ensures |DropExpired(win, later, window)| <= |DropExpired(win, now, window)| <= |win|
  {
    if win != [] {
      LaterDropsMore(win[1..], now, later, window);
    }
  }

  ghost predicate NotAfter(win: seq<real>, at: real) { forall i :: 0 <= i < |win| ==> win[i] <= at }

  lemma {:induction false} DropKeepsNotAfter(win: seq<real>, now: real, window: real, at: real)
    requires NotAfter(win, at)
    ensures NotAfter(DropExpired(win, now, window), at)
  {
    if win != [] {
      forall i | 0 <= i < |win| - 1 ensures win[1..][i] <= at { assert win[1..][i] == win[i + 1]; }
      DropKeepsNotAfter(win[1..], now, window, at);
    }
  }

  lemma AppendKeepsNotAfter(win: seq<real>, at: real)
    requires NotAfter(win, at)
    ensures NotAfter(win + [at], at)
  {
  }

  /** The deque of a cached key holds no time after its last one. */
  ghost predicate DequeIsPast(cfg: Config, evs: seq<Event>, k: Key) {
    k in ToMap(SeenAfter(evs, cfg.maxCacheSize)) ==>
      NotAfter(WindowOf(Run(cfg, evs), k), ToMap(SeenAfter(evs, cfg.maxCacheSize))[k])
  }

  /** It suffices that the times of the key's own records do not fall back. */
  lemma {:induction false} WindowIsPast(cfg: Config, evs: seq<Event>, k: Key)
    requires cfg.Normalized() && KeyNonDecreasing(evs, k)
    ensures DequeIsPast(cfg, evs, k)
  {
    if evs != [] {
      var before, e := evs[..|evs| - 1], evs[|evs| - 1];
      assert evs == before + [e];
      WindowIsPast(cfg, before, k);
      if e.key == k {
        OwnWindowIsPast(cfg, before, e);
      } else {
        OtherWindowIsPast(cfg, before, e, k);
      }
    }
  }

  lemma OwnWindowIsPast(cfg: Config, before: seq<Event>, e: Event)
    requires cfg.Normalized() && KeyNonDecreasing(before + [e], e.key) && DequeIsPast(cfg, before, e.key)
    ensures DequeIsPast(cfg, before + [e], e.key)
  {
    var win := WindowOf(Run(cfg, before), e.key);
    OldWindowIsPast(cfg, before, e);
    DropKeepsNotAfter(win, e.at, cfg.window, e.at);
    AppendKeepsNotAfter(DropExpired(win, e.at, cfg.window), e.at);
    OwnWindow(cfg, before, e);
  }

  /** The deque was in the past before e came. */
  lemma OldWindowIsPast(cfg: Config, before: seq<Event>, e: Event)
    requires cfg.Normalized() && KeyNonDecreasing(before + [e], e.key) && DequeIsPast(cfg, before, e.key)
    ensures NotAfter(WindowOf(Run(cfg, before), e.key), e.at)
  {
    RunKeepsDictsParallel(cfg, before);
    if e.key in ToMap(SeenAfter(before, cfg.maxCacheSize)) {
      var i := CachedTimesAreLatest(before, cfg.maxCacheSize, e.key);
      assert (before + [e])[i] == before[i] && (before + [e])[|before|] == e;
    }
  }

  /** What one call leaves of its own key. */
  lemma OwnWindow(cfg: Config, before: seq<Event>, e: Event)
    requires cfg.Normalized()
    ensures var live := DropExpired(WindowOf(Run(cfg, before), e.key), e.at, cfg.window);
      var seen := ToMap(SeenAfter(before + [e], cfg.maxCacheSize));
      e.key in seen ==>
        && seen[e.key] == e.at
        && WindowOf(Run(cfg, before + [e]), e.key) == (if Allows(cfg, before, e) then live + [e.at] else live)
  {
    assert (before + [e])[..|before|] == before;
    RunKeepsDictsParallel(cfg, before);
    TouchKeepsLimit(Run(cfg, before).seen, e, cfg.maxCacheSize);
  }

  lemma OtherWindowIsPast(cfg: Config, before: seq<Event>, e: Event, k: Key)
    requires cfg.Normalized() && e.key != k && DequeIsPast(cfg, before, k)
    ensures DequeIsPast(cfg, before + [e], k)
  {
    assert (before + [e])[..|before|] == before;
    RunKeepsDictsParallel(cfg, before);
    TouchKeepsLimit(Run(cfg, before).seen, e, cfg.maxCacheSize);
  }
}
