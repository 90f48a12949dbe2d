/** The bounded last-seen index shared by the three flood-control classes:
    touch a key, then evict the oldest keys beyond the size limit. */
module FloodCache {
  import opened PyDict
  import opened StableSort

  /** A frozen record key: the tuple of its frozen components. */
  type Key = seq<string>

  /** `_last_seen_at`, in insertion order: the eviction sort is stable, so
      that order decides ties. */
  type LastSeen = seq<Entry<Key, real>>

  /** One suppressible record reaching the locked section at a clock value. */
  datatype Event = Event(key: Key, at: real)

  /** The clock is monotonic in lock order. */
  ghost predicate NonDecreasing(evs: seq<Event>) {
    forall i, j :: 0 <= i < j < |evs| ==> evs[i].at <= evs[j].at
  }

  /** The times of one key's events do not fall back, whatever other keys do. */
  ghost predicate KeyNonDecreasing(evs: seq<Event>, k: Key) {
    forall i, j :: 0 <= i < j < |evs| && evs[i].key == k && evs[j].key == k ==> evs[i].at <= evs[j].at
  }

  predicate OlderFirst(a: Entry<Key, real>, b: Entry<Key, real>) { a.value <= b.value }

  function KeysOf(d: LastSeen): seq<Key> { seq(|d|, i requires 0 <= i < |d| => d[i].key) }

  /** The keys `_enforce_cache_limit_locked` pops, oldest first. */
  function OldestKeys(d: LastSeen, maxSize: nat): seq<Key> {
    if |d| <= maxSize then []
    else
      SortIsPermutation(OlderFirst, d);
      KeysOf(Sort(OlderFirst, d)[..|d| - maxSize])
  }

  function KeySet(keys: seq<Key>): set<Key> { set k | k in keys }

  function RemoveAll(d: LastSeen, keys: seq<Key>): LastSeen {
    if keys == [] then d else Remove(RemoveAll(d, keys[..|keys| - 1]), keys[|keys| - 1])
  }

  /** One more turn of the eviction loop. */
  lemma PopOneMore<V>(m: map<Key, V>, keys: seq<Key>, i: nat)
    requires i < |keys|
    ensures keys[..i + 1][..i] == keys[..i]
    ensures m - KeySet(keys[..i + 1]) == m - KeySet(keys[..i]) - {keys[i]}
  {
  }

  /** `_last_seen_at` after a call that saw `e`. */
  function Touch(d: LastSeen, e: Event, maxSize: nat): LastSeen {
    var d1 := Put(d, e.key, e.at);
    RemoveAll(d1, OldestKeys(d1, maxSize))
  }

  /** The keys that call evicted. */
  function Evicted(d: LastSeen, e: Event, maxSize: nat): seq<Key> {
    OldestKeys(Put(d, e.key, e.at), maxSize)
  }

  ghost predicate WithinLimit(d: LastSeen, maxSize: nat) {
    Distinct(d) && |d| <= maxSize
  }

  /** v is the entry the eviction picks: minimal in time, and the earliest
      inserted among the entries sharing that time. */
  ghost predicate IsOldest(d: LastSeen, v: Key) {
    exists i: nat :: IsFirstMinimum(OlderFirst, d, i) && d[i].key == v
  }

  lemma OverflowByOne(d: LastSeen, maxSize: nat) returns (v: Key)
    requires Distinct(d) && |d| == maxSize + 1
    ensures OldestKeys(d, maxSize) == [v]
    ensures IsOldest(d, v) && Has(d, v)
  {
    SortIsPermutation(OlderFirst, d);
    var i := SortHeadIsFirstMinimum(OlderFirst, d);
    v := d[i].key;
    assert Sort(OlderFirst, d)[..1] == [d[i]];
  }

  /** Cache invariant of one call: the limit holds again, at most one key goes,
      it has the minimal last-seen time, and everything else is kept. */
  lemma TouchKeepsLimit(d: LastSeen, e: Event, maxSize: nat)
    requires WithinLimit(d, maxSize) && maxSize >= 1
    ensures WithinLimit(Touch(d, e, maxSize), maxSize)
    ensures |Evicted(d, e, maxSize)| <= 1
    ensures Evicted(d, e, maxSize) != [] <==> !Has(d, e.key) && |d| == maxSize
    ensures Evicted(d, e, maxSize) != [] ==>
      IsOldest(d + [Entry(e.key, e.at)], Evicted(d, e, maxSize)[0])
    ensures ToMap(Touch(d, e, maxSize))
      == ToMap(d)[e.key := e.at] - KeySet(Evicted(d, e, maxSize))
  {
    var d1 := Put(d, e.key, e.at);
    PutShape(d, e.key, e.at);
    PutDistinct(d, e.key, e.at);
    PutMap(d, e.key, e.at);
    if |d1| > maxSize {
      var v := OverflowByOne(d1, maxSize);
      assert [v][..0] == [];
      assert RemoveAll(d1, [v]) == Remove(RemoveAll(d1, []), v);
      RemoveDistinct(d1, v);
      RemoveMap(d1, v);
      assert KeySet([v]) == {v};
    }
  }

  /** The key just seen is the one evicted exactly when the cache was full, the
      key is new, and its clock value is strictly below every cached one. With a
      monotonic clock, ties included, that never happens. */
  lemma NewestIsEvictedIff(d: LastSeen, e: Event, maxSize: nat)
    requires WithinLimit(d, maxSize) && maxSize >= 1
    ensures e.key in Evicted(d, e, maxSize) <==>
      !Has(d, e.key) && |d| == maxSize && forall i :: 0 <= i < |d| ==> e.at < d[i].value
  {
    TouchKeepsLimit(d, e, maxSize);
    if !Has(d, e.key) && |d| == maxSize {
      var d1 := d + [Entry(e.key, e.at)];
      PutShape(d, e.key, e.at);
      PutDistinct(d, e.key, e.at);
      var v := OverflowByOne(d1, maxSize);
      var i: nat :| IsFirstMinimum(OlderFirst, d1, i) && d1[i].key == v;
      forall j | 0 <= j < |d| ensures d1[j] == d[j] {}
      if v == e.key {
        assert i == |d|;
        forall j | 0 <= j < |d| ensures e.at < d[j].value { assert !OlderFirst(d1[j], d1[i]); }
      } else {
        assert i < |d| && OlderFirst(d1[i], d1[|d|]);
      }
    }
  }

  /** The last-seen index after a whole run. */
  function SeenAfter(evs: seq<Event>, maxSize: nat): LastSeen {
    if evs == [] then []
    else Touch(SeenAfter(evs[..|evs| - 1], maxSize), evs[|evs| - 1], maxSize)
  }

  /** The cache never exceeds its limit, on any run. */
  lemma {:induction false} RunKeepsLimit(evs: seq<Event>, maxSize: nat)
    requires maxSize >= 1
    ensures WithinLimit(SeenAfter(evs, maxSize), maxSize)
  {
    if evs != [] {
      RunKeepsLimit(evs[..|evs| - 1], maxSize);
      TouchKeepsLimit(SeenAfter(evs[..|evs| - 1], maxSize), evs[|evs| - 1], maxSize);
    }
  }

  /** evs[i] is the latest event of k, and its clock value is at. */
  ghost predicate IsLatest(evs: seq<Event>, k: Key, i: nat, at: real) {
    i < |evs| && evs[i] == Event(k, at) && forall j :: i < j < |evs| ==> evs[j].key != k
  }

  /** A cached time is the clock value of the latest event of its key. */
  lemma {:induction false} CachedTimesAreLatest(evs: seq<Event>, maxSize: nat, k: Key) returns (i: nat)
    requires maxSize >= 1
    requires k in ToMap(SeenAfter(evs, maxSize))
    ensures IsLatest(evs, k, i, ToMap(SeenAfter(evs, maxSize))[k])
  {
    if evs == [] {
      assert false;
    } else {
      var before, e := evs[..|evs| - 1], evs[|evs| - 1];
      RunKeepsLimit(before, maxSize);
      TouchKeepsLimit(SeenAfter(before, maxSize), e, maxSize);
      if e.key == k {
        i := |evs| - 1;
      } else {
        i := CachedTimesAreLatest(before, maxSize, k);
        assert evs[i] == before[i];
        assert forall j :: i < j < |before| ==> evs[j] == before[j];
      }
    }
  }

  /** On a run with a monotonic clock no call evicts the key it has just seen,
      so that key is in the index afterwards, at the time of the call. */
  lemma RunNeverEvictsNewest(evs: seq<Event>, e: Event, maxSize: nat)
    requires maxSize >= 1 && NonDecreasing(evs + [e])
    ensures e.key !in Evicted(SeenAfter(evs, maxSize), e, maxSize)
    ensures Has(SeenAfter(evs + [e], maxSize), e.key)
    ensures (e.key, e.at) in ToMap(SeenAfter(evs + [e], maxSize)).Items
  {
    var d := SeenAfter(evs, maxSize);
    RunKeepsLimit(evs, maxSize);
    NewestIsEvictedIff(d, e, maxSize);
    if d != [] {
      ToMapAt(d, 0);
      var i := CachedTimesAreLatest(evs, maxSize, d[0].key);
      assert (evs + [e])[i] == evs[i] && (evs + [e])[|evs|] == e;
      assert d[0].value <= e.at;
    }
    TouchKeepsLimit(d, e, maxSize);
    assert (evs + [e])[..|evs|] == evs;
    ToMapKeys(SeenAfter(evs + [e], maxSize), e.key);
  }

  /** A run of one key. */
  ghost predicate Solo(evs: seq<Event>, k: Key) { forall i :: 0 <= i < |evs| ==> evs[i].key == k }

  lemma {:induction false} SoloRun(evs: seq<Event>, k: Key, maxSize: nat)
    requires maxSize >= 1 && Solo(evs, k)
    ensures SeenAfter(evs, maxSize) == if evs == [] then [] else [Entry(k, evs[|evs| - 1].at)]
  {
    if evs != [] {
      SoloRun(evs[..|evs| - 1], k, maxSize);
      SoloEvictsNothing(SeenAfter(evs[..|evs| - 1], maxSize), evs[|evs| - 1], maxSize);
    }
  }

  lemma SoloEvictsNothing(d: LastSeen, e: Event, maxSize: nat)
    requires maxSize >= 1 && (d == [] || (|d| == 1 && d[0].key == e.key))
    ensures Evicted(d, e, maxSize) == [] && Touch(d, e, maxSize) == [Entry(e.key, e.at)]
  {
  }

  // ---------------------------------------------------------------------
  // What the bounded index still knows
  // ---------------------------------------------------------------------

  /** The call that saw evs[j] evicted k. */
  ghost predicate EvictsAt(evs: seq<Event>, k: Key, j: nat, maxSize: nat)
    requires j < |evs|
  { k in Evicted(SeenAfter(evs[..j], maxSize), evs[j], maxSize) }

  /** From evs[i] on no call evicted k. */
  ghost predicate KeptSince(evs: seq<Event>, k: Key, i: nat, maxSize: nat) {
    forall j :: i <= j < |evs| ==> !EvictsAt(evs, k, j, maxSize)
  }

  /** A key is cached exactly when no call has evicted it since its latest event. */
  lemma {:induction false} CachedIff(evs: seq<Event>, maxSize: nat, k: Key)
    requires maxSize >= 1
    ensures k in ToMap(SeenAfter(evs, maxSize)) <==> exists i: nat :: KeptFrom(evs, k, i, maxSize)
  {
    if evs != [] {
      var before, e := evs[..|evs| - 1], evs[|evs| - 1];
      assert evs == before + [e];
      CachedIff(before, maxSize, k);
      CachedStep(before, e, maxSize, k);
      if EvictsAt(evs, k, |before|, maxSize) {
        assert forall i: nat :: !KeptFrom(evs, k, i, maxSize);
      } else if e.key == k {
        assert KeptFrom(evs, k, |before|, maxSize);
      } else {
        forall i: nat ensures KeptFrom(before, k, i, maxSize) <==> KeptFrom(evs, k, i, maxSize) {
          LatestOfPrefix(before, e, k, i);
          KeptOfPrefix(before, e, k, i, maxSize);
        }
      }
    }
  }

  /** evs[i] is the latest event of k, and no call has evicted k since. */
  ghost predicate KeptFrom(evs: seq<Event>, k: Key, i: nat, maxSize: nat) {
    i < |evs| && IsLatest(evs, k, i, evs[i].at) && KeptSince(evs, k, i, maxSize)
  }

  lemma CachedStep(before: seq<Event>, e: Event, maxSize: nat, k: Key)
    requires maxSize >= 1
    ensures k in ToMap(SeenAfter(before + [e], maxSize))
      <==> !EvictsAt(before + [e], k, |before|, maxSize) && (e.key == k || k in ToMap(SeenAfter(before, maxSize)))
  {
    assert (before + [e])[..|before|] == before;
    RunKeepsLimit(before, maxSize);
    TouchKeepsLimit(SeenAfter(before, maxSize), e, maxSize);
  }

  lemma LatestOfPrefix(before: seq<Event>, e: Event, k: Key, i: nat)
    requires e.key != k
    ensures i < |before| ==> (IsLatest(before, k, i, before[i].at) <==> IsLatest(before + [e], k, i, before[i].at))
    ensures !IsLatest(before + [e], k, |before|, e.at)
  {
    forall j | 0 <= j < |before| ensures (before + [e])[j] == before[j] {}
  }

  lemma KeptOfPrefix(before: seq<Event>, e: Event, k: Key, i: nat, maxSize: nat)
    requires !EvictsAt(before + [e], k, |before|, maxSize)
    ensures KeptSince(before, k, i, maxSize) <==> KeptSince(before + [e], k, i, maxSize)
  {
    forall j | 0 <= j < |before| ensures EvictsAt(before, k, j, maxSize) <==> EvictsAt(before + [e], k, j, maxSize) {
      EvictsAtPrefix(before, e, k, j, maxSize);
    }
  }

  lemma EvictsAtPrefix(before: seq<Event>, e: Event, k: Key, j: nat, maxSize: nat)
    requires j < |before|
    ensures EvictsAt(before, k, j, maxSize) <==> EvictsAt(before + [e], k, j, maxSize)
  {
    assert (before + [e])[..j] == before[..j];
  }
}
