/** A Python dict as the program uses it: keys are unique, an assignment to a
    present key keeps its position, and a new key goes last. */
module PyDict {

  datatype Entry<K, V> = Entry(key: K, value: V)

  ghost predicate Distinct<K, V>(d: seq<Entry<K, V>>) {
    forall i, j :: 0 <= i < j < |d| ==> d[i].key != d[j].key
  }

  ghost predicate Has<K, V>(d: seq<Entry<K, V>>, k: K) {
    exists i :: 0 <= i < |d| && d[i].key == k
  }

  /** `d[k] = v` */
  function Put<K(==), V>(d: seq<Entry<K, V>>, k: K, v: V): seq<Entry<K, V>> {
    if d == [] then [Entry(k, v)]
    else if d[0].key == k then [Entry(k, v)] + d[1..]
    else [d[0]] + Put(d[1..], k, v)
  }

  /** `d.pop(k, None)` */
  function Remove<K(==), V>(d: seq<Entry<K, V>>, k: K): seq<Entry<K, V>> {
    if d == [] then []
    else if d[0].key == k then d[1..]
    else [d[0]] + Remove(d[1..], k)
  }

  /** The dict without its order. */
  function ToMap<K, V>(d: seq<Entry<K, V>>): map<K, V> {
    if d == [] then map[] else ToMap(d[1..])[d[0].key := d[0].value]
  }

  lemma {:induction false} ToMapKeys<K, V>(d: seq<Entry<K, V>>, k: K)
    ensures k in ToMap(d) <==> Has(d, k)
  {
    if d != [] {
      ToMapKeys(d[1..], k);
      if Has(d, k) && d[0].key != k {
        var i :| 0 <= i < |d| && d[i].key == k;
        assert d[1..][i - 1].key == k;
      }
      if Has(d[1..], k) {
        var i :| 0 <= i < |d[1..]| && d[1..][i].key == k;
        assert d[i + 1].key == k;
      }
    }
  }

  lemma {:induction false} ToMapAt<K, V>(d: seq<Entry<K, V>>, i: nat)
    requires Distinct(d) && i < |d|
    ensures d[i].key in ToMap(d) && ToMap(d)[d[i].key] == d[i].value
  {
    if i > 0 {
      ToMapAt(d[1..], i - 1);
      assert d[1..][i - 1] == d[i];
    }
  }

  lemma HasTail<K, V>(d: seq<Entry<K, V>>, k: K)
    requires d != [] && d[0].key != k
    ensures Has(d, k) <==> Has(d[1..], k)
  {
  }

  /** Put updates in place or appends, and touches no other entry. */
  lemma {:induction false} PutShape<K, V>(d: seq<Entry<K, V>>, k: K, v: V)
    ensures var p := Put(d, k, v);
      if Has(d, k) then
        |p| == |d| && forall i :: 0 <= i < |d| ==> p[i].key == d[i].key
      else
        p == d + [Entry(k, v)]
  {
    if d != [] && d[0].key != k {
      var p := Put(d, k, v);
      PutShape(d[1..], k, v);
      HasTail(d, k);
      if Has(d, k) {
        forall i | 0 <= i < |d| ensures p[i].key == d[i].key {
          if i > 0 { assert p[i] == Put(d[1..], k, v)[i - 1] && d[i] == d[1..][i - 1]; }
        }
      }
    }
  }

  lemma {:induction false} PutEntry<K, V>(d: seq<Entry<K, V>>, k: K, v: V, e: Entry<K, V>)
    requires Distinct(d)
    ensures e in Put(d, k, v) <==> e == Entry(k, v) || (e in d && e.key != k)
  {
    if d != [] {
      assert d == [d[0]] + d[1..];
      if d[0].key == k {
        assert forall x :: x in d[1..] ==> x.key != k;
      } else {
        PutEntry(d[1..], k, v, e);
      }
    }
  }

  lemma PutDistinct<K, V>(d: seq<Entry<K, V>>, k: K, v: V)
    requires Distinct(d)
    ensures Distinct(Put(d, k, v))
  {
    PutShape(d, k, v);
  }

  lemma {:induction false} PutMap<K, V>(d: seq<Entry<K, V>>, k: K, v: V)
    ensures ToMap(Put(d, k, v)) == ToMap(d)[k := v]
  {
    if d != [] {
      var p := Put(d, k, v);
      if d[0].key == k {
        assert p[1..] == d[1..];
      } else {
        PutMap(d[1..], k, v);
        assert p[1..] == Put(d[1..], k, v);
      }
    }
  }

  lemma {:induction false} RemoveEntry<K, V>(d: seq<Entry<K, V>>, k: K, e: Entry<K, V>)
    requires Distinct(d)
    ensures e in Remove(d, k) <==> e in d && e.key != k
  {
    if d != [] {
      assert d == [d[0]] + d[1..];
      if d[0].key != k {
        RemoveEntry(d[1..], k, e);
      }
    }
  }

  lemma {:induction false} RemoveDistinct<K, V>(d: seq<Entry<K, V>>, k: K)
    requires Distinct(d)
    ensures Distinct(Remove(d, k))
    ensures |Remove(d, k)| == if Has(d, k) then |d| - 1 else |d|
  {
    if d != [] && d[0].key != k {
      RemoveDistinct(d[1..], k);
      HasTail(d, k);
      var r := Remove(d[1..], k);
      forall j | 0 <= j < |r| ensures d[0].key != r[j].key {
        RemoveEntry(d[1..], k, r[j]);
        assert r[j] in d[1..];
      }
    }
  }

  lemma {:induction false} RemoveMap<K, V>(d: seq<Entry<K, V>>, k: K)
    requires Distinct(d)
    ensures ToMap(Remove(d, k)) == ToMap(d) - {k}
  {
    if d != [] {
      if d[0].key == k {
        ToMapKeys(d[1..], k);
        assert !Has(d[1..], k);
      } else {
        RemoveMap(d[1..], k);
        assert Remove(d, k)[1..] == Remove(d[1..], k);
      }
    }
  }
}
